/** The few facts about products and quotients that the models need. */
module Arith {

  lemma {:induction false} ProductMonotone(a: nat, b: nat, n: nat)
    requires a < b
    ensures a * n + n <= b * n
    decreases b
  {
    if a + 1 < b {
      ProductMonotone(a, b - 1, n);
    }
    assert (b - 1) * n + n == b * n;
  }

  lemma {:induction false} DivMod(q: nat, r: nat, n: nat)
    requires r < n
    ensures (q * n + r) / n == q && (q * n + r) % n == r
  {
    var a := q * n + r;
    assert a == a / n * n + a % n;
    if a / n < q {
      ProductMonotone(a / n, q, n);
    } else if q < a / n {
      ProductMonotone(q, a / n, n);
    }
  }

  /** How many pieces of size p fit into cap. */
  lemma {:induction false} OneMoreFits(m: nat, p: nat, cap: nat)
    requires p > 0
    ensures m * p + p <= cap <==> m < cap / p
  {
    var d := cap / p;
    assert cap == d * p + cap % p;
    if m < d {
      ProductMonotone(m, d, p);
    } else if d < m {
      ProductMonotone(d, m, p);
    }
  }

  // adding the remainder aligns a multiple of 4
  lemma {:induction false} AlignsUp(a: nat)
    requires a % 4 == 0
    ensures (a + a % 8) % 8 == 0
  {
    if a >= 8 {
      AlignsUp(a - 8);
    }
  }
}
