/**
 Round-robin choice of the next operand collector to dispatch, with and without
 the sub-core rule that starts each scan at another scheduler's collectors.
 */
module Dispatch {
  import opened Arith
  import opened Wrappers

  // n collectors shared by `scheds` schedulers
  datatype Unit = Unit(n: nat, scheds: nat, subCore: bool)

  // when find_ready divides by zero: there are no schedulers, or under the
  // sub-core rule fewer collectors than schedulers
  predicate Traps(u: Unit) {
    u.scheds == 0 || (u.subCore && u.n < u.scheds)
  }

  // a collector of the unit; with none, the initial 0
  predicate Stands(u: Unit, last: nat) {
    last < u.n || u.n == 0
  }

  // collectors to a scheduler
  function PerSched(u: Unit): (p: nat)
    requires !Traps(u) && u.subCore
    ensures p > 0 && p == u.n / u.scheds
  {
    OneMoreFits(0, u.scheds, u.n);
    u.n / u.scheds
  }

  // how far past the last choice the scan starts
  function Stride(u: Unit, last: nat): (s: nat)
    requires !Traps(u)
    ensures s > 0
  {
    if u.subCore then PerSched(u) - last % PerSched(u) else 1
  }

  /** What find_ready chooses, its scan having passed over the first k places. */
  function Choice(u: Unit, ready: seq<bool>, last: nat, k: nat): (c: Option<nat>)
    requires !Traps(u) && |ready| == u.n && k <= u.n
    ensures c.Some? ==> c.value < u.n && ready[c.value]
    decreases u.n - k
  {
    if k == u.n then None
    else
      var c := (last + k + Stride(u, last)) % u.n;
      if ready[c] then Some(c) else Choice(u, ready, last, k + 1)
  }

  datatype Outcome = Picked(cu: nat) | NoneReady | DividesByZero

  /** What find_ready comes to, for any unit. */
  function Find(u: Unit, ready: seq<bool>, last: nat): (r: Outcome)
    requires |ready| == u.n
    ensures r.Picked? ==> r.cu < u.n && ready[r.cu]
  {
    if Traps(u) then DividesByZero
    else match Choice(u, ready, last, 0)
         case Some(c) => Picked(c)
         case None => NoneReady
  }

  // c is the k-th place of a scan from `base`
  predicate At(n: nat, base: nat, c: nat, k: nat)
    requires n > 0
  {
    (base + k) % n == c
  }

  // how far c lies behind base, going round
  function Distance(n: nat, base: nat, c: nat): (d: nat)
    requires n > 0 && c < n
    ensures d < n && At(n, base, c, d)
  {
    var b := base % n;
    var d := if b <= c then c - b else c + n - b;
    Wraps(n, base, d);
    d
  }

  lemma {:induction false} Wraps(n: nat, base: nat, d: nat)
    requires n > 0 && d < n
    ensures (base + d) % n == if base % n + d < n then base % n + d else base % n + d - n
  {
    var q, b := base / n, base % n;
    assert base == q * n + b;
    if b + d < n {
      DivMod(q, b + d, n);
    } else {
      assert (q + 1) * n == q * n + n;
      DivMod(q + 1, b + d - n, n);
    }
  }

  lemma {:induction false} DistanceIsUnique(n: nat, base: nat, d: nat, e: nat)
    requires n > 0 && d < n && e < n && (base + d) % n == (base + e) % n
    ensures d == e
  {
    Wraps(n, base, d);
    Wraps(n, base, e);
  }

  /** The choice is the first ready collector of the scan. */
  lemma {:induction false} ChoiceIsFirst(u: Unit, ready: seq<bool>, last: nat, k: nat, d: nat)
    requires !Traps(u) && |ready| == u.n && k <= d < u.n
    requires ready[(last + d + Stride(u, last)) % u.n]
    ensures Choice(u, ready, last, k).Some?
    ensures Distance(u.n, last + Stride(u, last), Choice(u, ready, last, k).value) <= d
    decreases d - k
  {
    var base := last + Stride(u, last);
    var c := (last + k + Stride(u, last)) % u.n;
    assert last + k + Stride(u, last) == base + k;
    if ready[c] {
      DistanceIsUnique(u.n, base, k, Distance(u.n, base, c));
    } else {
      assert k < d;
      ChoiceIsFirst(u, ready, last, k + 1, d);
    }
  }

  // with p collectors to a scheduler, the next scheduler's first collector
  lemma {:induction false} NextShare(last: nat, p: nat)
    requires p > 0
    ensures last + (p - last % p) == (last / p + 1) * p
  {
    var q := last / p;
    assert last == q * p + last % p;
    assert (q + 1) * p == q * p + p;
  }

  /** Going round from the collector behind the last choice, or under the sub-core
      rule from the next scheduler's first one, the choice is the first that is
      ready. */
  lemma {:induction false} PickIsFirst(u: Unit, ready: seq<bool>, last: nat)
    requires |ready| == u.n && Find(u, ready, last).Picked?
    ensures u.scheds > 0 && (u.subCore ==> u.n / u.scheds > 0)
    ensures var c := Find(u, ready, last).cu;
            var base := if u.subCore then (last / (u.n / u.scheds) + 1) * (u.n / u.scheds) else last + 1;
            && c < u.n && ready[c] && (base + Distance(u.n, base, c)) % u.n == c
            && forall x: nat :: x < u.n && Distance(u.n, base, x) < Distance(u.n, base, c) ==> !ready[x]
  {
    var c := Find(u, ready, last).cu;
    var base := last + Stride(u, last);
    if u.subCore {
      NextShare(last, PerSched(u));
    }
    forall x: nat | x < u.n && Distance(u.n, base, x) < Distance(u.n, base, c)
      ensures !ready[x]
    {
      if ready[x] {
        var d := Distance(u.n, base, x);
        assert last + d + Stride(u, last) == base + d;
        ChoiceIsFirst(u, ready, last, 0, d);
      }
    }
  }

  /** In both modes nothing is chosen if and only if no collector is ready. */
  lemma {:induction false} NoneIffNoneReady(u: Unit, ready: seq<bool>, last: nat)
    requires |ready| == u.n
    ensures Find(u, ready, last) == NoneReady <==> !Traps(u) && forall c: nat :: c < u.n ==> !ready[c]
  {
    if !Traps(u) {
      forall c: nat | c < u.n && ready[c]
        ensures Choice(u, ready, last, 0).Some?
      {
        var d := Distance(u.n, last + Stride(u, last), c);
        assert last + d + Stride(u, last) == last + Stride(u, last) + d;
        ChoiceIsFirst(u, ready, last, 0, d);
      }
    }
  }

  // ----- many calls -----

  // the last choice after one call
  function After(u: Unit, ready: seq<bool>, last: nat): (r: nat)
    requires |ready| == u.n && Stands(u, last)
    ensures Stands(u, r)
  {
    match Find(u, ready, last)
    case Picked(c) => c
    case NoneReady => last
    case DividesByZero => last
  }

  predicate Inputs(u: Unit, runs: seq<seq<bool>>) {
    forall i :: 0 <= i < |runs| ==> |runs[i]| == u.n
  }

  // is c chosen in one of these calls
  predicate Chosen(u: Unit, runs: seq<seq<bool>>, last: nat, c: nat)
    requires Inputs(u, runs) && Stands(u, last)
  {
    |runs| > 0 && (Find(u, runs[0], last) == Picked(c) || Chosen(u, runs[1..], After(u, runs[0], last), c))
  }

  // c is ready in every call
  predicate StaysReady(runs: seq<seq<bool>>, c: nat) {
    forall i :: 0 <= i < |runs| ==> c < |runs[i]| && runs[i][c]
  }

  // the scan visits single steps
  predicate StepsByOne(u: Unit)
    requires !Traps(u)
  {
    !u.subCore || PerSched(u) == 1
  }

  /** Another choice brings the scan strictly closer to a ready collector. */
  lemma {:induction false} GetsCloser(u: Unit, ready: seq<bool>, last: nat, c: nat)
    requires !Traps(u) && StepsByOne(u) && |ready| == u.n && last < u.n && c < u.n && ready[c]
    ensures Find(u, ready, last) == Picked(c)
            || Distance(u.n, After(u, ready, last) + 1, c) < Distance(u.n, last + 1, c)
  {
    var n, d := u.n, Distance(u.n, last + 1, c);
    assert Stride(u, last) == 1;
    assert last + d + Stride(u, last) == last + 1 + d;
    ChoiceIsFirst(u, ready, last, 0, d);
    var a := After(u, ready, last);
    if a != c {
      Between(n, last + 1, a, c);
    }
  }

  // a lies before c when going round from base
  lemma {:induction false} Between(n: nat, base: nat, a: nat, c: nat)
    requires n > 0 && a < n && c < n && a != c
    requires Distance(n, base, a) <= Distance(n, base, c)
    ensures Distance(n, a + 1, c) < Distance(n, base, c)
  {
    PlaceAfter(n, a);
    Gap(n, base, a);
    Gap(n, base, c);
    Gap(n, a + 1, c);
  }

  lemma {:induction false} PlaceAfter(n: nat, a: nat)
    requires a < n
    ensures (a + 1) % n == if a + 1 == n then 0 else a + 1
  {
    if a + 1 < n {
      DivMod(0, a + 1, n);
    } else {
      DivMod(1, 0, n);
    }
  }

  lemma {:induction false} Gap(n: nat, base: nat, c: nat)
    requires n > 0 && c < n
    ensures base % n < n
    ensures Distance(n, base, c) == if base % n <= c then c - base % n else c + n - base % n
  {
  }

  /** When the scan steps by one, a collector that stays ready is chosen within n
      calls. */
  lemma {:induction false} ServedWithinN(u: Unit, runs: seq<seq<bool>>, last: nat, c: nat)
    requires !Traps(u) && StepsByOne(u) && Inputs(u, runs) && last < u.n && c < u.n
    requires StaysReady(runs, c) && |runs| > Distance(u.n, last + 1, c)
    ensures Chosen(u, runs, last, c)
    decreases Distance(u.n, last + 1, c)
  {
    GetsCloser(u, runs[0], last, c);
    if Find(u, runs[0], last) != Picked(c) {
      assert Inputs(u, runs[1..]) && StaysReady(runs[1..], c);
      ServedWithinN(u, runs[1..], After(u, runs[0], last), c);
    }
  }

  // all collectors are ready in every call
  predicate AllReady(runs: seq<seq<bool>>) {
    forall i: nat, d: nat :: i < |runs| && d < |runs[i]| ==> runs[i][d]
  }

  // Where the scan can stand under the sub-core rule when all are always ready:
  // at a scheduler's first collector, or, when the schedulers' shares leave a
  // remainder, at the one place the wrap-around lands on.
  predicate OnTheRound(u: Unit, last: nat)
    requires !Traps(u) && u.subCore
  {
    var p := PerSched(u);
    last % p == 0 || (u.n % p != 0 && last == p - u.n % p)
  }

  // the collector that is passed over
  function Neglected(u: Unit): nat
    requires !Traps(u) && u.subCore
  {
    if u.n % PerSched(u) == 0 then 1 else 0
  }

  // the next choice is simply the start of the scan
  lemma {:induction false} JumpsAhead(u: Unit, ready: seq<bool>, last: nat)
    requires !Traps(u) && u.subCore && |ready| == u.n && (forall c: nat :: c < u.n ==> ready[c])
    requires last < u.n
    ensures var next := last + Stride(u, last);
            Find(u, ready, last) == Picked(if next < u.n then next else next - u.n)
  {
    var next := last + Stride(u, last);
    if next < u.n {
      DivMod(0, next, u.n);
    } else {
      ShareFits(u);
      DivMod(1, next - u.n, u.n);
    }
  }

  // a scheduler has no more collectors than there are
  lemma {:induction false} ShareFits(u: Unit)
    requires !Traps(u) && u.subCore
    ensures PerSched(u) <= u.n
  {
    ShareAtMost(u.n, u.scheds);
  }

  lemma {:induction false} ShareAtMost(n: nat, scheds: nat)
    requires scheds > 0
    ensures n / scheds <= n
  {
    var p := n / scheds;
    assert n == p * scheds + n % scheds;
    ProductMonotone(0, scheds, p);
    assert scheds * p == p * scheds;
  }

  // the largest multiple of p that is below n
  lemma {:induction false} LastMultiple(n: nat, p: nat, last: nat)
    requires p > 0 && last < n <= last + p && last % p == 0
    ensures last + p - n == if n % p == 0 then 0 else p - n % p
  {
    var q := last / p;
    assert last == q * p;
    if n == last + p {
      assert n == (q + 1) * p + 0;
      DivMod(q + 1, 0, p);
    } else {
      assert n == q * p + (n - last);
      DivMod(q, n - last, p);
    }
  }

  /** When all are ready the scan stays on its round, and never chooses the
      neglected collector. */
  lemma {:induction false} StaysOnTheRound(u: Unit, ready: seq<bool>, last: nat)
    requires !Traps(u) && u.subCore && PerSched(u) > 1
    requires |ready| == u.n && (forall c: nat :: c < u.n ==> ready[c])
    requires last < u.n && OnTheRound(u, last)
    ensures Find(u, ready, last).Picked? && Find(u, ready, last).cu != Neglected(u)
    ensures OnTheRound(u, Find(u, ready, last).cu)
  {
    JumpsAhead(u, ready, last);
    ShareFits(u);
    if last % PerSched(u) == 0 {
      FromFirst(u.n, PerSched(u), last);
    } else {
      FromWrap(u.n, PerSched(u), last);
    }
  }

  // a step of p from a multiple of p, going round
  lemma {:induction false} FromFirst(n: nat, p: nat, last: nat)
    requires 1 < p <= n && last < n && last % p == 0
    ensures var c := if last + p < n then last + p else last + p - n;
            && (c % p == 0 || (n % p != 0 && c == p - n % p))
            && c != if n % p == 0 then 1 else 0
  {
    if last + p < n {
      NextMultiple(p, last);
    } else {
      LastMultiple(n, p, last);
      DivMod(0, 0, p);
    }
  }

  lemma {:induction false} NextMultiple(p: nat, last: nat)
    requires p > 0 && last % p == 0
    ensures (last + p) % p == 0
  {
    var q := last / p;
    assert last == q * p;
    assert last + p == (q + 1) * p + 0;
    DivMod(q + 1, 0, p);
  }

  // from where the wrap-around landed the step ends at p
  lemma {:induction false} FromWrap(n: nat, p: nat, last: nat)
    requires 1 < p <= n && n % p != 0 && last == p - n % p
    ensures last + (p - last % p) == p < n && p % p == 0
  {
    DivMod(0, last, p);
    DivMod(1, 0, p);
  }

  /** Under the sub-core rule with several collectors to a scheduler, one
      collector can stay ready for ever and never be chosen, as long as all others
      are ready too. */
  lemma {:induction false} NeverServed(u: Unit, runs: seq<seq<bool>>, last: nat)
    requires !Traps(u) && u.subCore && PerSched(u) > 1 && Inputs(u, runs) && AllReady(runs)
    requires last < u.n && OnTheRound(u, last)
    ensures !Chosen(u, runs, last, Neglected(u))
    decreases |runs|
  {
    if |runs| > 0 {
      StaysOnTheRound(u, runs[0], last);
      assert Inputs(u, runs[1..]) && AllReady(runs[1..]);
      NeverServed(u, runs[1..], After(u, runs[0], last));
    }
  }

  // a unit that traps chooses nothing
  lemma {:induction false} TrapsServeNone(u: Unit, runs: seq<seq<bool>>, last: nat, c: nat)
    requires Traps(u) && Inputs(u, runs) && Stands(u, last)
    ensures !Chosen(u, runs, last, c)
    decreases |runs|
  {
    if |runs| > 0 {
      TrapsServeNone(u, runs[1..], After(u, runs[0], last), c);
    }
  }

  // from the start, every collector that stays ready is chosen within n calls
  ghost predicate Fair(u: Unit) {
    forall runs: seq<seq<bool>>, c: nat ::
      Inputs(u, runs) && |runs| == u.n && c < u.n && StaysReady(runs, c) ==> Chosen(u, runs, 0, c)
  }

  /** Every collector that stays ready is served within n calls if and only if
      the unit does not trap and its scan steps by one: without the sub-core rule,
      or with one collector to each scheduler. */
  lemma {:induction false} FairIffStepsByOne(u: Unit)
    requires u.n > 0
    ensures Fair(u) <==> !Traps(u) && StepsByOne(u)
    ensures !Traps(u) && StepsByOne(u) <==>
            u.scheds > 0 && (u.subCore ==> u.n >= u.scheds && u.n / u.scheds == 1)
  {
    if !Traps(u) && StepsByOne(u) {
      forall runs: seq<seq<bool>>, c: nat | Inputs(u, runs) && |runs| == u.n && c < u.n && StaysReady(runs, c)
        ensures Chosen(u, runs, 0, c)
      {
        ServedWithinN(u, runs, 0, c);
      }
    } else {
      var runs := seq(u.n, _ => seq(u.n, _ => true));
      var c := 0;
      if Traps(u) {
        TrapsServeNone(u, runs, 0, c);
      } else {
        c := Neglected(u);
        ShareFits(u);
        DivMod(0, 0, PerSched(u));
        NeverServed(u, runs, 0);
      }
      assert Inputs(u, runs) && StaysReady(runs, c) && !Chosen(u, runs, 0, c);
    }
  }

  /** Five collectors under two schedulers: the collectors are not split evenly,
      and collector 0 is the neglected one. */
  lemma {:induction false} UnevenShares(runs: seq<seq<bool>>)
    requires Inputs(Unit(5, 2, true), runs) && AllReady(runs)
    ensures !Traps(Unit(5, 2, true)) && !Chosen(Unit(5, 2, true), runs, 0, 0)
  {
    NeverServed(Unit(5, 2, true), runs, 0);
  }

  lemma {:induction false} ShareIsPositive(n: nat, scheds: nat)
    requires scheds > 0
    ensures n / scheds == 0 <==> n < scheds
  {
    OneMoreFits(0, scheds, n);
  }

  class DispatchUnit {
    const numCollectors: nat
    const numWarpScheds: nat
    const subCoreModel: bool
    var lastCu: nat

    function Shape(): Unit {
      Unit(numCollectors, numWarpScheds, subCoreModel)
    }

    predicate Valid()
      reads this
    {
      Stands(Shape(), lastCu)
    }

    constructor (n: nat, scheds: nat, subCore: bool)
      ensures Valid() && Shape() == Unit(n, scheds, subCore) && lastCu == 0
    {
      numCollectors, numWarpScheds, subCoreModel := n, scheds, subCore;
      lastCu := 0;
    }

    /** find_ready, with its divisions */
    method FindReady(ready: seq<bool>) returns (r: Outcome)
      requires Valid() && |ready| == numCollectors
      modifies this
      ensures Valid() && r == Find(Shape(), ready, old(lastCu))
      ensures r == DividesByZero <==> numWarpScheds == 0 || (subCoreModel && numCollectors < numWarpScheds)
      ensures r == NoneReady <==> !Traps(Shape()) && forall c: nat :: c < numCollectors ==> !ready[c]
      ensures lastCu == After(Shape(), ready, old(lastCu)) == if r.Picked? then r.cu else old(lastCu)
      ensures r.Picked? ==>
                && numWarpScheds > 0 && (subCoreModel ==> numCollectors / numWarpScheds > 0)
                && var p := numCollectors / numWarpScheds;
                && var base := if subCoreModel then (old(lastCu) / p + 1) * p else old(lastCu) + 1;
                && r.cu < numCollectors && ready[r.cu]
                && (base + Distance(numCollectors, base, r.cu)) % numCollectors == r.cu
                && forall c: nat ::
                     c < numCollectors && Distance(numCollectors, base, c) < Distance(numCollectors, base, r.cu) ==>
                       !ready[c]
    {
      if Find(Shape(), ready, lastCu).Picked? {
        PickIsFirst(Shape(), ready, lastCu);
      }
      NoneIffNoneReady(Shape(), ready, lastCu);
      if numWarpScheds == 0 {
        return DividesByZero;
      }
      var cusPerSched := numCollectors / numWarpScheds;
      ShareIsPositive(numCollectors, numWarpScheds);
      if subCoreModel && cusPerSched == 0 {
        return DividesByZero;
      }
      var increment := if subCoreModel then cusPerSched - lastCu % cusPerSched else 1;
      r := Scan(ready, increment);
    }

    // its loop
    method Scan(ready: seq<bool>, increment: nat) returns (r: Outcome)
      requires Valid() && !Traps(Shape()) && |ready| == numCollectors && increment == Stride(Shape(), lastCu)
      modifies this
      ensures Valid() && r == Find(Shape(), ready, old(lastCu)) && lastCu == After(Shape(), ready, old(lastCu))
    {
      for n := 0 to numCollectors
        invariant lastCu == old(lastCu)
        invariant Choice(Shape(), ready, lastCu, 0) == Choice(Shape(), ready, lastCu, n)
      {
        var c := (lastCu + n + increment) % numCollectors;
        if ready[c] {
          lastCu := c;
          return Picked(c);
        }
      }
      return NoneReady;
    }
  }
}
