/**
 The set arithmetic inside the dominator passes: intersection and comparison of
 id sets, one row of the data-flow equations, and the in-place erasure that
 keeps only the nearest blocker.
 */
module Dominance {
  import opened FlowGraph

  // in-place intersection: walk A, erasing what B lacks
  method Intersect(A: set<nat>, B: set<nat>) returns (r: set<nat>)
    ensures r == A * B
  {
    r := A;
    var rest := A;
    while rest != {}
      invariant rest <= A
      invariant forall x :: x in r <==> x in A && (x in rest || x in B)
      decreases |rest|
    {
      var a :| a in rest;
      rest := rest - {a};
      if a !in B {
        r := r - {a};
      }
    }
  }

  // equal sizes, and everything in B is in A
  method IsEqual(A: set<nat>, B: set<nat>) returns (eq: bool)
    ensures eq <==> A == B
  {
    if |A| != |B| {
      return false;
    }
    var rest := B;
    while rest != {}
      invariant rest <= B && B - rest <= A
      decreases |rest|
    {
      var b :| b in rest;
      if b !in A {
        return false;
      }
      rest := rest - {b};
    }
    if A != B {
      ProperSubsetIsSmaller(B, A);
    }
    return true;
  }

  method InsertAllIds(S: set<nat>, n: nat) returns (r: set<nat>)
    ensures forall x: nat :: x in r <==> x in S || x < n
  {
    r := S;
    for i := 0 to n
      invariant forall x: nat :: x in r <==> x in S || x < i
    {
      r := r + {i};
    }
  }

  // T := all ids, intersected with every neighbour's set, plus h itself
  method Recompute(g: Graph, D: seq<set<nat>>, h: nat) returns (T: set<nat>)
    requires IsGraph(g) && |D| == |g| && h < |g|
    ensures T == Row(g, D, h)
  {
    T := InsertAllIds({}, |g|);
    var rest := g[h];
    while rest != {}
      invariant rest <= g[h]
      invariant forall x: nat :: x in T <==> x < |g| && forall s :: s in g[h] - rest ==> x in D[s]
      decreases |rest|
    {
      var s :| s in rest;
      T := Intersect(T, D[s]);
      rest := rest - {s};
    }
    assert forall x: nat :: x in T <==> x < |g| && InEveryNeighbour(g, D, h, x);
    T := T + {h};
  }

  /** The erasing double loop over one Tmp set, in ascending id order: every
      surviving s removes the other elements of its own set. */
  method EraseBlocked(D: seq<set<nat>>, S: set<nat>) returns (T: set<nat>)
    requires forall s :: s in S ==> s < |D|
    ensures Thinned(S, T, D)
  {
    T := S;
    for s := 0 to |D|
      invariant ThinnedUpTo(S, T, D, s)
    {
      ThinNext(S, T, D, s);
      if s in T {
        T := EraseOthers(D[s], T, s, |D|);
      }
    }
  }

  // the inner loop: s erases what it blocks
  method EraseOthers(blocked: set<nat>, T: set<nat>, s: nat, n: nat) returns (left: set<nat>)
    requires forall t :: t in T ==> t < n
    ensures left == T - (blocked - {s})
  {
    left := T;
    for t := 0 to n
      invariant forall x :: x in left <==> x in T && (x < t ==> x == s || x !in blocked)
    {
      if t in left && t != s && t in blocked {
        left := left - {t};
      }
    }
  }

  // the elements below s have had their turns
  ghost predicate ThinnedUpTo(S: set<nat>, T: set<nat>, D: seq<set<nat>>, s: nat)
    requires forall s :: s in S ==> s < |D|
  {
    && T <= S && (S != {} ==> T != {})
    && (forall a, b :: a in T && b in T && a != b && a < s ==> b !in D[a])
    && (TransitiveOn(S, D) ==> forall t :: t in S - T ==> exists a :: a in T && t in D[a])
    && (forall u :: u in S && u >= s && Unopposed(S, D, u) ==> u in T)
    && (forall u {:trigger HadTurn(S, T, D, u)} :: u in S && u < s ==> HadTurn(S, T, D, u))
  }

  lemma {:induction false} ThinNext(S: set<nat>, T: set<nat>, D: seq<set<nat>>, s: nat)
    requires (forall s :: s in S ==> s < |D|) && s < |D| && ThinnedUpTo(S, T, D, s)
    ensures ThinnedUpTo(S, if s in T then T - (D[s] - {s}) else T, D, s + 1)
  {
    var T' := if s in T then T - (D[s] - {s}) else T;
    assert s in T ==> s in T';
    forall u | u in S && u < s + 1
      ensures HadTurn(S, T', D, u)
    {
      assert u < s ==> HadTurn(S, T, D, u);
    }
    forall u | u in S && u >= s + 1 && Unopposed(S, D, u)
      ensures u in T'
    {
      assert s in S ==> u !in D[s];
    }
    if TransitiveOn(S, D) && s in T {
      StillCovered(S, T, D, s);
    }
  }

  // what is blocked by one that stays can go
  lemma {:induction false} StillCovered(S: set<nat>, T: set<nat>, D: seq<set<nat>>, s: nat)
    requires (forall s :: s in S ==> s < |D|) && T <= S && s in T
    requires TransitiveOn(S, D) && forall u :: u in S - T ==> exists a :: a in T && u in D[a]
    ensures forall u :: u in S - (T - (D[s] - {s})) ==> exists a :: a in T - (D[s] - {s}) && u in D[a]
  {
    var T' := T - (D[s] - {s});
    forall u | u in S - T'
      ensures exists a :: a in T' && u in D[a]
    {
      if u in T {
        assert s in T' && u in D[s];
      } else {
        assert u in S - T;
        var a :| a in T && u in D[a];
        if a !in T' {
          assert s in T' && a in D[s] && u in D[s];
        }
      }
    }
  }

  // the first element of an ordered id set
  method Smallest(S: set<nat>) returns (m: nat)
    requires S != {}
    ensures m in S && forall x :: x in S ==> m <= x
  {
    var bound :| bound in S;
    m := 0;
    while m !in S
      invariant m <= bound && forall x: nat :: x < m ==> x !in S
      decreases bound - m
    {
      m := m + 1;
    }
  }
}
