/**
 Paths in a finite directed graph, "lies on every path" and immediate
 ("nearest") blockers.  A graph is a sequence of neighbour sets.  The
 post-dominator pass uses the successor sets with the exit block as root, the
 dominator pass uses the predecessor sets with the entry block as root.
 */
module FlowGraph {

  type Graph = seq<set<nat>>

  ghost predicate IsGraph(g: Graph) {
    forall h, s :: 0 <= h < |g| && s in g[h] ==> s < |g|
  }

  ghost predicate IsPath(g: Graph, p: seq<nat>) {
    && |p| > 0
    && (forall i :: 0 <= i < |p| ==> p[i] < |g|)
    && (forall i :: 0 <= i < |p| - 1 ==> p[i + 1] in g[p[i]])
  }

  ghost predicate Connects(g: Graph, p: seq<nat>, a: nat, b: nat) {
    IsPath(g, p) && p[0] == a && p[|p| - 1] == b
  }

  ghost predicate Reaches(g: Graph, a: nat, b: nat) {
    exists p :: Connects(g, p, a, b)
  }

  // d lies on every path from a to b (vacuously true when there is no path)
  ghost predicate OnEveryPath(g: Graph, a: nat, b: nat, d: nat) {
    forall p :: Connects(g, p, a, b) ==> d in p
  }

  // m is the nearest node, other than a, that every path from a to b visits
  ghost predicate Nearest(g: Graph, a: nat, b: nat, m: nat) {
    && m < |g| && m != a
    && OnEveryPath(g, a, b, m)
    && (forall t: nat :: t < |g| && t != a && OnEveryPath(g, a, b, t) ==> OnEveryPath(g, m, b, t))
  }

  lemma JoinPaths(g: Graph, p: seq<nat>, q: seq<nat>, a: nat, b: nat, c: nat)
    requires Connects(g, p, a, b) && Connects(g, q, b, c)
    ensures Connects(g, p + q[1..], a, c)
  {
    var r := p + q[1..];
    assert r[|r| - 1] == q[|q| - 1];
    forall i | 0 <= i < |r| - 1
      ensures r[i + 1] in g[r[i]]
    {
      if i >= |p| - 1 {
        assert r[i] == q[i - (|p| - 1)];
        assert r[i + 1] == q[i - (|p| - 1) + 1];
      }
    }
  }

  // Two paths joined by an edge.
  lemma BridgePaths(g: Graph, p: seq<nat>, q: seq<nat>, a: nat, x: nat, y: nat, b: nat)
    requires Connects(g, p, a, x) && x < |g| && y in g[x] && Connects(g, q, y, b)
    ensures Connects(g, p + q, a, b)
  {
    var r := p + q;
    forall i | 0 <= i < |r| - 1
      ensures r[i + 1] in g[r[i]]
    {
      if i >= |p| {
        assert r[i] == q[i - |p|] && r[i + 1] == q[i + 1 - |p|];
      }
    }
  }

  lemma StepThenPath(g: Graph, q: seq<nat>, a: nat, s: nat, b: nat)
    requires a < |g| && s in g[a] && Connects(g, q, s, b)
    ensures Connects(g, [a] + q, a, b)
  {
    assert Connects(g, [a], a, a);
    BridgePaths(g, [a], q, a, a, s, b);
  }

  lemma PathTail(g: Graph, p: seq<nat>, b: nat, i: nat)
    requires i < |p| && IsPath(g, p) && p[|p| - 1] == b
    ensures Connects(g, p[i..], p[i], b)
  {
  }

  lemma PathHead(g: Graph, p: seq<nat>, a: nat, i: nat)
    requires i < |p| && IsPath(g, p) && p[0] == a
    ensures Connects(g, p[..i + 1], a, p[i])
  {
  }

  // The first visit of a path to either of two nodes.
  lemma FirstVisit(p: seq<nat>, a: nat, b: nat) returns (j: nat)
    requires a in p || b in p
    ensures j < |p| && (p[j] == a || p[j] == b)
    ensures a !in p[..j] && b !in p[..j]
  {
    j := 0;
    while p[j] != a && p[j] != b
      invariant j < |p|
      invariant a !in p[..j] && b !in p[..j]
      decreases |p| - j
    {
      assert p[..j + 1] == p[..j] + [p[j]];
      assert p[..|p|] == p;
      j := j + 1;
    }
  }

  // The last visit of a path to either of two nodes.
  lemma LastVisit(p: seq<nat>, a: nat, b: nat) returns (j: nat)
    requires a in p || b in p
    ensures j < |p| && (p[j] == a || p[j] == b)
    ensures a !in p[j + 1..] && b !in p[j + 1..]
  {
    j := |p| - 1;
    while p[j] != a && p[j] != b
      invariant j < |p|
      invariant a !in p[j + 1..] && b !in p[j + 1..]
      decreases j
    {
      assert p[j..] == [p[j]] + p[j + 1..];
      assert p[0..] == p;
      j := j - 1;
    }
  }

  /** Blockers of one node are totally ordered: of two nodes on every path from
      h to r, one lies on every path from the other. */
  lemma BlockersFormAChain(g: Graph, r: nat, h: nat, a: nat, b: nat)
    requires Reaches(g, h, r)
    requires OnEveryPath(g, h, r, a) && OnEveryPath(g, h, r, b)
    ensures OnEveryPath(g, a, r, b) || OnEveryPath(g, b, r, a)
  {
    if !OnEveryPath(g, a, r, b) && !OnEveryPath(g, b, r, a) {
      var p :| Connects(g, p, h, r);
      var qa :| Connects(g, qa, a, r) && b !in qa;
      var qb :| Connects(g, qb, b, r) && a !in qb;
      var j := FirstVisit(p, a, b);
      var q, other := qa, b;
      if p[j] == b {
        q, other := qb, a;
      }
      assert p[..j + 1] == p[..j] + [p[j]];
      assert other !in p[..j + 1] + q[1..];
      PathHead(g, p, h, j);
      JoinPaths(g, p[..j + 1], q, h, p[j], r);
      assert false;
    }
  }

  /** Two different nodes cannot block each other's way to a root they reach. */
  lemma BlockersAntisymmetric(g: Graph, r: nat, a: nat, b: nat)
    requires a != b && Reaches(g, a, r)
    ensures !(OnEveryPath(g, a, r, b) && OnEveryPath(g, b, r, a))
  {
    if OnEveryPath(g, a, r, b) && OnEveryPath(g, b, r, a) {
      var p :| Connects(g, p, a, r);
      assert a in p;
      var j := LastVisit(p, a, b);
      assert p[j..] == [p[j]] + p[j + 1..];
      PathTail(g, p, r, j);
      assert false;
    }
  }

  lemma BlockersTransitive(g: Graph, r: nat, h: nat, a: nat, b: nat)
    requires OnEveryPath(g, h, r, a) && OnEveryPath(g, a, r, b)
    ensures OnEveryPath(g, h, r, b)
  {
    forall p | Connects(g, p, h, r)
      ensures b in p
    {
      assert a in p;
      var i :| 0 <= i < |p| && p[i] == a;
      PathTail(g, p, r, i);
      assert b in p[i..];
    }
  }

  // A node every path passes through reaches the root itself.
  lemma BlockerReaches(g: Graph, r: nat, h: nat, a: nat)
    requires Reaches(g, h, r) && OnEveryPath(g, h, r, a)
    ensures Reaches(g, a, r) && a < |g|
  {
    var p :| Connects(g, p, h, r);
    assert a in p;
    var i :| 0 <= i < |p| && p[i] == a;
    PathTail(g, p, r, i);
  }

  lemma NearestIsUnique(g: Graph, r: nat, h: nat, m: nat, k: nat)
    requires Reaches(g, h, r) && Nearest(g, h, r, m) && Nearest(g, h, r, k)
    ensures m == k
  {
    if m != k {
      BlockerReaches(g, r, h, m);
      BlockersAntisymmetric(g, r, m, k);
    }
  }

  // ----- the data-flow equations -----

  ghost predicate InEveryNeighbour(g: Graph, D: seq<set<nat>>, h: nat, d: nat)
    requires IsGraph(g) && |D| == |g| && h < |g|
  {
    forall s :: s in g[h] ==> d in D[s]
  }

  // One application of the transfer function: the node itself and whatever
  // is in the sets of all its neighbours.
  ghost function Row(g: Graph, D: seq<set<nat>>, h: nat): set<nat>
    requires IsGraph(g) && |D| == |g| && h < |g|
  {
    (set d: nat | d < |g| && InEveryNeighbour(g, D, h, d)) + {h}
  }

  // D holds exactly the nodes lying on every path to the root r.
  ghost predicate MustPass(g: Graph, r: nat, D: seq<set<nat>>) {
    && |D| == |g|
    && forall h: nat, d: nat :: h < |g| ==> (d in D[h] <==> d < |g| && OnEveryPath(g, h, r, d))
  }

  // what holds of the sets throughout the iteration
  ghost predicate Descending(g: Graph, r: nat, D: seq<set<nat>>) {
    && IsGraph(g) && r < |g| && |D| == |g|
    && D[r] == {r}
    && (forall h: nat, d: nat :: h < |g| && d in D[h] ==> d < |g|)
    && (forall h :: 0 <= h < |g| && h != r ==> Row(g, D, h) <= D[h])
    && (forall h: nat, d: nat :: h < |g| && d < |g| && OnEveryPath(g, h, r, d) ==> d in D[h])
  }

  ghost predicate Fixpoint(g: Graph, r: nat, D: seq<set<nat>>)
    requires IsGraph(g) && |D| == |g|
  {
    forall h: nat :: h < |g| && h != r ==> Solved(g, D, h)
  }

  // recomputing row h would not change it
  ghost predicate Solved(g: Graph, D: seq<set<nat>>, h: nat)
    requires IsGraph(g) && |D| == |g| && h < |g|
  {
    D[h] == Row(g, D, h)
  }

  lemma RowKeepsBlockers(g: Graph, r: nat, D: seq<set<nat>>, h: nat, d: nat)
    requires Descending(g, r, D) && h < |g| && h != r
    requires d < |g| && OnEveryPath(g, h, r, d)
    ensures d in Row(g, D, h)
  {
    if d != h {
      forall s | s in g[h]
        ensures d in D[s]
      {
        forall q | Connects(g, q, s, r)
          ensures d in q
        {
          StepThenPath(g, q, h, s, r);
          assert d in [h] + q;
        }
      }
    }
  }

  lemma UpdateDescends(g: Graph, r: nat, D: seq<set<nat>>, h: nat)
    requires Descending(g, r, D) && h < |g| && h != r
    ensures Descending(g, r, D[h := Row(g, D, h)])
  {
    var E := D[h := Row(g, D, h)];
    forall k, d | 0 <= k < |g| && k != r && d in Row(g, E, k)
      ensures d in E[k]
    {
      assert forall s :: s in g[k] && d in E[s] ==> d in D[s];
      assert d in Row(g, D, k);
    }
    forall k: nat, d: nat | k < |g| && d < |g| && OnEveryPath(g, k, r, d)
      ensures d in E[k]
    {
      if k == h {
        RowKeepsBlockers(g, r, D, h, d);
      }
    }
  }

  lemma FixpointOnPath(g: Graph, r: nat, D: seq<set<nat>>, d: nat, p: seq<nat>)
    requires Descending(g, r, D) && Fixpoint(g, r, D)
    requires IsPath(g, p) && p[|p| - 1] == r && d in D[p[0]]
    ensures d in p
    decreases |p|
  {
    if d != p[0] {
      assert p[0] != r && |p| > 1;
      assert Solved(g, D, p[0]);
      assert d in Row(g, D, p[0]);
      assert p[1] in g[p[0]];
      FixpointOnPath(g, r, D, d, p[1..]);
    }
  }

  /** The greatest fixpoint reached from above is the meet over all paths. */
  lemma FixpointIsMustPass(g: Graph, r: nat, D: seq<set<nat>>)
    requires Descending(g, r, D) && Fixpoint(g, r, D)
    ensures MustPass(g, r, D)
  {
    forall h, d, p | 0 <= h < |g| && d in D[h] && Connects(g, p, h, r)
      ensures d in p
    {
      FixpointOnPath(g, r, D, d, p);
    }
  }

  // Total size of the sets, the measure that every changing round lowers.
  ghost function Total(D: seq<set<nat>>): nat {
    if D == [] then 0 else Total(D[..|D| - 1]) + |D[|D| - 1]|
  }

  lemma TotalUpdate(D: seq<set<nat>>, h: nat, T: set<nat>)
    requires h < |D|
    ensures Total(D[h := T]) == Total(D) - |D[h]| + |T|
    decreases |D|
  {
    var E := D[h := T];
    if h == |D| - 1 {
      assert E[..|E| - 1] == D[..|D| - 1];
    } else {
      assert E[..|E| - 1] == D[..|D| - 1][h := T];
      TotalUpdate(D[..|D| - 1], h, T);
    }
  }

  lemma ProperSubsetIsSmaller(a: set<nat>, b: set<nat>)
    requires a < b
    ensures |a| < |b|
  {
    assert b == a + (b - a) && a !! (b - a);
    assert |b| == |a| + |b - a|;
    assert b - a != {};
  }

  ghost predicate Full(S: set<nat>, n: nat) {
    forall d: nat :: d in S <==> d < n
  }

  // The start of the iteration: every set full, the root's just itself.
  lemma {:induction false} FullDescends(g: Graph, r: nat, D: seq<set<nat>>)
    requires IsGraph(g) && r < |g| && |D| == |g| && D[r] == {r}
    requires forall h: nat :: h < |g| && h != r ==> Full(D[h], |g|)
    ensures Descending(g, r, D)
  {
    forall d: nat | d < |g| && OnEveryPath(g, r, r, d)
      ensures d == r
    {
      OnlyRootBlocksRoot(g, r, d);
    }
  }

  /** One changing step of the iteration lowers the total size. */
  lemma {:induction false} StepShrinks(g: Graph, r: nat, D: seq<set<nat>>, h: nat)
    requires Descending(g, r, D) && h < |g| && h != r && D[h] != Row(g, D, h)
    ensures Descending(g, r, D[h := Row(g, D, h)])
    ensures Total(D[h := Row(g, D, h)]) < Total(D)
  {
    UpdateDescends(g, r, D, h);
    TotalUpdate(D, h, Row(g, D, h));
    ProperSubsetIsSmaller(Row(g, D, h), D[h]);
  }

  // one round over the nodes, so far from lo to hi
  ghost predicate Swept(g: Graph, r: nat, was: seq<set<nat>>, D: seq<set<nat>>, change: bool, lo: nat, hi: nat) {
    && Descending(g, r, D)
    && Total(D) <= Total(was)
    && (change ==> Total(D) < Total(was))
    && (!change ==> forall k: nat :: lo <= k < hi && k < |g| ==> Solved(g, D, k))
  }

  lemma {:induction false} SweptStart(g: Graph, r: nat, D: seq<set<nat>>, lo: nat)
    requires Descending(g, r, D)
    ensures Swept(g, r, D, D, false, lo, lo)
  {
  }

  lemma {:induction false} SweptChange(g: Graph, r: nat, was: seq<set<nat>>, D: seq<set<nat>>, change: bool,
                                       lo: nat, hi: nat, h: nat, lo': nat, hi': nat)
    requires Swept(g, r, was, D, change, lo, hi) && h < |g| && h != r && D[h] != Row(g, D, h)
    ensures Swept(g, r, was, D[h := Row(g, D, h)], true, lo', hi')
  {
    StepShrinks(g, r, D, h);
  }

  lemma {:induction false} SweptSame(g: Graph, r: nat, was: seq<set<nat>>, D: seq<set<nat>>, change: bool,
                                     lo: nat, hi: nat, h: nat, lo': nat, hi': nat)
    requires Swept(g, r, was, D, change, lo, hi) && h < |g| && D[h] == Row(g, D, h)
    requires (lo' == h && lo == h + 1 && hi' == hi) || (lo' == lo && hi == h && hi' == h + 1)
    ensures Swept(g, r, was, D, change, lo', hi')
  {
  }

  lemma {:induction false} SweptEnd(g: Graph, r: nat, was: seq<set<nat>>, D: seq<set<nat>>, change: bool, lo: nat, hi: nat)
    requires Swept(g, r, was, D, change, lo, hi)
    requires (lo == 0 && hi == r == |g| - 1) || (lo == 1 && r == 0 && hi == |g|)
    ensures Descending(g, r, D) && Total(D) <= Total(was) && (change ==> Total(D) < Total(was))
    ensures !change ==> Fixpoint(g, r, D)
  {
  }

  // ----- erasing all but the nearest -----

  /** What the in-place erasure of find_ipostdominators and find_idominators
      leaves of a set S: nothing left blocks anything else left; if the relation
      is transitive on S, whatever was erased is blocked by something still there;
      and an element that no lower one blocks has had its turn, so that nothing it
      blocks is left. */
  ghost predicate Thinned(S: set<nat>, T: set<nat>, D: seq<set<nat>>)
    requires forall s :: s in S ==> s < |D|
  {
    && T <= S
    && (S != {} ==> T != {})
    && (forall s, t :: s in T && t in T && s != t ==> t !in D[s])
    && (TransitiveOn(S, D) ==> forall t :: t in S - T ==> exists s :: s in T && t in D[s])
    && (forall u {:trigger HadTurn(S, T, D, u)} :: u in S ==> HadTurn(S, T, D, u))
  }

  // if no lower element of S blocks u, nothing that u blocks is left
  ghost predicate HadTurn(S: set<nat>, T: set<nat>, D: seq<set<nat>>, u: nat)
    requires u in S && forall s :: s in S ==> s < |D|
  {
    Unopposed(S, D, u) ==> forall t :: t in T && t != u ==> t !in D[u]
  }

  // no lower element of S blocks u
  ghost predicate Unopposed(S: set<nat>, D: seq<set<nat>>, u: nat)
    requires forall s :: s in S ==> s < |D|
  {
    forall s :: s in S && s < u ==> u !in D[s]
  }

  ghost predicate TransitiveOn(S: set<nat>, D: seq<set<nat>>)
    requires forall s :: s in S ==> s < |D|
  {
    forall a, b, c :: a in S && b in S && c in S && b in D[a] && c in D[b] ==> c in D[a]
  }

  /** For a node that reaches the root, exactly its nearest strict blocker is
      left. */
  lemma ThinnedIsNearest(g: Graph, r: nat, D: seq<set<nat>>, h: nat, T: set<nat>)
    requires IsGraph(g) && r < |g| && h < |g| && h != r
    requires Reaches(g, h, r)
    requires |D| == |g| && forall d: nat :: d in D[h] <==> d < |g| && OnEveryPath(g, h, r, d)
    requires forall k: nat, d: nat :: k in D[h] && k < |g| ==> (d in D[k] <==> d < |g| && OnEveryPath(g, k, r, d))
    requires Thinned(D[h] - {h}, T, D)
    ensures exists m :: T == {m} && Nearest(g, h, r, m)
  {
    var S := D[h] - {h};
    forall p | Connects(g, p, h, r)
      ensures r in p
    {
      assert p[|p| - 1] == r;
    }
    assert r in S;
    forall a, b, c | a in S && b in S && c in S && b in D[a] && c in D[b]
      ensures c in D[a]
    {
      BlockersTransitive(g, r, a, b, c);
    }
    var m :| m in T;
    forall t | t in T
      ensures t == m
    {
      if t != m {
        BlockersFormAChain(g, r, h, t, m);
        assert false;
      }
    }
    assert T == {m};
    forall t: nat | t < |g| && t != h && OnEveryPath(g, h, r, t)
      ensures OnEveryPath(g, m, r, t)
    {
      assert t in S;
      if t == m {
        forall p | Connects(g, p, m, r)
          ensures t in p
        {
          assert p[0] == t;
        }
      } else {
        assert TransitiveOn(S, D);
        assert t in S - T;
        assert exists s :: s in T && t in D[s];
        assert t in D[m];
      }
    }
    assert Nearest(g, h, r, m);
  }

  // ----- nodes that cannot reach the root -----

  ghost predicate Stuck(g: Graph, r: nat, h: nat) {
    h < |g| && !Reaches(g, h, r)
  }

  // h cannot reach the root, and is the only one
  ghost predicate StuckAlone(g: Graph, r: nat, h: nat) {
    Stuck(g, r, h) && forall u: nat :: Stuck(g, r, u) ==> u == h
  }

  ghost predicate OneStuck(g: Graph, r: nat) {
    exists h: nat :: StuckAlone(g, r, h)
  }

  // every node that reaches the root lies on every way from m to it
  ghost predicate BeforeAll(g: Graph, r: nat, m: nat) {
    && m < |g| && Reaches(g, m, r)
    && forall t: nat :: t < |g| && Reaches(g, t, r) ==> OnEveryPath(g, m, r, t)
  }

  // the nodes that reach the root stand in one line
  ghost predicate InALine(g: Graph, r: nat) {
    exists m: nat :: BeforeAll(g, r, m)
  }

  lemma {:induction false} BlockingIsTransitive(g: Graph, r: nat, D: seq<set<nat>>, S: set<nat>)
    requires MustPass(g, r, D) && forall s :: s in S ==> s < |D|
    ensures TransitiveOn(S, D)
  {
    forall a, b, c | a in S && b in S && c in S && b in D[a] && c in D[b]
      ensures c in D[a]
    {
      BlockersTransitive(g, r, a, b, c);
    }
  }

  // a node that cannot reach the root lies on no way of one that can
  lemma {:induction false} StuckBlocksNone(g: Graph, r: nat, a: nat, u: nat)
    requires Reaches(g, a, r) && Stuck(g, r, u)
    ensures !OnEveryPath(g, a, r, u)
  {
    if OnEveryPath(g, a, r, u) {
      BlockerReaches(g, r, a, u);
    }
  }

  // what covers an erased element
  lemma {:induction false} Coverer(S: set<nat>, T: set<nat>, D: seq<set<nat>>, t: nat) returns (s: nat)
    requires forall s :: s in S ==> s < |D|
    requires Thinned(S, T, D) && TransitiveOn(S, D) && t in S && t !in T
    ensures s in T && t in D[s]
  {
    assert t in S - T;
    s :| s in T && t in D[s];
  }

  /** Two stuck nodes: what is left for one of them is a single stuck node. */
  lemma {:induction false} StuckTogether(g: Graph, r: nat, D: seq<set<nat>>, h: nat, u: nat, T: set<nat>)
    requires MustPass(g, r, D) && Stuck(g, r, h) && Stuck(g, r, u) && u != h
    requires (forall s :: s in D[h] ==> s < |D|) && Thinned(D[h] - {h}, T, D)
    ensures |T| == 1
  {
    var S := D[h] - {h};
    BlockingIsTransitive(g, r, D, S);
    assert u in S;
    var s := u;
    if u !in T {
      s := Coverer(S, T, D, u);
      if Reaches(g, s, r) {
        StuckBlocksNone(g, r, s, u);
      }
    }
    assert Stuck(g, r, s);
    assert forall t :: t in T ==> t in D[s];
    assert T == {s};
  }

  /** One stuck node: a single node is left for it exactly when the others stand
      in one line. */
  lemma {:induction false} StuckByItself(g: Graph, r: nat, D: seq<set<nat>>, h: nat, T: set<nat>)
    requires r < |g| && MustPass(g, r, D) && StuckAlone(g, r, h)
    requires (forall s :: s in D[h] ==> s < |D|) && Thinned(D[h] - {h}, T, D)
    ensures |T| == 1 <==> InALine(g, r)
  {
    var S := D[h] - {h};
    BlockingIsTransitive(g, r, D, S);
    forall t: nat | t < |g| && t != h
      ensures t in S && Reaches(g, t, r)
    {
      assert !Stuck(g, r, t);
    }
    if |T| == 1 {
      var m :| m in T;
      OnlyElement(T, m);
      LoneStuckLeaves(g, r, D, h, T, m);
    }
    if InALine(g, r) {
      var m: nat :| BeforeAll(g, r, m);
      assert m in S;
      if m !in T {
        var s := Coverer(S, T, D, m);
        BlockersAntisymmetric(g, r, m, s);
        assert false;
      }
      assert forall t :: t in T ==> t in D[m];
      assert T == {m};
    }
  }

  /** What is left for a node that cannot reach the root: the lowest other such
      node; if there is none, the node that all others stand behind. */
  ghost predicate LeftForStuck(g: Graph, r: nat, h: nat, m: nat) {
    || (m != h && Stuck(g, r, m) && forall u: nat :: Stuck(g, r, u) && u < m ==> u == h)
    || (StuckAlone(g, r, h) && BeforeAll(g, r, m))
  }

  lemma {:induction false} StuckLeaves(g: Graph, r: nat, D: seq<set<nat>>, h: nat, T: set<nat>, m: nat)
    requires r < |g| && MustPass(g, r, D) && Stuck(g, r, h)
    requires (forall s :: s in D[h] ==> s < |D|) && Thinned(D[h] - {h}, T, D) && |T| == 1 && m in T
    ensures LeftForStuck(g, r, h, m)
  {
    OnlyElement(T, m);
    if StuckAlone(g, r, h) {
      LoneStuckLeaves(g, r, D, h, T, m);
    } else {
      var u: nat :| Stuck(g, r, u) && u != h;
      var low := LowestStuck(g, r, h, u);
      LowestStuckStays(g, r, D, h, T, low);
    }
  }

  lemma {:induction false} LoneStuckLeaves(g: Graph, r: nat, D: seq<set<nat>>, h: nat, T: set<nat>, m: nat)
    requires r < |g| && MustPass(g, r, D) && StuckAlone(g, r, h)
    requires (forall s :: s in D[h] ==> s < |D|) && Thinned(D[h] - {h}, T, D) && T == {m}
    ensures BeforeAll(g, r, m)
  {
    var S := D[h] - {h};
    BlockingIsTransitive(g, r, D, S);
    forall t: nat | t < |g| && t != h
      ensures t in S && Reaches(g, t, r)
    {
      assert !Stuck(g, r, t);
    }
    assert m in S;
    forall t: nat | t < |g| && Reaches(g, t, r)
      ensures OnEveryPath(g, m, r, t)
    {
      if t == m {
        BlocksItself(g, r, m);
      } else {
        var s := Coverer(S, T, D, t);
      }
    }
  }

  // the lowest stuck node but h
  lemma {:induction false} LowestStuck(g: Graph, r: nat, h: nat, u: nat) returns (low: nat)
    requires Stuck(g, r, u) && u != h
    ensures Stuck(g, r, low) && low != h && forall v: nat :: Stuck(g, r, v) && v < low ==> v == h
    decreases u
  {
    if v: nat :| Stuck(g, r, v) && v < u && v != h {
      low := LowestStuck(g, r, h, v);
    } else {
      low := u;
    }
  }

  lemma {:induction false} LowestStuckStays(g: Graph, r: nat, D: seq<set<nat>>, h: nat, T: set<nat>, u: nat)
    requires MustPass(g, r, D) && Stuck(g, r, h) && Stuck(g, r, u) && u != h
    requires forall v: nat :: Stuck(g, r, v) && v < u ==> v == h
    requires (forall s :: s in D[h] ==> s < |D|) && Thinned(D[h] - {h}, T, D) && |T| == 1
    ensures T == {u}
  {
    var S := D[h] - {h};
    forall s | s in S && s < u
      ensures u !in D[s]
    {
      assert !Stuck(g, r, s);
      StuckBlocksNone(g, r, s, u);
    }
    assert u in S && Unopposed(S, D, u) && HadTurn(S, T, D, u);
    var m :| m in T;
    OnlyElement(T, m);
    assert forall t :: t in T ==> t in D[u];
  }

  lemma {:induction false} OnlyElement(T: set<nat>, m: nat)
    requires |T| == 1 && m in T
    ensures T == {m}
  {
    assert |T - {m}| == 0;
  }

  lemma {:induction false} BlocksItself(g: Graph, r: nat, m: nat)
    ensures OnEveryPath(g, m, r, m)
  {
    forall p | Connects(g, p, m, r)
      ensures m in p
    {
      assert p[0] == m;
    }
  }

  /** When the erasure leaves exactly one element for every node but the root. */
  ghost predicate OneLeftEach(g: Graph, r: nat) {
    InALine(g, r) || !OneStuck(g, r)
  }

  lemma {:induction false} LeftExactly(g: Graph, r: nat, D: seq<set<nat>>, h: nat, T: set<nat>)
    requires IsGraph(g) && r < |g| && h < |g| && h != r && MustPass(g, r, D)
    requires (forall s :: s in D[h] ==> s < |D|) && Thinned(D[h] - {h}, T, D)
    ensures |T| == 1 <==> !StuckAlone(g, r, h) || InALine(g, r)
  {
    if Reaches(g, h, r) {
      ThinnedIsNearest(g, r, D, h, T);
    } else if StuckAlone(g, r, h) {
      StuckByItself(g, r, D, h, T);
    } else {
      var u: nat :| Stuck(g, r, u) && u != h;
      StuckTogether(g, r, D, h, u, T);
    }
  }

  lemma {:induction false} RootBlocksAll(g: Graph, r: nat, h: nat)
    ensures OnEveryPath(g, h, r, r)
  {
    forall p | Connects(g, p, h, r)
      ensures r in p
    {
      assert p[|p| - 1] == r;
    }
  }

  lemma {:induction false} OnlyRootBlocksRoot(g: Graph, r: nat, d: nat)
    requires r < |g| && OnEveryPath(g, r, r, d)
    ensures d == r
  {
    assert Connects(g, [r], r, r);
    assert d in [r];
  }

  // ----- reversing -----

  ghost predicate Mirror(g: Graph, rev: Graph) {
    && |g| == |rev|
    && forall a, b :: 0 <= a < |g| && 0 <= b < |g| ==> (b in g[a] <==> a in rev[b])
  }

  ghost function Backwards(p: seq<nat>): (q: seq<nat>)
    ensures |q| == |p|
    ensures forall i :: 0 <= i < |p| ==> q[i] == p[|p| - 1 - i]
  {
    if p == [] then [] else Backwards(p[1..]) + [p[0]]
  }

  /** Dominance is must-pass on the reversed graph: paths a -> b of g are the
      reversals of the paths b -> a of its mirror image. */
  lemma ReversedPath(g: Graph, rev: Graph, p: seq<nat>, a: nat, b: nat)
    requires IsGraph(g) && Mirror(g, rev)
    requires Connects(g, p, a, b)
    ensures Connects(rev, Backwards(p), b, a)
  {
    var q := Backwards(p);
    forall i | 0 <= i < |q| - 1
      ensures q[i + 1] in rev[q[i]]
    {
      var j := |p| - 2 - i;
      assert q[i] == p[j + 1] && q[i + 1] == p[j];
      assert p[j + 1] in g[p[j]];
    }
  }

  lemma BackwardsSameNodes(p: seq<nat>, d: nat)
    ensures d in Backwards(p) <==> d in p
  {
    var q := Backwards(p);
    if d in p {
      var i :| 0 <= i < |p| && p[i] == d;
      assert q[|p| - 1 - i] == d;
    }
    if d in q {
      var i :| 0 <= i < |q| && q[i] == d;
      assert p[|p| - 1 - i] == d;
    }
  }

  lemma MirrorMustPass(g: Graph, rev: Graph, a: nat, b: nat, d: nat)
    requires IsGraph(g) && IsGraph(rev) && Mirror(g, rev)
    ensures OnEveryPath(g, a, b, d) <==> OnEveryPath(rev, b, a, d)
  {
    if OnEveryPath(rev, b, a, d) {
      forall p | Connects(g, p, a, b)
        ensures d in p
      {
        ReversedPath(g, rev, p, a, b);
        BackwardsSameNodes(p, d);
      }
    }
    if OnEveryPath(g, a, b, d) {
      forall p | Connects(rev, p, b, a)
        ensures d in p
      {
        ReversedPath(rev, g, p, b, a);
        BackwardsSameNodes(p, d);
      }
    }
  }
}
