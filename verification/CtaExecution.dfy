/**
 Functional execution of one thread block: warps take turns, one instruction a
 turn; a warp that executes a barrier waits until every live warp waits.  What
 the instructions compute is not modelled: a warp is its finite trace, one step
 per instruction, saying what kind it is and how many of its threads exit at it.
 */
module CtaExecution {

  datatype Op = Barrier | MemoryBarrier | Other
  datatype Step = Step(op: Op, exits: nat)
  type Trace = seq<Step>

  predicate Waits(s: Step) {
    s.op == Barrier || s.op == MemoryBarrier
  }

  // threads gone after the first n steps
  function Exits(t: Trace, n: nat): nat
    requires n <= |t|
  {
    if n == 0 then 0 else Exits(t, n - 1) + t[n - 1].exits
  }

  // barriers among the first n steps
  function Barriers(t: Trace, n: nat): nat
    requires n <= |t|
  {
    if n == 0 then 0 else Barriers(t, n - 1) + if Waits(t[n - 1]) then 1 else 0
  }

  // the last of the warp's threads exits at the last step
  ghost predicate Complete(t: Trace, threads: nat) {
    Exits(t, |t|) == threads && forall n: nat {:trigger Exits(t, n)} :: n < |t| ==> Exits(t, n) < threads
  }

  datatype Block = Block(traces: seq<Trace>, threads: seq<nat>)

  ghost predicate GoodBlock(b: Block) {
    |b.threads| == |b.traces| && forall i: nat :: i < |b.traces| ==> Complete(b.traces[i], b.threads[i])
  }

  // flags and live counts as in the program, each warp's position in its trace,
  // the number of releases, and which warp took each step so far
  datatype State = State(flagged: seq<bool>, live: seq<nat>, next: seq<nat>, releases: nat, log: seq<nat>)

  // ----- what a run so far looks like from outside -----

  // how many of the logged steps are warp v's
  function Count(log: seq<nat>, v: nat): nat {
    if log == [] then 0 else Count(log[..|log| - 1], v) + if log[|log| - 1] == v then 1 else 0
  }

  /** At logged step a, warp v is finished or has executed at least as many
      barriers as the warp that took the step. */
  ghost predicate InStep(b: Block, log: seq<nat>, a: nat, v: nat)
    requires a < |log| && v < |b.traces|
  {
    var w := log[a];
    && w < |b.traces|
    && Count(log[..a], w) < |b.traces[w]|
    && Count(log[..a], v) <= |b.traces[v]|
    && (Count(log[..a], v) == |b.traces[v]|
        || Barriers(b.traces[w], Count(log[..a], w)) <= Barriers(b.traces[v], Count(log[..a], v)))
  }

  /** Barrier semantics: nobody runs ahead of a barrier that a live warp has not
      reached. */
  ghost predicate LockStep(b: Block, log: seq<nat>) {
    forall a: nat, v: nat {:trigger InStep(b, log, a, v)} :: a < |log| && v < |b.traces| ==> InStep(b, log, a, v)
  }

  // ----- the invariant -----

  ghost predicate WarpOk(b: Block, st: State, i: nat)
    requires i < |b.traces| == |b.threads| == |st.flagged| == |st.live| == |st.next|
  {
    var t := b.traces[i];
    && st.next[i] <= |t|
    && st.live[i] == b.threads[i] - Exits(t, st.next[i])
    && (st.live[i] > 0 <==> st.next[i] < |t|)
    && Count(st.log, i) == st.next[i]
    && (st.flagged[i] ==> st.next[i] > 0 && Waits(t[st.next[i] - 1]))
    && (st.live[i] > 0 ==> Barriers(t, st.next[i]) == st.releases + if st.flagged[i] then 1 else 0)
  }

  /** A live warp has executed as many barriers as there were releases, and one
      more if it waits. */
  ghost predicate Inv(b: Block, st: State) {
    && GoodBlock(b)
    && |st.flagged| == |st.live| == |st.next| == |b.traces|
    && (forall i: nat {:trigger WarpOk(b, st, i)} :: i < |b.traces| ==> WarpOk(b, st, i))
    && LockStep(b, st.log)
  }

  // one warp's turn
  function Turn(b: Block, st: State, i: nat): State
    requires i < |b.traces| == |st.flagged| == |st.live| == |st.next|
    requires st.live[i] > 0 ==> st.next[i] < |b.traces[i]| && b.traces[i][st.next[i]].exits <= st.live[i]
  {
    if st.flagged[i] || st.live[i] == 0 then st
    else
      var s := b.traces[i][st.next[i]];
      State(st.flagged[i := Waits(s)], st.live[i := st.live[i] - s.exits], st.next[i := st.next[i] + 1],
            st.releases, st.log + [i])
  }

  function Release(st: State): State {
    st.(flagged := seq(|st.flagged|, _ => false), releases := st.releases + 1)
  }

  // every live warp below n waits
  predicate AllWait(st: State, n: nat)
    requires n <= |st.flagged| == |st.live|
  {
    forall i: nat :: i < n && st.live[i] > 0 ==> st.flagged[i]
  }

  // some warp below n is live
  predicate SomeLive(st: State, n: nat)
    requires n <= |st.live|
  {
    exists i: nat :: i < n && st.live[i] > 0
  }

  lemma {:induction false} TurnIsDefined(b: Block, st: State, i: nat)
    requires Inv(b, st) && i < |b.traces| && st.live[i] > 0
    ensures st.next[i] < |b.traces[i]| && b.traces[i][st.next[i]].exits <= st.live[i]
  {
    var t, n := b.traces[i], st.next[i];
    assert WarpOk(b, st, i);
    assert Complete(t, b.threads[i]);
    assert Exits(t, n + 1) == Exits(t, n) + t[n].exits;
    assert n + 1 == |t| || Exits(t, n + 1) < b.threads[i];
  }

  /** A turn keeps the invariant. */
  lemma {:induction false} TurnKeeps(b: Block, st: State, i: nat)
    requires Inv(b, st) && i < |b.traces|
    requires st.live[i] > 0 ==> st.next[i] < |b.traces[i]| && b.traces[i][st.next[i]].exits <= st.live[i]
    ensures Inv(b, Turn(b, st, i))
  {
    if !st.flagged[i] && st.live[i] > 0 {
      var st' := Turn(b, st, i);
      assert st'.log[..|st.log|] == st.log;
      forall j: nat | j < |b.traces|
        ensures WarpOk(b, st', j)
      {
        assert WarpOk(b, st, j);
        assert Complete(b.traces[j], b.threads[j]);
      }
      LogGrows(b, st, i);
    }
  }

  lemma {:induction false} LogGrows(b: Block, st: State, i: nat)
    requires Inv(b, st) && i < |b.traces| && !st.flagged[i] && st.live[i] > 0
    ensures LockStep(b, st.log + [i])
  {
    var log := st.log + [i];
    forall a: nat, v: nat | a < |log| && v < |b.traces|
      ensures InStep(b, log, a, v)
    {
      assert log[..a] == st.log[..a];
      if a < |st.log| {
        assert InStep(b, st.log, a, v);
      } else {
        assert st.log[..a] == st.log;
        assert WarpOk(b, st, i) && WarpOk(b, st, v);
      }
    }
  }

  /** A release keeps the invariant when every live warp waits. */
  lemma {:induction false} ReleaseKeeps(b: Block, st: State)
    requires Inv(b, st) && AllWait(st, |b.traces|)
    ensures Inv(b, Release(st)) && (SomeLive(st, |b.traces|) ==> !AllWait(Release(st), |b.traces|))
  {
    var st' := Release(st);
    forall i: nat | i < |b.traces|
      ensures WarpOk(b, st', i)
    {
      assert WarpOk(b, st, i);
    }
    if i: nat :| i < |st.live| && st.live[i] > 0 {
      assert !st'.flagged[i] && st'.live[i] > 0;
    }
  }

  // steps still to take by warps i and up
  function Left(b: Block, next: seq<nat>, i: nat): nat
    requires |next| == |b.traces|
    decreases |next| - i
  {
    if i >= |next| then 0
    else Left(b, next, i + 1) + if next[i] < |b.traces[i]| then |b.traces[i]| - next[i] else 0
  }

  lemma {:induction false} LeftDrops(b: Block, next: seq<nat>, i: nat, k: nat)
    requires |next| == |b.traces| && k < |next| && next[k] < |b.traces[k]|
    ensures Left(b, next[k := next[k] + 1], i) == Left(b, next, i) - if i <= k then 1 else 0
    decreases |next| - i
  {
    if i < |next| {
      LeftDrops(b, next, i + 1, k);
    }
  }

  // a turn changes nothing of the other warps, so the answers so far stand
  lemma {:induction false} TurnIsLocal(b: Block, st: State, i: nat)
    requires Inv(b, st) && i < |b.traces|
    requires st.live[i] > 0 ==> st.next[i] < |b.traces[i]| && b.traces[i][st.next[i]].exits <= st.live[i]
    ensures var st' := Turn(b, st, i);
            && AllWait(st', i + 1) == (AllWait(st, i) && (st'.live[i] > 0 ==> st'.flagged[i]))
            && SomeLive(st', i + 1) == (SomeLive(st, i) || st'.live[i] > 0)
            && (SomeLive(st', |b.traces|) ==> SomeLive(st, |b.traces|))
            && forall j: nat :: j < |b.traces| && j != i ==> st'.flagged[j] == st.flagged[j] && st'.live[j] == st.live[j]
  {
    var st' := Turn(b, st, i);
    assert forall j: nat :: j < |b.traces| && j != i ==> st'.flagged[j] == st.flagged[j] && st'.live[j] == st.live[j];
  }

  lemma {:induction false} TurnShrinks(b: Block, st: State, i: nat)
    requires Inv(b, st) && i < |b.traces|
    requires st.live[i] > 0 ==> st.next[i] < |b.traces[i]| && b.traces[i][st.next[i]].exits <= st.live[i]
    ensures Left(b, Turn(b, st, i).next, 0) ==
            Left(b, st.next, 0) - if st.live[i] > 0 && !st.flagged[i] then 1 else 0
  {
    if st.live[i] > 0 && !st.flagged[i] {
      LeftDrops(b, st.next, 0, i);
    }
  }

  /** When no warp is live, every warp has executed its whole trace. */
  lemma {:induction false} NoneLiveMeansDone(b: Block, st: State)
    requires Inv(b, st) && !SomeLive(st, |b.traces|)
    ensures forall i: nat :: i < |b.traces| ==> Count(st.log, i) == |b.traces[i]|
  {
    forall i: nat | i < |b.traces|
      ensures Count(st.log, i) == |b.traces[i]|
    {
      assert WarpOk(b, st, i);
    }
  }

  // ----- rounds -----

  // from `before` to `after` warp i took a turn if it is in s, or nothing of it
  // changed
  ghost predicate Advanced(b: Block, before: State, after: State, s: seq<nat>, i: nat)
    requires i < |b.traces| == |before.flagged| == |before.live| == |before.next|
    requires |b.traces| == |after.flagged| == |after.live| == |after.next|
  {
    if i in s then
      && before.next[i] < |b.traces[i]|
      && var step := b.traces[i][before.next[i]];
      && after.next[i] == before.next[i] + 1 && after.live[i] == before.live[i] - step.exits
      && (after.flagged[i] <==> step.op == Barrier || step.op == MemoryBarrier)
    else
      after.next[i] == before.next[i] && after.live[i] == before.live[i] && after.flagged[i] == before.flagged[i]
  }

  /** What one pass over the warps below n does: each that is live and does not
      wait takes one turn, in the order of their ids, and nothing else happens. */
  ghost predicate Passed(b: Block, before: State, s: seq<nat>, after: State, n: nat)
    requires n <= |b.traces|
  {
    && |b.traces| == |before.flagged| == |before.live| == |before.next|
    && |b.traces| == |after.flagged| == |after.live| == |after.next|
    && after.releases == before.releases && after.log == before.log + s
    && (forall a: nat, c: nat :: a < c < |s| ==> s[a] < s[c])
    && (forall i: nat :: i in s <==> i < n && before.live[i] > 0 && !before.flagged[i])
    && (forall i: nat {:trigger Advanced(b, before, after, s, i)} :: i < |b.traces| ==> Advanced(b, before, after, s, i))
  }

  lemma {:induction false} PassedNone(b: Block, st: State)
    requires |b.traces| == |st.flagged| == |st.live| == |st.next|
    ensures Passed(b, st, [], st, 0)
  {
    assert st.log + [] == st.log;
  }

  // the next warp's turn
  lemma {:induction false} PassedNext(b: Block, before: State, s: seq<nat>, st: State, n: nat)
    requires n < |b.traces| && Passed(b, before, s, st, n)
    requires st.live[n] > 0 ==> st.next[n] < |b.traces[n]| && b.traces[n][st.next[n]].exits <= st.live[n]
    ensures Passed(b, before, s + if st.live[n] > 0 && !st.flagged[n] then [n] else [], Turn(b, st, n), n + 1)
  {
    var took := st.live[n] > 0 && !st.flagged[n];
    var s', st' := s + if took then [n] else [], Turn(b, st, n);
    assert Advanced(b, before, st, s, n);
    assert st'.log == before.log + s' by {
      assert (before.log + s) + [n] == before.log + (s + [n]);
      assert s + [] == s;
    }
    forall a: nat, c: nat | a < c < |s'|
      ensures s'[a] < s'[c]
    {
      if c == |s| {
        assert s[a] in s;
      }
    }
    forall i: nat
      ensures i in s' <==> i < n + 1 && before.live[i] > 0 && !before.flagged[i]
    {
      assert i in s' <==> i in s || (took && i == n);
    }
    forall i: nat | i < |b.traces|
      ensures Advanced(b, before, st', s', i)
    {
      assert Advanced(b, before, st, s, i);
    }
  }

  // a round from `before` on has come to warp n, with these answers so far
  ghost predicate InRound(b: Block, before: State, st: State, s: seq<nat>, all: bool, some: bool, n: nat) {
    && n <= |b.traces| && Passed(b, before, s, st, n)
    && all == AllWait(st, n) && some == SomeLive(st, n)
    && (SomeLive(st, |b.traces|) ==> SomeLive(before, |b.traces|))
    && Left(b, st.next, 0) <= Left(b, before.next, 0)
    && (!AllWait(before, n) ==> Left(b, st.next, 0) < Left(b, before.next, 0))
  }

  lemma {:induction false} TurnInRound(b: Block, before: State, st: State, s: seq<nat>, all: bool, some: bool, n: nat)
    requires Inv(b, st) && n < |b.traces| && InRound(b, before, st, s, all, some, n)
    ensures st.live[n] > 0 ==> st.next[n] < |b.traces[n]| && b.traces[n][st.next[n]].exits <= st.live[n]
    ensures var st' := Turn(b, st, n);
            InRound(b, before, st', s + if st.live[n] > 0 && !st.flagged[n] then [n] else [],
                    all && (st'.live[n] > 0 ==> st'.flagged[n]), some || st'.live[n] > 0, n + 1)
  {
    if st.live[n] > 0 {
      TurnIsDefined(b, st, n);
    }
    PassedNext(b, before, s, st, n);
    TurnShrinks(b, st, n);
    TurnIsLocal(b, st, n);
    assert Advanced(b, before, st, s, n);
  }

  // one round of a run
  datatype Round = Round(before: State, warps: seq<nat>, after: State)

  // no warp has run, none waits, all threads are live
  ghost predicate AtStart(b: Block, st: State) {
    && |b.traces| == |st.flagged| == |st.live| == |st.next| && st.live == b.threads
    && st.releases == 0 && st.log == []
    && forall i: nat :: i < |b.traces| ==> !st.flagged[i] && st.next[i] == 0
  }

  /** Between two rounds: when every live warp waits all flags are cleared,
      otherwise nothing changes. */
  ghost predicate Between(after: State, before: State)
    requires |after.flagged| == |after.live|
  {
    if forall i: nat :: i < |after.live| && after.live[i] > 0 ==> after.flagged[i] then
      && before.live == after.live && before.next == after.next && before.log == after.log
      && before.releases == after.releases + 1
      && |before.flagged| == |after.flagged| && forall i: nat :: i < |before.flagged| ==> !before.flagged[i]
    else before == after
  }

  /** A run: it starts fresh, goes round by round, and goes on as long as some
      warp is live. */
  ghost predicate IsRun(b: Block, rounds: seq<Round>) {
    && (rounds != [] ==> AtStart(b, rounds[0].before))
    && (forall k: nat {:trigger rounds[k]} :: k < |rounds| ==>
          Passed(b, rounds[k].before, rounds[k].warps, rounds[k].after, |b.traces|))
    && (forall k: nat {:trigger Follows(rounds, k)} :: k + 1 < |rounds| ==> Follows(rounds, k))
  }

  ghost predicate Follows(rounds: seq<Round>, k: nat) {
    && k + 1 < |rounds| && |rounds[k].after.flagged| == |rounds[k].after.live|
    && (exists i: nat :: i < |rounds[k].after.live| && rounds[k].after.live[i] > 0)
    && Between(rounds[k].after, rounds[k + 1].before)
  }

  // the warps of the rounds, one round after another
  ghost function Logged(rounds: seq<Round>): seq<nat> {
    if rounds == [] then [] else Logged(rounds[..|rounds| - 1]) + rounds[|rounds| - 1].warps
  }

  lemma {:induction false} RunIsLogged(b: Block, rounds: seq<Round>)
    requires IsRun(b, rounds) && rounds != []
    ensures rounds[|rounds| - 1].after.log == Logged(rounds)
  {
    var n := |rounds| - 1;
    var front := rounds[..n];
    if n > 0 {
      assert Follows(rounds, n - 1);
      forall k: nat | k + 1 < n
        ensures Follows(front, k)
      {
        assert Follows(rounds, k);
      }
      RunIsLogged(b, front);
    }
  }

  // where a run that has not ended stands
  ghost predicate StandsAt(b: Block, rounds: seq<Round>, st: State) {
    && IsRun(b, rounds)
    && if rounds == [] then AtStart(b, st) else
         var last := rounds[|rounds| - 1].after;
         && |last.flagged| == |last.live| && Between(last, st)
         && exists i: nat :: i < |last.live| && last.live[i] > 0
  }

  // one round more
  lemma {:induction false} RunGrows(b: Block, rounds: seq<Round>, r: Round)
    requires StandsAt(b, rounds, r.before) && Passed(b, r.before, r.warps, r.after, |b.traces|)
    ensures IsRun(b, rounds + [r])
  {
    var more := rounds + [r];
    forall k: nat | k + 1 < |more|
      ensures Follows(more, k)
    {
      assert k + 1 < |rounds| ==> Follows(rounds, k);
    }
  }

  lemma {:induction false} FirstIsIn(t: seq<nat>)
    ensures t != [] ==> t[0] in t
  {
  }

  // ascending sequences with the same elements are the same
  lemma {:induction false} SameAscending(s: seq<nat>, t: seq<nat>)
    requires forall a: nat, c: nat :: a < c < |s| ==> s[a] < s[c]
    requires forall a: nat, c: nat :: a < c < |t| ==> t[a] < t[c]
    requires forall i: nat :: i in s <==> i in t
    ensures s == t
  {
    FirstIsIn(t);
    if s != [] {
      assert s[0] in t;
      assert t[0] in s;
      var a :| 0 <= a < |t| && t[a] == s[0];
      var c :| 0 <= c < |s| && s[c] == t[0];
      assert s[0] == t[0];
      forall i: nat
        ensures i in s[1..] <==> i in t[1..]
      {
        if i in s[1..] {
          var d :| 0 <= d < |s[1..]| && s[1..][d] == i;
          assert s[0] < s[d + 1] == i && i in t;
        }
        if i in t[1..] {
          var d :| 0 <= d < |t[1..]| && t[1..][d] == i;
          assert t[0] < t[d + 1] == i && i in s;
        }
      }
      SameAscending(s[1..], t[1..]);
      assert s == [s[0]] + s[1..] && t == [t[0]] + t[1..];
    }
  }

  lemma {:induction false} SameRound(b: Block, before: State, s: seq<nat>, t: seq<nat>, x: State, y: State)
    requires Passed(b, before, s, x, |b.traces|) && Passed(b, before, t, y, |b.traces|)
    ensures s == t && x == y
  {
    SameAscending(s, t);
    forall i: nat | i < |b.traces|
      ensures x.next[i] == y.next[i] && x.live[i] == y.live[i] && x.flagged[i] == y.flagged[i]
    {
      assert Advanced(b, before, x, s, i) && Advanced(b, before, y, t, i);
    }
    assert x.next == y.next && x.live == y.live && x.flagged == y.flagged;
  }

  /** The block alone decides the run: two runs agree round by round. */
  lemma {:induction false} RunIsDetermined(b: Block, rounds: seq<Round>, others: seq<Round>, k: nat)
    requires IsRun(b, rounds) && IsRun(b, others) && k < |rounds| && k < |others|
    ensures rounds[k] == others[k]
  {
    var r, o := rounds[k], others[k];
    if k == 0 {
      assert r.before.next == o.before.next && r.before.flagged == o.before.flagged;
    } else {
      RunIsDetermined(b, rounds, others, k - 1);
      assert Follows(rounds, k - 1) && Follows(others, k - 1);
      assert r.before.flagged == o.before.flagged;
    }
    SameRound(b, r.before, r.warps, o.warps, r.after, o.after);
  }

  // nobody is live any more
  ghost predicate Over(st: State) {
    forall i: nat :: i < |st.live| ==> st.live[i] == 0
  }

  /** So there is only one whole run. */
  lemma {:induction false} OnlyOneRun(b: Block, rounds: seq<Round>, others: seq<Round>)
    requires IsRun(b, rounds) && rounds != [] && Over(rounds[|rounds| - 1].after)
    requires IsRun(b, others) && others != [] && Over(others[|others| - 1].after)
    ensures rounds == others
  {
    var n, m := |rounds|, |others|;
    var k := if n < m then n - 1 else m - 1;
    RunIsDetermined(b, rounds, others, k);
    assert n < m ==> Follows(others, k);
    assert m < n ==> Follows(rounds, k);
    forall i: nat | i < n && n == m
      ensures rounds[i] == others[i]
    {
      RunIsDetermined(b, rounds, others, i);
    }
  }

  class FunctionalCore {
    ghost const block: Block
    const traces: seq<Trace>
    const threads: seq<nat>
    const warpAtBarrier: array<bool>
    const liveThreadCount: array<nat>
    const next: array<nat>
    ghost var releases: nat
    ghost var log: seq<nat>

    ghost predicate Shape()
      reads this
    {
      && block == Block(traces, threads) && GoodBlock(block)
      && warpAtBarrier.Length == liveThreadCount.Length == next.Length == |traces|
      && liveThreadCount != next
    }

    ghost function Abs(): State
      reads this, warpAtBarrier, liveThreadCount, next
    {
      State(warpAtBarrier[..], liveThreadCount[..], next[..], releases, log)
    }

    ghost predicate Valid()
      reads this, warpAtBarrier, liveThreadCount, next
    {
      Shape() && Inv(block, Abs())
    }

    constructor (b: Block)
      requires GoodBlock(b)
      ensures Shape() && block == b && fresh(warpAtBarrier) && fresh(liveThreadCount) && fresh(next)
    {
      block := b;
      traces, threads := b.traces, b.threads;
      warpAtBarrier := new bool[|b.traces|](_ => false);
      liveThreadCount := new nat[|b.traces|](_ => 0);
      next := new nat[|b.traces|](_ => 0);
      releases, log := 0, [];
    }

    /** initializeCTA */
    method InitializeCta()
      requires Shape()
      modifies this, warpAtBarrier, liveThreadCount, next
      ensures Valid() && log == [] && releases == 0
      ensures AtStart(block, Abs())
    {
      releases, log := 0, [];
      for i := 0 to |traces|
        invariant forall j: nat :: j < i ==> !warpAtBarrier[j] && liveThreadCount[j] == threads[j] && next[j] == 0
        modifies warpAtBarrier, liveThreadCount, next
      {
        warpAtBarrier[i] := false;
        liveThreadCount[i] := threads[i];
        next[i] := 0;
      }
      Fresh(block, Abs());
    }

    static lemma {:induction false} Fresh(b: Block, st: State)
      requires GoodBlock(b) && |st.flagged| == |st.live| == |st.next| == |b.traces|
      requires st.log == [] && st.releases == 0
      requires forall i: nat :: i < |b.traces| ==> !st.flagged[i] && st.live[i] == b.threads[i] && st.next[i] == 0
      ensures Inv(b, st)
    {
      forall i: nat | i < |b.traces|
        ensures WarpOk(b, st, i)
      {
        var t := b.traces[i];
        assert Complete(t, b.threads[i]);
        assert Exits(t, 0) == 0;
      }
    }

    /** executeWarp: one turn, and the two accumulated answers */
    method ExecuteWarp(i: nat, allAtBarrier: bool, someOneLive: bool) returns (all: bool, some: bool)
      requires Valid() && i < |traces|
      modifies `log, warpAtBarrier, liveThreadCount, next
      ensures Valid() && releases == old(releases)
      ensures old(liveThreadCount[i]) > 0 ==> old(next[i]) < |traces[i]|
                                              && traces[i][old(next[i])].exits <= old(liveThreadCount[i])
      ensures Abs() == Turn(block, old(Abs()), i)
      ensures all == (allAtBarrier && (liveThreadCount[i] > 0 ==> warpAtBarrier[i]))
      ensures some == (someOneLive || liveThreadCount[i] > 0)
    {
      all, some := allAtBarrier, someOneLive;
      ghost var st := Abs();
      if liveThreadCount[i] > 0 {
        TurnIsDefined(block, st, i);
      }
      TurnKeeps(block, st, i);
      if !warpAtBarrier[i] && liveThreadCount[i] != 0 {
        var inst := traces[i][next[i]];
        next[i] := next[i] + 1;
        liveThreadCount[i] := liveThreadCount[i] - inst.exits;
        log := log + [i];
        if inst.op == Barrier || inst.op == MemoryBarrier {
          warpAtBarrier[i] := true;
        }
      }
      assert Abs() == Turn(block, st, i);
      if liveThreadCount[i] > 0 {
        some := true;
      }
      if !warpAtBarrier[i] && liveThreadCount[i] > 0 {
        all := false;
      }
    }

    /** execute, without checkpointing: it ends, every warp has executed its whole
        trace, the run kept lock step, and it went round by round, each warp that
        could taking one turn in the order of ids, until no warp was live. */
    method Execute() returns (ghost rounds: seq<Round>)
      requires Shape()
      modifies this, warpAtBarrier, liveThreadCount, next
      ensures Valid() && !SomeLive(Abs(), |traces|)
      ensures LockStep(block, log)
      ensures forall i: nat :: i < |traces| ==> Count(log, i) == |traces[i]|
      ensures rounds != [] && IsRun(block, rounds) && log == Logged(rounds)
      ensures Abs() == rounds[|rounds| - 1].after && Over(Abs())
    {
      InitializeCta();
      rounds := [];
      while true
        invariant Valid() && (SomeLive(Abs(), |traces|) ==> !AllWait(Abs(), |traces|))
        invariant StandsAt(block, rounds, Abs())
        decreases Left(block, next[..], 0)
      {
        var allAtBarrier, someOneLive;
        ghost var before, warps := Abs(), [];
        allAtBarrier, someOneLive, warps := RunRound();
        RunGrows(block, rounds, Round(before, warps, Abs()));
        rounds := rounds + [Round(before, warps, Abs())];
        if !someOneLive {
          break;
        }
        GoOn(allAtBarrier, rounds);
      }
      NoneLiveMeansDone(block, Abs());
      RunIsLogged(block, rounds);
    }

    // a round that leaves some warp live: if all wait, they are released
    method GoOn(allAtBarrier: bool, ghost rounds: seq<Round>)
      requires Valid() && SomeLive(Abs(), |traces|) && allAtBarrier == AllWait(Abs(), |traces|)
      requires IsRun(block, rounds) && rounds != [] && Abs() == rounds[|rounds| - 1].after
      modifies `releases, warpAtBarrier
      ensures Valid() && !AllWait(Abs(), |traces|) && next[..] == old(next[..])
      ensures StandsAt(block, rounds, Abs())
    {
      if allAtBarrier {
        ReleaseAll();
      }
    }

    /** One round: every warp's turn, in the order of ids.  If some live warp did
        not wait, at least one instruction is executed. */
    method RunRound() returns (allAtBarrier: bool, someOneLive: bool, ghost warps: seq<nat>)
      requires Valid()
      modifies `log, warpAtBarrier, liveThreadCount, next
      ensures Valid() && releases == old(releases)
      ensures allAtBarrier == AllWait(Abs(), |traces|) && someOneLive == SomeLive(Abs(), |traces|)
      ensures Left(block, next[..], 0) <= old(Left(block, next[..], 0))
      ensures someOneLive ==> old(SomeLive(Abs(), |traces|))
      ensures !old(AllWait(Abs(), |traces|)) ==> Left(block, next[..], 0) < old(Left(block, next[..], 0))
      ensures Passed(block, old(Abs()), warps, Abs(), |traces|)
    {
      ghost var before := Abs();
      allAtBarrier, someOneLive, warps := true, false, [];
      PassedNone(block, before);
      for i := 0 to |traces|
        invariant Valid() && releases == before.releases
        invariant InRound(block, before, Abs(), warps, allAtBarrier, someOneLive, i)
      {
        allAtBarrier, someOneLive, warps := TakeTurn(i, allAtBarrier, someOneLive, before, warps);
      }
    }

    // warp i's turn in a round
    method TakeTurn(i: nat, allAtBarrier: bool, someOneLive: bool, ghost before: State, ghost warps: seq<nat>)
      returns (all: bool, some: bool, ghost warps': seq<nat>)
      requires Valid() && i < |traces| && InRound(block, before, Abs(), warps, allAtBarrier, someOneLive, i)
      modifies `log, warpAtBarrier, liveThreadCount, next
      ensures Valid() && releases == old(releases) && InRound(block, before, Abs(), warps', all, some, i + 1)
    {
      ghost var st := Abs();
      TurnInRound(block, before, st, warps, allAtBarrier, someOneLive, i);
      warps' := warps + if st.live[i] > 0 && !st.flagged[i] then [i] else [];
      all, some := ExecuteWarp(i, allAtBarrier, someOneLive);
    }

    method ReleaseAll()
      requires Valid() && AllWait(Abs(), |traces|)
      modifies `releases, warpAtBarrier
      ensures Valid() && Abs() == Release(old(Abs()))
      ensures SomeLive(Abs(), |traces|) ==> !AllWait(Abs(), |traces|)
    {
      ghost var st := Abs();
      for i := 0 to |traces|
        invariant forall j: nat :: j < i ==> !warpAtBarrier[j]
        modifies warpAtBarrier
      {
        warpAtBarrier[i] := false;
      }
      releases := releases + 1;
      assert Abs() == Release(st);
      ReleaseKeeps(block, st);
    }
  }
}
