/**
 Admission of thread blocks on one core that several kernels may share: four
 capped counters, a bitmap of hardware threads, and a window per resident block.
 */
module ShaderCore {
  import opened Arith
  import opened Occupancy

  // resident blocks and where each one's window starts, by hardware block id
  type Residents = map<nat, Kernel>
  type Starts = map<nat, nat>

  const NONE := Use(0, 0, 0, 0)

  // what the resident blocks with ids below m take together
  function TotalUse(c: Config, live: Residents, m: nat): Use
    requires c.warpSize > 0
  {
    if m == 0 then NONE
    else if m - 1 in live then Add(TotalUse(c, live, m - 1), UseOf(c, live[m - 1]))
    else TotalUse(c, live, m - 1)
  }

  lemma {:induction false} TotalGrows(c: Config, live: Residents, m: nat, i: nat, k: Kernel)
    requires c.warpSize > 0 && i !in live
    ensures TotalUse(c, live[i := k], m) ==
            if i < m then Add(TotalUse(c, live, m), UseOf(c, k)) else TotalUse(c, live, m)
  {
    if m > 0 {
      TotalGrows(c, live, m - 1, i, k);
    }
  }

  lemma {:induction false} TotalShrinks(c: Config, live: Residents, m: nat, i: nat)
    requires c.warpSize > 0 && i in live && i < m
    ensures TotalUse(c, live, m) == Add(TotalUse(c, live - {i}, m), UseOf(c, live[i]))
  {
    assert (live - {i})[i := live[i]] == live;
    TotalGrows(c, live - {i}, m, i, live[i]);
  }

  // the block counter counts
  lemma {:induction false} FullMeansMax(c: Config, live: Residents, m: nat)
    requires c.warpSize > 0 && forall i: nat :: i < m ==> i in live
    ensures TotalUse(c, live, m).ctas == m
  {
    if m > 0 {
      FullMeansMax(c, live, m - 1);
    }
  }

  // ----- windows -----

  predicate InWindow(c: Config, live: Residents, start: Starts, i: nat, x: nat)
    requires c.warpSize > 0
  {
    i in live && i in start && start[i] <= x < start[i] + Padded(c, live[i])
  }

  function Mark(occ: seq<bool>, s: nat, n: nat, v: bool): seq<bool> {
    seq(|occ|, x requires 0 <= x < |occ| => if s <= x < s + n then v else occ[x])
  }

  ghost predicate GoodWindow(c: Config, k: Kernel, s: nat, slots: nat)
    requires c.warpSize > 0
  {
    && k.threads > 0 && Padded(c, k) > 0
    && s < c.threads && s + Padded(c, k) <= slots && s % Padded(c, k) == 0
  }

  ghost predicate Apart(c: Config, live: Residents, start: Starts, i: nat, j: nat)
    requires c.warpSize > 0
  {
    i in live && i in start && j in live && j in start && i != j ==>
      start[i] + Padded(c, live[i]) <= start[j] || start[j] + Padded(c, live[j]) <= start[i]
  }

  ghost predicate Covered(c: Config, live: Residents, start: Starts, x: nat)
    requires c.warpSize > 0
  {
    exists i: nat :: InWindow(c, live, start, i, x)
  }

  /** The bitmap is the disjoint union of the resident blocks' windows. */
  ghost predicate Windows(c: Config, live: Residents, start: Starts, occ: seq<bool>)
    requires c.warpSize > 0
  {
    && live.Keys == start.Keys
    && (forall i :: i in live ==> GoodWindow(c, live[i], start[i], |occ|))
    && (forall i: nat, j: nat {:trigger Apart(c, live, start, i, j)} :: Apart(c, live, start, i, j))
    && (forall x: nat {:trigger occ[x]} :: x < |occ| ==> (occ[x] <==> Covered(c, live, start, x)))
  }

  lemma {:induction false} AddWindow(c: Config, live: Residents, start: Starts, occ: seq<bool>, i: nat, k: Kernel, s: nat)
    requires c.warpSize > 0 && Windows(c, live, start, occ) && i !in live
    requires GoodWindow(c, k, s, |occ|) && WindowFree(occ, s, Padded(c, k))
    ensures Windows(c, live[i := k], start[i := s], Mark(occ, s, Padded(c, k), true))
  {
    var live', start', n := live[i := k], start[i := s], Padded(c, k);
    forall j: nat | j in live
      ensures start[j] + Padded(c, live[j]) <= s || s + n <= start[j]
    {
      StaysClear(c, live, start, occ, j, s, n);
    }
    assert forall a: nat, b: nat {:trigger Apart(c, live', start', a, b)} ::
        Apart(c, live, start, a, b) ==> Apart(c, live', start', a, b);
    forall x: nat | x < |occ|
      ensures Mark(occ, s, n, true)[x] <==> Covered(c, live', start', x)
    {
      if s <= x < s + n {
        assert InWindow(c, live', start', i, x);
      } else if occ[x] {
        var j: nat :| InWindow(c, live, start, j, x);
        assert InWindow(c, live', start', j, x);
      } else if j: nat :| InWindow(c, live', start', j, x) {
        assert InWindow(c, live, start, j, x);
      }
    }
  }

  // a free window meets no resident window
  lemma {:induction false} StaysClear(c: Config, live: Residents, start: Starts, occ: seq<bool>, j: nat, s: nat, n: nat)
    requires c.warpSize > 0 && Windows(c, live, start, occ) && j in live
    requires WindowFree(occ, s, n) && n > 0
    ensures start[j] + Padded(c, live[j]) <= s || s + n <= start[j]
  {
    var x := if s < start[j] then start[j] else s;
    assert GoodWindow(c, live[j], start[j], |occ|);
    assert x < |occ| ==> (occ[x] <==> Covered(c, live, start, x));
    if x < start[j] + Padded(c, live[j]) && x < s + n {
      assert InWindow(c, live, start, j, x);
    }
  }

  lemma {:induction false} RemoveWindow(c: Config, live: Residents, start: Starts, occ: seq<bool>, i: nat)
    requires c.warpSize > 0 && Windows(c, live, start, occ) && i in live
    ensures Windows(c, live - {i}, start - {i}, Mark(occ, start[i], Padded(c, live[i]), false))
  {
    var live', start', n := live - {i}, start - {i}, Padded(c, live[i]);
    assert forall a: nat, b: nat {:trigger Apart(c, live', start', a, b)} ::
        Apart(c, live, start, a, b) ==> Apart(c, live', start', a, b);
    forall x: nat | x < |occ|
      ensures Mark(occ, start[i], n, false)[x] <==> Covered(c, live', start', x)
    {
      if j: nat :| InWindow(c, live', start', j, x) {
        assert InWindow(c, live, start, j, x);
        assert Apart(c, live, start, i, j);
      } else if occ[x] {
        var j: nat :| InWindow(c, live, start, j, x);
        assert j != i ==> InWindow(c, live', start', j, x);
      }
    }
  }

  // ----- blocks of one size -----

  ghost predicate SameSize(c: Config, live: Residents, size: nat)
    requires c.warpSize > 0
  {
    forall i :: i in live ==> Padded(c, live[i]) == size
  }

  // a set of fewer than n numbers misses one below n
  lemma {:induction false} SomeAbsent(s: set<nat>, n: nat)
    requires |s| < n
    ensures exists m: nat :: m < n && m !in s
  {
    if n - 1 in s {
      SomeAbsent(s - {n - 1}, n - 1);
    }
  }

  // which of the aligned windows of this size are taken by the given blocks
  ghost function Taken(ids: set<nat>, start: Starts, size: nat): set<nat>
    requires size > 0 && ids <= start.Keys
  {
    set i | i in ids :: start[i] / size
  }

  lemma {:induction false} TakenCount(ids: set<nat>, start: Starts, size: nat)
    requires size > 0 && ids <= start.Keys
    ensures |Taken(ids, start, size)| <= |ids|
    decreases |ids|
  {
    if i :| i in ids {
      TakenCount(ids - {i}, start, size);
      assert Taken(ids, start, size) == Taken(ids - {i}, start, size) + {start[i] / size};
    } else {
      assert Taken(ids, start, size) == {};
    }
  }

  /** Pigeonhole: with fewer resident blocks than aligned windows below the
      limit, one of those windows is free. */
  lemma {:induction false} SomeWindowFree(c: Config, live: Residents, start: Starts, occ: seq<bool>, size: nat, n: nat)
    requires c.warpSize > 0 && size > 0 && Windows(c, live, start, occ) && SameSize(c, live, size)
    requires |live| < n
    ensures exists m: nat :: m < n && WindowFree(occ, m * size, size)
  {
    var taken := Taken(live.Keys, start, size);
    TakenCount(live.Keys, start, size);
    SomeAbsent(taken, n);
    var m: nat :| m < n && m !in taken;
    forall x: nat | m * size <= x < m * size + size && x < |occ|
      ensures !occ[x]
    {
      if occ[x] {
        TakenCovers(c, live, start, occ, size, m, x);
      }
    }
    assert WindowFree(occ, m * size, size);
  }

  // an occupied slot belongs to a taken window
  lemma {:induction false} TakenCovers(c: Config, live: Residents, start: Starts, occ: seq<bool>,
                                       size: nat, m: nat, x: nat)
    requires c.warpSize > 0 && size > 0 && Windows(c, live, start, occ) && SameSize(c, live, size)
    requires m * size <= x < m * size + size && x < |occ| && occ[x]
    ensures m in Taken(live.Keys, start, size)
  {
    var i: nat :| InWindow(c, live, start, i, x);
    assert GoodWindow(c, live[i], start[i], |occ|);
    SharedSlotIsSameWindow(start[i], size, m, x);
    assert i in live.Keys && start[i] / size == m;
  }

  // two aligned windows of one size that share a slot are the same window
  lemma {:induction false} SharedSlotIsSameWindow(s: nat, size: nat, m: nat, x: nat)
    requires size > 0 && s % size == 0
    requires s <= x < s + size && m * size <= x < m * size + size
    ensures s / size == m
  {
    var q := s / size;
    assert s == q * size;
    if q < m {
      ProductMonotone(q, m, size);
    } else if m < q {
      ProductMonotone(m, q, size);
    }
  }

  // n equal footprints, one after another
  function Repeated(n: nat, u: Use): Use {
    if n == 0 then NONE else Add(Repeated(n - 1, u), u)
  }

  lemma {:induction false} RepeatedIsTimes(n: nat, u: Use)
    ensures Repeated(n, u) == Times(n, u)
  {
    if n > 0 {
      RepeatedIsTimes(n - 1, u);
      assert n * u.threads == (n - 1) * u.threads + u.threads;
      assert n * u.shmem == (n - 1) * u.shmem + u.shmem;
      assert n * u.regs == (n - 1) * u.regs + u.regs;
      assert n * u.ctas == (n - 1) * u.ctas + u.ctas;
    }
  }

  // how many resident blocks have ids below m
  function Below(live: Residents, m: nat): nat {
    if m == 0 then 0 else Below(live, m - 1) + if m - 1 in live then 1 else 0
  }

  lemma {:induction false} BelowCounts(live: Residents, m: nat)
    ensures Below(live, m) == |set i | i in live && i < m|
  {
    var now := set i | i in live && i < m;
    if m > 0 {
      BelowCounts(live, m - 1);
      var before := set i | i in live && i < m - 1;
      assert now == if m - 1 in live then before + {m - 1} else before;
    } else {
      assert now == {};
    }
  }

  // blocks that all take the same take that much each
  lemma {:induction false} UniformTotal(c: Config, live: Residents, m: nat, k: Kernel)
    requires c.warpSize > 0 && forall i :: i in live ==> live[i] == k
    ensures TotalUse(c, live, m) == Repeated(Below(live, m), UseOf(c, k))
  {
    if m > 0 {
      UniformTotal(c, live, m - 1, k);
    }
  }

  // what occupy_shader_resource_1block answers; the window search can throw
  datatype Answer = Yes | No | Threw

  function Admission(c: Config, used: Use, occ: seq<bool>, k: Kernel): Answer
    requires c.warpSize > 0 && Padded(c, k) > 0
  {
    if used.threads + Padded(c, k) > c.threads then No
    else match FirstFit(occ, c.threads, Padded(c, k), 0)
         case NotFound => No
         case OutOfRange => Threw
         case Found(_) => if Within(Add(used, UseOf(c, k)), c) then Yes else No
  }

  /** The books: each counter is the sum over the resident blocks and within its
      cap, and the bitmap is the union of their windows. */
  ghost predicate Accounts(c: Config, used: Use, live: Residents, start: Starts, occ: seq<bool>) {
    && GoodConfig(c) && |occ| == MAX_THREAD_PER_SM
    && used == TotalUse(c, live, c.ctas) && Within(used, c)
    && (forall i :: i in live ==> i < c.ctas)
    && Windows(c, live, start, occ)
  }

  lemma {:induction false} Admit(c: Config, used: Use, live: Residents, start: Starts, occ: seq<bool>, i: nat, k: Kernel)
    requires Accounts(c, used, live, start, occ) && i !in live && i < c.ctas
    requires k.threads > 0 && Padded(c, k) > 0 && Admission(c, used, occ, k) == Yes
    ensures var s := FirstFit(occ, c.threads, Padded(c, k), 0).start;
            Accounts(c, Add(used, UseOf(c, k)), live[i := k], start[i := s], Mark(occ, s, Padded(c, k), true))
  {
    var n := Padded(c, k);
    FoundIsFree(occ, c.threads, n, 0);
    assert 0 * n == 0;
    var s := FirstFit(occ, c.threads, n, 0).start;
    var m: nat :| s == m * n;
    DivMod(m, 0, n);
    TotalGrows(c, live, c.ctas, i, k);
    AddWindow(c, live, start, occ, i, k, s);
  }

  lemma {:induction false} Retire(c: Config, used: Use, live: Residents, start: Starts, occ: seq<bool>, i: nat, left: Use)
    requires Accounts(c, used, live, start, occ) && i in live
    requires used == Add(left, UseOf(c, live[i]))
    ensures Accounts(c, left, live - {i}, start - {i}, Mark(occ, start[i], Padded(c, live[i]), false))
  {
    TotalShrinks(c, live, c.ctas, i);
    RemoveWindow(c, live, start, occ, i);
  }

  // if one more block is within the block cap, some id is free
  lemma {:induction false} SomeIdFree(c: Config, used: Use, live: Residents, start: Starts, occ: seq<bool>)
    requires Accounts(c, used, live, start, occ) && used.ctas < c.ctas
    ensures exists i: nat :: i < c.ctas && i !in live
  {
    if forall i: nat :: i < c.ctas ==> i in live {
      FullMeansMax(c, live, c.ctas);
    }
  }

  /** First-fit is complete for blocks of one size: passing the thread count
      means a window is found, and below the limit even when the size does not
      divide it. */
  lemma {:induction false} ThreadCountSuffices(c: Config, live: Residents, start: Starts, occ: seq<bool>, size: nat)
    requires GoodConfig(c) && size > 0 && c.threads <= |occ|
    requires Windows(c, live, start, occ) && SameSize(c, live, size)
    requires |live| * size + size <= c.threads
    ensures FirstFit(occ, c.threads, size, 0).Found?
    ensures FirstFit(occ, c.threads, size, 0).start + size <= c.threads
  {
    SomeWindowFree(c, live, start, occ, size, |live| + 1);
    var m: nat :| m < |live| + 1 && WindowFree(occ, m * size, size);
    if m < |live| {
      ProductMonotone(m, |live|, size);
    }
    WindowBelowLimit(occ, c.threads, size);
  }

  /** For one kernel the whole admission test is the closed formula: one more
      block is admitted if and only if fewer than MaxCta are resident, and its
      window lies below the limit. */
  lemma {:induction false} AdmissionIsBelowMax(c: Config, used: Use, live: Residents, start: Starts, occ: seq<bool>, k: Kernel)
    requires Accounts(c, used, live, start, occ) && k.threads > 0 && Padded(c, k) > 0
    requires forall i :: i in live ==> live[i] == k
    ensures |live| <= MaxCta(c, k)
    ensures Admission(c, used, occ, k) == if |live| < MaxCta(c, k) then Yes else No
    ensures |live| < MaxCta(c, k) ==>
              FirstFit(occ, c.threads, Padded(c, k), 0).start + Padded(c, k) <= c.threads
  {
    var u := UseOf(c, k);
    UniformTotal(c, live, c.ctas, k);
    BelowCounts(live, c.ctas);
    RepeatedIsTimes(|live|, u);
    assert (set i | i in live && i < c.ctas) == live.Keys;
    OneMoreIffBelowMax(c, k, |live|);
    if |live| * Padded(c, k) + Padded(c, k) <= c.threads {
      ThreadCountSuffices(c, live, start, occ, Padded(c, k));
    }
    NotAboveMax(c, k, |live|);
  }

  // a kernel of which one block is admitted passes the formula
  lemma {:induction false} AdmittedPassesFormula(c: Config, used: Use, occ: seq<bool>, k: Kernel)
    requires GoodConfig(c) && k.threads > 0 && Padded(c, k) > 0 && Admission(c, used, occ, k) == Yes
    ensures MaxCta(c, k) >= 1
  {
    var u := UseOf(c, k);
    assert Times(0, u) == NONE;
    OneMoreIffBelowMax(c, k, 0);
  }

  lemma {:induction false} NotAboveMax(c: Config, k: Kernel, m: nat)
    requires GoodConfig(c) && k.threads > 0 && Within(Times(m, UseOf(c, k)), c)
    ensures m <= MaxCta(c, k)
  {
    if m > 0 {
      var u := UseOf(c, k);
      RepeatedIsTimes(m - 1, u);
      RepeatedIsTimes(m, u);
      OneMoreIffBelowMax(c, k, m - 1);
    }
  }

  /** Without sharing, the window of block id j starts at j times the padded
      size: below MaxCta every such window is below the limit, and any two are
      apart. */
  lemma {:induction false} FixedWindowsFit(c: Config, k: Kernel, j: nat)
    requires GoodConfig(c) && k.threads > 0 && j < MaxCta(c, k)
    ensures j * Padded(c, k) + Padded(c, k) <= c.threads
    ensures forall i: nat {:trigger i * Padded(c, k)} :: i < j ==> i * Padded(c, k) + Padded(c, k) <= j * Padded(c, k)
  {
    PaddedIsWholeWarps(c, k);
    OneMoreFits(j, Padded(c, k), c.threads);
    forall i: nat | i < j
      ensures i * Padded(c, k) + Padded(c, k) <= j * Padded(c, k)
    {
      ProductMonotone(i, j, Padded(c, k));
    }
  }

  class Core {
    const c: Config
    const occupied: array<bool>
    const status: array<nat>
    var nThreads: nat
    var shmem: nat
    var regs: nat
    var ctas: nat
    var ctaToHwtid: Starts
    ghost var live: Residents

    function Counters(): Use
      reads this
    {
      Use(nThreads, shmem, regs, ctas)
    }

    ghost predicate Booked()
      reads this, occupied
    {
      Accounts(c, Counters(), live, ctaToHwtid, occupied[..])
    }

    // a block is resident as long as it has threads left
    ghost predicate StatusAgrees()
      reads this, status
    {
      && status.Length == c.ctas
      && (forall i :: i in live ==> i < c.ctas)
      && (forall i: nat {:trigger status[i]} :: i < c.ctas ==> (status[i] > 0 <==> i in live))
    }

    ghost predicate Valid()
      reads this, occupied, status
    {
      Booked() && StatusAgrees()
    }

    constructor (config: Config)
      requires GoodConfig(config)
      ensures c == config && Valid() && live == map[] && Counters() == NONE
      ensures forall i: nat :: i < occupied.Length ==> !occupied[i]
      ensures fresh(occupied) && fresh(status)
    {
      c := config;
      occupied := new bool[MAX_THREAD_PER_SM](_ => false);
      status := new nat[config.ctas](_ => 0);
      nThreads, shmem, regs, ctas := 0, 0, 0, 0;
      ctaToHwtid := map[];
      live := map[];
      new;
      NothingTaken(c, live, c.ctas);
    }

    static lemma {:induction false} NothingTaken(c: Config, live: Residents, m: nat)
      requires c.warpSize > 0 && live == map[]
      ensures TotalUse(c, live, m) == NONE
    {
      if m > 0 {
        NothingTaken(c, live, m - 1);
      }
    }

    // is the window at `step` free; the bit test throws past the last slot
    method ScanWindow(step: nat, size: nat) returns (free: bool, threw: bool)
      requires size > 0
      ensures free == (WindowFree(occupied[..], step, size) && step + size <= occupied.Length)
      ensures threw == (WindowFree(occupied[..], step, size) && step + size > occupied.Length)
    {
      var hw := step;
      while hw < step + size
        invariant step <= hw <= step + size
        invariant WindowFree(occupied[..], step, hw - step) && (step < hw ==> hw <= occupied.Length)
      {
        if hw >= occupied.Length {
          return false, true;
        }
        if occupied[hw] {
          break;
        }
        hw := hw + 1;
      }
      return hw == step + size, false;
    }

    /** find_available_hwtid */
    method FindAvailableHwtid(size: nat, occupy: bool) returns (r: Search)
      requires size > 0
      modifies occupied
      ensures r == FirstFit(old(occupied[..]), c.threads, size, 0)
      ensures occupied[..] == if occupy && r.Found? then Mark(old(occupied[..]), r.start, size, true)
                              else old(occupied[..])
    {
      var step := 0;
      ghost var occ := occupied[..];
      while step < c.threads
        invariant occupied[..] == occ
        invariant FirstFit(occ, c.threads, size, 0) == FirstFit(occ, c.threads, size, step)
        decreases c.threads + size - step
        modifies {}
      {
        var free, threw := ScanWindow(step, size);
        if threw {
          return OutOfRange;
        }
        if free {
          assert FirstFit(occ, c.threads, size, step) == Found(step);
          break;
        }
        step := step + size;
      }
      if step >= c.threads {
        assert FirstFit(occ, c.threads, size, step) == NotFound;
        return NotFound;
      }
      if occupy {
        Assign(step, size, true);
      }
      return Found(step);
    }

    // set or reset the bits of a window
    method Assign(start: nat, size: nat, v: bool)
      requires start + size <= occupied.Length
      modifies occupied
      ensures occupied[..] == Mark(old(occupied[..]), start, size, v)
    {
      for hw := start to start + size
        invariant forall x :: 0 <= x < occupied.Length ==>
                    occupied[x] == if start <= x < hw then v else old(occupied[x])
      {
        occupied[hw] := v;
      }
    }

    /** occupy_shader_resource_1block */
    method OccupyShaderResource1Block(k: Kernel, occupy: bool) returns (r: Answer)
      requires Booked() && k.threads > 0
      modifies `nThreads, `shmem, `regs, `ctas, occupied
      ensures Padded(c, k) > 0 && r == Admission(c, old(Counters()), old(occupied[..]), k)
      ensures Counters() == if occupy && r == Yes then Add(old(Counters()), UseOf(c, k)) else old(Counters())
      ensures occupied[..] == old(occupied[..])
      ensures var padded, four := Padded(c, k), RoundUp4(k.regs);
              && padded % c.warpSize == 0 && k.threads <= padded < k.threads + c.warpSize
              && four % 4 == 0 && k.regs <= four < k.regs + 4
              && (r == Yes <==>
                    && old(nThreads) + padded <= c.threads
                    && FirstFit(old(occupied[..]), c.threads, padded, 0).Found?
                    && old(shmem) + k.smem + k.smemqBytes <= c.shmem
                    && old(regs) + padded * four + k.rfqRegs <= c.regs
                    && old(ctas) + 1 <= c.ctas)
              && (occupy && r == Yes ==>
                    && nThreads == old(nThreads) + padded && shmem == old(shmem) + k.smem + k.smemqBytes
                    && regs == old(regs) + padded * four + k.rfqRegs && ctas == old(ctas) + 1)
    {
      PaddedIsWholeWarps(c, k);
      var padded := Padded(c, k);
      if nThreads + padded > c.threads {
        return No;
      }
      var found := FindAvailableHwtid(padded, false);
      if found == OutOfRange {
        return Threw;
      }
      if found == NotFound {
        return No;
      }
      if shmem + k.smem + k.smemqBytes > c.shmem {
        return No;
      }
      var usedRegs := padded * RoundUp4(k.regs) + k.rfqRegs;
      if regs + usedRegs > c.regs {
        return No;
      }
      if ctas + 1 > c.ctas {
        return No;
      }
      if occupy {
        nThreads := nThreads + padded;
        shmem := shmem + (k.smem + k.smemqBytes);
        regs := regs + usedRegs;
        ctas := ctas + 1;
      }
      return Yes;
    }

    /** can_issue_1block for a shared core: the formula's test never changes a
        positive answer. */
    method CanIssue1Block(k: Kernel) returns (r: Answer)
      requires Valid() && k.threads > 0
      modifies `nThreads, `shmem, `regs, `ctas, occupied
      ensures Valid() && Counters() == old(Counters()) && occupied[..] == old(occupied[..])
      ensures Padded(c, k) > 0 && (r == Yes <==> Admission(c, Counters(), occupied[..], k) == Yes)
      ensures r != No ==> r == Admission(c, Counters(), occupied[..], k)
    {
      PaddedIsWholeWarps(c, k);
      if Admission(c, Counters(), occupied[..], k) == Yes {
        AdmittedPassesFormula(c, Counters(), occupied[..], k);
      }
      if MaxCta(c, k) < 1 {
        return No;
      }
      r := OccupyShaderResource1Block(k, false);
    }

    // the first block id without threads
    method FreeCtaId() returns (id: nat)
      requires Valid() && ctas < c.ctas
      ensures id < c.ctas && id !in live && forall j: nat :: j < id ==> j in live
    {
      SomeIdFree(c, Counters(), live, ctaToHwtid, occupied[..]);
      id := 0;
      while id < c.ctas
        invariant id <= c.ctas && forall j: nat :: j < id ==> j in live
      {
        if status[id] == 0 {
          return;
        }
        id := id + 1;
      }
      assert false;
    }

    /** issue_block2core, for a block that can be issued: its assertions hold, and
        the block gets the lowest free id and the window the search found. */
    method IssueBlock2Core(k: Kernel) returns (id: nat)
      requires Valid() && k.threads > 0 && Padded(c, k) > 0
      requires Admission(c, Counters(), occupied[..], k) == Yes
      modifies this, occupied, status
      ensures Valid()
      ensures id < c.ctas && id !in old(live) && live == old(live)[id := k]
      ensures forall j: nat :: j < id ==> j in old(live)
      ensures Counters() == Add(old(Counters()), UseOf(c, k))
      ensures var s := FirstFit(old(occupied[..]), c.threads, Padded(c, k), 0).start;
              && ctaToHwtid == old(ctaToHwtid)[id := s]
              && occupied[..] == Mark(old(occupied[..]), s, Padded(c, k), true)
      ensures status[..] == old(status[..])[id := k.threads]
    {
      ghost var used, occ := Counters(), occupied[..];
      id := FreeCtaId();
      Admit(c, used, live, ctaToHwtid, occ, id, k);
      var fits := OccupyShaderResource1Block(k, true);
      assert fits == Yes;
      var window := FindAvailableHwtid(Padded(c, k), true);
      assert window.Found?;
      assert id !in ctaToHwtid;
      ctaToHwtid := ctaToHwtid[id := window.start];
      live := live[id := k];
      status[id] := k.threads;
    }

    /** release_shader_resource_1block: no counter goes below zero, and exactly
        the block's own window and share are given back. */
    method ReleaseShaderResource1Block(id: nat, k: Kernel)
      requires Booked() && id in live && live[id] == k
      modifies this, occupied
      ensures Booked() && live == old(live) - {id}
      ensures Add(Counters(), UseOf(c, k)) == old(Counters())
      ensures ctaToHwtid == old(ctaToHwtid) - {id}
      ensures occupied[..] == Mark(old(occupied[..]), old(ctaToHwtid)[id], Padded(c, k), false)
    {
      ghost var used, starts, occ := Counters(), ctaToHwtid, occupied[..];
      TotalShrinks(c, live, c.ctas, id);
      var padded := Padded(c, k);
      assert nThreads >= padded;
      nThreads := nThreads - padded;
      var start := ctaToHwtid[id];
      Assign(start, padded, false);
      ctaToHwtid := ctaToHwtid - {id};
      assert shmem >= k.smem + k.smemqBytes;
      shmem := shmem - (k.smem + k.smemqBytes);
      var usedRegs := padded * RoundUp4(k.regs) + k.rfqRegs;
      assert regs >= usedRegs;
      regs := regs - usedRegs;
      assert ctas >= 1;
      ctas := ctas - 1;
      Retire(c, used, live, starts, occ, id, Counters());
      live := live - {id};
    }

    /** register_cta_thread_exit: the last thread to leave releases the block. */
    method RegisterCtaThreadExit(id: nat, k: Kernel)
      requires Valid() && id in live && live[id] == k
      modifies this, occupied, status
      ensures Valid()
      ensures status[..] == old(status[..])[id := old(status[id]) - 1]
      ensures live == if old(status[id]) == 1 then old(live) - {id} else old(live)
      ensures if old(status[id]) == 1 then
                && Add(Counters(), UseOf(c, k)) == old(Counters()) && ctaToHwtid == old(ctaToHwtid) - {id}
                && occupied[..] == Mark(old(occupied[..]), old(ctaToHwtid)[id], Padded(c, k), false)
              else
                && Counters() == old(Counters()) && ctaToHwtid == old(ctaToHwtid)
                && occupied[..] == old(occupied[..])
    {
      assert status[id] > 0;
      status[id] := status[id] - 1;
      if status[id] == 0 {
        ReleaseShaderResource1Block(id, k);
      }
    }

    // all threads of a block leave
    method RunOut(id: nat, k: Kernel)
      requires Valid() && id in live && live[id] == k
      modifies this, occupied, status
      ensures Valid() && live == old(live) - {id} && ctaToHwtid == old(ctaToHwtid) - {id}
      ensures Add(Counters(), UseOf(c, k)) == old(Counters())
      ensures occupied[..] == Mark(old(occupied[..]), old(ctaToHwtid)[id], Padded(c, k), false)
    {
      while status[id] > 1
        invariant Valid() && live == old(live) && ctaToHwtid == old(ctaToHwtid)
        invariant Counters() == old(Counters()) && occupied[..] == old(occupied[..])
        decreases status[id]
      {
        RegisterCtaThreadExit(id, k);
      }
      RegisterCtaThreadExit(id, k);
    }

    /** Admitting one kernel again and again on an empty core: it succeeds exactly
        MaxCta times, then is refused. */
    method FillWithKernel(k: Kernel) returns (count: nat)
      requires Valid() && live == map[] && k.threads > 0
      modifies this, occupied, status
      ensures Valid() && count == |live| == MaxCta(c, k)
      ensures Padded(c, k) > 0 && Admission(c, Counters(), occupied[..], k) == No
      ensures forall i :: i in live ==> live[i] == k && ctaToHwtid[i] + Padded(c, k) <= c.threads
    {
      count := 0;
      PaddedIsWholeWarps(c, k);
      AdmissionIsBelowMax(c, Counters(), live, ctaToHwtid, occupied[..], k);
      var more := CanIssue1Block(k);
      while more == Yes
        invariant Valid() && count == |live| <= MaxCta(c, k)
        invariant more == if count < MaxCta(c, k) then Yes else No
        invariant Admission(c, Counters(), occupied[..], k) == more
        invariant forall i :: i in live ==> live[i] == k && i in ctaToHwtid && ctaToHwtid[i] + Padded(c, k) <= c.threads
        decreases MaxCta(c, k) - count
      {
        AdmissionIsBelowMax(c, Counters(), live, ctaToHwtid, occupied[..], k);
        var id := IssueBlock2Core(k);
        count := count + 1;
        AdmissionIsBelowMax(c, Counters(), live, ctaToHwtid, occupied[..], k);
        more := CanIssue1Block(k);
      }
    }
  }

  // ----- cores on which the search goes wrong -----

  // whole warps, and nothing but threads
  predicate Plain(c: Config, k: Kernel) {
    c.warpSize > 0 && k.threads > 0 && k.threads % c.warpSize == 0
    && k.smem == k.regs == k.rfqRegs == k.smemqBytes == 0
  }

  lemma {:induction false} PlainUse(c: Config, k: Kernel)
    requires Plain(c, k)
    ensures Padded(c, k) == k.threads && UseOf(c, k) == Use(k.threads, 0, 0, 1)
  {
    assert RoundUp4(0) == 0;
  }

  lemma {:induction false} PlainAdmission(c: Config, used: Use, occ: seq<bool>, k: Kernel)
    requires Plain(c, k) && Within(used, c) && used.threads + k.threads <= c.threads && used.ctas < c.ctas
    ensures Padded(c, k) == k.threads
    ensures Admission(c, used, occ, k) == match FirstFit(occ, c.threads, k.threads, 0)
                                          case Found(_) => Yes
                                          case NotFound => No
                                          case OutOfRange => Threw
  {
    PlainUse(c, k);
  }

  // issue a plain block whose window is known
  method IssueAt(core: Core, k: Kernel, ghost s: nat) returns (id: nat)
    requires core.Valid() && Plain(core.c, k)
    requires core.nThreads + k.threads <= core.c.threads && core.ctas < core.c.ctas
    requires FirstFit(core.occupied[..], core.c.threads, k.threads, 0) == Found(s)
    modifies core, core.occupied, core.status
    ensures core.Valid() && id !in old(core.live) && core.live == old(core.live)[id := k]
    ensures core.ctaToHwtid == old(core.ctaToHwtid)[id := s]
    ensures core.occupied[..] == Mark(old(core.occupied[..]), s, k.threads, true)
    ensures core.nThreads == old(core.nThreads) + k.threads && core.ctas == old(core.ctas) + 1
  {
    PlainUse(core.c, k);
    PlainAdmission(core.c, core.Counters(), core.occupied[..], k);
    id := core.IssueBlock2Core(k);
  }

  // let all threads of a plain block leave
  method RunOutPlain(core: Core, id: nat, k: Kernel)
    requires core.Valid() && Plain(core.c, k) && id in core.live && core.live[id] == k
    modifies core, core.occupied, core.status
    ensures core.Valid() && core.live == old(core.live) - {id} && core.ctaToHwtid == old(core.ctaToHwtid) - {id}
    ensures core.occupied[..] == Mark(old(core.occupied[..]), old(core.ctaToHwtid)[id], k.threads, false)
    ensures core.nThreads + k.threads == old(core.nThreads) && core.ctas + 1 == old(core.ctas)
  {
    PlainUse(core.c, k);
    core.RunOut(id, k);
  }

  // exactly the slots in [a, b) and [d, e) are occupied
  predicate Shows(occ: seq<bool>, a: nat, b: nat, d: nat, e: nat) {
    |occ| == MAX_THREAD_PER_SM && forall i: nat :: i < |occ| ==> (occ[i] <==> a <= i < b || d <= i < e)
  }

  lemma {:induction false} StartIsFree(occ: seq<bool>, limit: nat, size: nat)
    requires 0 < size <= limit <= |occ| && WindowFree(occ, 0, size)
    ensures FirstFit(occ, limit, size, 0) == Found(0)
  {
    FirstFitIsLeast(occ, limit, size, 0, 0);
  }

  lemma {:induction false} BehindBig(occ: seq<bool>)
    requires Shows(occ, 0, 768, 0, 0)
    ensures FirstFit(occ, 2048, 32, 0) == Found(768)
  {
    forall j: nat | j < 24
      ensures !WindowFree(occ, j * 32, 32)
    {
      assert occ[j * 32];
    }
    FirstFitIsLeast(occ, 2048, 32, 0, 24);
  }

  const SMALL := Kernel(32, 0, 0, 0, 0)
  const MIDDLE := Kernel(64, 0, 0, 0, 0)
  const BIG := Kernel(768, 0, 0, 0, 0)
  const WIDE := Config(2048, 32, 0, 0, 8)
  const NARROW := Config(96, 32, 0, 0, 8)

  // blocks of 768 and 32
  method BigThenSmall() returns (core: Core, big: nat)
    ensures fresh(core) && fresh(core.occupied) && fresh(core.status)
    ensures core.Valid() && core.c == WIDE && big in core.live && core.live[big] == BIG && core.ctaToHwtid[big] == 0
    ensures core.nThreads == 800 && core.ctas == 2 && Shows(core.occupied[..], 0, 768, 768, 800)
  {
    core := new Core(WIDE);
    StartIsFree(core.occupied[..], 2048, 768);
    big := IssueAt(core, BIG, 0);
    BehindBig(core.occupied[..]);
    var small := IssueAt(core, SMALL, 768);
  }

  /** Blocks of 768 and 32, and another 32 once the big one has left: after that,
      asking for 768 again makes the bit test throw. */
  method ThrowingCore() returns (core: Core)
    ensures core.Valid() && core.c == WIDE && Plain(WIDE, BIG)
    ensures Padded(WIDE, BIG) > 0 && Admission(WIDE, core.Counters(), core.occupied[..], BIG) == Threw
  {
    var big: nat;
    core, big := BigThenSmall();
    RunOutPlain(core, big, BIG);
    StartIsFree(core.occupied[..], 2048, 32);
    var small := IssueAt(core, SMALL, 0);
    MixedSizesThrow(core.occupied[..]);
    PlainAdmission(WIDE, core.Counters(), core.occupied[..], BIG);
  }

  /** A block of 32, then one of 64, on a core of 96 threads: the second block's
      window crosses the limit. */
  method CrossingCore() returns (core: Core, id: nat)
    ensures core.Valid() && core.c == NARROW && id in core.live && core.live[id] == MIDDLE
    ensures core.ctaToHwtid[id] + MIDDLE.threads > NARROW.threads
  {
    core := new Core(NARROW);
    StartIsFree(core.occupied[..], 96, 32);
    var small := IssueAt(core, SMALL, 0);
    MixedSizesCross(core.occupied[..]);
    id := IssueAt(core, MIDDLE, 64);
  }
}
