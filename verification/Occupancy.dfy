/**
 What a thread block takes from a core, how many blocks of one kernel fit, and
 the first-fit search for a window of hardware threads.
 */
module Occupancy {
  import opened Arith

  const MAX_THREAD_PER_SM := 2048
  const UNLIMITED := 0xFFFF_FFFF

  // the core's limits; `regs` registers, `shmem` bytes of shared memory
  datatype Config = Config(threads: nat, warpSize: nat, shmem: nat, regs: nat, ctas: nat)

  // a kernel's block: threads and static footprint, plus what the queues add
  datatype Kernel = Kernel(threads: nat, smem: nat, regs: nat, rfqRegs: nat, smemqBytes: nat)

  // the core refuses configurations with more threads than it has slots for;
  // the limits are 32-bit values
  predicate GoodConfig(c: Config) {
    c.warpSize > 0 && c.threads <= MAX_THREAD_PER_SM && c.ctas <= UNLIMITED
  }

  function Padded(c: Config, k: Kernel): nat
    requires c.warpSize > 0
  {
    if k.threads % c.warpSize != 0 then (k.threads / c.warpSize + 1) * c.warpSize else k.threads
  }

  /** Padding rounds up to whole warps, and by less than a warp. */
  lemma {:induction false} PaddedIsWholeWarps(c: Config, k: Kernel)
    requires c.warpSize > 0
    ensures Padded(c, k) % c.warpSize == 0
    ensures k.threads <= Padded(c, k) < k.threads + c.warpSize
  {
    var q := k.threads / c.warpSize;
    assert k.threads == q * c.warpSize + k.threads % c.warpSize;
    DivMod(q + 1, 0, c.warpSize);
  }

  // registers are handed out in fours
  function RoundUp4(regs: nat): (r: nat)
    ensures r % 4 == 0 && regs <= r < regs + 4
  {
    (regs + 3) / 4 * 4
  }

  // four counters: threads, shared memory, registers, blocks
  datatype Use = Use(threads: nat, shmem: nat, regs: nat, ctas: nat)

  function Add(a: Use, b: Use): Use {
    Use(a.threads + b.threads, a.shmem + b.shmem, a.regs + b.regs, a.ctas + b.ctas)
  }

  function UseOf(c: Config, k: Kernel): Use
    requires c.warpSize > 0
  {
    Use(Padded(c, k), k.smem + k.smemqBytes, Padded(c, k) * RoundUp4(k.regs) + k.rfqRegs, 1)
  }

  predicate Within(u: Use, c: Config) {
    u.threads <= c.threads && u.shmem <= c.shmem && u.regs <= c.regs && u.ctas <= c.ctas
  }

  // ----- the closed formulas -----

  function Min(a: nat, b: nat): nat {
    if a < b then a else b
  }

  function Limit(cap: nat, piece: nat): nat {
    if piece > 0 then cap / piece else UNLIMITED
  }

  // registers of a block without the queues
  function StaticRegs(c: Config, k: Kernel): nat
    requires c.warpSize > 0
  {
    if k.regs > 0 then Padded(c, k) * RoundUp4(k.regs) else 0
  }

  function ThreadLimit(c: Config, k: Kernel): nat
    requires c.warpSize > 0 && k.threads > 0
  {
    PaddedIsWholeWarps(c, k);
    c.threads / Padded(c, k)
  }

  // shader_core_config::max_cta
  function MaxCta(c: Config, k: Kernel): nat
    requires c.warpSize > 0 && k.threads > 0
  {
    Min(Min(Min(ThreadLimit(c, k), Limit(c.shmem, k.smem + k.smemqBytes)),
            Limit(c.regs, StaticRegs(c, k) + k.rfqRegs)), c.ctas)
  }

  // max_cta of the functional simulator, which does not know the queues
  function MaxCtaFunctional(c: Config, k: Kernel): nat
    requires c.warpSize > 0 && k.threads > 0
  {
    Min(Min(Min(ThreadLimit(c, k), Limit(c.shmem, k.smem)), Limit(c.regs, StaticRegs(c, k))), c.ctas)
  }

  lemma {:induction false} FourRegsAtLeast(c: Config, k: Kernel)
    requires c.warpSize > 0 && k.threads > 0 && k.regs > 0
    ensures Padded(c, k) > 0 && RoundUp4(k.regs) >= 4 && Padded(c, k) * RoundUp4(k.regs) > 0
  {
    PaddedIsWholeWarps(c, k);
    ProductMonotone(0, Padded(c, k), RoundUp4(k.regs));
  }

  // m blocks and one more
  function Times(m: nat, u: Use): Use {
    Use(m * u.threads, m * u.shmem, m * u.regs, m * u.ctas)
  }

  lemma {:induction false} LimitIsExact(m: nat, piece: nat, cap: nat)
    requires m < UNLIMITED
    ensures m * piece <= cap ==> (m * piece + piece <= cap <==> m < Limit(cap, piece))
  {
    if piece > 0 {
      OneMoreFits(m, piece, cap);
    }
  }

  /** The closed formula is exact: with m blocks of a kernel resident, one more
      is within every limit if and only if m < MaxCta. */
  lemma {:induction false} OneMoreIffBelowMax(c: Config, k: Kernel, m: nat)
    requires GoodConfig(c) && k.threads > 0 && Within(Times(m, UseOf(c, k)), c)
    ensures Within(Add(Times(m, UseOf(c, k)), UseOf(c, k)), c) <==> m < MaxCta(c, k)
  {
    PaddedIsWholeWarps(c, k);
    var u := UseOf(c, k);
    OneMoreFits(m, u.threads, c.threads);
    if m < UNLIMITED {
      LimitIsExact(m, u.shmem, c.shmem);
      LimitIsExact(m, u.regs, c.regs);
    }
    if k.regs == 0 {
      assert RoundUp4(k.regs) == 0;
      assert Padded(c, k) * 0 == 0;
    }
  }

  lemma {:induction false} SmallerPieceHigherLimit(cap: nat, p: nat, q: nat)
    requires 0 < p <= q
    ensures cap / q <= cap / p
  {
    var m := cap / q;
    if m > 0 {
      OneMoreFits(m - 1, q, cap);
      assert (m - 1) * p + p == m * p && (m - 1) * q + q == m * q;
      assert m * p <= m * q;
      OneMoreFits(m - 1, p, cap);
    }
  }

  /** The functional simulator's formula never promises less, and promises the
      same when the kernel uses no queues. */
  lemma {:induction false} FormulasAgree(c: Config, k: Kernel)
    requires GoodConfig(c) && k.threads > 0 && c.shmem <= UNLIMITED && c.regs <= UNLIMITED
    ensures MaxCta(c, k) <= MaxCtaFunctional(c, k)
    ensures MaxCtaFunctional(c, k) == MaxCta(c, k.(rfqRegs := 0, smemqBytes := 0))
    ensures k.rfqRegs == 0 && k.smemqBytes == 0 ==> MaxCta(c, k) == MaxCtaFunctional(c, k)
  {
    if k.smem > 0 {
      SmallerPieceHigherLimit(c.shmem, k.smem, k.smem + k.smemqBytes);
    } else if k.smemqBytes > 0 {
      SmallerPieceHigherLimit(c.shmem, 1, k.smemqBytes);
    }
    if k.regs > 0 {
      FourRegsAtLeast(c, k);
      var normal := Padded(c, k) * RoundUp4(k.regs);
      SmallerPieceHigherLimit(c.regs, normal, normal + k.rfqRegs);
    } else if k.rfqRegs > 0 {
      SmallerPieceHigherLimit(c.regs, 1, k.rfqRegs);
    }
  }

  // ----- windows of hardware threads -----

  // no occupied slot in [a, a + n), as far as there are slots
  predicate WindowFree(occ: seq<bool>, a: nat, n: nat) {
    forall i: nat :: a <= i < a + n && i < |occ| ==> !occ[i]
  }

  datatype Search = Found(start: nat) | NotFound | OutOfRange

  /** What find_available_hwtid returns, from window start `step` on.  A window
      reaching past the last slot makes the bit test throw, unless an occupied
      slot stops the test first. */
  function FirstFit(occ: seq<bool>, limit: nat, size: nat, step: nat): Search
    requires size > 0
    decreases if step < limit then limit - step else 0
  {
    if step >= limit then NotFound
    else if !WindowFree(occ, step, size) then FirstFit(occ, limit, size, step + size)
    else if step + size <= |occ| then Found(step)
    else OutOfRange
  }

  /** A window found is free, inside the slots, a whole number of sizes in. */
  lemma {:induction false} FoundIsFree(occ: seq<bool>, limit: nat, size: nat, j: nat)
    requires size > 0
    ensures match FirstFit(occ, limit, size, j * size)
            case Found(s) =>
              && j * size <= s < limit && s + size <= |occ| && WindowFree(occ, s, size)
              && exists m: nat :: s == m * size
            case OutOfRange => |occ| < limit + size
            case NotFound => true
    decreases if j * size < limit then limit - j * size else 0
  {
    if j * size < limit && !WindowFree(occ, j * size, size) {
      assert j * size + size == (j + 1) * size;
      FoundIsFree(occ, limit, size, j + 1);
    }
  }

  /** If the m-th window is free and inside the slots and the limit, the search
      finds it or an earlier one. */
  lemma {:induction false} FreeWindowIsFound(occ: seq<bool>, limit: nat, size: nat, j: nat, m: nat)
    requires size > 0 && j <= m && m * size + size <= limit <= |occ| && WindowFree(occ, m * size, size)
    ensures FirstFit(occ, limit, size, j * size).Found?
    ensures FirstFit(occ, limit, size, j * size).start <= m * size
    decreases m - j
  {
    if j < m {
      ProductMonotone(j, m, size);
      if !WindowFree(occ, j * size, size) {
        assert j * size + size == (j + 1) * size;
        FreeWindowIsFound(occ, limit, size, j + 1, m);
      }
    }
  }

  /** The search returns the first free window, if it is below the limit. */
  lemma {:induction false} FirstFitIsLeast(occ: seq<bool>, limit: nat, size: nat, j: nat, m: nat)
    requires size > 0 && j <= m && m * size + size <= limit <= |occ| && WindowFree(occ, m * size, size)
    requires forall i: nat :: j <= i < m ==> !WindowFree(occ, i * size, size)
    ensures FirstFit(occ, limit, size, j * size) == Found(m * size)
    decreases m - j
  {
    if j < m {
      ProductMonotone(j, m, size);
      assert j * size + size == (j + 1) * size;
      FirstFitIsLeast(occ, limit, size, j + 1, m);
    }
  }

  // window m is the first free one from j on, and it lies inside the slots
  ghost predicate IsFirst(occ: seq<bool>, limit: nat, size: nat, j: nat, m: nat) {
    && j <= m && m * size < limit && m * size + size <= |occ|
    && WindowFree(occ, m * size, size)
    && forall i: nat {:trigger WindowFree(occ, i * size, size)} :: j <= i < m ==> !WindowFree(occ, i * size, size)
  }

  /** The search returns a window exactly if it is the first free one that starts
      below the limit, and it lies inside the slots. */
  lemma {:induction false} FoundExactly(occ: seq<bool>, limit: nat, size: nat, j: nat, m: nat)
    requires size > 0
    ensures FirstFit(occ, limit, size, j * size) == Found(m * size) <==> IsFirst(occ, limit, size, j, m)
    decreases if j * size < limit then limit - j * size else 0
  {
    assert j * size + size == (j + 1) * size;
    FoundIsFree(occ, limit, size, j);
    if j * size >= limit {
      if j < m {
        ProductMonotone(j, m, size);
      }
    } else if WindowFree(occ, j * size, size) {
      if m < j {
        ProductMonotone(m, j, size);
      } else if j < m {
        ProductMonotone(j, m, size);
      }
    } else {
      FoundExactly(occ, limit, size, j + 1, m);
    }
  }

  /** Exactly when the window returned lies below the thread limit: some aligned
      window below the limit is free. */
  lemma {:induction false} WindowBelowLimit(occ: seq<bool>, limit: nat, size: nat)
    requires size > 0 && limit <= |occ|
    ensures (FirstFit(occ, limit, size, 0).Found? && FirstFit(occ, limit, size, 0).start + size <= limit)
            <==> exists m: nat :: m * size + size <= limit && WindowFree(occ, m * size, size)
  {
    FoundIsFree(occ, limit, size, 0);
    assert 0 * size == 0;
    if m: nat :| m * size + size <= limit && WindowFree(occ, m * size, size) {
      FreeWindowIsFound(occ, limit, size, 0, m);
    }
  }

  /** If the size divides the limit, no window found crosses it. */
  lemma {:induction false} DividingSizeStaysBelow(occ: seq<bool>, limit: nat, size: nat, n: nat)
    requires size > 0 && limit == n * size <= |occ|
    ensures FirstFit(occ, limit, size, 0).Found? ==> FirstFit(occ, limit, size, 0).start + size <= limit
    ensures !FirstFit(occ, limit, size, 0).OutOfRange?
  {
    NeverAcross(occ, limit, size, n, 0);
    assert 0 * size == 0;
  }

  lemma {:induction false} NeverAcross(occ: seq<bool>, limit: nat, size: nat, n: nat, j: nat)
    requires size > 0 && limit == n * size <= |occ|
    ensures var r := FirstFit(occ, limit, size, j * size);
            !r.OutOfRange? && (r.Found? ==> r.start + size <= limit)
    decreases if j < n then n - j else 0
  {
    if j < n {
      ProductMonotone(j, n, size);
      assert j * size + size == (j + 1) * size;
      NeverAcross(occ, limit, size, n, j + 1);
    } else if n < j {
      ProductMonotone(n, j, size);
    }
  }

  /** With mixed sizes the window can cross the limit: 96 threads, a block of 32
      resident at 0; a block of 64 passes the thread count and gets slots 64 to
      127. */
  lemma {:induction false} MixedSizesCross(occ: seq<bool>)
    requires |occ| == MAX_THREAD_PER_SM && forall i: nat :: i < |occ| ==> (occ[i] <==> i < 32)
    ensures 32 + 64 <= 96
    ensures FirstFit(occ, 96, 64, 0) == Found(64) && 64 + 64 > 96
  {
    assert occ[0];
    assert !WindowFree(occ, 0, 64);
    assert WindowFree(occ, 64, 64);
  }

  // window m is the first free one from j on, and it reaches past the last slot
  ghost predicate Overruns(occ: seq<bool>, limit: nat, size: nat, j: nat, m: nat) {
    && j <= m && m * size < limit && |occ| < m * size + size
    && WindowFree(occ, m * size, size)
    && forall i: nat {:trigger WindowFree(occ, i * size, size)} :: j <= i < m ==> !WindowFree(occ, i * size, size)
  }

  /** The search throws exactly when the first aligned window that starts below
      the limit and has no occupied slot reaches past the last slot. */
  lemma {:induction false} ThrowsExactly(occ: seq<bool>, limit: nat, size: nat, j: nat)
    requires size > 0
    ensures FirstFit(occ, limit, size, j * size).OutOfRange? <==> exists m: nat :: Overruns(occ, limit, size, j, m)
    decreases if j * size < limit then limit - j * size else 0
  {
    if j * size >= limit {
      forall m: nat
        ensures !Overruns(occ, limit, size, j, m)
      {
        if j < m {
          ProductMonotone(j, m, size);
        }
      }
    } else if WindowFree(occ, j * size, size) {
      assert forall m: nat :: Overruns(occ, limit, size, j, m) ==> m == j;
      assert j * size + size > |occ| ==> Overruns(occ, limit, size, j, j);
    } else {
      assert j * size + size == (j + 1) * size;
      assert FirstFit(occ, limit, size, j * size) == FirstFit(occ, limit, size, (j + 1) * size);
      var next := j + 1;
      ThrowsExactly(occ, limit, size, next);
      if m: nat :| Overruns(occ, limit, size, j, m) {
        SkipTaken(occ, limit, size, j, m);
      }
      if m: nat :| Overruns(occ, limit, size, next, m) {
        SkipTaken(occ, limit, size, j, m);
      }
    }
  }

  lemma {:induction false} SkipTaken(occ: seq<bool>, limit: nat, size: nat, j: nat, m: nat)
    requires size > 0 && !WindowFree(occ, j * size, size)
    ensures Overruns(occ, limit, size, j, m) <==> Overruns(occ, limit, size, j + 1, m)
  {
  }

  /** It can throw with mixed sizes: 2048 threads, two blocks of 32 resident at 0
      and 768; a block of 768 passes the thread count. */
  lemma {:induction false} MixedSizesThrow(occ: seq<bool>)
    requires |occ| == MAX_THREAD_PER_SM && forall i: nat :: i < |occ| ==> (occ[i] <==> i < 32 || 768 <= i < 800)
    ensures 64 + 768 <= 2048 && FirstFit(occ, 2048, 768, 0) == OutOfRange
  {
    assert occ[0] && occ[768];
    assert !WindowFree(occ, 0, 768) && !WindowFree(occ, 768, 768);
    assert WindowFree(occ, 1536, 768);
    assert FirstFit(occ, 2048, 768, 1536) == OutOfRange;
    assert FirstFit(occ, 2048, 768, 768) == OutOfRange;
  }
}
