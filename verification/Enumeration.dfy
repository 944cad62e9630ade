/**
 Three-dimensional block and thread ids: the cursor that walks them, the linear
 ids, and the binding of a block's threads to hardware threads.
 */
module Enumeration {
  import opened Arith
  import opened Wrappers

  datatype Dim3 = Dim3(x: nat, y: nat, z: nat)

  const ORIGIN := Dim3(0, 0, 0)

  function Total(b: Dim3): nat {
    b.x * b.y * b.z
  }

  predicate Inside(d: Dim3, b: Dim3) {
    d.x < b.x && d.y < b.y && d.z < b.z
  }

  function Linear(d: Dim3, b: Dim3): nat {
    d.x + b.x * d.y + b.x * b.y * d.z
  }

  function Next(d: Dim3, b: Dim3): Dim3 {
    if d.x + 1 < b.x then Dim3(d.x + 1, d.y, d.z)
    else if d.y + 1 < b.y then Dim3(0, d.y + 1, d.z)
    else Dim3(0, 0, if d.z < b.z then d.z + 1 else d.z)
  }

  // where the cursor stands after k increments from the origin
  function Position(k: nat, b: Dim3): Dim3 {
    if k == 0 then ORIGIN else Next(Position(k - 1, b), b)
  }

  // inside, or just past the last id
  predicate OnTheWay(d: Dim3, b: Dim3) {
    d.x < b.x && d.y < b.y && (d.z < b.z || (d.z == b.z && d.x == 0 && d.y == 0))
  }

  lemma {:induction false} NextIsOneMore(d: Dim3, b: Dim3)
    requires Inside(d, b)
    ensures OnTheWay(Next(d, b), b) && Linear(Next(d, b), b) == Linear(d, b) + 1
  {
    if d.x + 1 < b.x {
    } else if d.y + 1 < b.y {
      assert b.x * (d.y + 1) == b.x * d.y + b.x;
    } else {
      var area := b.x * b.y;
      assert area * (d.z + 1) == area * d.z + area;
      assert b.x * d.y + b.x == b.x * (d.y + 1);
    }
  }

  lemma {:induction false} InsideIsBelowTotal(d: Dim3, b: Dim3)
    requires OnTheWay(d, b)
    ensures Inside(d, b) <==> Linear(d, b) < Total(b)
    ensures Linear(d, b) <= Total(b)
  {
    var area := b.x * b.y;
    assert b.x * d.y + b.x <= area by {
      ProductMonotone(d.y, b.y, b.x);
      assert b.x * d.y == d.y * b.x && b.y * b.x == area;
    }
    assert area * d.z == d.z * area && area * b.z == b.z * area;
    if d.z < b.z {
      ProductMonotone(d.z, b.z, area);
    }
  }

  /** After k increments the linear id is k, for as long as there are ids; the
      cursor is inside exactly for the first Total steps, and never again. */
  lemma {:induction false} PositionIsLinear(k: nat, b: Dim3)
    requires b.x > 0 && b.y > 0
    ensures Inside(Position(k, b), b) <==> k < Total(b)
    ensures k <= Total(b) ==> OnTheWay(Position(k, b), b) && Linear(Position(k, b), b) == k
    ensures k < b.x * b.y * b.z ==>
              var d := Position(k, b);
              d.x < b.x && d.y < b.y && d.z < b.z && d.x + b.x * d.y + b.x * b.y * d.z == k
    ensures Total(b) <= k ==> Position(k, b).z == b.z
  {
    if k == 0 {
      assert b.x * b.y > 0 by {
        ProductMonotone(0, b.x, b.y);
      }
      assert Linear(ORIGIN, b) == 0;
    } else {
      PositionIsLinear(k - 1, b);
      if k - 1 < Total(b) {
        NextIsOneMore(Position(k - 1, b), b);
      }
    }
    if k <= Total(b) {
      InsideIsBelowTotal(Position(k, b), b);
    }
  }

  /** A bound with a zero side has no ids at all. */
  lemma {:induction false} EmptyBound(k: nat, b: Dim3)
    requires b.x == 0 || b.y == 0 || b.z == 0
    ensures Total(b) == 0 && !Inside(Position(k, b), b)
  {
    assert b.x * b.y * b.z == 0;
  }

  /** The number of the last one: no_more_ctas_to_run first holds after Total
      increments, and stays true. */
  lemma {:induction false} RunsOutExactly(k: nat, b: Dim3)
    ensures Inside(Position(k, b), b) <==> k < Total(b)
    ensures Total(b) == b.x * b.y * b.z
  {
    if b.x > 0 && b.y > 0 {
      PositionIsLinear(k, b);
    } else {
      EmptyBound(k, b);
    }
  }

  lemma {:induction false} LinearIdentifies(d: Dim3, e: Dim3, b: Dim3)
    requires Inside(d, b) && Inside(e, b) && Linear(d, b) == Linear(e, b)
    ensures d == e
  {
    var area := b.x * b.y;
    ProductMonotone(d.y, b.y, b.x);
    ProductMonotone(e.y, b.y, b.x);
    Radix(d.x, d.y + b.y * d.z, b);
    Radix(e.x, e.y + b.y * e.z, b);
    RowOf(d, b);
    RowOf(e, b);
    DivMod(d.z, d.y, b.y);
    DivMod(e.z, e.y, b.y);
    assert b.y * d.z == d.z * b.y && b.y * e.z == e.z * b.y;
  }

  // the linear id as an id within the row and a row number
  lemma {:induction false} RowOf(d: Dim3, b: Dim3)
    ensures Linear(d, b) == d.x + b.x * (d.y + b.y * d.z)
  {
    assert b.x * (d.y + b.y * d.z) == b.x * d.y + b.x * (b.y * d.z);
    assert b.x * (b.y * d.z) == b.x * b.y * d.z;
  }

  lemma {:induction false} Radix(x: nat, row: nat, b: Dim3)
    requires x < b.x
    ensures (x + b.x * row) / b.x == row && (x + b.x * row) % b.x == x
  {
    assert b.x * row == row * b.x;
    DivMod(row, x, b.x);
  }

  /** Every id inside the bound is visited, at the step its linear id says and at
      no other. */
  lemma {:induction false} VisitedOnce(d: Dim3, b: Dim3, k: nat)
    requires Inside(d, b)
    ensures Linear(d, b) < Total(b)
    ensures Position(k, b) == d <==> k == Linear(d, b)
  {
    InsideIsBelowTotal(d, b);
    var n := Linear(d, b);
    PositionIsLinear(n, b);
    LinearIdentifies(Position(n, b), d, b);
    PositionIsLinear(k, b);
  }

  // ----- a kernel's cursors and its threads -----

  datatype Thread = Thread(cta: Dim3, tid: Dim3)

  // the first m threads of a block, in the order of their thread ids
  function ThreadsOf(cta: Dim3, block: Dim3, m: nat): (s: seq<Thread>)
    ensures |s| == m && forall i :: 0 <= i < m ==> s[i] == Thread(cta, Position(i, block))
  {
    seq(m, i requires 0 <= i < m => Thread(cta, Position(i, block)))
  }

  function Values(s: seq<Option<Thread>>): (r: seq<Thread>)
    requires forall i :: 0 <= i < |s| ==> s[i].Some?
    ensures |r| == |s| && forall i :: 0 <= i < |s| ==> r[i] == s[i].value
  {
    seq(|s|, i requires 0 <= i < |s| => s[i].value)
  }

  // the threads of the first m blocks
  function BlocksOf(grid: Dim3, block: Dim3, m: nat): seq<Thread> {
    if m == 0 then [] else BlocksOf(grid, block, m - 1) + ThreadsOf(Position(m - 1, grid), block, Total(block))
  }

  lemma {:induction false} BlocksOfAt(grid: Dim3, block: Dim3, m: nat, k: nat, i: nat)
    requires k < m && i < Total(block)
    ensures |BlocksOf(grid, block, m)| == m * Total(block)
    ensures k * Total(block) + i < m * Total(block)
    ensures BlocksOf(grid, block, m)[k * Total(block) + i] == Thread(Position(k, grid), Position(i, block))
  {
    var t := Total(block);
    ProductMonotone(k, m, t);
    BlocksOfLength(grid, block, m);
    BlocksOfLength(grid, block, m - 1);
    if k < m - 1 {
      BlocksOfAt(grid, block, m - 1, k, i);
    }
  }

  lemma {:induction false} BlocksOfLength(grid: Dim3, block: Dim3, m: nat)
    ensures |BlocksOf(grid, block, m)| == m * Total(block)
  {
    if m > 0 {
      BlocksOfLength(grid, block, m - 1);
      assert m * Total(block) == (m - 1) * Total(block) + Total(block);
    }
  }

  // an index into a launch is a block number and a thread number
  lemma {:induction false} Split(n: nat, blocks: nat, size: nat) returns (k: nat, i: nat)
    requires n < blocks * size
    ensures k < blocks && i < size && n == k * size + i
  {
    k, i := n / size, n % size;
    if blocks <= k {
      if blocks < k {
        ProductMonotone(blocks, k, size);
      }
      assert false;
    }
  }

  /** Every thread of every block is bound exactly once in a whole launch. */
  lemma {:induction false} EveryThreadOnce(grid: Dim3, block: Dim3, t: Thread, n: nat)
    requires Inside(t.cta, grid) && Inside(t.tid, block)
    requires n < |BlocksOf(grid, block, Total(grid))|
    ensures Linear(t.cta, grid) * Total(block) + Linear(t.tid, block) < |BlocksOf(grid, block, Total(grid))|
    ensures BlocksOf(grid, block, Total(grid))[n] == t <==>
            n == Linear(t.cta, grid) * Total(block) + Linear(t.tid, block)
  {
    var size, c, j := Total(block), Linear(t.cta, grid), Linear(t.tid, block);
    BlocksOfLength(grid, block, Total(grid));
    InsideIsBelowTotal(t.cta, grid);
    InsideIsBelowTotal(t.tid, block);
    BlocksOfAt(grid, block, Total(grid), c, j);
    var k, i := Split(n, Total(grid), size);
    BlocksOfAt(grid, block, Total(grid), k, i);
    VisitedOnce(t.cta, grid, k);
    VisitedOnce(t.tid, block, i);
    SamePlace(k, i, c, j, size);
  }

  lemma {:induction false} SamePlace(k: nat, i: nat, c: nat, j: nat, size: nat)
    requires i < size && j < size
    ensures k * size + i == c * size + j <==> k == c && i == j
  {
    DivMod(k, i, size);
    DivMod(c, j, size);
  }

  class Cursor {
    var x: nat
    var y: nat
    var z: nat

    constructor ()
      ensures Value() == ORIGIN
    {
      x, y, z := 0, 0, 0;
    }

    function Value(): Dim3
      reads this
    {
      Dim3(x, y, z)
    }

    /** increment_x_then_y_then_z */
    method Increment(bound: Dim3)
      modifies this
      ensures Value() == Next(old(Value()), bound)
      ensures old(x) + 1 < bound.x ==> Value() == Dim3(old(x) + 1, old(y), old(z))
      ensures old(x) + 1 >= bound.x && old(y) + 1 < bound.y ==> Value() == Dim3(0, old(y) + 1, old(z))
      ensures old(x) + 1 >= bound.x && old(y) + 1 >= bound.y ==>
                Value() == Dim3(0, 0, if old(z) < bound.z then old(z) + 1 else old(z))
    {
      x := x + 1;
      if x >= bound.x {
        x := 0;
        y := y + 1;
        if y >= bound.y {
          y := 0;
          if z < bound.z {
            z := z + 1;
          }
        }
      }
    }

    method Reset()
      modifies this
      ensures Value() == ORIGIN
    {
      x, y, z := 0, 0, 0;
    }
  }

  class KernelInfo {
    const gridDim: Dim3
    const blockDim: Dim3
    const nextCta: Cursor
    const nextTid: Cursor
    var activeThreads: seq<Thread>
    ghost var issued: nat

    ghost predicate Valid()
      reads this, nextCta, nextTid
    {
      && nextCta != nextTid && Total(blockDim) > 0
      && nextCta.Value() == Position(issued, gridDim)
      && nextTid.Value() == ORIGIN
    }

    constructor (grid: Dim3, block: Dim3)
      requires Total(block) > 0
      ensures gridDim == grid && blockDim == block
      ensures Valid() && issued == 0 && activeThreads == []
      ensures fresh(nextCta) && fresh(nextTid)
    {
      gridDim, blockDim := grid, block;
      nextCta := new Cursor();
      nextTid := new Cursor();
      activeThreads := [];
      issued := 0;
    }

    // no_more_ctas_to_run
    predicate NoMoreCtas()
      reads this, nextCta
    {
      nextCta.x >= gridDim.x || nextCta.y >= gridDim.y || nextCta.z >= gridDim.z
    }

    // more_threads_in_cta
    predicate MoreThreads()
      reads this, nextTid
    {
      nextTid.z < blockDim.z && nextTid.y < blockDim.y && nextTid.x < blockDim.x
    }

    method IncrementCtaId()
      requires nextCta != nextTid
      modifies nextCta, nextTid, `issued
      ensures nextCta.Value() == Next(old(nextCta.Value()), gridDim) && nextTid.Value() == ORIGIN
      ensures issued == old(issued) + 1
    {
      nextCta.Increment(gridDim);
      nextTid.Reset();
      issued := issued + 1;
    }

    // the thread-creation loop of ptx_sim_init_thread
    method CreateThreads()
      requires Valid() && activeThreads == []
      modifies nextTid, `activeThreads
      ensures nextCta.Value() == old(nextCta.Value())
      ensures activeThreads == ThreadsOf(nextCta.Value(), blockDim, Total(blockDim))
    {
      ghost var k: nat := 0;
      RunsOutExactly(0, blockDim);
      while MoreThreads()
        invariant nextTid.Value() == Position(k, blockDim) && k <= Total(blockDim)
        invariant MoreThreads() <==> k < Total(blockDim)
        invariant nextCta.Value() == old(nextCta.Value())
        invariant activeThreads == ThreadsOf(nextCta.Value(), blockDim, k)
        decreases Total(blockDim) - k
      {
        activeThreads := activeThreads + [Thread(nextCta.Value(), nextTid.Value())];
        nextTid.Increment(blockDim);
        k := k + 1;
        RunsOutExactly(k, blockDim);
      }
    }

    /** ptx_sim_init_thread: the next thread waiting to be bound, if any; a whole
        block is created when none waits. */
    method SimInitThread(threadsLeft: nat) returns (r: Option<Thread>)
      requires Valid() && |activeThreads| <= threadsLeft
      modifies nextCta, nextTid, `issued, `activeThreads
      ensures Valid()
      ensures old(activeThreads) != [] ==>
                r == Some(old(activeThreads)[0]) && activeThreads == old(activeThreads)[1..] && issued == old(issued)
      ensures old(activeThreads) == [] && (old(NoMoreCtas()) || threadsLeft < Total(blockDim)) ==>
                r == None && activeThreads == [] && issued == old(issued)
      ensures old(activeThreads) == [] && !old(NoMoreCtas()) && Total(blockDim) <= threadsLeft ==>
                var all := ThreadsOf(Position(old(issued), gridDim), blockDim, Total(blockDim));
                r == Some(all[0]) && activeThreads == all[1..] && issued == old(issued) + 1
    {
      if activeThreads == [] {
        if NoMoreCtas() {
          return None;
        }
        if threadsLeft < Total(blockDim) {
          return None;
        }
        CreateThreads();
        IncrementCtaId();
        assert |activeThreads| <= threadsLeft;
      }
      r := Some(activeThreads[0]);
      activeThreads := activeThreads[1..];
    }

    /** The binding loop of issue_block2core: hardware thread start + i gets thread
        i of the next block, and the whole block is bound. */
    method IssueThreads(slots: array<Option<Thread>>, start: nat) returns (bound: nat)
      requires Valid() && activeThreads == [] && !NoMoreCtas()
      requires start + Total(blockDim) <= slots.Length
      modifies nextCta, nextTid, `issued, `activeThreads, slots
      ensures Valid() && activeThreads == [] && issued == old(issued) + 1
      ensures bound == Total(blockDim)
      ensures forall i: nat :: i < bound ==>
                slots[start + i] == Some(Thread(Position(old(issued), gridDim), Position(i, blockDim)))
      ensures forall i: nat :: i < slots.Length && !(start <= i < start + bound) ==> slots[i] == old(slots[i])
    {
      var size := Total(blockDim);
      bound := 0;
      ghost var all := ThreadsOf(Position(issued, gridDim), blockDim, size);
      for i := start to start + size
        invariant Valid() && bound == i - start
        invariant if i == start then activeThreads == [] && issued == old(issued) && !NoMoreCtas()
                  else activeThreads == all[i - start..] && issued == old(issued) + 1
        invariant forall j: nat :: j < bound ==> slots[start + j] == Some(all[j])
        invariant forall j: nat :: j < slots.Length && !(start <= j < i) ==> slots[j] == old(slots[j])
      {
        var r := SimInitThread(size - (i - start));
        assert r == Some(all[i - start]);
        slots[i] := r;
        bound := bound + 1;
      }
    }

    // one block on threads of its own
    method RunBlock() returns (threads: seq<Thread>)
      requires Valid() && activeThreads == [] && !NoMoreCtas()
      modifies nextCta, nextTid, `issued, `activeThreads
      ensures Valid() && activeThreads == [] && issued == old(issued) + 1
      ensures threads == ThreadsOf(Position(old(issued), gridDim), blockDim, Total(blockDim))
    {
      var slots := new Option<Thread>[Total(blockDim)](_ => None);
      var bound := IssueThreads(slots, 0);
      forall i: nat | i < bound
        ensures slots[i] == Some(Thread(Position(old(issued), gridDim), Position(i, blockDim)))
      {
        assert slots[0 + i] == Some(Thread(Position(old(issued), gridDim), Position(i, blockDim)));
      }
      threads := Values(slots[..]);
    }

    /** gpgpu_cuda_ptx_sim_main_func's loop over blocks: a whole launch binds the
        threads of all blocks, each once, in the order of their ids. */
    method RunKernel() returns (log: seq<Thread>)
      requires Valid() && activeThreads == [] && issued == 0
      modifies nextCta, nextTid, `issued, `activeThreads
      ensures Valid() && NoMoreCtas() && issued == Total(gridDim)
      ensures log == BlocksOf(gridDim, blockDim, Total(gridDim))
    {
      log := [];
      RunsOutExactly(0, gridDim);
      while !NoMoreCtas()
        invariant Valid() && activeThreads == [] && issued <= Total(gridDim)
        invariant NoMoreCtas() <==> issued >= Total(gridDim)
        invariant log == BlocksOf(gridDim, blockDim, issued)
        decreases Total(gridDim) - issued
      {
        var threads := RunBlock();
        log := log + threads;
        RunsOutExactly(issued, gridDim);
      }
    }
  }
}
