/**
 What create_basic_blocks and connect_basic_blocks compute: the leaders the
 first scan finds, the blocks the second scan cuts, and when those blocks are a
 proper partition of the code.
 */
module BasicBlocks {
  import opened FlowGraph
  import opened PtxProgram

  const NULL := -1

  // `first` and `last` are the positions of ptx_begin and ptx_end
  datatype Block = Block(first: int, last: int, isEntry: bool, isExit: bool)

  const EXIT_BLOCK := Block(NULL, NULL, false, true)

  // ----- first scan: leaders -----

  // Position 0 always leads, and is itself never examined by the scan.
  predicate IsLeader(prog: Program, p: nat)
    requires p < |prog|
  {
    || p == 0
    || (prog[p].Label? && (p == 1 || prog[p - 1].Inst?))
    || (prog[p].Inst? && p >= 2 && Ends(prog[p - 1]))
  }

  function Leaders(prog: Program, n: nat): (L: seq<nat>)
    requires n <= |prog|
    ensures forall k :: 0 <= k < |L| ==> L[k] < n
    ensures n > 0 ==> |L| > 0 && L[0] == 0
  {
    if n == 0 then []
    else if IsLeader(prog, n - 1) then Leaders(prog, n - 1) + [n - 1]
    else Leaders(prog, n - 1)
  }

  lemma {:induction false} LeaderAt(prog: Program, n: nat, k: nat)
    requires n <= |prog| && k < |Leaders(prog, n)|
    ensures Leaders(prog, n)[k] < n && IsLeader(prog, Leaders(prog, n)[k])
  {
    if IsLeader(prog, n - 1) && k == |Leaders(prog, n)| - 1 {
    } else {
      LeaderAt(prog, n - 1, k);
    }
  }

  lemma {:induction false} LeadersSorted(prog: Program, n: nat, j: nat, k: nat)
    requires n <= |prog| && j < k < |Leaders(prog, n)|
    ensures Leaders(prog, n)[j] < Leaders(prog, n)[k]
  {
    if IsLeader(prog, n - 1) && k == |Leaders(prog, n)| - 1 {
      assert Leaders(prog, n)[j] == Leaders(prog, n - 1)[j];
    } else {
      LeadersSorted(prog, n - 1, j, k);
    }
  }

  // A leader's index in the list is the number of leaders before it.
  lemma {:induction false} LeaderIndex(prog: Program, n: nat, p: nat)
    requires p < n <= |prog| && IsLeader(prog, p)
    ensures var j := |Leaders(prog, p)|; j < |Leaders(prog, n)| && Leaders(prog, n)[j] == p
  {
    LeadersPrefix(prog, p + 1, n);
    assert Leaders(prog, p + 1) == Leaders(prog, p) + [p];
  }

  lemma {:induction false} LeadersPrefix(prog: Program, m: nat, n: nat)
    requires m <= n <= |prog|
    ensures |Leaders(prog, m)| <= |Leaders(prog, n)|
    ensures Leaders(prog, m) == Leaders(prog, n)[..|Leaders(prog, m)|]
    decreases n - m
  {
    if m < n {
      LeadersPrefix(prog, m, n - 1);
    }
  }

  // the leaders that get a block: all but a label with no code behind it
  function BlockCount(prog: Program): (m: nat)
    requires HasCode(prog)
  {
    var L := Leaders(prog, |prog|);
    if NextReal(prog, L[|L| - 1]) == |prog| then |L| - 1 else |L|
  }

  function LeaderAfter(prog: Program, k: nat): (q: nat)
    requires HasCode(prog) && k < |Leaders(prog, |prog|)|
    ensures q <= |prog|
  {
    var L := Leaders(prog, |prog|);
    if k + 1 < |L| then L[k + 1] else |prog|
  }

  /** The exact outcome of the second scan, for every program with code. */
  ghost predicate CutAtLeaders(prog: Program, blocks: seq<Block>, bb: seq<nat>) {
    && HasCode(prog)
    && var L := Leaders(prog, |prog|);
    && |blocks| == BlockCount(prog) + 1
    && |bb| == |prog|
    && blocks[|blocks| - 1] == EXIT_BLOCK
    && (forall k: nat {:trigger blocks[k]} :: k < |blocks| - 1 ==>
          blocks[k] == Block(NextReal(prog, L[k]), LastReal(prog, LeaderAfter(prog, k)), k == 0, false))
    && (forall p: nat {:trigger bb[p]} :: p < |prog| && prog[p].Inst? ==> bb[p] == |Leaders(prog, p + 1)| - 1)
  }

  // ----- the two scans in progress -----

  // leaders found once the first scan stands at position i
  function LeadersBefore(prog: Program, i: nat): seq<nat>
    requires i <= |prog|
  {
    if i < |prog| && prog[i].Inst? then Leaders(prog, i + 1) else Leaders(prog, i)
  }

  // Labels behind a label are no leaders, nor is the instruction behind them.
  lemma {:induction false} SkipLabels(prog: Program, i: nat)
    requires 0 < i <= |prog| && prog[i - 1].Label?
    requires i < |prog| && prog[i].Label? ==> i >= 2
    ensures LeadersBefore(prog, NextReal(prog, i)) == Leaders(prog, i)
    decreases |prog| - i
  {
    if i < |prog| && prog[i].Label? {
      assert Leaders(prog, i + 1) == Leaders(prog, i);
      SkipLabels(prog, i + 1);
    }
  }

  // The three steps of the first scan.
  lemma {:induction false} ScanLabel(prog: Program, i: nat)
    requires 0 < i < |prog| && prog[i].Label? && (i == 1 || prog[i - 1].Inst?)
    ensures LeadersBefore(prog, NextReal(prog, i + 1)) == LeadersBefore(prog, i) + [i]
  {
    SkipLabels(prog, i + 1);
    assert IsLeader(prog, i);
  }

  lemma {:induction false} ScanEnd(prog: Program, i: nat)
    requires 0 < i < |prog| && Ends(prog[i])
    ensures LeadersBefore(prog, NextReal(prog, i + 1)) ==
            LeadersBefore(prog, i) + if i + 1 < |prog| then [i + 1] else []
  {
    if i + 1 < |prog| {
      assert IsLeader(prog, i + 1);
      assert Leaders(prog, i + 2) == Leaders(prog, i + 1) + [i + 1];
      if prog[i + 1].Label? {
        SkipLabels(prog, i + 2);
      }
    }
  }

  lemma {:induction false} ScanOther(prog: Program, i: nat)
    requires 0 < i < |prog| && prog[i].Inst? && !Ends(prog[i])
    ensures LeadersBefore(prog, i + 1) == LeadersBefore(prog, i)
  {
    if i + 1 < |prog| && prog[i + 1].Inst? {
      assert !IsLeader(prog, i + 1);
    }
  }

  lemma {:induction false} ScanStart(prog: Program)
    requires |prog| > 0
    ensures LeadersBefore(prog, 1) == [0]
  {
    assert Leaders(prog, 0) == [];
    assert Leaders(prog, 1) == [0];
    assert |prog| > 1 && prog[1].Inst? ==> Leaders(prog, 2) == [0];
  }

  // how many blocks the first l leaders get
  function Opened(prog: Program, l: nat): (m: nat)
    requires l <= |Leaders(prog, |prog|)|
  {
    var L := Leaders(prog, |prog|);
    if l > 0 && NextReal(prog, L[l - 1]) == |prog| then l - 1 else l
  }

  // block k as its leader opens it and, when closed, the next leader closes it
  ghost predicate CutAt(prog: Program, blocks: seq<Block>, k: nat) {
    && HasCode(prog) && k < |blocks| && k < |Leaders(prog, |prog|)|
    && blocks[k].first == NextReal(prog, Leaders(prog, |prog|)[k])
    && blocks[k].isEntry == (k == 0) && !blocks[k].isExit
    && (k < |blocks| - 1 ==> blocks[k].last == LastReal(prog, LeaderAfter(prog, k)))
  }

  ghost predicate BlocksUpTo(prog: Program, blocks: seq<Block>, l: nat) {
    && HasCode(prog) && 0 < l <= |Leaders(prog, |prog|)|
    && |blocks| == Opened(prog, l) > 0
    && (forall k: nat {:trigger CutAt(prog, blocks, k)} :: k < |blocks| ==> CutAt(prog, blocks, k))
  }

  // the second scan's state before it looks at position i
  ghost predicate CutUpTo(prog: Program, blocks: seq<Block>, bb: seq<nat>, l: nat, last: nat, i: nat) {
    && i <= |prog| && |bb| == |prog|
    && BlocksUpTo(prog, blocks, l)
    && l == |Leaders(prog, if i == 0 then 1 else i)|
    && (last == LastReal(prog, i) || last == NextReal(prog, i) < |prog|)
    && (i <= 1 || prog[i - 1].Inst? ==> last == LastReal(prog, i))
    && (forall p: nat {:trigger bb[p]} :: p < i && prog[p].Inst? ==> bb[p] == |Leaders(prog, p + 1)| - 1)
  }

  // The second scan's first block, and its position before the list.
  lemma {:induction false} Start(prog: Program, blocks: seq<Block>, bb: seq<nat>)
    requires HasCode(prog) && |bb| == |prog|
    requires blocks == [Block(NextReal(prog, 0), NULL, true, false)]
    ensures CutUpTo(prog, blocks, bb, 1, 0, 0)
  {
    assert Leaders(prog, 1) == [0];
    assert Leaders(prog, |prog|)[0] == 0;
    assert CutAt(prog, blocks, 0);
  }

  // A leading label with no code behind it is the last leader.
  lemma {:induction false} TrailingLeaderIsLast(prog: Program, l: nat)
    requires HasCode(prog) && 0 < l <= |Leaders(prog, |prog|)|
    requires NextReal(prog, Leaders(prog, |prog|)[l - 1]) == |prog|
    ensures l == |Leaders(prog, |prog|)|
  {
    var L := Leaders(prog, |prog|);
    if l < |L| {
      LeadersSorted(prog, |prog|, l - 1, l);
      LeaderAt(prog, |prog|, l);
    }
  }

  // What is known when the second scan meets a leader.
  lemma {:induction false} LeaderReached(prog: Program, blocks: seq<Block>, bb: seq<nat>, l: nat, last: nat, i: nat)
    requires CutUpTo(prog, blocks, bb, l, last, i) && i < |prog|
    requires l < |Leaders(prog, |prog|)| && Leaders(prog, |prog|)[l] == i
    ensures 0 < i && last == LastReal(prog, i)
    ensures |blocks| == Opened(prog, l) == l
    ensures |Leaders(prog, i + 1)| == l + 1
  {
    LeadersSorted(prog, |prog|, 0, l);
    LeaderAt(prog, |prog|, l);
    if NextReal(prog, Leaders(prog, |prog|)[l - 1]) == |prog| {
      TrailingLeaderIsLast(prog, l);
    }
    assert IsLeader(prog, i);
  }

  /** The next leader is reached: the open block ends with the last instruction
      seen, and a new one opens unless only labels are left. */
  lemma {:induction false} NextBlock(prog: Program, blocks: seq<Block>, l: nat, i: nat)
    requires BlocksUpTo(prog, blocks, l) && |blocks| == l && i < |prog|
    requires l < |Leaders(prog, |prog|)| && Leaders(prog, |prog|)[l] == i
    ensures var closed := blocks[l - 1 := blocks[l - 1].(last := LastReal(prog, i))];
            var q := NextReal(prog, i);
            BlocksUpTo(prog, if q < |prog| then closed + [Block(q, NULL, false, false)] else closed, l + 1)
  {
    var closed := blocks[l - 1 := blocks[l - 1].(last := LastReal(prog, i))];
    var q := NextReal(prog, i);
    var now := if q < |prog| then closed + [Block(q, NULL, false, false)] else closed;
    assert LeaderAfter(prog, l - 1) == i;
    forall k: nat | k < |now|
      ensures CutAt(prog, now, k)
    {
      if k < l {
        assert CutAt(prog, blocks, k);
      }
    }
  }

  // One position further: it belongs to the block that is open now.
  lemma {:induction false} Advance(prog: Program, blocks: seq<Block>, bb: seq<nat>, l: nat, last: nat, i: nat)
    requires i < |prog| && |bb| == |prog|
    requires BlocksUpTo(prog, blocks, l) && l == |Leaders(prog, i + 1)|
    requires last == LastReal(prog, i) || last == NextReal(prog, i) < |prog|
    requires i == 0 ==> last == 0
    requires forall p: nat {:trigger bb[p]} :: p < i && prog[p].Inst? ==> bb[p] == |Leaders(prog, p + 1)| - 1
    ensures CutUpTo(prog, blocks, bb[i := |blocks| - 1], l, if prog[i].Inst? then i else last, i + 1)
  {
    OwnBlock(prog, i);
  }

  lemma {:induction false} LastRealOverLabels(prog: Program, p: nat, q: nat)
    requires p <= q <= |prog| && forall k :: p <= k < q ==> prog[k].Label?
    ensures LastReal(prog, q) == LastReal(prog, p)
    decreases q - p
  {
    if p < q {
      LastRealOverLabels(prog, p, q - 1);
    }
  }

  // The list ends: so does the open block, and the exit block is added.
  lemma {:induction false} Finish(prog: Program, blocks: seq<Block>, bb: seq<nat>, l: nat, last: nat)
    requires CutUpTo(prog, blocks, bb, l, last, |prog|)
    ensures CutAtLeaders(prog, blocks[|blocks| - 1 := blocks[|blocks| - 1].(last := last)] + [EXIT_BLOCK], bb)
  {
    var k := |blocks| - 1;
    assert |blocks| == BlockCount(prog);
    LastRealOverLabels(prog, LeaderAfter(prog, k), |prog|);
    var now := blocks[k := blocks[k].(last := last)] + [EXIT_BLOCK];
    forall j: nat | j < |now| - 1
      ensures now[j] == Block(NextReal(prog, Leaders(prog, |prog|)[j]), LastReal(prog, LeaderAfter(prog, j)), j == 0, false)
    {
      assert CutAt(prog, blocks, j);
    }
  }

  // No leader here: the open block goes on.
  lemma {:induction false} SameBlock(prog: Program, blocks: seq<Block>, bb: seq<nat>, l: nat, last: nat, i: nat)
    requires CutUpTo(prog, blocks, bb, l, last, i) && i < |prog|
    requires i == 0 || !(l < |Leaders(prog, |prog|)| && Leaders(prog, |prog|)[l] == i)
    ensures |Leaders(prog, i + 1)| == l
    ensures i > 0 ==> !IsLeader(prog, i)
  {
    if i > 0 && IsLeader(prog, i) {
      LeaderIndex(prog, |prog|, i);
    }
  }

  // ----- what the blocks are for -----

  predicate InBlock(blocks: seq<Block>, b: nat, p: nat) {
    b < |blocks| && blocks[b].first <= p <= blocks[b].last
  }

  // block b + 1 takes up where block b leaves off
  ghost predicate Follows(prog: Program, blocks: seq<Block>, b: nat) {
    && b + 1 < |blocks|
    && 0 <= blocks[b].last < |prog|
    && blocks[b + 1].first == NextReal(prog, blocks[b].last + 1)
  }

  // Must a block end at p: behind a guarded call in the first list entry the
  // scan does not cut, and control goes on to the next instruction anyway.
  predicate Cuts(prog: Program, p: nat)
    requires p < |prog|
  {
    Leaves(prog[p]) || (p > 0 && Ends(prog[p]))
  }

  // can control enter at p from elsewhere
  predicate StartsBlock(prog: Program, p: nat)
    requires p < |prog|
  {
    prog[p].Inst? && (p == NextReal(prog, 0) || prog[p - 1].Label? || Cuts(prog, p - 1))
  }

  ghost predicate CutForAReason(prog: Program, p: int) {
    0 < p < |prog| && (prog[p - 1].Label? || Cuts(prog, p - 1))
  }

  /** A proper partition: consecutive stretches of instructions only, a
      control transfer nowhere but at the end, an entry nowhere but at the
      start, no cut without a reason, and every instruction knows its block. */
  ghost predicate Layout(prog: Program, blocks: seq<Block>, bb: seq<nat>) {
    && |blocks| >= 2 && |bb| == |prog|
    && blocks[|blocks| - 1] == EXIT_BLOCK
    && (forall b: nat :: b < |blocks| - 1 ==> !blocks[b].isExit && 0 <= blocks[b].first <= blocks[b].last < |prog|)
    && (forall b: nat, p: nat {:trigger InBlock(blocks, b, p)} :: b < |blocks| - 1 && InBlock(blocks, b, p) ==> prog[p].Inst?)
    && (forall b: nat, p: nat {:trigger InBlock(blocks, b, p)} :: b < |blocks| - 1 && InBlock(blocks, b, p) && p < blocks[b].last ==> !Cuts(prog, p))
    && blocks[0].first == NextReal(prog, 0)
    && (forall b: nat :: b < |blocks| - 2 ==> Follows(prog, blocks, b))
    && NextReal(prog, blocks[|blocks| - 2].last + 1) == |prog|
    && (forall b: nat :: 0 < b < |blocks| - 1 ==> CutForAReason(prog, blocks[b].first))
    && (forall p: nat {:trigger bb[p]} :: p < |prog| && prog[p].Inst? ==> bb[p] < |blocks| - 1 && InBlock(blocks, bb[p], p))
  }

  // a label directly followed by another one opens the list
  predicate OpensWithLabels(prog: Program) {
    |prog| >= 2 && prog[0].Label? && prog[1].Label?
  }

  // a control transfer directly followed by code opens the list
  predicate OpensWithTransfer(prog: Program) {
    |prog| >= 2 && Leaves(prog[0]) && prog[1].Inst?
  }

  /** When the two scans get it right.  The first list entry is taken as a
      leader without being looked at, so it must be neither of these. */
  predicate StartsPlainly(prog: Program) {
    !OpensWithLabels(prog) && !OpensWithTransfer(prog)
  }

  // No leader lies strictly between two consecutive ones.
  lemma {:induction false} NoLeaderBetween(prog: Program, k: nat, p: nat)
    requires HasCode(prog) && k < |Leaders(prog, |prog|)|
    requires Leaders(prog, |prog|)[k] < p < LeaderAfter(prog, k)
    ensures !IsLeader(prog, p)
  {
    var L := Leaders(prog, |prog|);
    if IsLeader(prog, p) {
      var j := |Leaders(prog, p)|;
      LeaderIndex(prog, |prog|, p);
      if j < k {
        LeadersSorted(prog, |prog|, j, k);
      } else if k + 1 < j {
        LeadersSorted(prog, |prog|, k + 1, j);
      }
    }
  }

  // From one leader to the next: labels first, then only instructions.
  lemma {:induction false} StretchIsCode(prog: Program, k: nat, p: nat)
    requires HasCode(prog) && k < |Leaders(prog, |prog|)|
    requires NextReal(prog, Leaders(prog, |prog|)[k]) <= p < LeaderAfter(prog, k)
    ensures prog[p].Inst?
  {
    var r := NextReal(prog, Leaders(prog, |prog|)[k]);
    if p > r {
      StretchIsCode(prog, k, p - 1);
      NoLeaderBetween(prog, k, p);
    }
  }

  // Where the next stretch begins, this one has just ended with an instruction.
  lemma {:induction false} StretchEndsWithCode(prog: Program, k: nat)
    requires HasCode(prog) && StartsPlainly(prog) && k < BlockCount(prog)
    ensures var q := LeaderAfter(prog, k);
            q > 0 && prog[q - 1].Inst? && LastReal(prog, q) == q - 1
    ensures NextReal(prog, Leaders(prog, |prog|)[k]) < LeaderAfter(prog, k)
  {
    var L := Leaders(prog, |prog|);
    var q := LeaderAfter(prog, k);
    if k + 1 < |L| {
      LeadersSorted(prog, |prog|, k, k + 1);
      LeaderAt(prog, |prog|, k + 1);
    } else {
      var r := NextReal(prog, L[k]);
      assert r < |prog|;
      StretchIsCode(prog, k, |prog| - 1);
    }
  }

  // Leaders beyond the first |Leaders(prog, n)| are at n or later.
  lemma {:induction false} LaterLeader(prog: Program, n: nat, j: nat)
    requires n <= |prog| && |Leaders(prog, n)| <= j < |Leaders(prog, |prog|)|
    ensures Leaders(prog, |prog|)[j] >= n
  {
    var q := Leaders(prog, |prog|)[j];
    LeaderAt(prog, |prog|, j);
    if q < n {
      LeaderIndex(prog, n, q);
      LeaderIndex(prog, |prog|, q);
      LeadersSorted(prog, |prog|, |Leaders(prog, q)|, j);
    }
  }

  lemma {:induction false} OwnBlock(prog: Program, p: nat)
    requires HasCode(prog) && p < |prog|
    ensures var b := |Leaders(prog, p + 1)| - 1;
            var L := Leaders(prog, |prog|);
            0 <= b < |L| && L[b] <= p < LeaderAfter(prog, b)
  {
    var b := |Leaders(prog, p + 1)| - 1;
    LeadersPrefix(prog, p + 1, |prog|);
    assert Leaders(prog, |prog|)[b] == Leaders(prog, p + 1)[b];
    if b + 1 < |Leaders(prog, |prog|)| {
      LaterLeader(prog, p + 1, b + 1);
    }
  }

  lemma {:induction false} OwnBlockHasCode(prog: Program, p: nat)
    requires HasCode(prog) && p < |prog| && prog[p].Inst?
    ensures var b := |Leaders(prog, p + 1)| - 1;
            0 <= b < BlockCount(prog) && NextReal(prog, Leaders(prog, |prog|)[b]) <= p
  {
    OwnBlock(prog, p);
  }

  lemma {:induction false} BlockExtent(prog: Program, blocks: seq<Block>, bb: seq<nat>, b: nat)
    requires CutAtLeaders(prog, blocks, bb) && StartsPlainly(prog) && b < |blocks| - 1
    ensures 0 <= blocks[b].first <= blocks[b].last == LeaderAfter(prog, b) - 1 < |prog|
    ensures blocks[b].first == NextReal(prog, Leaders(prog, |prog|)[b])
  {
    StretchEndsWithCode(prog, b);
  }

  lemma {:induction false} BlockInside(prog: Program, blocks: seq<Block>, bb: seq<nat>, b: nat, p: nat)
    requires CutAtLeaders(prog, blocks, bb) && StartsPlainly(prog) && b < |blocks| - 1
    requires InBlock(blocks, b, p)
    ensures p < |prog| && prog[p].Inst?
    ensures p < blocks[b].last ==> !Cuts(prog, p)
  {
    BlockExtent(prog, blocks, bb, b);
    StretchIsCode(prog, b, p);
    if p < blocks[b].last {
      StretchIsCode(prog, b, p + 1);
      NoLeaderBetween(prog, b, p + 1);
    }
  }

  lemma {:induction false} BlockFollows(prog: Program, blocks: seq<Block>, bb: seq<nat>, b: nat)
    requires CutAtLeaders(prog, blocks, bb) && StartsPlainly(prog) && b < |blocks| - 2
    ensures Follows(prog, blocks, b)
  {
    BlockExtent(prog, blocks, bb, b);
  }

  lemma {:induction false} LastBlockEnds(prog: Program, blocks: seq<Block>, bb: seq<nat>)
    requires CutAtLeaders(prog, blocks, bb) && StartsPlainly(prog) && |blocks| >= 2
    ensures 0 <= blocks[|blocks| - 2].last < |prog|
    ensures NextReal(prog, blocks[|blocks| - 2].last + 1) == |prog|
  {
    BlockExtent(prog, blocks, bb, |blocks| - 2);
  }

  // why a leader behind the first list entry is one
  lemma {:induction false} LeaderHasReason(prog: Program, p: nat)
    requires 0 < p < |prog| && IsLeader(prog, p) && NextReal(prog, p) < |prog|
    ensures CutForAReason(prog, NextReal(prog, p))
  {
  }

  lemma {:induction false} BlockHasReason(prog: Program, blocks: seq<Block>, bb: seq<nat>, b: nat)
    requires CutAtLeaders(prog, blocks, bb) && StartsPlainly(prog) && 0 < b < |blocks| - 1
    ensures CutForAReason(prog, blocks[b].first)
  {
    BlockExtent(prog, blocks, bb, b);
    LeadersSorted(prog, |prog|, 0, b);
    LeaderAt(prog, |prog|, b);
    LeaderHasReason(prog, Leaders(prog, |prog|)[b]);
  }

  lemma {:induction false} OwnerHolds(prog: Program, blocks: seq<Block>, bb: seq<nat>, p: nat)
    requires CutAtLeaders(prog, blocks, bb) && StartsPlainly(prog)
    requires p < |prog| && prog[p].Inst?
    ensures bb[p] < |blocks| - 1 && InBlock(blocks, bb[p], p)
  {
    OwnBlockHasCode(prog, p);
    OwnBlock(prog, p);
    BlockExtent(prog, blocks, bb, bb[p]);
  }

  lemma {:induction false} FirstBlock(prog: Program, blocks: seq<Block>, bb: seq<nat>)
    requires CutAtLeaders(prog, blocks, bb)
    ensures |blocks| >= 2 && blocks[0].first == NextReal(prog, 0)
  {
  }

  lemma {:induction false} LayoutFromLeaders(prog: Program, blocks: seq<Block>, bb: seq<nat>)
    requires CutAtLeaders(prog, blocks, bb) && StartsPlainly(prog)
    ensures Layout(prog, blocks, bb)
  {
    forall b: nat | b < |blocks| - 1
      ensures !blocks[b].isExit && 0 <= blocks[b].first <= blocks[b].last < |prog|
    {
      BlockExtent(prog, blocks, bb, b);
    }
    forall b: nat, p: nat | b < |blocks| - 1 && InBlock(blocks, b, p)
      ensures prog[p].Inst? && (p < blocks[b].last ==> !Cuts(prog, p))
    {
      BlockInside(prog, blocks, bb, b, p);
    }
    forall b: nat | b < |blocks| - 2 {
      BlockFollows(prog, blocks, bb, b);
    }
    forall b: nat | 0 < b < |blocks| - 1 {
      BlockHasReason(prog, blocks, bb, b);
    }
    forall p: nat | p < |prog| && prog[p].Inst?
      ensures bb[p] < |blocks| - 1 && InBlock(blocks, bb[p], p)
    {
      OwnerHolds(prog, blocks, bb, p);
    }
    FirstBlock(prog, blocks, bb);
    LastBlockEnds(prog, blocks, bb);
  }

  // Two labels first: the second ends block 0 before any instruction is seen.
  lemma {:induction false} TwoLabelsFirst(prog: Program, blocks: seq<Block>, bb: seq<nat>)
    requires CutAtLeaders(prog, blocks, bb)
    requires OpensWithLabels(prog)
    ensures !Layout(prog, blocks, bb)
  {
    assert IsLeader(prog, 1);
    assert Leaders(prog, 1) == [0];
    LeaderIndex(prog, |prog|, 1);
    assert blocks[0].last == LastReal(prog, 1) == 0;
    assert blocks[0].first > 0;
  }

  // A transfer first: position 1 does not lead, so block 0 runs past it.
  lemma {:induction false} TransferFirst(prog: Program, blocks: seq<Block>, bb: seq<nat>)
    requires CutAtLeaders(prog, blocks, bb)
    requires OpensWithTransfer(prog)
    ensures !Layout(prog, blocks, bb)
  {
    assert Leaders(prog, 1) == [0];
    assert Leaders(prog, 2) == [0];
    OwnBlock(prog, 1);
    assert NextReal(prog, 0) == 0;
    assert blocks[0].last >= 1;
    assert InBlock(blocks, 0, 0);
  }

  /** The scans build a proper partition exactly when the list starts plainly. */
  lemma {:induction false} LayoutExactly(prog: Program, blocks: seq<Block>, bb: seq<nat>)
    requires CutAtLeaders(prog, blocks, bb)
    ensures Layout(prog, blocks, bb) <==> StartsPlainly(prog)
  {
    if StartsPlainly(prog) {
      LayoutFromLeaders(prog, blocks, bb);
    } else if OpensWithLabels(prog) {
      TwoLabelsFirst(prog, blocks, bb);
    } else {
      TransferFirst(prog, blocks, bb);
    }
  }

  lemma {:induction false} LeadingBranchLeaders()
    ensures Leaders(LEADING_BRANCH, 4) == [0, 2]
    ensures NextReal(LEADING_BRANCH, 2) == 3 && LastReal(LEADING_BRANCH, 2) == 1 && LastReal(LEADING_BRANCH, 4) == 3
  {
    var prog := LEADING_BRANCH;
    assert Leaders(prog, 0) == [];
    assert Leaders(prog, 1) == [0];
    assert Leaders(prog, 2) == [0];
    assert Leaders(prog, 3) == [0, 2];
  }

  /** A kernel that opens with a guarded branch: the branch is swallowed into
      the middle of block 0, and no block ends in a branch. */
  lemma {:induction false} LeadingBranchIsSwallowed(blocks: seq<Block>, bb: seq<nat>)
    requires CutAtLeaders(LEADING_BRANCH, blocks, bb)
    ensures blocks == [Block(0, 1, true, false), Block(3, 3, false, false), EXIT_BLOCK]
    ensures BranchBlocks(LEADING_BRANCH, blocks, 2) == []
    ensures !Layout(LEADING_BRANCH, blocks, bb)
  {
    LeadingBranchLeaders();
    LayoutExactly(LEADING_BRANCH, blocks, bb);
    assert BranchBlocks(LEADING_BRANCH, blocks, 1) == [];
  }

  const LEADING_BRANCH: Program :=
    [Inst(Bra, true, "done", 8), Inst(Other, false, "", 8), Label("done"), Inst(Exit, false, "", 8)]

  // ----- consequences of a proper layout -----

  lemma {:induction false} FirstsIncrease(prog: Program, blocks: seq<Block>, bb: seq<nat>, b: nat, c: nat)
    requires Layout(prog, blocks, bb) && b < c < |blocks| - 1
    ensures blocks[b].last < blocks[c].first
    decreases c - b
  {
    assert Follows(prog, blocks, c - 1);
    if b + 1 < c {
      FirstsIncrease(prog, blocks, bb, b, c - 1);
    }
  }

  /** Each instruction is in exactly one block. */
  lemma {:induction false} ExactlyOneBlock(prog: Program, blocks: seq<Block>, bb: seq<nat>, p: nat, b: nat)
    requires Layout(prog, blocks, bb) && p < |prog| && prog[p].Inst? && b < |blocks| - 1
    ensures InBlock(blocks, b, p) <==> b == bb[p]
  {
    if InBlock(blocks, b, p) && b != bb[p] {
      if b < bb[p] {
        FirstsIncrease(prog, blocks, bb, b, bb[p]);
      } else {
        FirstsIncrease(prog, blocks, bb, bb[p], b);
      }
    }
  }

  /** Blocks begin exactly where control can enter: at the first instruction,
      behind a label, or behind an instruction that ends a block. */
  lemma {:induction false} BlockStarts(prog: Program, blocks: seq<Block>, bb: seq<nat>, p: nat)
    requires Layout(prog, blocks, bb) && p < |prog| && prog[p].Inst?
    ensures blocks[bb[p]].first == p <==> StartsBlock(prog, p)
  {
    var b := bb[p];
    if blocks[b].first != p {
      assert InBlock(blocks, b, p - 1);
      assert blocks[b].first >= NextReal(prog, 0) by {
        if b > 0 {
          FirstsIncrease(prog, blocks, bb, 0, b);
        }
      }
    }
  }

  // ----- branch blocks -----

  // blocks before k that end in a branch, in order
  function BranchBlocks(prog: Program, blocks: seq<Block>, k: nat): (s: seq<nat>)
    requires k <= |blocks|
    requires forall b: nat :: b < k ==> 0 <= blocks[b].last < |prog| && prog[blocks[b].last].Inst?
    ensures forall i :: 0 <= i < |s| ==> s[i] < k && prog[blocks[s[i]].last].op == Bra
  {
    if k == 0 then []
    else if prog[blocks[k - 1].last].op == Bra then BranchBlocks(prog, blocks, k - 1) + [k - 1]
    else BranchBlocks(prog, blocks, k - 1)
  }

  lemma {:induction false} BranchBlockListed(prog: Program, blocks: seq<Block>, k: nat, b: nat)
    requires b < k <= |blocks|
    requires forall b: nat :: b < k ==> 0 <= blocks[b].last < |prog| && prog[blocks[b].last].Inst?
    requires prog[blocks[b].last].op == Bra
    ensures b in BranchBlocks(prog, blocks, k)
  {
    if b < k - 1 {
      BranchBlockListed(prog, blocks, k - 1, b);
    }
  }

  lemma {:induction false} BranchBlocksGrow(prog: Program, blocks: seq<Block>, i: nat)
    requires i < |blocks| - 1
    requires forall b: nat :: b < |blocks| - 1 ==> 0 <= blocks[b].last < |prog| && prog[blocks[b].last].Inst?
    ensures |BranchBlocks(prog, blocks, i + 1)| <= |BranchBlocks(prog, blocks, |blocks| - 1)|
    decreases |blocks| - i
  {
    if i + 1 < |blocks| - 1 {
      BranchBlocksGrow(prog, blocks, i + 1);
    }
  }
}
