/**
 The block graph says the same as the instructions: paths between blocks are
 the collapsed paths between instructions, and the nearest post-dominating
 block begins with the nearest post-dominating instruction.
 */
module ControlFlow {
  import opened FlowGraph
  import opened PtxProgram
  import opened BasicBlocks

  // the block holding a position; past the list is the exit block
  function BlockOf(prog: Program, blocks: seq<Block>, bb: seq<nat>, q: nat): nat
    requires |blocks| > 0 && |bb| == |prog|
  {
    if q < |prog| then bb[q] else |blocks| - 1
  }

  // where control enters a block
  function Entry(prog: Program, blocks: seq<Block>, b: nat): int
    requires b < |blocks|
  {
    if blocks[b].isExit then |prog| else blocks[b].first
  }

  // successors of block b: the blocks its last instruction can continue in
  ghost function SuccessorBlocks(prog: Program, blocks: seq<Block>, bb: seq<nat>, b: nat): set<nat>
    requires |blocks| > 0 && |bb| == |prog| && b < |blocks|
  {
    if 0 <= blocks[b].last < |prog| then
      set q | q in InstrSucc(prog, blocks[b].last) :: BlockOf(prog, blocks, bb, q)
    else {}
  }

  /** What connect_basic_blocks establishes. */
  ghost predicate Linked(prog: Program, blocks: seq<Block>, bb: seq<nat>, succ: Graph, pred: Graph) {
    && |blocks| > 0 && |bb| == |prog|
    && |succ| == |blocks| && |pred| == |blocks|
    && IsGraph(succ) && IsGraph(pred) && Mirror(succ, pred)
    && forall b: nat {:trigger succ[b]} :: b < |blocks| ==> succ[b] == SuccessorBlocks(prog, blocks, bb, b)
  }

  ghost predicate Faithful(prog: Program, blocks: seq<Block>, bb: seq<nat>, succ: Graph, pred: Graph) {
    Analysable(prog) && Layout(prog, blocks, bb) && Linked(prog, blocks, bb, succ, pred)
  }

  // a position that control can be at
  predicate Stop(prog: Program, p: nat) {
    p < |prog| ==> prog[p].Inst?
  }

  lemma {:induction false} InsideStep(prog: Program, blocks: seq<Block>, bb: seq<nat>, b: nat, p: nat)
    requires Analysable(prog) && Layout(prog, blocks, bb) && b < |blocks| - 1
    requires InBlock(blocks, b, p) && p < blocks[b].last
    ensures p + 1 < |prog| && InstrSucc(prog, p) == {p + 1}
    ensures InBlock(blocks, b, p + 1) && bb[p] == b && bb[p + 1] == b
    ensures prog[p].Inst? && prog[p + 1].Inst?
  {
    assert InBlock(blocks, b, p + 1);
    ExactlyOneBlock(prog, blocks, bb, p, b);
    ExactlyOneBlock(prog, blocks, bb, p + 1, b);
    assert !Cuts(prog, p);
  }

  lemma {:induction false} FallThroughLands(prog: Program, blocks: seq<Block>, bb: seq<nat>, b: nat)
    requires Analysable(prog) && Layout(prog, blocks, bb) && b < |blocks| - 1
    ensures var q := NextReal(prog, blocks[b].last + 1);
            q < |prog| ==> bb[q] < |blocks| - 1 && q == blocks[bb[q]].first
  {
    var q := NextReal(prog, blocks[b].last + 1);
    if b < |blocks| - 2 {
      assert Follows(prog, blocks, b);
      assert InBlock(blocks, b + 1, q);
      ExactlyOneBlock(prog, blocks, bb, q, b + 1);
    }
  }

  lemma {:induction false} LabelLands(prog: Program, blocks: seq<Block>, bb: seq<nat>, p: nat)
    requires Layout(prog, blocks, bb) && p < |prog| && prog[p].Label? && NextReal(prog, p) < |prog|
    ensures var q := NextReal(prog, p); bb[q] < |blocks| - 1 && q == blocks[bb[q]].first
  {
    var q := NextReal(prog, p);
    var b := bb[q];
    if blocks[b].first < q {
      assert InBlock(blocks, b, q - 1);
    }
  }

  /** Control leaves a block only from its last instruction, and only to the
      first instruction of a block or out of the function. */
  lemma {:induction false} EdgeLands(prog: Program, blocks: seq<Block>, bb: seq<nat>, b: nat, q: nat)
    requires Analysable(prog) && Layout(prog, blocks, bb) && b < |blocks| - 1
    requires q in InstrSucc(prog, blocks[b].last)
    ensures q <= |prog| && Stop(prog, q)
    ensures BlockOf(prog, blocks, bb, q) < |blocks|
    ensures Entry(prog, blocks, BlockOf(prog, blocks, bb, q)) == q
  {
    var p := blocks[b].last;
    if q < |prog| {
      if q == NextReal(prog, p + 1) {
        FallThroughLands(prog, blocks, bb, b);
      } else {
        TargetLands(prog, p);
        LabelLands(prog, blocks, bb, LabelPosition(prog, prog[p].target, |prog|));
      }
    }
  }

  /** From block b control can continue in these blocks: one case per kind of
      last instruction. */
  ghost predicate Continues(prog: Program, blocks: seq<Block>, bb: seq<nat>, b: nat, succ: set<nat>) {
    && b + 1 < |blocks| && |bb| == |prog| && 0 <= blocks[b].last < |prog| && prog[blocks[b].last].Inst?
    && var p := blocks[b].last;
    && var i := prog[p];
    && var next := BlockOf(prog, blocks, bb, NextReal(prog, p + 1));
    && (FallsThrough(i) ==> NextReal(prog, p + 1) < |prog| && next < |blocks|)
    && (i.op == Bra ==> Defined(prog, i.target) && Target(prog, i.target) < |prog|
                        && bb[Target(prog, i.target)] < |blocks|)
    && succ == (if IsReturn(i.op) then {|blocks| - 1}
                else if i.op == Bra then {bb[Target(prog, i.target)]}
                else {}) +
               (if FallsThrough(i) then {next} else {})
  }

  lemma {:induction false} SuccessorCases(prog: Program, blocks: seq<Block>, bb: seq<nat>, b: nat)
    requires Analysable(prog) && Layout(prog, blocks, bb) && b < |blocks| - 1
    ensures Continues(prog, blocks, bb, b, SuccessorBlocks(prog, blocks, bb, b))
  {
    var p := blocks[b].last;
    var i := prog[p];
    assert InBlock(blocks, b, p);
    assert FallsThrough(i) ==> NextReal(prog, p + 1) < |prog|;
    if i.op == Bra {
      TargetLands(prog, p);
    }
    forall q | q in InstrSucc(prog, p)
      ensures BlockOf(prog, blocks, bb, q) < |blocks|
    {
      EdgeLands(prog, blocks, bb, b, q);
    }
  }

  // ----- from instruction paths to block paths -----

  ghost function Collapse(prog: Program, blocks: seq<Block>, bb: seq<nat>, path: seq<nat>): seq<nat>
    requires |blocks| > 0 && |bb| == |prog| && |path| > 0
  {
    var b := BlockOf(prog, blocks, bb, path[0]);
    if |path| == 1 then [b]
    else if b < |blocks| && path[0] == blocks[b].last then [b] + Collapse(prog, blocks, bb, path[1..])
    else Collapse(prog, blocks, bb, path[1..])
  }

  // the collapsed path leads from p's block to the exit block, by entries the
  // path has been at
  ghost predicate Collapsed(prog: Program, blocks: seq<Block>, bb: seq<nat>, succ: Graph, path: seq<nat>, p: nat) {
    && |blocks| > 0 && |bb| == |prog| && |path| > 0 && |succ| == |blocks|
    && var C := Collapse(prog, blocks, bb, path);
    && Connects(succ, C, BlockOf(prog, blocks, bb, p), |blocks| - 1)
    && forall i :: 1 <= i < |C| ==> Entry(prog, blocks, C[i]) in path
  }

  // the first step leaves the block
  lemma {:induction false} CollapseAcross(prog: Program, blocks: seq<Block>, bb: seq<nat>, succ: Graph, pred: Graph,
                                          path: seq<nat>, p: nat, b: nat)
    requires Faithful(prog, blocks, bb, succ, pred) && b < |blocks| - 1 && p == blocks[b].last
    requires |path| > 1 && path[0] == p < |prog| && bb[p] == b && path[1] in InstrSucc(prog, p)
    requires Collapsed(prog, blocks, bb, succ, path[1..], path[1])
    ensures Collapsed(prog, blocks, bb, succ, path, p)
  {
    var C := Collapse(prog, blocks, bb, path[1..]);
    EdgeLands(prog, blocks, bb, b, path[1]);
    assert C[0] in succ[b];
    StepThenPath(succ, C, b, C[0], |blocks| - 1);
    forall i | 0 <= i < |C|
      ensures Entry(prog, blocks, C[i]) in path
    {
      assert i > 0 ==> Entry(prog, blocks, C[i]) in path[1..];
    }
    assert Collapse(prog, blocks, bb, path) == [b] + C;
  }

  // the first step stays inside the block
  lemma {:induction false} CollapseWithin(prog: Program, blocks: seq<Block>, bb: seq<nat>, succ: Graph, pred: Graph,
                                          path: seq<nat>, p: nat, b: nat)
    requires Faithful(prog, blocks, bb, succ, pred) && b < |blocks| - 1 && InBlock(blocks, b, p) && p != blocks[b].last
    requires |path| > 1 && path[0] == p < |prog| && bb[p] == b && path[1] in InstrSucc(prog, p)
    requires Collapsed(prog, blocks, bb, succ, path[1..], path[1])
    ensures Collapsed(prog, blocks, bb, succ, path, p)
  {
    var C := Collapse(prog, blocks, bb, path[1..]);
    InsideStep(prog, blocks, bb, b, p);
    assert Collapse(prog, blocks, bb, path) == C;
    forall i | 1 <= i < |C|
      ensures Entry(prog, blocks, C[i]) in path
    {
      assert Entry(prog, blocks, C[i]) in path[1..];
    }
  }

  lemma {:induction false} CollapseIsPath(prog: Program, blocks: seq<Block>, bb: seq<nat>, succ: Graph, pred: Graph,
                                          path: seq<nat>, p: nat)
    requires Faithful(prog, blocks, bb, succ, pred)
    requires Connects(InstrGraph(prog), path, p, |prog|) && Stop(prog, p)
    ensures Collapsed(prog, blocks, bb, succ, path, p)
    decreases |path|
  {
    if |path| > 1 {
      var b := BlockOf(prog, blocks, bb, p);
      var q := path[1];
      assert q in InstrGraph(prog)[p];
      assert InBlock(blocks, b, p);
      PathTail(InstrGraph(prog), path, |prog|, 1);
      if p == blocks[b].last {
        EdgeLands(prog, blocks, bb, b, q);
        CollapseIsPath(prog, blocks, bb, succ, pred, path[1..], q);
        CollapseAcross(prog, blocks, bb, succ, pred, path, p, b);
      } else {
        InsideStep(prog, blocks, bb, b, p);
        CollapseIsPath(prog, blocks, bb, succ, pred, path[1..], q);
        CollapseWithin(prog, blocks, bb, succ, pred, path, p, b);
      }
    }
  }

  // ----- from block paths to instruction paths -----

  ghost function Stretch(a: nat, z: nat): (s: seq<nat>)
    requires a <= z
    ensures |s| == z - a + 1
    ensures forall i :: 0 <= i < |s| ==> s[i] == a + i
  {
    seq(z - a + 1, i requires i >= 0 => a + i)
  }

  lemma {:induction false} StretchIsPath(prog: Program, blocks: seq<Block>, bb: seq<nat>, b: nat)
    requires Analysable(prog) && Layout(prog, blocks, bb) && b < |blocks| - 1
    ensures Connects(InstrGraph(prog), Stretch(blocks[b].first, blocks[b].last), blocks[b].first, blocks[b].last)
  {
    var s := Stretch(blocks[b].first, blocks[b].last);
    forall i | 0 <= i < |s| - 1
      ensures s[i + 1] in InstrGraph(prog)[s[i]]
    {
      InsideStep(prog, blocks, bb, b, s[i]);
    }
  }

  ghost function Expand(prog: Program, blocks: seq<Block>, B: seq<nat>): seq<nat> {
    if |B| <= 1 then [|prog|]
    else if B[0] < |blocks| && 0 <= blocks[B[0]].first <= blocks[B[0]].last then
      Stretch(blocks[B[0]].first, blocks[B[0]].last) + Expand(prog, blocks, B[1..])
    else []
  }

  // A block edge is an edge from the last instruction to the entry.
  lemma {:induction false} BlockEdge(prog: Program, blocks: seq<Block>, bb: seq<nat>, succ: Graph, pred: Graph, b: nat, c: nat)
    requires Faithful(prog, blocks, bb, succ, pred)
    requires b < |blocks| && c in succ[b]
    ensures b < |blocks| - 1 && c < |blocks|
    ensures Entry(prog, blocks, c) in InstrSucc(prog, blocks[b].last)
  {
    var q :| q in InstrSucc(prog, blocks[b].last) && BlockOf(prog, blocks, bb, q) == c;
    EdgeLands(prog, blocks, bb, b, q);
  }

  lemma {:induction false} ExpandIsPath(prog: Program, blocks: seq<Block>, bb: seq<nat>, succ: Graph, pred: Graph,
                     B: seq<nat>, b: nat)
    requires Faithful(prog, blocks, bb, succ, pred)
    requires Connects(succ, B, b, |blocks| - 1)
    ensures Entry(prog, blocks, b) >= 0
    ensures Connects(InstrGraph(prog), Expand(prog, blocks, B), Entry(prog, blocks, b), |prog|)
    ensures forall x :: x in Expand(prog, blocks, B) ==> BlockOf(prog, blocks, bb, x) in B
    decreases |B|
  {
    if |B| > 1 {
      var c := B[1];
      BlockEdge(prog, blocks, bb, succ, pred, b, c);
      PathTail(succ, B, |blocks| - 1, 1);
      ExpandIsPath(prog, blocks, bb, succ, pred, B[1..], c);
      StretchIsPath(prog, blocks, bb, b);
      var s := Stretch(blocks[b].first, blocks[b].last);
      BridgePaths(InstrGraph(prog), s, Expand(prog, blocks, B[1..]),
                  blocks[b].first, blocks[b].last, Entry(prog, blocks, c), |prog|);
      forall x | x in s
        ensures BlockOf(prog, blocks, bb, x) in B
      {
        assert InBlock(blocks, b, x);
        ExactlyOneBlock(prog, blocks, bb, x, b);
      }
    }
  }

  // An instruction path to a block's entry passes from block to block.
  lemma {:induction false} FollowBlocks(prog: Program, blocks: seq<Block>, bb: seq<nat>, succ: Graph, pred: Graph,
                                        path: seq<nat>, p: nat, c: nat)
    requires Faithful(prog, blocks, bb, succ, pred) && c < |blocks| && Entry(prog, blocks, c) >= 0
    requires Connects(InstrGraph(prog), path, p, Entry(prog, blocks, c)) && Stop(prog, p)
    ensures Reaches(succ, BlockOf(prog, blocks, bb, p), c)
    decreases |path|
  {
    var b := BlockOf(prog, blocks, bb, p);
    if |path| == 1 {
      EntryIsOwn(prog, blocks, bb, c);
      assert Connects(succ, [c], c, c);
    } else {
      var q := path[1];
      assert q in InstrSucc(prog, p);
      assert InBlock(blocks, b, p);
      PathTail(InstrGraph(prog), path, Entry(prog, blocks, c), 1);
      if p == blocks[b].last {
        EdgeLands(prog, blocks, bb, b, q);
        FollowBlocks(prog, blocks, bb, succ, pred, path[1..], q, c);
        var next := BlockOf(prog, blocks, bb, q);
        var C :| Connects(succ, C, next, c);
        assert next in succ[b];
        StepThenPath(succ, C, b, next, c);
      } else {
        InsideStep(prog, blocks, bb, b, p);
        FollowBlocks(prog, blocks, bb, succ, pred, path[1..], q, c);
      }
    }
  }

  // the entry of a block lies in it
  lemma {:induction false} EntryIsOwn(prog: Program, blocks: seq<Block>, bb: seq<nat>, c: nat)
    requires Layout(prog, blocks, bb) && c < |blocks|
    ensures 0 <= Entry(prog, blocks, c) <= |prog| && Stop(prog, Entry(prog, blocks, c))
    ensures BlockOf(prog, blocks, bb, Entry(prog, blocks, c)) == c
  {
    if c < |blocks| - 1 {
      assert InBlock(blocks, c, blocks[c].first);
      ExactlyOneBlock(prog, blocks, bb, blocks[c].first, c);
    }
  }

  // A block path is followed by the instructions.
  lemma {:induction false} FollowInstructions(prog: Program, blocks: seq<Block>, bb: seq<nat>, succ: Graph, pred: Graph,
                                              B: seq<nat>, b: nat, c: nat)
    requires Faithful(prog, blocks, bb, succ, pred) && Connects(succ, B, b, c)
    ensures Entry(prog, blocks, b) >= 0 && Entry(prog, blocks, c) >= 0
    ensures Reaches(InstrGraph(prog), Entry(prog, blocks, b), Entry(prog, blocks, c))
    decreases |B|
  {
    var g := InstrGraph(prog);
    EntryIsOwn(prog, blocks, bb, b);
    EntryIsOwn(prog, blocks, bb, c);
    var x, z: nat := Entry(prog, blocks, b), Entry(prog, blocks, c);
    if |B| == 1 {
      assert Connects(g, [x], x, z);
    } else {
      var d := B[1];
      BlockEdge(prog, blocks, bb, succ, pred, b, d);
      PathTail(succ, B, c, 1);
      FollowInstructions(prog, blocks, bb, succ, pred, B[1..], d, c);
      StretchIsPath(prog, blocks, bb, b);
      var rest :| Connects(g, rest, Entry(prog, blocks, d), z);
      BridgePaths(g, Stretch(blocks[b].first, blocks[b].last), rest,
                  x, blocks[b].last, Entry(prog, blocks, d), z);
    }
  }

  /** The block graph and the instructions agree on what leads where: between
      any two blocks there is a block path if and only if there is an
      instruction path between their entries. */
  lemma {:induction false} PathsCorrespond(prog: Program, blocks: seq<Block>, bb: seq<nat>, succ: Graph, pred: Graph,
                                           b: nat, c: nat)
    requires Faithful(prog, blocks, bb, succ, pred) && b < |blocks| && c < |blocks|
    ensures Entry(prog, blocks, b) >= 0 && Entry(prog, blocks, c) >= 0
    ensures Reaches(succ, b, c) <==> Reaches(InstrGraph(prog), Entry(prog, blocks, b), Entry(prog, blocks, c))
  {
    EntryIsOwn(prog, blocks, bb, b);
    EntryIsOwn(prog, blocks, bb, c);
    if Reaches(succ, b, c) {
      var B :| Connects(succ, B, b, c);
      FollowInstructions(prog, blocks, bb, succ, pred, B, b, c);
    }
    if Reaches(InstrGraph(prog), Entry(prog, blocks, b), Entry(prog, blocks, c)) {
      var path :| Connects(InstrGraph(prog), path, Entry(prog, blocks, b), Entry(prog, blocks, c));
      FollowBlocks(prog, blocks, bb, succ, pred, path, Entry(prog, blocks, b), c);
    }
  }

  /** From an instruction, the function exit is reachable exactly when the
      exit block is reachable from its block. */
  lemma {:induction false} ReachabilityAgrees(prog: Program, blocks: seq<Block>, bb: seq<nat>, succ: Graph, pred: Graph, b: nat)
    requires Faithful(prog, blocks, bb, succ, pred) && b < |blocks| - 1
    ensures Reaches(succ, b, |blocks| - 1) <==> Reaches(InstrGraph(prog), blocks[b].last, |prog|)
  {
    var g := InstrGraph(prog);
    var p := blocks[b].last;
    assert InBlock(blocks, b, p);
    ExactlyOneBlock(prog, blocks, bb, p, b);
    if Reaches(g, p, |prog|) {
      var path :| Connects(g, path, p, |prog|);
      CollapseIsPath(prog, blocks, bb, succ, pred, path, p);
    }
    if Reaches(succ, b, |blocks| - 1) {
      var B :| Connects(succ, B, b, |blocks| - 1);
      var path := FromBranch(prog, blocks, bb, succ, pred, B, b);
    }
  }

  // A block path, followed from the last instruction of its first block.
  lemma {:induction false} FromBranch(prog: Program, blocks: seq<Block>, bb: seq<nat>, succ: Graph, pred: Graph,
                   B: seq<nat>, b: nat) returns (path: seq<nat>)
    requires Faithful(prog, blocks, bb, succ, pred) && b < |blocks| - 1
    requires Connects(succ, B, b, |blocks| - 1)
    ensures Connects(InstrGraph(prog), path, blocks[b].last, |prog|)
    ensures forall x :: x in path[1..] ==> BlockOf(prog, blocks, bb, x) in B
  {
    BlockEdge(prog, blocks, bb, succ, pred, b, B[1]);
    PathTail(succ, B, |blocks| - 1, 1);
    ExpandIsPath(prog, blocks, bb, succ, pred, B[1..], B[1]);
    path := [blocks[b].last] + Expand(prog, blocks, B[1..]);
    StepThenPath(InstrGraph(prog), Expand(prog, blocks, B[1..]),
                 blocks[b].last, Entry(prog, blocks, B[1]), |prog|);
  }

  // Once inside a block, control runs to its end.
  lemma {:induction false} RunsToEnd(prog: Program, blocks: seq<Block>, bb: seq<nat>, path: seq<nat>, p: nat, b: nat, t: nat)
    requires Analysable(prog) && Layout(prog, blocks, bb) && b < |blocks| - 1
    requires InBlock(blocks, b, p) && p <= t <= blocks[b].last
    requires Connects(InstrGraph(prog), path, p, |prog|)
    ensures t in path
    decreases t - p
  {
    if p < t {
      InsideStep(prog, blocks, bb, b, p);
      assert |path| > 1;
      assert path[1] in InstrGraph(prog)[p];
      PathTail(InstrGraph(prog), path, |prog|, 1);
      RunsToEnd(prog, blocks, bb, path[1..], p + 1, b, t);
    }
  }

  // Control that is on its way out is never at a label.
  lemma {:induction false} OnPathIsStop(prog: Program, path: seq<nat>, p: nat, t: nat)
    requires Connects(InstrGraph(prog), path, p, |prog|) && t in path
    ensures Stop(prog, t)
  {
    var i :| 0 <= i < |path| && path[i] == t;
    if i < |path| - 1 {
      assert path[i + 1] in InstrGraph(prog)[t];
    }
  }

  // A post-dominating instruction of a block's end lies in a post-dominating,
  // different block.
  lemma {:induction false} PostDominatorsBlock(prog: Program, blocks: seq<Block>, bb: seq<nat>, succ: Graph, pred: Graph,
                            b: nat, t: nat)
    requires Faithful(prog, blocks, bb, succ, pred) && b < |blocks| - 1
    requires Reaches(InstrGraph(prog), blocks[b].last, |prog|)
    requires t < |prog| && t != blocks[b].last
    requires OnEveryPath(InstrGraph(prog), blocks[b].last, |prog|, t)
    ensures prog[t].Inst? && bb[t] < |blocks| - 1 && bb[t] != b
    ensures OnEveryPath(succ, b, |blocks| - 1, bb[t])
  {
    var g := InstrGraph(prog);
    var p := blocks[b].last;
    var path :| Connects(g, path, p, |prog|);
    OnPathIsStop(prog, path, p, t);
    if bb[t] == b {
      // t precedes p in the block: after the last visit to p, t would bring p back
      assert InBlock(blocks, b, t);
      var j := LastVisit(path, p, p);
      assert path[j..][1..] == path[j + 1..];
      PathTail(g, path, |prog|, j);
      var k :| 0 <= k < |path[j..]| && path[j..][k] == t;
      assert path[j + k] == t;
      assert path[j + 1..][k - 1..] == path[j + k..];
      PathTail(g, path, |prog|, j + k);
      RunsToEnd(prog, blocks, bb, path[j + k..], t, b, p);
      assert false;
    }
    forall B | Connects(succ, B, b, |blocks| - 1)
      ensures bb[t] in B
    {
      var out := FromBranch(prog, blocks, bb, succ, pred, B, b);
      assert out == [p] + out[1..];
    }
  }

  // Any way out from a block's entry that must touch block bb[t] touches t.
  lemma {:induction false} MeetsInstruction(prog: Program, blocks: seq<Block>, bb: seq<nat>, succ: Graph, pred: Graph,
                         d: nat, t: nat, path: seq<nat>)
    requires Faithful(prog, blocks, bb, succ, pred) && d < |blocks| - 1
    requires t < |prog| && prog[t].Inst?
    requires OnEveryPath(succ, d, |blocks| - 1, bb[t])
    requires Connects(InstrGraph(prog), path, blocks[d].first, |prog|)
    ensures t in path
  {
    var q := blocks[d].first;
    var c := bb[t];
    assert InBlock(blocks, d, q);
    ExactlyOneBlock(prog, blocks, bb, q, d);
    CollapseIsPath(prog, blocks, bb, succ, pred, path, q);
    var C := Collapse(prog, blocks, bb, path);
    assert c in C;
    var i :| 0 <= i < |C| && C[i] == c;
    if i == 0 {
      RunsToEnd(prog, blocks, bb, path, q, d, t);
    } else {
      var e := blocks[c].first;
      assert e in path;
      var j :| 0 <= j < |path| && path[j] == e;
      PathTail(InstrGraph(prog), path, |prog|, j);
      RunsToEnd(prog, blocks, bb, path[j..], e, c, t);
      assert t in path[j..];
    }
  }

  /** The entry of the nearest post-dominating block is the nearest
      post-dominating instruction. */
  lemma {:induction false} NearestBlockIsNearestInstruction(
    prog: Program, blocks: seq<Block>, bb: seq<nat>, succ: Graph, pred: Graph, b: nat, d: nat)
    requires Faithful(prog, blocks, bb, succ, pred) && b < |blocks| - 1
    requires Reaches(InstrGraph(prog), blocks[b].last, |prog|)
    requires Nearest(succ, b, |blocks| - 1, d)
    ensures Entry(prog, blocks, d) >= 0
    ensures Nearest(InstrGraph(prog), blocks[b].last, |prog|, Entry(prog, blocks, d))
  {
    var g := InstrGraph(prog);
    var p := blocks[b].last;
    var q: nat := Entry(prog, blocks, d);
    assert InBlock(blocks, b, p);
    ExactlyOneBlock(prog, blocks, bb, p, b);
    if d < |blocks| - 1 {
      assert InBlock(blocks, d, q);
      ExactlyOneBlock(prog, blocks, bb, q, d);
    }
    assert q != p;
    forall path | Connects(g, path, p, |prog|)
      ensures q in path
    {
      CollapseIsPath(prog, blocks, bb, succ, pred, path, p);
      var C := Collapse(prog, blocks, bb, path);
      var i :| 0 <= i < |C| && C[i] == d;
    }
    forall t: nat, path | t < |g| && t != p && OnEveryPath(g, p, |prog|, t) && Connects(g, path, q, |prog|)
      ensures t in path
    {
      if t == |prog| {
        assert path[|path| - 1] == t;
      } else {
        PostDominatorsBlock(prog, blocks, bb, succ, pred, b, t);
        var c := bb[t];
        if d == |blocks| - 1 {
          OnlyRootBlocksRoot(succ, |blocks| - 1, c);
          assert false;
        } else {
          MeetsInstruction(prog, blocks, bb, succ, pred, d, t, path);
        }
      }
    }
  }

  // ----- what the assertions in the dominator passes come down to -----

  // some instruction continues at the very first one
  ghost predicate LoopsToStart(prog: Program) {
    exists p: nat :: p < |prog| && NextReal(prog, 0) in InstrSucc(prog, p)
  }

  // from every instruction the function can still return
  ghost predicate AlwaysReturns(prog: Program) {
    forall p: nat :: p < |prog| && prog[p].Inst? ==> Reaches(InstrGraph(prog), p, |prog|)
  }

  // An instruction that continues at the first one ends its block.
  lemma {:induction false} StartIsEnteredFromAnEnd(prog: Program, blocks: seq<Block>, bb: seq<nat>, p: nat)
    requires Analysable(prog) && Layout(prog, blocks, bb)
    requires p < |prog| && prog[p].Inst? && NextReal(prog, 0) in InstrSucc(prog, p)
    ensures bb[p] < |blocks| - 1 && p == blocks[bb[p]].last && bb[NextReal(prog, 0)] == 0
  {
    var f := NextReal(prog, 0);
    var b := bb[p];
    assert InBlock(blocks, 0, f);
    ExactlyOneBlock(prog, blocks, bb, f, 0);
    if p < blocks[b].last {
      InsideStep(prog, blocks, bb, b, p);
      assert false;
    }
  }

  /** The entry block has a predecessor exactly if some instruction continues at
      the first instruction. */
  lemma {:induction false} EntryPredecessors(prog: Program, blocks: seq<Block>, bb: seq<nat>, succ: Graph, pred: Graph)
    requires Faithful(prog, blocks, bb, succ, pred)
    ensures pred[0] == {} <==> !LoopsToStart(prog)
  {
    if pred[0] != {} {
      var b :| b in pred[0];
      assert 0 in succ[b];
      BlockEdge(prog, blocks, bb, succ, pred, b, 0);
    }
    if LoopsToStart(prog) {
      var p: nat :| p < |prog| && NextReal(prog, 0) in InstrSucc(prog, p);
      StartIsEnteredFromAnEnd(prog, blocks, bb, p);
      var b := bb[p];
      assert BlockOf(prog, blocks, bb, NextReal(prog, 0)) in SuccessorBlocks(prog, blocks, bb, b);
      assert 0 in succ[b];
    }
  }

  // ----- when the post-dominator pass leaves one element for every block -----

  // a block begins at p from which the function cannot return
  ghost predicate StuckStart(prog: Program, p: nat) {
    p < |prog| && StartsBlock(prog, p) && !Reaches(InstrGraph(prog), p, |prog|)
  }

  ghost predicate OnlyStuckStart(prog: Program, p: nat) {
    StuckStart(prog, p) && forall q: nat :: StuckStart(prog, q) ==> q == p
  }

  /** Not exactly one block is stuck; or every instruction that can return lies
      on every way out from one of them. */
  ghost predicate PostdominatorsFound(prog: Program) {
    InALine(InstrGraph(prog), |prog|) || !exists p: nat :: OnlyStuckStart(prog, p)
  }

  /** A function in which everything can return passes. */
  lemma {:induction false} AlwaysReturnsPasses(prog: Program)
    requires AlwaysReturns(prog)
    ensures PostdominatorsFound(prog)
  {
  }

  // a stuck block is one that begins stuck
  lemma {:induction false} StuckBlock(prog: Program, blocks: seq<Block>, bb: seq<nat>, succ: Graph, pred: Graph, b: nat)
    requires Faithful(prog, blocks, bb, succ, pred) && b < |blocks|
    ensures Entry(prog, blocks, b) >= 0
    ensures Stuck(succ, |blocks| - 1, b) <==> StuckStart(prog, Entry(prog, blocks, b))
  {
    var r: nat := |blocks| - 1;
    PathsCorrespond(prog, blocks, bb, succ, pred, b, r);
    EntryIsOwn(prog, blocks, bb, b);
    if b < r {
      BlockStarts(prog, blocks, bb, blocks[b].first);
    } else {
      assert Connects(succ, [r], r, r);
    }
  }

  // where a block begins, its own entry is
  lemma {:induction false} StartIsEntry(prog: Program, blocks: seq<Block>, bb: seq<nat>, p: nat)
    requires Layout(prog, blocks, bb) && p < |prog| && StartsBlock(prog, p)
    ensures bb[p] < |blocks| - 1 && Entry(prog, blocks, bb[p]) == p
  {
    BlockStarts(prog, blocks, bb, p);
  }

  lemma {:induction false} SameStuck(prog: Program, blocks: seq<Block>, bb: seq<nat>, succ: Graph, pred: Graph)
    requires Faithful(prog, blocks, bb, succ, pred)
    ensures OneStuck(succ, |blocks| - 1) <==> exists p: nat :: OnlyStuckStart(prog, p)
  {
    var r: nat := |blocks| - 1;
    if b: nat :| StuckAlone(succ, r, b) {
      StuckBlock(prog, blocks, bb, succ, pred, b);
      forall q: nat | StuckStart(prog, q)
        ensures q == Entry(prog, blocks, b)
      {
        StartIsEntry(prog, blocks, bb, q);
        StuckBlock(prog, blocks, bb, succ, pred, bb[q]);
      }
      assert OnlyStuckStart(prog, Entry(prog, blocks, b));
    }
    if p: nat :| OnlyStuckStart(prog, p) {
      StartIsEntry(prog, blocks, bb, p);
      StuckBlock(prog, blocks, bb, succ, pred, bb[p]);
      forall u: nat | Stuck(succ, r, u)
        ensures u == bb[p]
      {
        StuckBlock(prog, blocks, bb, succ, pred, u);
        EntryIsOwn(prog, blocks, bb, u);
      }
      assert StuckAlone(succ, r, bb[p]);
    }
  }

  // ----- what is recorded where no way leads out -----

  // where the block that p is in begins
  function StartOf(prog: Program, p: nat): (s: nat)
    requires p < |prog|
    ensures s <= p && forall k :: s < k <= p ==> !StartsBlock(prog, k)
    ensures s == 0 || StartsBlock(prog, s)
  {
    if p == 0 || StartsBlock(prog, p) then p else StartOf(prog, p - 1)
  }

  /** The point recorded for an instruction p from which the function cannot
      return: the first place where another block begins from which it cannot
      either; if there is none, the instruction that all others which can return
      stand behind. */
  ghost predicate FallbackOf(prog: Program, p: nat, q: nat)
    requires p < |prog|
  {
    || (StuckStart(prog, q) && q != StartOf(prog, p)
        && forall v: nat :: StuckStart(prog, v) && v < q ==> v == StartOf(prog, p))
    || (OnlyStuckStart(prog, StartOf(prog, p)) && BeforeAll(InstrGraph(prog), |prog|, q))
  }

  lemma {:induction false} FallbackIsUnique(prog: Program, p: nat, q: nat, t: nat)
    requires p < |prog| && FallbackOf(prog, p, q) && FallbackOf(prog, p, t)
    ensures q == t
  {
    var own := StartOf(prog, p);
    if OnlyStuckStart(prog, own) && q != t {
      BlockersAntisymmetric(InstrGraph(prog), |prog|, q, t);
    }
  }

  lemma {:induction false} StartOfBlock(prog: Program, blocks: seq<Block>, bb: seq<nat>, b: nat, p: nat)
    requires Layout(prog, blocks, bb) && b < |blocks| - 1 && InBlock(blocks, b, p)
    ensures p < |prog| && StartOf(prog, p) == blocks[b].first
    decreases p
  {
    ExactlyOneBlock(prog, blocks, bb, p, b);
    BlockStarts(prog, blocks, bb, p);
    if p != blocks[b].first {
      StartOfBlock(prog, blocks, bb, b, p - 1);
    }
  }

  // blocks begin in the order of their ids
  lemma {:induction false} EarlierStart(prog: Program, blocks: seq<Block>, bb: seq<nat>, b: nat, c: nat)
    requires Layout(prog, blocks, bb) && b < |blocks| - 1 && c < |blocks| - 1
    requires blocks[b].first < blocks[c].first
    ensures b < c
  {
    if c < b {
      FirstsIncrease(prog, blocks, bb, c, b);
    }
  }

  lemma {:induction false} FallbackAgrees(prog: Program, blocks: seq<Block>, bb: seq<nat>, succ: Graph, pred: Graph,
                                          b: nat, d: nat)
    requires Faithful(prog, blocks, bb, succ, pred) && b < |blocks| - 1
    requires Stuck(succ, |blocks| - 1, b) && LeftForStuck(succ, |blocks| - 1, b, d) && d < |blocks|
    ensures 0 <= blocks[b].last < |prog| && Entry(prog, blocks, d) >= 0
    ensures FallbackOf(prog, blocks[b].last, Entry(prog, blocks, d))
  {
    var r: nat := |blocks| - 1;
    StartOfBlock(prog, blocks, bb, b, blocks[b].last);
    StuckBlock(prog, blocks, bb, succ, pred, b);
    EntryIsOwn(prog, blocks, bb, d);
    if StuckAlone(succ, r, b) && BeforeAll(succ, r, d) {
      forall q: nat | StuckStart(prog, q)
        ensures q == blocks[b].first
      {
        StartIsEntry(prog, blocks, bb, q);
        StuckBlock(prog, blocks, bb, succ, pred, bb[q]);
      }
      LineOfBlocks(prog, blocks, bb, succ, pred, d);
    } else {
      StuckBlock(prog, blocks, bb, succ, pred, d);
      EntryIsOwn(prog, blocks, bb, b);
      forall v: nat | StuckStart(prog, v) && v < Entry(prog, blocks, d)
        ensures v == blocks[b].first
      {
        StartIsEntry(prog, blocks, bb, v);
        StuckBlock(prog, blocks, bb, succ, pred, bb[v]);
        EarlierStart(prog, blocks, bb, bb[v], d);
      }
    }
  }

  // an instruction that can return is in a block that reaches the exit
  lemma {:induction false} ReturningBlock(prog: Program, blocks: seq<Block>, bb: seq<nat>, succ: Graph, pred: Graph, t: nat)
    requires Faithful(prog, blocks, bb, succ, pred) && t <= |prog| && Reaches(InstrGraph(prog), t, |prog|)
    ensures Stop(prog, t)
    ensures BlockOf(prog, blocks, bb, t) < |blocks| && Reaches(succ, BlockOf(prog, blocks, bb, t), |blocks| - 1)
  {
    var path :| Connects(InstrGraph(prog), path, t, |prog|);
    OnPathIsStop(prog, path, t, t);
    CollapseIsPath(prog, blocks, bb, succ, pred, path, t);
    if t < |prog| {
      assert bb[t] < |blocks| - 1;
    }
  }

  // when all blocks that reach the exit stand before the exit block itself,
  // nothing but having returned can return
  lemma {:induction false} ExitAlone(prog: Program, blocks: seq<Block>, bb: seq<nat>, succ: Graph, pred: Graph, t: nat)
    requires Faithful(prog, blocks, bb, succ, pred) && BeforeAll(succ, |blocks| - 1, |blocks| - 1)
    requires t <= |prog| && Reaches(InstrGraph(prog), t, |prog|)
    ensures t == |prog|
  {
    ReturningBlock(prog, blocks, bb, succ, pred, t);
    OnlyRootBlocksRoot(succ, |blocks| - 1, BlockOf(prog, blocks, bb, t));
  }

  // blocks in one line: from the first one's entry every instruction is met
  lemma {:induction false} LineOfBlocks(prog: Program, blocks: seq<Block>, bb: seq<nat>, succ: Graph, pred: Graph, m: nat)
    requires Faithful(prog, blocks, bb, succ, pred) && BeforeAll(succ, |blocks| - 1, m)
    ensures Entry(prog, blocks, m) >= 0 && BeforeAll(InstrGraph(prog), |prog|, Entry(prog, blocks, m))
  {
    var g, r: nat := InstrGraph(prog), |blocks| - 1;
    EntryIsOwn(prog, blocks, bb, m);
    PathsCorrespond(prog, blocks, bb, succ, pred, m, r);
    var e: nat := Entry(prog, blocks, m);
    forall t: nat, path | t < |g| && Reaches(g, t, |prog|) && Connects(g, path, e, |prog|)
      ensures t in path
    {
      ReturningBlock(prog, blocks, bb, succ, pred, t);
      if m == r {
        ExitAlone(prog, blocks, bb, succ, pred, t);
      }
      if t == |prog| {
        assert path[|path| - 1] == t;
      } else {
        assert OnEveryPath(succ, m, r, bb[t]);
        MeetsInstruction(prog, blocks, bb, succ, pred, m, t, path);
      }
    }
  }

  // and the other way round
  lemma {:induction false} LineOfInstructions(prog: Program, blocks: seq<Block>, bb: seq<nat>, succ: Graph, pred: Graph, m: nat)
    requires Faithful(prog, blocks, bb, succ, pred) && BeforeAll(InstrGraph(prog), |prog|, m)
    ensures BlockOf(prog, blocks, bb, m) < |blocks| && BeforeAll(succ, |blocks| - 1, BlockOf(prog, blocks, bb, m))
  {
    var g, r: nat := InstrGraph(prog), |blocks| - 1;
    ReturningBlock(prog, blocks, bb, succ, pred, m);
    var b := BlockOf(prog, blocks, bb, m);
    forall c: nat, B | c < |succ| && Reaches(succ, c, r) && Connects(succ, B, b, r)
      ensures c in B
    {
      PathsCorrespond(prog, blocks, bb, succ, pred, c, r);
      EntryIsOwn(prog, blocks, bb, c);
      EntryIsOwn(prog, blocks, bb, r);
      var t: nat := Entry(prog, blocks, c);
      assert OnEveryPath(g, m, |prog|, t);
      var path := FromWithin(prog, blocks, bb, succ, pred, B, m);
      assert t in path;
    }
  }

  // a block path, followed from an instruction within its first block
  lemma {:induction false} FromWithin(prog: Program, blocks: seq<Block>, bb: seq<nat>, succ: Graph, pred: Graph,
                                      B: seq<nat>, m: nat) returns (path: seq<nat>)
    requires Faithful(prog, blocks, bb, succ, pred) && m <= |prog| && Stop(prog, m)
    requires Connects(succ, B, BlockOf(prog, blocks, bb, m), |blocks| - 1)
    ensures Connects(InstrGraph(prog), path, m, |prog|)
    ensures forall x :: x in path ==> BlockOf(prog, blocks, bb, x) in B
  {
    var g, b := InstrGraph(prog), BlockOf(prog, blocks, bb, m);
    ExpandIsPath(prog, blocks, bb, succ, pred, B, b);
    var all := Expand(prog, blocks, B);
    if m < |prog| {
      assert InBlock(blocks, b, m);
    }
    EntryIsOwn(prog, blocks, bb, b);
    var i: nat := m - Entry(prog, blocks, b);
    assert all[i] == m;
    PathTail(g, all, |prog|, i);
    path := all[i..];
  }

  /** What the post-dominator pass needs of the blocks, read off the
      instructions. */
  lemma {:induction false} PostdominatorsFoundAgrees(prog: Program, blocks: seq<Block>, bb: seq<nat>, succ: Graph, pred: Graph)
    requires Faithful(prog, blocks, bb, succ, pred)
    ensures OneLeftEach(succ, |blocks| - 1) <==> PostdominatorsFound(prog)
  {
    SameStuck(prog, blocks, bb, succ, pred);
    var r: nat := |blocks| - 1;
    if m: nat :| BeforeAll(succ, r, m) {
      LineOfBlocks(prog, blocks, bb, succ, pred, m);
    }
    if m: nat :| BeforeAll(InstrGraph(prog), |prog|, m) {
      LineOfInstructions(prog, blocks, bb, succ, pred, m);
    }
  }
}
