/**
 What the analysis makes of the first list entry.  The scans never look at it,
 so a control transfer there, directly followed by code, is taken for an
 instruction that just goes on.  All the blocks say is then true of the list
 with that one entry replaced, and everything behind the first entry is the
 same in both.
 */
module FirstEntry {
  import opened FlowGraph
  import opened PtxProgram
  import opened BasicBlocks
  import opened ControlFlow

  /** The list the blocks describe. */
  function AsSeen(prog: Program): (seen: Program)
    ensures |seen| == |prog|
    ensures forall p :: 0 < p < |prog| ==> seen[p] == prog[p]
    ensures StartsPlainly(seen) <==> !OpensWithLabels(prog)
  {
    if OpensWithTransfer(prog) then prog[0 := Inst(Other, false, "", prog[0].size)] else prog
  }

  // ----- positions, labels and leaders are the same -----

  lemma {:induction false} SameReal(prog: Program, p: nat)
    requires p <= |prog|
    ensures NextReal(AsSeen(prog), p) == NextReal(prog, p)
    decreases |prog| - p
  {
    if p < |prog| {
      SameReal(prog, p + 1);
    }
  }

  lemma {:induction false} SameLast(prog: Program, n: nat)
    requires n <= |prog|
    ensures LastReal(AsSeen(prog), n) == LastReal(prog, n)
  {
    if n > 0 {
      SameLast(prog, n - 1);
    }
  }

  lemma {:induction false} SameLabel(prog: Program, name: string, n: nat)
    requires n <= |prog|
    ensures LabelPosition(AsSeen(prog), name, n) == LabelPosition(prog, name, n)
  {
    if n > 0 {
      SameLabel(prog, name, n - 1);
    }
  }

  lemma {:induction false} SameTarget(prog: Program, name: string)
    ensures Defined(AsSeen(prog), name) == Defined(prog, name)
    ensures Target(AsSeen(prog), name) == Target(prog, name)
  {
    SameLabel(prog, name, |prog|);
    SameReal(prog, LabelPosition(prog, name, |prog|));
  }

  lemma {:induction false} SameLeaders(prog: Program, n: nat)
    requires n <= |prog|
    ensures Leaders(AsSeen(prog), n) == Leaders(prog, n)
  {
    if n > 0 {
      SameLeaders(prog, n - 1);
      assert IsLeader(AsSeen(prog), n - 1) == IsLeader(prog, n - 1);
    }
  }

  lemma {:induction false} SameStretch(prog: Program, k: nat)
    requires HasCode(prog) && k < |Leaders(prog, |prog|)|
    ensures HasCode(AsSeen(prog)) && Leaders(AsSeen(prog), |prog|) == Leaders(prog, |prog|)
    ensures NextReal(AsSeen(prog), Leaders(prog, |prog|)[k]) == NextReal(prog, Leaders(prog, |prog|)[k])
    ensures LastReal(AsSeen(prog), LeaderAfter(AsSeen(prog), k)) == LastReal(prog, LeaderAfter(prog, k))
  {
    SameReal(prog, 0);
    SameLeaders(prog, |prog|);
    SameReal(prog, Leaders(prog, |prog|)[k]);
    SameLast(prog, LeaderAfter(prog, k));
  }

  lemma {:induction false} SameCount(prog: Program)
    requires HasCode(prog)
    ensures HasCode(AsSeen(prog)) && BlockCount(AsSeen(prog)) == BlockCount(prog)
  {
    SameStretch(prog, |Leaders(prog, |prog|)| - 1);
  }

  /** So the scans cut both lists alike. */
  lemma {:induction false} SameCut(prog: Program, blocks: seq<Block>, bb: seq<nat>)
    requires CutAtLeaders(prog, blocks, bb)
    ensures CutAtLeaders(AsSeen(prog), blocks, bb)
  {
    var seen := AsSeen(prog);
    SameCount(prog);
    forall k: nat | k < |blocks| - 1
      ensures blocks[k] == Block(NextReal(seen, Leaders(seen, |seen|)[k]), LastReal(seen, LeaderAfter(seen, k)),
                                 k == 0, false)
    {
      SameStretch(prog, k);
    }
    forall p: nat | p < |prog| && seen[p].Inst?
      ensures bb[p] == |Leaders(seen, p + 1)| - 1
    {
      SameLeaders(prog, p + 1);
    }
  }

  /** Unless two labels open the list, the blocks are a proper partition of the
      list as seen. */
  lemma {:induction false} SeenLayout(prog: Program, blocks: seq<Block>, bb: seq<nat>)
    requires CutAtLeaders(prog, blocks, bb) && !OpensWithLabels(prog)
    ensures Layout(AsSeen(prog), blocks, bb)
  {
    SameCut(prog, blocks, bb);
    LayoutExactly(AsSeen(prog), blocks, bb);
  }

  // the replaced entry ends no block
  lemma {:induction false} SeenEnd(prog: Program, blocks: seq<Block>, bb: seq<nat>, b: nat)
    requires Layout(AsSeen(prog), blocks, bb) && b < |blocks| - 1
    ensures 0 <= blocks[b].last < |prog| && prog[blocks[b].last] == AsSeen(prog)[blocks[b].last]
    ensures prog[blocks[b].last].Inst?
    ensures OpensWithTransfer(prog) ==> blocks[b].last > 0
  {
    var seen := AsSeen(prog);
    assert InBlock(blocks, b, blocks[b].last);
    if OpensWithTransfer(prog) {
      BlockStarts(seen, blocks, bb, 1);
      ExactlyOneBlock(seen, blocks, bb, 1, b);
      assert !StartsBlock(seen, 1);
      if b > 0 {
        FirstsIncrease(seen, blocks, bb, 0, b);
      }
    }
  }

  lemma {:induction false} SeenAnalysable(prog: Program)
    requires Analysable(prog)
    ensures Analysable(AsSeen(prog))
  {
    var seen := AsSeen(prog);
    SameReal(prog, 0);
    forall p: nat | p < |prog| && NeedsLabel(seen[p])
      ensures Defined(seen, seen[p].target) && Lands(seen, seen[p].target)
    {
      SameTarget(prog, seen[p].target);
      assert NeedsLabel(prog[p]);
    }
    forall p: nat | p < |prog| && FallsThrough(seen[p])
      ensures NextReal(seen, p + 1) < |prog|
    {
      SameReal(prog, p + 1);
      assert p > 0 ==> FallsThrough(prog[p]);
    }
  }

  // ----- control flow behind the first entry is the same -----

  lemma {:induction false} SameSucc(prog: Program, p: nat)
    requires p < |prog| && (OpensWithTransfer(prog) ==> p > 0)
    ensures InstrSucc(AsSeen(prog), p) == InstrSucc(prog, p)
  {
    if prog[p].Inst? {
      SameReal(prog, p + 1);
      SameTarget(prog, prog[p].target);
    }
  }

  /** Where blocks start, by opcode: at the first instruction, behind labels, and
      behind branches, returns and guarded calls but the one in the first entry. */
  lemma {:induction false} SeenStarts(prog: Program, blocks: seq<Block>, bb: seq<nat>, p: nat)
    requires Layout(AsSeen(prog), blocks, bb) && p < |prog| && prog[p].Inst?
    ensures bb[p] < |blocks| - 1
    ensures blocks[bb[p]].first == p <==>
            || p == NextReal(prog, 0) || prog[p - 1].Label?
            || (p > 1 && prog[p - 1].op in {Bra, Ret, Retp, Exit})
            || (p > 1 && prog[p - 1].op in {Call, Callp} && prog[p - 1].pred)
  {
    SameReal(prog, 0);
    BlockStarts(AsSeen(prog), blocks, bb, p);
  }

  /** The links of block b, by opcode of its last instruction.  The block that
      follows is the next one. */
  lemma {:induction false} SeenLinks(prog: Program, blocks: seq<Block>, bb: seq<nat>, b: nat, succ: set<nat>)
    requires Analysable(prog) && Layout(AsSeen(prog), blocks, bb) && b < |blocks| - 1
    requires succ == SuccessorBlocks(AsSeen(prog), blocks, bb, b)
    ensures 0 <= blocks[b].last < |prog| && prog[blocks[b].last].Inst?
    ensures prog[blocks[b].last].op == Bra ==>
              Target(prog, prog[blocks[b].last].target) < |prog| && Label(prog[blocks[b].last].target) in prog
    ensures succ == match prog[blocks[b].last].op
                    case Ret => {|blocks| - 1} + (if prog[blocks[b].last].pred then {b + 1} else {})
                    case Retp => {|blocks| - 1} + (if prog[blocks[b].last].pred then {b + 1} else {})
                    case Exit => {|blocks| - 1} + (if prog[blocks[b].last].pred then {b + 1} else {})
                    case Bra => {bb[Target(prog, prog[blocks[b].last].target)]}
                                + (if prog[blocks[b].last].pred then {b + 1} else {})
                    case Call => {b + 1}
                    case Callp => {b + 1}
                    case Other => {b + 1}
  {
    SeenSuccessors(prog, blocks, bb, b);
    var p := blocks[b].last;
    if FallsThrough(prog[p]) {
      SameReal(prog, p + 1);
      assert b < |blocks| - 2 ==> Follows(AsSeen(prog), blocks, b);
      assert InBlock(blocks, b + 1, blocks[b + 1].first);
      ExactlyOneBlock(AsSeen(prog), blocks, bb, blocks[b + 1].first, b + 1);
    }
  }

  // A branch that is not missed ends its block, and is among those listed.
  lemma {:induction false} SeenBranchIsListed(prog: Program, blocks: seq<Block>, bb: seq<nat>, p: nat)
    requires Layout(AsSeen(prog), blocks, bb) && p < |prog| && prog[p].Inst? && prog[p].op == Bra
    requires OpensWithTransfer(prog) ==> p > 0
    requires forall b: nat :: b < |blocks| - 1 ==> 0 <= blocks[b].last < |prog| && prog[blocks[b].last].Inst?
    ensures bb[p] < |blocks| - 1 && p == blocks[bb[p]].last
    ensures bb[p] in BranchBlocks(prog, blocks, |blocks| - 1)
  {
    assert Cuts(AsSeen(prog), p);
    assert InBlock(blocks, bb[p], p);
    BranchBlockListed(prog, blocks, |blocks| - 1, bb[p]);
  }

  lemma {:induction false} SeenFaithful(prog: Program, blocks: seq<Block>, bb: seq<nat>, succ: Graph, pred: Graph)
    requires Analysable(prog) && Layout(AsSeen(prog), blocks, bb) && Linked(AsSeen(prog), blocks, bb, succ, pred)
    ensures Faithful(AsSeen(prog), blocks, bb, succ, pred)
  {
    SeenAnalysable(prog);
  }

  // The successor blocks, read off the list itself.
  lemma {:induction false} SeenSuccessors(prog: Program, blocks: seq<Block>, bb: seq<nat>, b: nat)
    requires Analysable(prog) && Layout(AsSeen(prog), blocks, bb) && b < |blocks| - 1
    ensures Continues(prog, blocks, bb, b, SuccessorBlocks(AsSeen(prog), blocks, bb, b))
  {
    SeenAnalysable(prog);
    SeenEnd(prog, blocks, bb, b);
    SuccessorCases(AsSeen(prog), blocks, bb, b);
    SameReal(prog, blocks[b].last + 1);
    SameTarget(prog, prog[blocks[b].last].target);
  }

  // nothing continues at a transfer that opens the list
  lemma {:induction false} NeverBack(prog: Program, p: nat)
    requires p < |prog| && OpensWithTransfer(prog)
    ensures 0 !in InstrSucc(prog, p)
  {
  }

  lemma {:induction false} SeenNeverBack(prog: Program, p: nat)
    requires p < |prog| && OpensWithTransfer(prog)
    ensures 0 !in InstrSucc(AsSeen(prog), p)
  {
    if p > 0 {
      SameSucc(prog, p);
      NeverBack(prog, p);
    }
  }

  lemma {:induction false} SameLoops(prog: Program)
    ensures LoopsToStart(AsSeen(prog)) <==> LoopsToStart(prog)
  {
    if OpensWithTransfer(prog) {
      forall p: nat | p < |prog|
        ensures 0 !in InstrSucc(prog, p) && 0 !in InstrSucc(AsSeen(prog), p)
      {
        NeverBack(prog, p);
        SeenNeverBack(prog, p);
      }
    }
  }

  // two graphs with the same edges behind node 0, none of which leads back to it
  ghost predicate AgreeBehind(g: Graph, h: Graph) {
    |g| == |h| && forall v: nat {:trigger g[v]} {:trigger h[v]} :: 0 < v < |g| ==> g[v] == h[v] && 0 !in g[v]
  }

  lemma {:induction false} SeenAgrees(prog: Program)
    requires OpensWithTransfer(prog)
    ensures AgreeBehind(InstrGraph(prog), InstrGraph(AsSeen(prog)))
    ensures AgreeBehind(InstrGraph(AsSeen(prog)), InstrGraph(prog))
  {
    forall v: nat | 0 < v < |prog|
      ensures InstrSucc(AsSeen(prog), v) == InstrSucc(prog, v) && 0 !in InstrSucc(prog, v)
    {
      SameSucc(prog, v);
      NeverBack(prog, v);
    }
  }

  /** Paths from behind node 0 are the same, and stay there. */
  lemma {:induction false} PathStays(g: Graph, h: Graph, path: seq<nat>, p: nat, b: nat)
    requires AgreeBehind(g, h) && p > 0 && Connects(g, path, p, b)
    ensures Connects(h, path, p, b) && 0 !in path
    decreases |path|
  {
    if |path| > 1 {
      assert path[1] in g[p];
      PathTail(g, path, b, 1);
      PathStays(g, h, path[1..], path[1], b);
      StepThenPath(h, path[1..], p, path[1], b);
      assert path == [p] + path[1..];
    }
  }

  lemma {:induction false} SameReach(g: Graph, h: Graph, p: nat, b: nat)
    requires AgreeBehind(g, h) && p > 0 && Reaches(g, p, b)
    ensures Reaches(h, p, b)
  {
    var path :| Connects(g, path, p, b);
    PathStays(g, h, path, p, b);
  }

  lemma {:induction false} SameOnEveryPath(g: Graph, h: Graph, p: nat, b: nat, d: nat)
    requires AgreeBehind(g, h) && p > 0 && OnEveryPath(h, p, b, d)
    ensures OnEveryPath(g, p, b, d)
  {
    forall path | Connects(g, path, p, b)
      ensures d in path
    {
      PathStays(g, h, path, p, b);
    }
  }

  // what lies on every way out from behind node 0 lies behind it too
  lemma {:induction false} BlockerIsBehind(g: Graph, h: Graph, p: nat, b: nat, d: nat)
    requires AgreeBehind(g, h) && p > 0 && Reaches(g, p, b) && OnEveryPath(g, p, b, d)
    ensures d > 0
  {
    var path :| Connects(g, path, p, b);
    PathStays(g, h, path, p, b);
  }

  /** The nearest point all ways out pass, from behind node 0, is the same. */
  lemma {:induction false} SameNearest(g: Graph, h: Graph, p: nat, b: nat, m: nat)
    requires AgreeBehind(g, h) && AgreeBehind(h, g) && p > 0 && Reaches(g, p, b) && Nearest(g, p, b, m)
    ensures Nearest(h, p, b, m)
  {
    SameOnEveryPath(h, g, p, b, m);
    BlockerIsBehind(g, h, p, b, m);
    forall t: nat | t < |h| && t != p && OnEveryPath(h, p, b, t)
      ensures OnEveryPath(h, m, b, t)
    {
      SameOnEveryPath(g, h, p, b, t);
      SameOnEveryPath(h, g, m, b, t);
    }
  }

  /** From behind a transfer that opens the list, the list and the list as seen
      have the same ways out, and the same nearest point on them. */
  lemma {:induction false} SeenReach(prog: Program, p: nat)
    requires OpensWithTransfer(prog) ==> p > 0
    ensures Reaches(InstrGraph(AsSeen(prog)), p, |prog|) <==> Reaches(InstrGraph(prog), p, |prog|)
  {
    if OpensWithTransfer(prog) {
      var g, h := InstrGraph(prog), InstrGraph(AsSeen(prog));
      SeenAgrees(prog);
      if Reaches(g, p, |prog|) {
        SameReach(g, h, p, |prog|);
      }
      if Reaches(h, p, |prog|) {
        SameReach(h, g, p, |prog|);
      }
    }
  }

  lemma {:induction false} SeenNearest(prog: Program, p: nat, m: nat)
    requires (OpensWithTransfer(prog) ==> p > 0) && Reaches(InstrGraph(prog), p, |prog|)
    ensures Nearest(InstrGraph(AsSeen(prog)), p, |prog|, m) <==> Nearest(InstrGraph(prog), p, |prog|, m)
  {
    if OpensWithTransfer(prog) {
      var g, h := InstrGraph(prog), InstrGraph(AsSeen(prog));
      SeenAgrees(prog);
      SeenReach(prog, p);
      if Nearest(g, p, |prog|, m) {
        SameNearest(g, h, p, |prog|, m);
      }
      if Nearest(h, p, |prog|, m) {
        SameNearest(h, g, p, |prog|, m);
      }
    }
  }

  /** So for the last instruction of a block, its block's nearest post-dominator
      begins with the nearest point that every way out in the list passes. */
  lemma {:induction false} SeenNearestBlock(prog: Program, blocks: seq<Block>, bb: seq<nat>, succ: Graph, pred: Graph,
                                            b: nat)
    requires Faithful(AsSeen(prog), blocks, bb, succ, pred) && b < |blocks| - 1
    requires 0 <= blocks[b].last && Reaches(InstrGraph(prog), blocks[b].last, |prog|)
    ensures Reaches(succ, b, |blocks| - 1)
    ensures forall d: nat :: d < |blocks| && Nearest(succ, b, |blocks| - 1, d) ==>
              Entry(prog, blocks, d) >= 0 && Nearest(InstrGraph(prog), blocks[b].last, |prog|, Entry(prog, blocks, d))
  {
    var p := blocks[b].last;
    SeenEnd(prog, blocks, bb, b);
    SeenReach(prog, p);
    ReachabilityAgrees(AsSeen(prog), blocks, bb, succ, pred, b);
    forall d: nat | d < |blocks| && Nearest(succ, b, |blocks| - 1, d)
      ensures Entry(prog, blocks, d) >= 0 && Nearest(InstrGraph(prog), p, |prog|, Entry(prog, blocks, d))
    {
      NearestBlockIsNearestInstruction(AsSeen(prog), blocks, bb, succ, pred, b, d);
      SeenNearest(prog, p, Entry(prog, blocks, d));
    }
  }

  /** And where the function cannot return from it, the block recorded begins with
      the fallback. */
  lemma {:induction false} SeenFallback(prog: Program, blocks: seq<Block>, bb: seq<nat>, succ: Graph, pred: Graph,
                                        b: nat)
    requires Faithful(AsSeen(prog), blocks, bb, succ, pred) && b < |blocks| - 1
    requires 0 <= blocks[b].last < |prog| && !Reaches(InstrGraph(prog), blocks[b].last, |prog|)
    ensures !Reaches(succ, b, |blocks| - 1)
    ensures forall d: nat :: d < |blocks| && LeftForStuck(succ, |blocks| - 1, b, d) ==>
              Entry(prog, blocks, d) >= 0 && FallbackOf(AsSeen(prog), blocks[b].last, Entry(prog, blocks, d))
  {
    SeenEnd(prog, blocks, bb, b);
    SeenReach(prog, blocks[b].last);
    ReachabilityAgrees(AsSeen(prog), blocks, bb, succ, pred, b);
    forall d: nat | d < |blocks| && LeftForStuck(succ, |blocks| - 1, b, d)
      ensures Entry(prog, blocks, d) >= 0 && FallbackOf(AsSeen(prog), blocks[b].last, Entry(prog, blocks, d))
    {
      FallbackAgrees(AsSeen(prog), blocks, bb, succ, pred, b, d);
    }
  }

  // ----- what the analysis comes to -----

  /** The analysis gets through its assertions: nothing continues at the first
      instruction, and the post-dominators are found in the list as seen. */
  ghost predicate Passes(prog: Program) {
    !LoopsToStart(prog) && PostdominatorsFound(AsSeen(prog))
  }

  /** The one instruction whose reconvergence point is not found: a branch that
      opens the list, is directly followed by code, and can lead out. */
  ghost predicate Missed(prog: Program, p: nat) {
    && p == 0 && OpensWithTransfer(prog) && prog[0].op == Bra
    && Reaches(InstrGraph(prog), 0, |prog|)
  }
}
