/**
 Concrete programs on which the failures described by the other modules happen.
 */
module Witnesses {
  import opened FlowGraph
  import opened PtxProgram
  import opened BasicBlocks
  import opened ControlFlow
  import opened FirstEntry
  import opened FunctionInfo

  // ----- a loop back to the first instruction -----

  const TOP_LOOP: Program :=
    [Label("top"), Inst(Other, false, "", 8), Inst(Bra, true, "top", 8), Inst(Exit, false, "", 8)]

  lemma {:induction false} TopLoopEdges()
    ensures var g := InstrGraph(TOP_LOOP);
            |g| == 5 && g[0] == {} && g[1] == {2} && g[2] == {1, 3} && g[3] == {4} && g[4] == {}
  {
    var prog := TOP_LOOP;
    assert LabelPosition(prog, "top", 1) == 0;
    assert LabelPosition(prog, "top", 2) == 0;
    assert LabelPosition(prog, "top", 3) == 0;
    assert LabelPosition(prog, "top", 4) == 0;
    assert NextReal(prog, 0) == 1;
    assert Target(prog, "top") == 1;
  }

  lemma {:induction false} TopLoopWays(g: Graph)
    requires |g| == 5 && 2 in g[1] && 3 in g[2] && 4 in g[3]
    ensures Reaches(g, 3, 4) && Reaches(g, 2, 4) && Reaches(g, 1, 4)
  {
    assert Connects(g, [3, 4], 3, 4);
    assert Connects(g, [2, 3, 4], 2, 4);
    assert Connects(g, [1, 2, 3, 4], 1, 4);
  }

  /** A loop around a whole kernel: everything returns, yet the assertion of the
      dominator pass fails. */
  lemma {:induction false} TopLoopFails()
    ensures Analysable(TOP_LOOP) && StartsPlainly(TOP_LOOP) && AlwaysReturns(TOP_LOOP)
    ensures LoopsToStart(TOP_LOOP) && !Passes(TOP_LOOP)
  {
    var prog, g := TOP_LOOP, InstrGraph(TOP_LOOP);
    TopLoopEdges();
    assert NextReal(prog, 0) == 1 && 1 in InstrSucc(prog, 2);
    TopLoopWays(g);
  }

  // ----- one block that spins beside a choice -----

  const SPIN: Program :=
    [Inst(Other, false, "", 8), Inst(Bra, true, "else", 8), Inst(Exit, false, "", 8),
     Label("else"), Inst(Bra, true, "spin", 8), Inst(Exit, false, "", 8),
     Label("spin"), Inst(Bra, false, "spin", 8)]

  lemma {:induction false} SpinTargets()
    ensures Target(SPIN, "else") == 4 && Target(SPIN, "spin") == 7
    ensures LabelPosition(SPIN, "else", 8) == 3 && LabelPosition(SPIN, "spin", 8) == 6
  {
    var prog := SPIN;
    assert LabelPosition(prog, "else", 4) == 3;
    assert LabelPosition(prog, "else", 5) == 3;
    assert LabelPosition(prog, "else", 6) == 3;
    assert LabelPosition(prog, "else", 7) == 3;
    assert LabelPosition(prog, "spin", 7) == 6;
  }

  lemma {:induction false} SpinEdges()
    ensures var g := InstrGraph(SPIN);
            && |g| == 9 && g[0] == {1} && g[1] == {4, 2} && g[2] == {8} && g[3] == {}
            && g[4] == {7, 5} && g[5] == {8} && g[6] == {} && g[7] == {7} && g[8] == {}
  {
    SpinTargets();
  }

  lemma {:induction false} SpinStays(path: seq<nat>, b: nat)
    requires Connects(InstrGraph(SPIN), path, 7, b)
    ensures b == 7
    decreases |path|
  {
    SpinEdges();
    if |path| > 1 {
      assert path[1] in InstrGraph(SPIN)[7];
      PathTail(InstrGraph(SPIN), path, b, 1);
      SpinStays(path[1..], b);
    }
  }

  lemma {:induction false} SpinWays(g: Graph)
    requires |g| == 9 && 1 in g[0] && 2 in g[1] && 8 in g[2] && 5 in g[4] && 8 in g[5]
    ensures Connects(g, [8], 8, 8) && Connects(g, [2, 8], 2, 8) && Connects(g, [5, 8], 5, 8)
    ensures Connects(g, [4, 5, 8], 4, 8) && Connects(g, [1, 2, 8], 1, 8) && Connects(g, [0, 1, 2, 8], 0, 8)
  {
  }

  lemma {:induction false} SpinReturns()
    ensures var g := InstrGraph(SPIN);
            && Connects(g, [8], 8, 8) && Connects(g, [2, 8], 2, 8) && Connects(g, [5, 8], 5, 8)
            && Connects(g, [4, 5, 8], 4, 8) && Connects(g, [1, 2, 8], 1, 8) && Connects(g, [0, 1, 2, 8], 0, 8)
  {
    SpinEdges();
    SpinWays(InstrGraph(SPIN));
  }

  lemma {:induction false} SpinIsStuckAlone()
    ensures OnlyStuckStart(SPIN, 7)
  {
    SpinReturns();
    if Reaches(InstrGraph(SPIN), 7, 8) {
      var path :| Connects(InstrGraph(SPIN), path, 7, 8);
      SpinStays(path, 8);
    }
    assert StuckStart(SPIN, 7);
    forall q: nat | StuckStart(SPIN, q)
      ensures q == 7
    {
      assert q == 0 || q == 1 || q == 2 || q == 4 || q == 5 || q == 7;
    }
  }

  // the two sides of the choice do not stand in one line
  lemma {:induction false} SpinHasAChoice(m: nat)
    ensures !BeforeAll(InstrGraph(SPIN), 8, m)
  {
    var g := InstrGraph(SPIN);
    SpinReturns();
    if BeforeAll(g, 8, m) {
      assert OnEveryPath(g, m, 8, 2) && OnEveryPath(g, m, 8, 4);
      if m == 7 {
        var path :| Connects(g, path, 7, 8);
        SpinStays(path, 8);
      } else if m == 3 || m == 6 {
        var path :| Connects(g, path, m, 8);
        assert path[1] in g[m];
        SpinEdges();
      }
    }
  }

  /** The post-dominator pass fails on this program, for no reason but the
      spinning block. */
  lemma {:induction false} SpinFails()
    ensures Analysable(SPIN) && StartsPlainly(SPIN) && !LoopsToStart(SPIN)
    ensures !PostdominatorsFound(SPIN) && !Passes(SPIN)
  {
    SpinTargets();
    SpinEdges();
    SpinIsStuckAlone();
    forall m: nat
      ensures !BeforeAll(InstrGraph(SPIN), 8, m)
    {
      SpinHasAChoice(m);
    }
    assert NextReal(SPIN, 0) == 0;
    forall p: nat | p < 8
      ensures 0 !in InstrSucc(SPIN, p)
    {
      assert InstrSucc(SPIN, p) == InstrGraph(SPIN)[p];
    }
  }

  // ----- a branch in the first list entry -----

  lemma {:induction false} LeadingBranchEdges()
    ensures var g := InstrGraph(LEADING_BRANCH);
            |g| == 5 && g[0] == {3, 1} && g[1] == {3} && g[2] == {} && g[3] == {4} && g[4] == {}
  {
    var prog := LEADING_BRANCH;
    assert LabelPosition(prog, "done", 3) == 2;
    assert LabelPosition(prog, "done", 4) == 2;
    assert NextReal(prog, 2) == 3;
    assert Target(prog, "done") == 3;
  }

  lemma {:induction false} LeadingBranchReturns()
    ensures var g := InstrGraph(LEADING_BRANCH);
            Connects(g, [0, 3, 4], 0, 4) && Connects(g, [1, 3, 4], 1, 4) && Connects(g, [3, 4], 3, 4)
  {
    LeadingBranchEdges();
  }

  // as seen, its first instruction goes on to the second
  lemma {:induction false} SeenBranchReturns()
    ensures AlwaysReturns(AsSeen(LEADING_BRANCH))
  {
    var prog, seen := LEADING_BRANCH, AsSeen(LEADING_BRANCH);
    var g, h := InstrGraph(prog), InstrGraph(seen);
    LeadingBranchReturns();
    SeenAgrees(prog);
    PathStays(g, h, [1, 3, 4], 1, 4);
    PathStays(g, h, [3, 4], 3, 4);
    StepThenPath(h, [1, 3, 4], 0, 1, 4);
  }

  /** The analysis accepts this list, gets through, and misses its branch. */
  lemma {:induction false} LeadingBranchPasses()
    ensures Analysable(LEADING_BRANCH) && !OpensWithLabels(LEADING_BRANCH)
    ensures Passes(LEADING_BRANCH) && Missed(LEADING_BRANCH, 0)
  {
    var prog := LEADING_BRANCH;
    LeadingBranchEdges();
    LeadingBranchReturns();
    SeenBranchReturns();
    AlwaysReturnsPasses(AsSeen(prog));
    forall p: nat | p < 4
      ensures 0 !in InstrSucc(prog, p)
    {
      NeverBack(prog, p);
    }
  }

  /** Prepared and asked, it answers no divergence for a branch that diverges
      and reconverges. */
  method LeadingBranchIsMissed() returns (f: Function, r: int)
    ensures f.prog == LEADING_BRANCH && f.assembled
    ensures r == -1 && !f.Reconverges(0, r)
  {
    LeadingBranchPasses();
    var ctx := new Context();
    f := new Function(LEADING_BRANCH);
    var ok := f.Prepare(ctx);
    assert ok;
    f.CanBeAsked(ctx, 0);
    r := ctx.GetConvergePoint(f.pc[0], f, 0);
  }

  // ----- a branch around a return -----

  const EARLY_RETURN: Program :=
    [Inst(Other, false, "", 8), Inst(Bra, true, "join", 8), Inst(Ret, false, "", 8),
     Label("join"), Inst(Other, false, "", 8), Inst(Exit, false, "", 8)]

  lemma {:induction false} EarlyReturnEdges()
    ensures var g := InstrGraph(EARLY_RETURN);
            && |g| == 7 && g[0] == {1} && g[1] == {4, 2} && g[2] == {6} && g[3] == {}
            && g[4] == {5} && g[5] == {6} && g[6] == {}
  {
    var prog := EARLY_RETURN;
    assert LabelPosition(prog, "join", 4) == 3;
    assert LabelPosition(prog, "join", 5) == 3;
    assert LabelPosition(prog, "join", 6) == 3;
    assert NextReal(prog, 3) == 4;
    assert Target(prog, "join") == 4;
  }

  lemma {:induction false} EarlyReturnWays(g: Graph)
    requires |g| == 7 && 1 in g[0] && 2 in g[1] && 4 in g[1] && 6 in g[2] && 5 in g[4] && 6 in g[5]
    ensures Connects(g, [2, 6], 2, 6) && Connects(g, [5, 6], 5, 6) && Connects(g, [4, 5, 6], 4, 6)
    ensures Connects(g, [1, 2, 6], 1, 6) && Connects(g, [1, 4, 5, 6], 1, 6) && Connects(g, [0, 1, 2, 6], 0, 6)
  {
  }

  lemma {:induction false} EarlyReturnPaths()
    ensures var g := InstrGraph(EARLY_RETURN);
            && Connects(g, [2, 6], 2, 6) && Connects(g, [5, 6], 5, 6) && Connects(g, [4, 5, 6], 4, 6)
            && Connects(g, [1, 2, 6], 1, 6) && Connects(g, [1, 4, 5, 6], 1, 6) && Connects(g, [0, 1, 2, 6], 0, 6)
  {
    EarlyReturnEdges();
    EarlyReturnWays(InstrGraph(EARLY_RETURN));
  }

  lemma {:induction false} EarlyReturnIsAnalysable()
    ensures Analysable(EARLY_RETURN) && StartsPlainly(EARLY_RETURN)
  {
    var prog := EARLY_RETURN;
    assert LabelPosition(prog, "join", 4) == 3;
    assert LabelPosition(prog, "join", 5) == 3;
    assert LabelPosition(prog, "join", 6) == 3;
    assert NextReal(prog, 3) == 4;
  }

  lemma {:induction false} EarlyReturnReturns()
    ensures AlwaysReturns(EARLY_RETURN)
  {
    EarlyReturnPaths();
    forall p: nat | p < 6 && EARLY_RETURN[p].Inst?
      ensures Reaches(InstrGraph(EARLY_RETURN), p, 6)
    {
      assert p == 0 || p == 1 || p == 2 || p == 4 || p == 5;
    }
  }

  lemma {:induction false} EarlyReturnPasses()
    ensures Passes(EARLY_RETURN)
  {
    var prog := EARLY_RETURN;
    EarlyReturnReturns();
    AlwaysReturnsPasses(prog);
    EarlyReturnEdges();
    assert NextReal(prog, 0) == 0;
    forall p: nat | p < 6
      ensures 0 !in InstrSucc(prog, p)
    {
      assert InstrSucc(prog, p) == InstrGraph(prog)[p];
    }
  }

  // its two ways out have only the return in common
  lemma {:induction false} EarlyReturnMeets(q: nat)
    requires Nearest(InstrGraph(EARLY_RETURN), 1, 6, q)
    ensures q == 6
  {
    EarlyReturnPaths();
    assert q in [1, 2, 6] && q in [1, 4, 5, 6];
  }

  lemma {:induction false} EarlyReturnConverges(f: Function, r: int)
    requires f.prog == EARLY_RETURN && f.Answered(1, r)
    ensures r == -2
  {
    EarlyReturnPaths();
    assert f.prog[1].op == Bra && Reaches(InstrGraph(f.prog), 1, 6);
    var q: nat :| q <= 6 && Nearest(InstrGraph(f.prog), 1, 6, q) && r == f.PcOf(q);
    EarlyReturnMeets(q);
  }

  /** Prepared and asked, the branch reconverges at the return, not at the label
      behind it. */
  method EarlyReturnAnswers() returns (f: Function, r: int)
    ensures f.prog == EARLY_RETURN && f.assembled
    ensures r == -2
  {
    EarlyReturnIsAnalysable();
    EarlyReturnPasses();
    var ctx := new Context();
    f := new Function(EARLY_RETURN);
    var ok := f.Prepare(ctx);
    assert ok;
    f.CanBeAsked(ctx, 1);
    r := ctx.GetConvergePoint(f.pc[1], f, 1);
    EarlyReturnConverges(f, r);
  }
}
