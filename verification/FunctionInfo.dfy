/**
 The PTX function object and the simulator-wide tables it is assembled into.
 Its methods assemble the function, cut it into basic blocks, link them,
 compute dominators and post-dominators, and record reconvergence points.
 */
module FunctionInfo {
  import opened Arith
  import opened Wrappers
  import opened FlowGraph
  import opened PtxProgram
  import opened InstructionMemory
  import opened BasicBlocks
  import opened ControlFlow
  import opened FirstEntry
  import opened Dominance

  // an entry of s_g_pc_to_insn: an instruction of some function, or a filler byte
  type Slot = Option<(Function, nat)>

  // one (source_pc, target_pc) pair of the reconvergence table
  datatype Recon = Recon(sourcePc: int, targetPc: int)

  const RETURN_PC := -2
  const NO_BRANCH_DIVERGENCE := -1

  datatype AssembleResult = Assembled | MissingLabel(at: nat)

  predicate Asked(q: bool) {
    true
  }

  function Fillers(k: nat): seq<Slot> {
    seq(k, _ => None)
  }

  function Slots(f: Function, image: seq<Cell>): (s: seq<Slot>)
    ensures |s| == |image|
    ensures forall i :: 0 <= i < |s| ==> s[i] == if image[i].Insn? then Some((f, image[i].pos)) else None
  {
    seq(|image|, i requires 0 <= i < |image| => if image[i].Insn? then Some((f, image[i].pos)) else None)
  }

  class Function {
    const prog: Program

    // assembly
    var assembled: bool
    var instrMem: array<Cell>
    var n: nat
    var startPc: nat
    var labels: map<string, nat>
    var labelAddress: map<string, nat>
    var memIndex: seq<nat>
    var pc: seq<nat>

    // basic blocks, one row per block in each of the sequences below
    var blocks: seq<Block>
    var bb: seq<nat>
    var successors: seq<set<nat>>
    var predecessors: seq<set<nat>>
    var dominators: seq<set<nat>>
    var postdominators: seq<set<nat>>
    var tmp: seq<set<nat>>
    var immediateDominator: seq<int>
    var immediatePostdominator: seq<int>

    // decoding
    var numReconvergencePairs: nat
    var reconvergencePc: seq<int>

    constructor (program: Program)
      ensures prog == program
      ensures !assembled && blocks == [] && numReconvergencePairs == 0
      ensures fresh(instrMem)
    {
      prog := program;
      assembled := false;
      instrMem := new Cell[0];
      n, startPc := 0, 0;
      labels, labelAddress := map[], map[];
      memIndex, pc, blocks, bb := [], [], [], [];
      successors, predecessors, dominators, postdominators, tmp := [], [], [], [], [];
      immediateDominator, immediatePostdominator := [], [];
      numReconvergencePairs := 0;
      reconvergencePc := [];
    }

    // ----- assembly -----

    ghost predicate AddressesUpTo(m: nat)
      reads `memIndex, `pc, `startPc
    {
      && m <= |prog| && |memIndex| == |prog| && |pc| == |prog|
      && forall p: nat {:trigger memIndex[p]} {:trigger pc[p]} :: p < m && prog[p].Inst? ==>
           memIndex[p] == Addr(prog, p) && pc[p] == startPc + Addr(prog, p)
    }

    /** The function's own assembly is complete. */
    ghost predicate InMemory()
      reads `memIndex, `pc, `startPc, `labels, `n, `instrMem, instrMem
    {
      && EncodedSizes(prog)
      && AddressesUpTo(|prog|)
      && n == Addr(prog, |prog|) <= instrMem.Length
      && instrMem[..n] == Image(prog, |prog|)
      && labels == LabelTable(prog, |prog|)
    }

    // the branch at p knows the address of the instruction it goes to
    ghost predicate Resolved(p: nat)
      requires p < |prog| && NeedsLabel(prog[p])
      reads `pc, `labelAddress
    {
      && prog[p].target in labelAddress
      && Target(prog, prog[p].target) < |pc|
      && labelAddress[prog[p].target] == pc[Target(prog, prog[p].target)]
    }

    /** ptx_assemble: lay the instructions out in instruction memory and in the
        global table, record labels, then resolve every branch target. */
    method PtxAssemble(ctx: Context) returns (r: AssembleResult)
      requires ctx.Valid() && (!assembled ==> this !in ctx.functions)
      requires EncodedSizes(prog) && LabelsLand(prog)
      modifies `instrMem, `n, `startPc, `labels, `labelAddress, `memIndex, `pc
      modifies ctx`nextPc, ctx`pcToInsn, ctx`pcToFinfo, ctx`functions
      ensures ctx.Valid()
      ensures old(assembled) ==> r == Assembled && unchanged(this, ctx)
      ensures !old(assembled) ==> ctx.functions == old(ctx.functions) + {this}
      ensures !old(assembled) ==> InMemory() && fresh(instrMem)
      ensures !old(assembled) ==>
                startPc == old(ctx.nextPc) + old(ctx.nextPc) % 8 && ctx.nextPc == startPc + Addr(prog, |prog|)
      ensures !old(assembled) ==> (r == Assembled <==> LabelsDefined(prog))
      ensures LabelsDefined(prog) <==>
                forall p: nat :: p < |prog| && prog[p].Inst? && prog[p].op in {Bra, Callp} ==>
                  Label(prog[p].target) in prog
      ensures !old(assembled) && r == Assembled ==>
                forall p: nat :: p < |prog| && prog[p].Inst? && prog[p].op in {Bra, Callp} ==>
                  var q := Target(prog, prog[p].target);
                  && q < |prog| == |pc|
                  && prog[p].target in labelAddress && labelAddress[prog[p].target] == pc[q] == startPc + Addr(prog, q)
      ensures r.MissingLabel? ==>
                && r.at < |prog| && NeedsLabel(prog[r.at])
                && Label(prog[r.at].target) !in prog
      ensures old(ctx.pcToInsn) <= ctx.pcToInsn
    {
      LabelsDefinedMeans(prog);
      if assembled {
        return Assembled;
      }
      Load(ctx);
      r := ResolveBranches();
    }

    method Load(ctx: Context)
      requires ctx.Valid() && this !in ctx.functions && EncodedSizes(prog)
      modifies `instrMem, `n, `startPc, `labels, `memIndex, `pc
      modifies ctx`nextPc, ctx`pcToInsn, ctx`pcToFinfo, ctx`functions
      ensures ctx.Valid() && ctx.functions == old(ctx.functions) + {this}
      ensures InMemory() && fresh(instrMem)
      ensures startPc == old(ctx.nextPc) + old(ctx.nextPc) % MAX_INST_SIZE && ctx.nextPc == startPc + n
      ensures old(ctx.pcToInsn) <= ctx.pcToInsn
    {
      ghost var table, finfo := ctx.pcToInsn, ctx.pcToFinfo;
      ctx.nextPc := LayOutApart(ctx);
      Context.Extends(ctx.functions, table, finfo, this);
      ctx.functions := ctx.functions + {this};
    }

    // laying this function out leaves the others as they are in the old tables
    method LayOutApart(ctx: Context) returns (PC: nat)
      requires ctx.Valid() && this !in ctx.functions && EncodedSizes(prog)
      modifies `instrMem, `n, `startPc, `labels, `memIndex, `pc, ctx`pcToInsn, ctx`pcToFinfo
      ensures InMemory() && fresh(instrMem)
      ensures startPc == |old(ctx.pcToInsn)| + |old(ctx.pcToInsn)| % MAX_INST_SIZE && PC == startPc + n
      ensures ctx.pcToInsn == Context.Grown(old(ctx.pcToInsn), this)
      ensures ctx.pcToFinfo == FinfoTable(this, old(ctx.pcToFinfo), startPc, |prog|)
      ensures Context.Consistent(ctx.functions, old(ctx.pcToInsn), old(ctx.pcToFinfo))
    {
      PC := LayOut(ctx);
    }

    // first loop of ptx_assemble
    method LayOut(ctx: Context) returns (PC: nat)
      requires |ctx.pcToInsn| == ctx.nextPc && ctx.nextPc % 4 == 0
      requires EncodedSizes(prog)
      modifies `instrMem, `n, `startPc, `labels, `memIndex, `pc, ctx`pcToInsn, ctx`pcToFinfo
      ensures InMemory() && fresh(instrMem)
      ensures startPc == old(ctx.nextPc) + old(ctx.nextPc) % MAX_INST_SIZE && PC == startPc + n
      ensures ctx.pcToInsn == Context.Grown(old(ctx.pcToInsn), this)
      ensures ctx.pcToFinfo == FinfoTable(this, old(ctx.pcToFinfo), startPc, |prog|)
    {
      PC := StartLayOut(ctx);
      ghost var aligned := ctx.pcToInsn;
      PC := LayOutItems(ctx, PC, aligned, old(ctx.pcToFinfo));
    }

    // before the loop: allocate instruction memory, align the start
    method StartLayOut(ctx: Context) returns (PC: nat)
      requires |ctx.pcToInsn| == ctx.nextPc && ctx.nextPc % 4 == 0
      requires EncodedSizes(prog)
      modifies `instrMem, `n, `startPc, `labels, `memIndex, `pc, ctx`pcToInsn
      ensures fresh(instrMem) && PC == startPc == old(ctx.nextPc) + old(ctx.nextPc) % MAX_INST_SIZE && n == 0
      ensures ctx.pcToInsn == old(ctx.pcToInsn) + Fillers(startPc - old(ctx.nextPc))
      ensures LaidOut(0) && Entered(ctx, ctx.pcToInsn, ctx.pcToFinfo, 0)
    {
      instrMem := new Cell[MAX_INST_SIZE * (|prog| + 1)];
      memIndex, pc := seq(|prog|, _ => 0), seq(|prog|, _ => 0);
      labels := map[];
      PC := ctx.Align();
      startPc := PC;
      n := 0;
      assert ctx.pcToInsn + Slots(this, Image(prog, 0)) == ctx.pcToInsn;
    }

    // the loop
    method LayOutItems(ctx: Context, start: nat, ghost aligned: seq<Slot>, ghost finfo: map<nat, Function>)
      returns (PC: nat)
      requires start == startPc && n == 0 && LaidOut(0) && Entered(ctx, aligned, finfo, 0)
      modifies `n, `labels, `memIndex, `pc, instrMem, ctx`pcToInsn, ctx`pcToFinfo
      ensures PC == startPc + n && LaidOut(|prog|) && Entered(ctx, aligned, finfo, |prog|)
    {
      PC := start;
      for i := 0 to |prog|
        invariant PC == startPc + n
        invariant LaidOut(i) && Entered(ctx, aligned, finfo, i)
      {
        if prog[i].Label? {
          Define(ctx, i, aligned, finfo);
        } else {
          Emit(ctx, i, PC, aligned, finfo);
          PC := PC + prog[i].size;
        }
      }
    }

    // this function's own memory, after the first m list entries
    ghost predicate LaidOut(m: nat)
      reads `memIndex, `pc, `startPc, `labels, `n, `instrMem, instrMem
    {
      && EncodedSizes(prog) && AddressesUpTo(m)
      && instrMem.Length == MAX_INST_SIZE * (|prog| + 1)
      && n == Addr(prog, m) <= instrMem.Length && instrMem[..n] == Image(prog, m)
      && labels == LabelTable(prog, m)
    }

    // the global tables, after the first m list entries
    ghost predicate Entered(ctx: Context, aligned: seq<Slot>, finfo: map<nat, Function>, m: nat)
      reads `startPc, ctx`pcToInsn, ctx`pcToFinfo
    {
      && EncodedSizes(prog) && m <= |prog| && |aligned| == startPc
      && ctx.pcToInsn == aligned + Slots(this, Image(prog, m))
      && ctx.pcToFinfo == FinfoTable(this, finfo, startPc, m)
    }

    // one label
    method Define(ctx: Context, i: nat, ghost aligned: seq<Slot>, ghost finfo: map<nat, Function>)
      requires i < |prog| && prog[i].Label?
      requires LaidOut(i) && Entered(ctx, aligned, finfo, i)
      modifies `labels
      ensures LaidOut(i + 1) && Entered(ctx, aligned, finfo, i + 1)
    {
      labels := labels[prog[i].name := n];
    }

    // one instruction
    method Emit(ctx: Context, i: nat, PC: nat, ghost aligned: seq<Slot>, ghost finfo: map<nat, Function>)
      requires i < |prog| && prog[i].Inst? && PC == startPc + n
      requires LaidOut(i) && Entered(ctx, aligned, finfo, i)
      modifies `n, `memIndex, `pc, instrMem, ctx`pcToInsn, ctx`pcToFinfo
      ensures LaidOut(i + 1) && Entered(ctx, aligned, finfo, i + 1)
      ensures n == old(n) + prog[i].size
    {
      AddrBounded(prog, i);
      EmitInTables(ctx, i, PC, aligned, finfo);
      memIndex := memIndex[i := n];
      pc := pc[i := PC];
      n := n + prog[i].size;
    }

    // its entries in the tables and its bytes
    method EmitInTables(ctx: Context, i: nat, PC: nat, ghost aligned: seq<Slot>, ghost finfo: map<nat, Function>)
      requires i < |prog| && prog[i].Inst? && PC == startPc + n == startPc + Addr(prog, i)
      requires n + prog[i].size <= instrMem.Length && Entered(ctx, aligned, finfo, i)
      modifies instrMem, ctx`pcToInsn, ctx`pcToFinfo
      ensures Entered(ctx, aligned, finfo, i + 1)
      ensures instrMem[..n + prog[i].size] == old(instrMem[..n]) + ([Insn(i)] + Empties(prog[i].size - 1))
    {
      ctx.pcToFinfo := ctx.pcToFinfo[PC := this];
      ghost var own := [Insn(i)] + Empties(prog[i].size - 1);
      Place(ctx, i);
      assert Slots(this, Image(prog, i)) + Slots(this, own) == Slots(this, Image(prog, i + 1));
    }

    // the bytes of one instruction, in instruction memory and in the global table
    method Place(ctx: Context, i: nat)
      requires i < |prog| && prog[i].Inst? && prog[i].size > 0
      requires n + prog[i].size <= instrMem.Length
      modifies instrMem, ctx`pcToInsn
      ensures instrMem[..n + prog[i].size] ==
              old(instrMem[..n]) + ([Insn(i)] + Empties(prog[i].size - 1))
      ensures ctx.pcToInsn == old(ctx.pcToInsn) + Slots(this, [Insn(i)] + Empties(prog[i].size - 1))
    {
      instrMem[n] := Insn(i);
      ctx.pcToInsn := ctx.pcToInsn + [Some((this, i))];
      for k := 1 to prog[i].size
        invariant ctx.pcToInsn == old(ctx.pcToInsn) + Slots(this, [Insn(i)] + Empties(k - 1))
        invariant instrMem[..n + k] == old(instrMem[..n]) + ([Insn(i)] + Empties(k - 1))
      {
        ctx.pcToInsn := ctx.pcToInsn + [None];
        instrMem[n + k] := Empty;
        assert instrMem[..n + k + 1] == instrMem[..n + k] + [Empty];
        assert Empties(k) == Empties(k - 1) + [Empty];
      }
    }

    method Resolve(p: nat) returns (found: bool)
      requires InMemory() && LabelsLand(prog)
      requires p < |prog| && NeedsLabel(prog[p])
      modifies `labelAddress
      ensures found <==> Defined(prog, prog[p].target)
      ensures found ==> Resolved(p)
      ensures forall q: nat :: q < |prog| && NeedsLabel(prog[q]) && old(Resolved(q)) ==> Resolved(q)
    {
      var target := prog[p].target;
      LabelResolves(prog, |prog|, target);
      found := target in labels;
      if found {
        var index := labels[target];
        ImageHolds(prog, |prog|, Target(prog, target));
        assert instrMem[index] == instrMem[..n][index];
        labelAddress := labelAddress[target := pc[instrMem[index].pos]];
      }
    }

    // the branches before position p know where they go
    ghost predicate ResolvedBefore(p: nat)
      requires p <= |prog|
      reads `pc, `labelAddress
    {
      forall q: nat :: q < p && NeedsLabel(prog[q]) ==> Resolved(q) && Defined(prog, prog[q].target)
    }

    // the instruction at offset ii of instruction memory
    method ResolveAt(ghost p: nat, ii: nat) returns (pI: nat, found: bool)
      requires InMemory() && LabelsLand(prog)
      requires p < |prog| && prog[p].Inst? && ii == Addr(prog, p) && ResolvedBefore(p)
      modifies `labelAddress
      ensures pI == p
      ensures found ==> ResolvedBefore(p + 1)
      ensures !found ==> NeedsLabel(prog[p]) && !Defined(prog, prog[p].target)
    {
      ImageHolds(prog, |prog|, p);
      assert instrMem[ii] == instrMem[..n][ii];
      pI, found := instrMem[ii].pos, true;
      if NeedsLabel(prog[pI]) {
        found := Resolve(pI);
      }
    }

    // second loop of ptx_assemble: walk instruction memory by instruction size
    method ResolveBranches() returns (r: AssembleResult)
      requires InMemory() && LabelsLand(prog)
      modifies `labelAddress
      ensures r == Assembled <==> LabelsDefined(prog)
      ensures r.MissingLabel? ==>
                && r.at < |prog| && NeedsLabel(prog[r.at])
                && Label(prog[r.at].target) !in prog
      ensures r == Assembled ==>
                forall p: nat :: p < |prog| && NeedsLabel(prog[p]) ==> Resolved(p)
    {
      var ii := 0;
      ghost var p: nat := NextReal(prog, 0);
      AddrMonotone(prog, 0, p);
      while ii < n
        invariant p <= |prog| && ii == Addr(prog, p) && Stop(prog, p) && ResolvedBefore(p)
        decreases n - ii
      {
        assert p < |prog|;
        var pI, found := ResolveAt(p, ii);
        if !found {
          return MissingLabel(pI);
        }
        ii := ii + prog[pI].size;
        ghost var next := NextReal(prog, p + 1);
        AddrIdentifies(prog, p, next);
        p := next;
      }
      if p < |prog| {
        AddrIdentifies(prog, p, |prog|);
      }
      return Assembled;
    }

    // ----- basic blocks -----

    method FindNextRealInstruction(i: nat) returns (j: nat)
      requires i <= |prog|
      ensures j == NextReal(prog, i)
    {
      j := i;
      while j < |prog| && prog[j].Label?
        invariant i <= j <= |prog| && NextReal(prog, j) == NextReal(prog, i)
      {
        j := j + 1;
      }
    }

    // the first scan of create_basic_blocks stands at i
    ghost predicate Scanned(i: nat, leaders: seq<nat>) {
      forall q: bool {:trigger Asked(q)} :: Asked(q) ==>
        && 1 <= i <= |prog|
        && (i < |prog| && prog[i].Label? ==> i == 1 || prog[i - 1].Inst?)
        && leaders == LeadersBefore(prog, i)
    }

    lemma {:induction false} ScannedStart()
      requires HasCode(prog)
      ensures Scanned(1, [0])
    {
      ScanStart(prog);
    }

    lemma {:induction false} ScannedLabel(i: nat, leaders: seq<nat>)
      requires Scanned(i, leaders) && 0 < i < |prog| && prog[i].Label?
      ensures Scanned(NextReal(prog, i + 1), leaders + [i])
    {
      assert Asked(true);
      ScanLabel(prog, i);
    }

    lemma {:induction false} ScannedEnd(i: nat, leaders: seq<nat>)
      requires Scanned(i, leaders) && 0 < i < |prog| && Ends(prog[i])
      ensures Scanned(NextReal(prog, i + 1), leaders + if i + 1 < |prog| then [i + 1] else [])
    {
      assert Asked(true);
      ScanEnd(prog, i);
    }

    lemma {:induction false} ScannedOther(i: nat, leaders: seq<nat>)
      requires Scanned(i, leaders) && 0 < i < |prog| && prog[i].Inst? && !Ends(prog[i])
      ensures Scanned(i + 1, leaders)
    {
      assert Asked(true);
      ScanOther(prog, i);
    }

    lemma {:induction false} ScannedAll(leaders: seq<nat>)
      requires Scanned(|prog|, leaders)
      ensures leaders == Leaders(prog, |prog|)
    {
      assert Asked(true);
    }

    // one step of the first scan, at position i
    method Examine(leaders: seq<nat>, i: nat) returns (leaders': seq<nat>, i': nat)
      requires 0 < i < |prog| && Scanned(i, leaders)
      ensures i < i' <= |prog| && Scanned(i', leaders')
    {
      leaders', i' := leaders, i + 1;
      if prog[i].Label? {
        ScannedLabel(i, leaders);
        leaders' := leaders + [i];
        i' := FindNextRealInstruction(i + 1);
      } else if Ends(prog[i]) {
        ScannedEnd(i, leaders);
        if i' < |prog| {
          leaders' := leaders + [i'];
        }
        i' := FindNextRealInstruction(i');
      } else {
        ScannedOther(i, leaders);
      }
    }

    // first scan of create_basic_blocks
    method FindLeaders() returns (leaders: seq<nat>)
      requires HasCode(prog)
      ensures leaders == Leaders(prog, |prog|)
    {
      leaders := [0];
      ScannedStart();
      var i := 1;
      while i < |prog|
        invariant 1 <= i <= |prog| && Scanned(i, leaders)
        decreases |prog| - i
      {
        leaders, i := Examine(leaders, i);
      }
      ScannedAll(leaders);
    }

    // the second scan meets leader l at position i
    method OpenBlock(ghost l: nat, last: nat, i: nat) returns (last': nat)
      requires CutUpTo(prog, blocks, bb, l, last, i) && i < |prog|
      requires l < |Leaders(prog, |prog|)| && Leaders(prog, |prog|)[l] == i
      modifies `blocks
      ensures BlocksUpTo(prog, blocks, l + 1)
      ensures |Leaders(prog, i + 1)| == l + 1
      ensures i > 0 && (last' == LastReal(prog, i) || last' == NextReal(prog, i) < |prog|)
    {
      LeaderReached(prog, blocks, bb, l, last, i);
      NextBlock(prog, blocks, l, i);
      blocks := blocks[|blocks| - 1 := blocks[|blocks| - 1].(last := last)];
      last' := last;
      var q := FindNextRealInstruction(i);
      if q < |prog| {
        blocks := blocks + [Block(q, NULL, false, false)];
        last' := q;
      }
    }

    // second scan, position i
    method Scan(leaders: seq<nat>, l: nat, last: nat, i: nat) returns (l': nat, last': nat)
      requires CutUpTo(prog, blocks, bb, l, last, i) && i < |prog|
      requires leaders == Leaders(prog, |prog|)
      modifies `blocks, `bb
      ensures CutUpTo(prog, blocks, bb, l', last', i + 1)
    {
      l', last' := l, last;
      if l < |leaders| && i == leaders[l] {
        last' := OpenBlock(l, last, i);
        l' := l + 1;
      } else {
        SameBlock(prog, blocks, bb, l, last, i);
      }
      last' := Assign(l', last', i);
    }

    // position i belongs to the block that is open
    method Assign(ghost l: nat, last: nat, i: nat) returns (last': nat)
      requires i < |prog| && |bb| == |prog|
      requires BlocksUpTo(prog, blocks, l) && l == |Leaders(prog, i + 1)|
      requires last == LastReal(prog, i) || last == NextReal(prog, i) < |prog|
      requires i == 0 ==> last == 0
      requires forall p: nat {:trigger bb[p]} :: p < i && prog[p].Inst? ==> bb[p] == |Leaders(prog, p + 1)| - 1
      modifies `bb
      ensures CutUpTo(prog, blocks, bb, l, last', i + 1)
    {
      Advance(prog, blocks, bb, l, last, i);
      bb := bb[i := |blocks| - 1];
      last' := if prog[i].Inst? then i else last;
    }

    /** create_basic_blocks */
    method CreateBasicBlocks()
      requires HasCode(prog) && blocks == []
      modifies `blocks, `bb, `successors, `predecessors, `dominators, `postdominators, `tmp
      modifies `immediateDominator, `immediatePostdominator
      ensures CutAtLeaders(prog, blocks, bb)
      ensures Layout(prog, blocks, bb) <==> StartsPlainly(prog)
      ensures !OpensWithLabels(prog) ==>
                && Layout(AsSeen(prog), blocks, bb)
                && forall p: nat {:trigger bb[p]} :: p < |prog| && prog[p].Inst? ==>
                     && bb[p] < |blocks| - 1
                     && (blocks[bb[p]].first == p <==>
                           || p == NextReal(prog, 0) || prog[p - 1].Label?
                           || (p > 1 && prog[p - 1].op in {Bra, Ret, Retp, Exit})
                           || (p > 1 && prog[p - 1].op in {Call, Callp} && prog[p - 1].pred))
      ensures NoRow(successors) && NoRow(predecessors) && NoRow(dominators) && NoRow(postdominators)
      ensures |tmp| == |immediateDominator| == |immediatePostdominator| == |blocks|
    {
      var leaders := FindLeaders();
      var first := FindNextRealInstruction(0);
      blocks := [Block(first, NULL, true, false)];
      bb := seq(|prog|, _ => 0);
      var last, l := leaders[0], 1;
      Start(prog, blocks, bb);
      for i := 0 to |prog|
        invariant CutUpTo(prog, blocks, bb, l, last, i)
      {
        l, last := Scan(leaders, l, last, i);
      }
      Finish(prog, blocks, bb, l, last);
      blocks := blocks[|blocks| - 1 := blocks[|blocks| - 1].(last := last)];
      blocks := blocks + [EXIT_BLOCK];
      LayoutExactly(prog, blocks, bb);
      StartsByOpcode();
      ResetRows();
    }

    // where the blocks start, by opcode
    lemma {:induction false} StartsByOpcode()
      requires CutAtLeaders(prog, blocks, bb)
      ensures !OpensWithLabels(prog) ==>
                && Layout(AsSeen(prog), blocks, bb)
                && forall p: nat {:trigger bb[p]} :: p < |prog| && prog[p].Inst? ==>
                     && bb[p] < |blocks| - 1
                     && (blocks[bb[p]].first == p <==>
                           || p == NextReal(prog, 0) || prog[p - 1].Label?
                           || (p > 1 && prog[p - 1].op in {Bra, Ret, Retp, Exit})
                           || (p > 1 && prog[p - 1].op in {Call, Callp} && prog[p - 1].pred))
    {
      if !OpensWithLabels(prog) {
        SeenLayout(prog, blocks, bb);
        forall p: nat | p < |prog| && prog[p].Inst? {
          SeenStarts(prog, blocks, bb, p);
        }
      }
    }

    // a new basic_block_t has empty id sets and no immediate dominators
    method ResetRows()
      modifies `successors, `predecessors, `dominators, `postdominators, `tmp
      modifies `immediateDominator, `immediatePostdominator
      ensures NoRow(successors) && NoRow(predecessors) && NoRow(dominators) && NoRow(postdominators)
      ensures |tmp| == |immediateDominator| == |immediatePostdominator| == |blocks|
    {
      successors := seq(|blocks|, _ => {});
      predecessors, dominators, postdominators, tmp := successors, successors, successors, successors;
      immediateDominator := seq(|blocks|, _ => -1);
      immediatePostdominator := immediateDominator;
    }

    ghost predicate NoRow(rows: seq<set<nat>>)
      reads `blocks
    {
      |rows| == |blocks| && forall b :: 0 <= b < |rows| ==> rows[b] == {}
    }

    // ----- links between blocks -----

    ghost predicate LinksAgree()
      reads `blocks, `successors, `predecessors
    {
      && |successors| == |blocks| && IsGraph(successors) && IsGraph(predecessors)
      && Mirror(successors, predecessors)
    }

    method AddEdge(b: nat, t: nat)
      requires LinksAgree() && b < |blocks| && t < |blocks|
      modifies `successors, `predecessors
      ensures LinksAgree()
      ensures successors == old(successors)[b := old(successors)[b] + {t}]
    {
      successors := successors[b := successors[b] + {t}];
      predecessors := predecessors[t := predecessors[t] + {b}];
    }

    // the instruction found right behind p in instruction memory
    method Behind(p: nat) returns (q: nat)
      requires InMemory() && p < |prog| && prog[p].Inst? && NextReal(prog, p + 1) < |prog|
      ensures q == NextReal(prog, p + 1)
    {
      ghost var next := NextReal(prog, p + 1);
      AddrIdentifies(prog, p, next);
      ImageHolds(prog, |prog|, next);
      var nextAddr := memIndex[p] + prog[p].size;
      assert instrMem[nextAddr] == instrMem[..n][nextAddr];
      q := instrMem[nextAddr].pos;
    }

    // the instruction found at a label's address in instruction memory
    method AtLabel(name: string) returns (q: nat)
      requires InMemory() && Defined(prog, name) && Target(prog, name) < |prog|
      ensures q == Target(prog, name)
    {
      LabelResolves(prog, |prog|, name);
      ImageHolds(prog, |prog|, Target(prog, name));
      var addr := labels[name];
      assert instrMem[addr] == instrMem[..n][addr];
      q := instrMem[addr].pos;
    }

    // the edge to the block behind p
    method ConnectNext(b: nat, p: nat)
      requires InMemory() && p < |prog| && prog[p].Inst? && NextReal(prog, p + 1) < |prog| == |bb|
      requires LinksAgree() && b < |blocks| && bb[NextReal(prog, p + 1)] < |blocks|
      modifies `successors, `predecessors
      ensures LinksAgree()
      ensures successors == old(successors)[b := old(successors)[b] + {bb[NextReal(prog, p + 1)]}]
    {
      var next := Behind(p);
      AddEdge(b, bb[next]);
    }

    // the edge to the block a label stands for
    method ConnectTarget(b: nat, name: string)
      requires InMemory() && Defined(prog, name) && Target(prog, name) < |prog| == |bb|
      requires LinksAgree() && b < |blocks| && bb[Target(prog, name)] < |blocks|
      modifies `successors, `predecessors
      ensures LinksAgree()
      ensures successors == old(successors)[b := old(successors)[b] + {bb[Target(prog, name)]}]
    {
      var target := AtLabel(name);
      AddEdge(b, bb[target]);
    }

    // a block that ends in a return or exit
    method ConnectReturn(b: nat, ghost succ: set<nat>)
      requires InMemory() && LinksAgree() && Continues(prog, blocks, bb, b, succ) && successors[b] == {}
      requires IsReturn(prog[blocks[b].last].op)
      modifies `successors, `predecessors
      ensures LinksAgree() && successors == old(successors)[b := succ]
    {
      var p := blocks[b].last;
      AddEdge(b, |blocks| - 1);
      if prog[p].pred {
        ConnectNext(b, p);
      }
      assert successors[b] == succ;
    }

    // a block that ends in a branch or just ends
    method ConnectOther(b: nat, ghost succ: set<nat>)
      requires InMemory() && LinksAgree() && Continues(prog, blocks, bb, b, succ) && successors[b] == {}
      requires !IsReturn(prog[blocks[b].last].op)
      modifies `successors, `predecessors
      ensures LinksAgree() && successors == old(successors)[b := succ]
    {
      var p := blocks[b].last;
      if prog[p].op == Bra {
        ConnectTarget(b, prog[p].target);
      }
      if !(prog[p].op == Bra && !prog[p].pred) {
        ConnectNext(b, p);
      }
      assert successors[b] == succ;
    }

    method ConnectBlock(b: nat)
      requires Analysable(prog) && InMemory() && Layout(AsSeen(prog), blocks, bb)
      requires LinksAgree() && b < |blocks| && successors[b] == {}
      modifies `successors, `predecessors
      ensures LinksAgree()
      ensures successors == old(successors)[b := SuccessorBlocks(AsSeen(prog), blocks, bb, b)]
    {
      if !blocks[b].isExit {
        ghost var succ := SuccessorBlocks(AsSeen(prog), blocks, bb, b);
        SeenSuccessors(prog, blocks, bb, b);
        if IsReturn(prog[blocks[b].last].op) {
          ConnectReturn(b, succ);
        } else {
          ConnectOther(b, succ);
        }
      }
    }

    /** connect_basic_blocks: a returning block is linked to the exit block, a
        branching one to its target's block, and each of them to the block that
        follows exactly if guarded; any other is linked to the one that follows. */
    method ConnectBasicBlocks()
      requires Analysable(prog) && InMemory() && Layout(AsSeen(prog), blocks, bb)
      requires NoRow(successors) && NoRow(predecessors)
      modifies `successors, `predecessors
      ensures Linked(AsSeen(prog), blocks, bb, successors, predecessors)
      ensures LinkedByOpcode()
    {
      for b := 0 to |blocks|
        invariant LinksAgree()
        invariant forall c: nat :: c < b ==> successors[c] == SuccessorBlocks(AsSeen(prog), blocks, bb, c)
        invariant forall c: nat :: b <= c < |blocks| ==> successors[c] == {}
      {
        ConnectBlock(b);
      }
      LinksByOpcode();
    }

    ghost predicate LinkedByOpcode()
      reads `blocks, `bb, `successors
    {
      && |bb| == |prog| && |successors| == |blocks|
      && forall b: nat {:trigger successors[b]} :: b < |blocks| - 1 ==>
           && 0 <= blocks[b].last < |prog| && prog[blocks[b].last].Inst?
           && var i := prog[blocks[b].last];
           && var following := if i.pred then {b + 1} else {};
           && (i.op == Bra ==> Label(i.target) in prog && Target(prog, i.target) < |prog|)
           && successors[b] == match i.op
                               case Ret => {|blocks| - 1} + following
                               case Retp => {|blocks| - 1} + following
                               case Exit => {|blocks| - 1} + following
                               case Bra => {bb[Target(prog, i.target)]} + following
                               case Call => {b + 1}
                               case Callp => {b + 1}
                               case Other => {b + 1}
    }

    lemma {:induction false} LinksByOpcode()
      requires Analysable(prog) && Layout(AsSeen(prog), blocks, bb) && |successors| == |blocks|
      requires forall b: nat {:trigger successors[b]} :: b < |blocks| ==>
                 successors[b] == SuccessorBlocks(AsSeen(prog), blocks, bb, b)
      ensures LinkedByOpcode()
    {
      forall b: nat | b < |blocks| - 1 {
        SeenLinks(prog, blocks, bb, b, successors[b]);
      }
    }

    // ----- dominators and post-dominators -----

    // one row of the post-dominator equations
    method UpdatePostdominators(h: nat, ghost was: seq<set<nat>>, change: bool) returns (change': bool)
      requires h < |blocks| - 1 && |successors| == |blocks|
      requires Swept(successors, |blocks| - 1, was, postdominators, change, h + 1, |blocks| - 1)
      modifies `postdominators
      ensures Swept(successors, |blocks| - 1, was, postdominators, change', h, |blocks| - 1)
    {
      var T := Recompute(successors, postdominators, h);
      var eq := IsEqual(T, postdominators[h]);
      ghost var r := |blocks| - 1;
      if !eq {
        SweptChange(successors, r, was, postdominators, change, h + 1, r, h, h, r);
        change' := true;
        postdominators := postdominators[h := T];
      } else {
        SweptSame(successors, r, was, postdominators, change, h + 1, r, h, h, r);
        change' := change;
      }
    }

    // only the exit itself for the exit, everything for the others
    method InitPostdominators()
      requires |blocks| >= 2 && |successors| == |blocks| && IsGraph(successors) && NoRow(postdominators)
      modifies `postdominators
      ensures Descending(successors, |blocks| - 1, postdominators)
    {
      var r: nat := |blocks| - 1;
      postdominators := postdominators[r := postdominators[r] + {r}];
      for b := r downto 0
        invariant |postdominators| == |blocks| && postdominators[r] == {r}
        invariant forall h: nat :: b <= h < r ==> Full(postdominators[h], |blocks|)
        invariant forall h: nat :: h < b ==> postdominators[h] == {}
      {
        var full := InsertAllIds(postdominators[b], |blocks|);
        postdominators := postdominators[b := full];
      }
      FullDescends(successors, r, postdominators);
    }

    // one round over all blocks but the exit, last block first
    method RoundPostdominators() returns (change: bool)
      requires |blocks| >= 2 && |successors| == |blocks|
      requires Descending(successors, |blocks| - 1, postdominators)
      modifies `postdominators
      ensures Descending(successors, |blocks| - 1, postdominators)
      ensures Total(postdominators) <= Total(old(postdominators))
      ensures change ==> Total(postdominators) < Total(old(postdominators))
      ensures !change ==> Fixpoint(successors, |blocks| - 1, postdominators)
    {
      change := false;
      ghost var was, r := postdominators, |blocks| - 1;
      SweptStart(successors, r, was, r);
      for h := |blocks| - 1 downto 0
        invariant Swept(successors, |blocks| - 1, was, postdominators, change, h, |blocks| - 1)
      {
        change := UpdatePostdominators(h, was, change);
      }
      SweptEnd(successors, r, was, postdominators, change, 0, r);
    }

    /** find_postdominators: the iteration ends, and then d is in block h's set
        exactly if every path from h to the exit block contains d. */
    method FindPostdominators()
      requires |blocks| >= 2 && |successors| == |blocks| && IsGraph(successors)
      requires NoRow(postdominators)
      modifies `postdominators
      ensures MustPass(successors, |blocks| - 1, postdominators)
    {
      InitPostdominators();
      var change := true;
      while change
        invariant Descending(successors, |blocks| - 1, postdominators)
        invariant !change ==> Fixpoint(successors, |blocks| - 1, postdominators)
        decreases Total(postdominators), change
      {
        change := RoundPostdominators();
      }
      FixpointIsMustPass(successors, |blocks| - 1, postdominators);
    }

    // one row of the dominator equations
    method UpdateDominators(h: nat, ghost was: seq<set<nat>>, change: bool) returns (change': bool)
      requires 0 < h < |blocks| && |predecessors| == |blocks|
      requires Swept(predecessors, 0, was, dominators, change, 1, h)
      modifies `dominators
      ensures Swept(predecessors, 0, was, dominators, change', 1, h + 1)
    {
      var T := Recompute(predecessors, dominators, h);
      var eq := IsEqual(T, dominators[h]);
      if !eq {
        SweptChange(predecessors, 0, was, dominators, change, 1, h, h, 1, h + 1);
        change' := true;
        dominators := dominators[h := T];
      } else {
        SweptSame(predecessors, 0, was, dominators, change, 1, h, h, 1, h + 1);
        change' := change;
      }
    }

    /** The dominator sets: exactly the blocks on every path from the entry;
        the set of a block without predecessors, other than the entry, is
        emptied at the end. */
    ghost predicate DominatorSets()
      reads `blocks, `predecessors, `dominators
    {
      && |dominators| == |blocks| && |predecessors| == |blocks|
      && forall h: nat, d: nat :: h < |blocks| ==>
           (d in dominators[h] <==>
              d < |blocks| && OnEveryPath(predecessors, h, 0, d) && (h == 0 || predecessors[h] != {}))
    }

    // only the entry itself for the entry, everything for the others
    method InitDominators()
      requires |blocks| >= 2 && |predecessors| == |blocks| && IsGraph(predecessors) && NoRow(dominators)
      modifies `dominators
      ensures Descending(predecessors, 0, dominators)
    {
      dominators := dominators[0 := dominators[0] + {0}];
      for b := 1 to |blocks|
        invariant |dominators| == |blocks| && dominators[0] == {0}
        invariant forall h: nat :: 0 < h < b ==> Full(dominators[h], |blocks|)
        invariant forall h: nat :: b <= h < |blocks| ==> dominators[h] == {}
      {
        var full := InsertAllIds(dominators[b], |blocks|);
        dominators := dominators[b := full];
      }
      FullDescends(predecessors, 0, dominators);
    }

    // one round over all blocks but the entry
    method RoundDominators() returns (change: bool)
      requires |blocks| >= 2 && |predecessors| == |blocks|
      requires Descending(predecessors, 0, dominators)
      modifies `dominators
      ensures Descending(predecessors, 0, dominators)
      ensures Total(dominators) <= Total(old(dominators))
      ensures change ==> Total(dominators) < Total(old(dominators))
      ensures !change ==> Fixpoint(predecessors, 0, dominators)
    {
      change := false;
      ghost var was := dominators;
      SweptStart(predecessors, 0, was, 1);
      for h := 1 to |blocks|
        invariant Swept(predecessors, 0, was, dominators, change, 1, h)
      {
        change := UpdateDominators(h, was, change);
      }
      SweptEnd(predecessors, 0, was, dominators, change, 1, |blocks|);
    }

    // clean the blocks nothing leads to, except the entry
    method CleanDominators()
      requires |blocks| >= 2 && |predecessors| == |blocks| && MustPass(predecessors, 0, dominators)
      modifies `dominators
      ensures DominatorSets()
    {
      for b := 1 to |blocks|
        invariant |dominators| == |blocks|
        invariant forall h: nat :: h < |blocks| ==>
                    dominators[h] == if 0 < h < b && predecessors[h] == {} then {} else old(dominators)[h]
      {
        if predecessors[b] == {} {
          dominators := dominators[b := {}];
        }
      }
    }

    /** find_dominators */
    method FindDominators()
      requires |blocks| >= 2 && |predecessors| == |blocks| && IsGraph(predecessors)
      requires NoRow(dominators)
      modifies `dominators
      ensures DominatorSets()
    {
      InitDominators();
      var change := true;
      while change
        invariant Descending(predecessors, 0, dominators)
        invariant !change ==> Fixpoint(predecessors, 0, dominators)
        decreases Total(dominators), change
      {
        change := RoundDominators();
      }
      FixpointIsMustPass(predecessors, 0, dominators);
      CleanDominators();
    }

    // ----- immediate post-dominators and dominators -----

    // Tmp(n) := the given sets, each without its own block
    method InitTmp(sets: seq<set<nat>>)
      requires |sets| == |blocks| == |tmp|
      modifies `tmp
      ensures |tmp| == |blocks| && forall h: nat :: h < |blocks| ==> tmp[h] == sets[h] - {h}
    {
      for i := 0 to |blocks|
        invariant |tmp| == |blocks| && forall h: nat :: h < i ==> tmp[h] == sets[h] - {h}
      {
        tmp := tmp[i := sets[i] - {i}];
      }
    }

    // Tmp holds what the erasing loops leave of the given sets
    ghost predicate TmpThinned(sets: seq<set<nat>>)
      reads `blocks, `tmp
    {
      && |sets| == |tmp| == |blocks|
      && (forall h: nat, d: nat :: h < |sets| && d in sets[h] ==> d < |sets|)
      && forall h: nat {:trigger tmp[h]} :: h < |blocks| ==> Thinned(sets[h] - {h}, tmp[h], sets)
    }

    method ThinTmp(sets: seq<set<nat>>)
      requires |sets| == |blocks| == |tmp|
      requires forall h: nat, d: nat :: h < |sets| && d in sets[h] ==> d < |sets|
      requires forall h: nat :: h < |blocks| ==> tmp[h] == sets[h] - {h}
      modifies `tmp
      ensures TmpThinned(sets)
    {
      for h := |blocks| downto 0
        invariant |tmp| == |blocks|
        invariant forall k: nat :: k < h ==> tmp[k] == sets[k] - {k}
        invariant forall k: nat {:trigger tmp[k]} :: h <= k < |blocks| ==> Thinned(sets[k] - {k}, tmp[k], sets)
      {
        var left := EraseBlocked(sets, tmp[h]);
        tmp := tmp[h := left];
      }
    }

    ghost predicate ReachesExit(h: nat)
      reads `blocks, `successors
    {
      |blocks| > 0 && Reaches(successors, h, |blocks| - 1)
    }

    /** Each block on a way to the exit has its nearest strict post-dominator. */
    ghost predicate NearestPostdominators()
      reads `blocks, `successors, `immediatePostdominator
    {
      && |immediatePostdominator| == |blocks| && |blocks| >= 2
      && forall h: nat :: h < |blocks| - 1 && ReachesExit(h) ==>
           && immediatePostdominator[h] >= 0
           && Nearest(successors, h, |blocks| - 1, immediatePostdominator[h])
    }

    /** For each other block, what the erasure of everything blocked leaves. */
    ghost predicate FallbackPostdominators()
      reads `blocks, `successors, `immediatePostdominator
    {
      && |immediatePostdominator| == |blocks| && |blocks| >= 2
      && forall h: nat :: h < |blocks| - 1 && !ReachesExit(h) ==>
           && immediatePostdominator[h] >= 0
           && LeftForStuck(successors, |blocks| - 1, h, immediatePostdominator[h])
    }

    lemma {:induction false} FallbackLeft(h: nat)
      requires |blocks| >= 2 && |successors| == |blocks| && IsGraph(successors)
      requires MustPass(successors, |blocks| - 1, postdominators) && TmpThinned(postdominators)
      requires h < |blocks| - 1 && !Reaches(successors, h, |blocks| - 1) && |tmp[h]| == 1
      ensures forall m :: m in tmp[h] ==> LeftForStuck(successors, |blocks| - 1, h, m)
    {
      forall m | m in tmp[h] {
        StuckLeaves(successors, |blocks| - 1, postdominators, h, tmp[h], m);
      }
    }

    lemma {:induction false} PostdominatorLeft(h: nat)
      requires |blocks| >= 2 && |successors| == |blocks| && IsGraph(successors)
      requires MustPass(successors, |blocks| - 1, postdominators) && TmpThinned(postdominators)
      requires h < |blocks| - 1 && Reaches(successors, h, |blocks| - 1)
      ensures exists m :: tmp[h] == {m} && Nearest(successors, h, |blocks| - 1, m)
    {
      ThinnedIsNearest(successors, |blocks| - 1, postdominators, h, tmp[h]);
    }

    lemma {:induction false} NothingLeftForExit()
      requires |blocks| >= 2 && |successors| == |blocks| && IsGraph(successors)
      requires MustPass(successors, |blocks| - 1, postdominators) && TmpThinned(postdominators)
      ensures tmp[|blocks| - 1] == {}
    {
      var r: nat := |blocks| - 1;
      forall d: nat | d in postdominators[r]
        ensures d == r
      {
        OnlyRootBlocksRoot(successors, r, d);
      }
      assert postdominators[r] - {r} == {};
    }

    // something is left for every block from h on but the exit
    ghost predicate LeftFrom(h: nat)
      requires |tmp| == |blocks|
      reads `blocks, `tmp
    {
      forall k: nat {:trigger tmp[k]} :: h <= k < |blocks| - 1 ==> tmp[k] != {}
    }

    // the last loop of find_ipostdominators, with its two assertions as result
    method RecordPostdominators() returns (ok: bool)
      requires |blocks| >= 2 && |tmp| == |immediatePostdominator| == |blocks|
      requires tmp[|blocks| - 1] == {}
      requires forall h: nat, d: nat :: h < |blocks| && d in tmp[h] ==> d < |blocks|
      modifies `immediatePostdominator
      ensures ok <==> forall h: nat :: h < |blocks| - 1 ==> |tmp[h]| == 1
      ensures ok ==>
                && |immediatePostdominator| == |blocks|
                && forall h: nat :: h < |blocks| - 1 ==>
                     0 <= immediatePostdominator[h] < |blocks| && immediatePostdominator[h] in tmp[h]
    {
      var num := 0;
      for h := |blocks| downto 0
        invariant |immediatePostdominator| == |blocks|
        invariant h == |blocks| ==> num == 0
        invariant h < |blocks| ==> num <= |blocks| - 1 - h
        invariant h < |blocks| ==> (num == |blocks| - 1 - h <==> LeftFrom(h))
        invariant forall k: nat :: h <= k < |blocks| ==>
                    |tmp[k]| <= 1 && (tmp[k] != {} ==> 0 <= immediatePostdominator[k] < |blocks|
                                                        && immediatePostdominator[k] in tmp[k])
      {
        assert LeftFrom(h) <==> h == |blocks| - 1 || (LeftFrom(h + 1) && tmp[h] != {});
        if |tmp[h]| > 1 {
          return false;
        }
        if tmp[h] != {} {
          var m := Smallest(tmp[h]);
          immediatePostdominator := immediatePostdominator[h := m];
          num := num + 1;
        }
      }
      ok := num == |blocks| - 1;
    }

    // what was left and recorded is the nearest strict post-dominator
    lemma {:induction false} PostdominatorsRecorded(ok: bool)
      requires |blocks| >= 2 && |successors| == |blocks| && IsGraph(successors)
      requires MustPass(successors, |blocks| - 1, postdominators) && TmpThinned(postdominators)
      requires ok <==> forall h: nat :: h < |blocks| - 1 ==> |tmp[h]| == 1
      requires ok ==>
                 && |immediatePostdominator| == |blocks|
                 && forall h: nat :: h < |blocks| - 1 ==>
                      0 <= immediatePostdominator[h] < |blocks| && immediatePostdominator[h] in tmp[h]
      ensures ok <==> OneLeftEach(successors, |blocks| - 1)
      ensures ok ==> NearestPostdominators() && FallbackPostdominators()
    {
      OneLeftIsExact();
      forall h: nat | h < |blocks| - 1 && !ReachesExit(h)
        ensures ok ==> LeftForStuck(successors, |blocks| - 1, h, immediatePostdominator[h])
      {
        if ok {
          FallbackLeft(h);
        }
      }
      forall h: nat | h < |blocks| - 1 && ReachesExit(h)
        ensures ok ==> Nearest(successors, h, |blocks| - 1, immediatePostdominator[h])
      {
        PostdominatorLeft(h);
      }
    }

    // every Tmp set but the exit's has one element left, or not
    lemma {:induction false} OneLeftIsExact()
      requires |blocks| >= 2 && |successors| == |blocks| && IsGraph(successors)
      requires MustPass(successors, |blocks| - 1, postdominators) && TmpThinned(postdominators)
      ensures (forall h: nat :: h < |blocks| - 1 ==> |tmp[h]| == 1) <==> OneLeftEach(successors, |blocks| - 1)
    {
      var r: nat := |blocks| - 1;
      forall h: nat | h < r
        ensures |tmp[h]| == 1 <==> !StuckAlone(successors, r, h) || InALine(successors, r)
      {
        LeftExactly(successors, r, postdominators, h, tmp[h]);
      }
      if h: nat :| StuckAlone(successors, r, h) {
        assert Connects(successors, [r], r, r);
        assert h < r;
      }
    }

    /** find_ipostdominators.  `ok` is the conjunction of its assertions: they
        fail exactly when one block alone cannot reach the exit and the others do
        not stand in one line, and whenever they hold the recorded block is the
        nearest strict post-dominator. */
    method FindIpostdominators() returns (ok: bool)
      requires |blocks| >= 2 && |successors| == |blocks| && IsGraph(successors)
      requires MustPass(successors, |blocks| - 1, postdominators)
      requires |tmp| == |immediatePostdominator| == |blocks|
      modifies `tmp, `immediatePostdominator
      ensures ok <==> OneLeftEach(successors, |blocks| - 1)
      ensures ok ==> NearestPostdominators() && FallbackPostdominators()
      ensures ok ==> forall h: nat :: h < |blocks| - 1 ==> 0 <= immediatePostdominator[h] < |blocks|
    {
      InitTmp(postdominators);
      ThinTmp(postdominators);
      NothingLeftForExit();
      ok := RecordPostdominators();
      PostdominatorsRecorded(ok);
    }

    /** Each block that control can reach, except the entry, has its nearest
        strict dominator. */
    ghost predicate NearestDominators()
      reads `blocks, `predecessors, `immediateDominator
    {
      && |immediateDominator| == |blocks|
      && forall h: nat :: 0 < h < |blocks| && Reaches(predecessors, h, 0) ==>
           immediateDominator[h] >= 0 && Nearest(predecessors, h, 0, immediateDominator[h])
    }

    lemma {:induction false} DominatorSetIsExact(h: nat)
      requires |blocks| >= 2 && IsGraph(predecessors) && DominatorSets()
      requires h < |blocks| && Reaches(predecessors, h, 0)
      ensures forall d: nat :: d in dominators[h] <==> d < |blocks| && OnEveryPath(predecessors, h, 0, d)
    {
      if h > 0 {
        var p :| Connects(predecessors, p, h, 0);
        assert p[1] in predecessors[h];
      }
    }

    lemma {:induction false} DominatorLeft(h: nat)
      requires |blocks| >= 2 && IsGraph(predecessors) && DominatorSets() && TmpThinned(dominators)
      requires 0 < h < |blocks| && Reaches(predecessors, h, 0)
      ensures exists m :: tmp[h] == {m} && Nearest(predecessors, h, 0, m)
    {
      DominatorSetIsExact(h);
      forall k: nat | k in dominators[h]
        ensures forall d: nat :: d in dominators[k] <==> d < |blocks| && OnEveryPath(predecessors, k, 0, d)
      {
        BlockerReaches(predecessors, 0, h, k);
        DominatorSetIsExact(k);
      }
      ThinnedIsNearest(predecessors, 0, dominators, h, tmp[h]);
    }

    // which Tmp sets end up empty
    lemma {:induction false} DominatorTmpEmpty(h: nat)
      requires |blocks| >= 2 && IsGraph(predecessors) && DominatorSets() && TmpThinned(dominators)
      requires h < |blocks|
      ensures tmp[h] == {} <==> h == 0 || predecessors[h] == {}
    {
      if h == 0 {
        forall d | d in dominators[0]
          ensures d == 0
        {
          OnlyRootBlocksRoot(predecessors, 0, d);
        }
      } else {
        RootBlocksAll(predecessors, 0, h);
        var S := dominators[h] - {h};
        assert Thinned(S, tmp[h], dominators);
        assert predecessors[h] != {} ==> 0 in S;
        assert predecessors[h] == {} ==> S == {};
      }
    }

    // the last loop of find_idominators, with its assertion as result
    method RecordDominators() returns (ok: bool)
      requires |blocks| >= 2 && |tmp| == |immediateDominator| == |predecessors| == |blocks|
      requires forall h: nat :: h < |blocks| ==> (tmp[h] == {} <==> h == 0 || predecessors[h] == {})
      modifies `immediateDominator
      ensures ok <==> predecessors[0] == {}
      ensures |immediateDominator| == |blocks|
      ensures forall h: nat :: h < |blocks| && tmp[h] != {} ==>
                immediateDominator[h] >= 0 && immediateDominator[h] in tmp[h]
                && forall d :: d in tmp[h] ==> immediateDominator[h] <= d
    {
      var num, noPred := 0, 0;
      for h := 0 to |blocks|
        invariant |immediateDominator| == |blocks|
        invariant num + noPred == (if h == 0 then 0 else h - 1 + if predecessors[0] == {} then 1 else 0)
        invariant forall k: nat :: k < h && tmp[k] != {} ==>
                    immediateDominator[k] >= 0 && immediateDominator[k] in tmp[k]
                    && forall d :: d in tmp[k] ==> immediateDominator[k] <= d
      {
        if tmp[h] != {} {
          var m := Smallest(tmp[h]);
          immediateDominator := immediateDominator[h := m];
          num := num + 1;
        } else if predecessors[h] == {} {
          noPred := noPred + 1;
        }
      }
      ok := num == |blocks| - noPred;
    }

    /** find_idominators.  Its assertion holds exactly when nothing branches
        back to the entry block. */
    method FindIdominators() returns (ok: bool)
      requires |blocks| >= 2 && IsGraph(predecessors) && DominatorSets()
      requires |tmp| == |immediateDominator| == |blocks|
      modifies `tmp, `immediateDominator
      ensures ok <==> predecessors[0] == {}
      ensures NearestDominators()
      ensures |tmp| == |blocks|
      ensures TmpThinned(dominators)
      ensures forall h: nat :: h < |blocks| && tmp[h] != {} ==>
                immediateDominator[h] in tmp[h] && forall d :: d in tmp[h] ==> immediateDominator[h] <= d
    {
      InitTmp(dominators);
      ThinTmp(dominators);
      forall h: nat | h < |blocks| {
        DominatorTmpEmpty(h);
      }
      ok := RecordDominators();
      forall h: nat | 0 < h < |blocks| && Reaches(predecessors, h, 0)
        ensures immediateDominator[h] >= 0 && Nearest(predecessors, h, 0, immediateDominator[h])
      {
        DominatorLeft(h);
      }
    }

    /** Read forwards: for a block that control can reach from the entry, the set
        is the blocks on every way there, and the recorded block is the last of
        them before it. */
    lemma {:induction false} DominatorsForward(h: nat)
      requires IsGraph(successors) && IsGraph(predecessors) && Mirror(successors, predecessors)
      requires |successors| == |blocks| >= 2 && DominatorSets() && NearestDominators()
      requires h < |blocks| && Reaches(successors, 0, h)
      ensures forall d: nat :: d in dominators[h] <==> d < |blocks| && OnEveryPath(successors, 0, h, d)
      ensures h > 0 ==>
                var m := immediateDominator[h];
                && 0 <= m < |blocks| && m != h && OnEveryPath(successors, 0, h, m)
                && forall t: nat :: t < |blocks| && t != h && OnEveryPath(successors, 0, h, t) ==>
                     OnEveryPath(successors, 0, m, t)
    {
      var p :| Connects(successors, p, 0, h);
      ReversedPath(successors, predecessors, p, 0, h);
      DominatorSetIsExact(h);
      forall a: nat, d: nat
        ensures OnEveryPath(successors, 0, a, d) <==> OnEveryPath(predecessors, a, 0, d)
      {
        MirrorMustPass(successors, predecessors, 0, a, d);
      }
    }

    // ----- reconvergence points -----

    /** The block analysis is complete.  Quantified over a dummy, so that the
        verifier looks inside only where OpenUp asks it to. */
    ghost predicate Analysed()
      reads `blocks, `bb, `successors, `predecessors, `immediatePostdominator, `memIndex, `pc, `startPc
    {
      forall q: bool {:trigger Asked(q)} :: Asked(q) ==> AnalysisHolds()
    }

    lemma OpenUp()
      requires Analysed()
      ensures AnalysisHolds()
    {
      assert Asked(true);
    }

    ghost predicate AnalysisHolds()
      reads `blocks, `bb, `successors, `predecessors, `immediatePostdominator, `memIndex, `pc, `startPc
    {
      && Faithful(AsSeen(prog), blocks, bb, successors, predecessors)
      && AddressesUpTo(|prog|)
      && NearestPostdominators() && FallbackPostdominators()
      && forall h: nat :: h < |blocks| - 1 ==> 0 <= immediatePostdominator[h] < |blocks|
    }

    // block b's entry in the table: its last instruction, and where its
    // immediate post-dominator begins
    ghost function PairOf(b: nat): Recon
      reads `blocks, `immediatePostdominator, `pc
    {
      PairIn(blocks, immediatePostdominator, pc, b)
    }

    static ghost function PairIn(blocks: seq<Block>, ipdom: seq<int>, pc: seq<nat>, b: nat): Recon {
      if b < |blocks| && 0 <= blocks[b].last < |pc| && b < |ipdom| && 0 <= ipdom[b] < |blocks| then
        var t := blocks[ipdom[b]].first;
        Recon(pc[blocks[b].last], if 0 <= t < |pc| then pc[t] else RETURN_PC)
      else Recon(RETURN_PC, RETURN_PC)
    }

    ghost predicate LastsAreInsts()
      reads `blocks
    {
      |blocks| > 0
      && forall b: nat :: b < |blocks| - 1 ==> 0 <= blocks[b].last < |prog| && prog[blocks[b].last].Inst?
    }

    lemma {:induction false} LastsAreCode()
      requires Analysed()
      ensures LastsAreInsts()
    {
      OpenUp();
      forall b: nat | b < |blocks| - 1
        ensures prog[blocks[b].last].Inst?
      {
        SeenEnd(prog, blocks, bb, b);
      }
    }

    ghost predicate IsPairTable(pairs: seq<Recon>)
      reads `blocks, `bb, `successors, `predecessors, `immediatePostdominator, `memIndex, `pc, `startPc
    {
      && Analysed() && LastsAreInsts()
      && var branches := BranchBlocks(prog, blocks, |blocks| - 1);
      && |pairs| == |branches|
      && forall i :: 0 <= i < |pairs| ==> pairs[i] == PairOf(branches[i])
    }

    ghost predicate CountIsRight()
      reads `blocks, `numReconvergencePairs
    {
      numReconvergencePairs != 0 ==>
        && LastsAreInsts()
        && numReconvergencePairs == |BranchBlocks(prog, blocks, |blocks| - 1)|
    }

    /** get_num_reconvergence_pairs, remembered once it is not zero */
    method GetNumReconvergencePairs() returns (num: nat)
      requires Analysed() && CountIsRight()
      modifies `numReconvergencePairs
      ensures CountIsRight() && LastsAreInsts()
      ensures num == |BranchBlocks(prog, blocks, |blocks| - 1)|
    {
      LastsAreCode();
      if numReconvergencePairs == 0 {
        for i := 0 to |blocks| - 1
          invariant numReconvergencePairs == |BranchBlocks(prog, blocks, i)|
        {
          if prog[blocks[i].last].op == Bra {
            numReconvergencePairs := numReconvergencePairs + 1;
          }
        }
      }
      num := numReconvergencePairs;
    }

    /** get_reconvergence_pairs */
    method GetReconvergencePairs(points: array<Recon>)
      requires Analysed() && LastsAreInsts()
      requires points.Length == |BranchBlocks(prog, blocks, |blocks| - 1)|
      modifies points
      ensures IsPairTable(points[..])
    {
      forall b: nat | b < |blocks| - 1 {
        PairParts(b);
      }
      WritePairs(points, prog, blocks, immediatePostdominator, pc);
    }

    // its loop, over this function's rows
    static method WritePairs(points: array<Recon>, prog: Program, blocks: seq<Block>, ipdom: seq<int>, pc: seq<nat>)
      requires |blocks| > 0 && HasPairs(prog, blocks, ipdom, pc)
      requires Written(prog, blocks, ipdom, pc, points[..], 0, 0)
      modifies points
      ensures Written(prog, blocks, ipdom, pc, points[..], points.Length, |blocks| - 1)
    {
      var idx := 0;
      for i := 0 to |blocks| - 1
        invariant Written(prog, blocks, ipdom, pc, points[..], idx, i)
      {
        assert HasPair(prog, blocks, ipdom, pc, i);
        WrittenNext(prog, blocks, ipdom, pc, points[..], idx, i);
        if prog[blocks[i].last].op == Bra {
          ghost var before := points[..];
          var t := blocks[ipdom[i]].first;
          points[idx] := Recon(pc[blocks[i].last], if t != NULL then pc[t] else RETURN_PC);
          assert points[..] == before[idx := PairIn(blocks, ipdom, pc, i)];
          idx := idx + 1;
        }
      }
    }

    // everything block b's pair is made of exists
    static ghost predicate HasPair(prog: Program, blocks: seq<Block>, ipdom: seq<int>, pc: seq<nat>, b: nat) {
      && |pc| == |prog| && |ipdom| == |blocks| && b < |blocks|
      && 0 <= blocks[b].last < |prog| && prog[blocks[b].last].Inst?
      && 0 <= ipdom[b] < |blocks|
      && (blocks[ipdom[b]].first == NULL || 0 <= blocks[ipdom[b]].first < |prog|)
    }

    static ghost predicate HasPairs(prog: Program, blocks: seq<Block>, ipdom: seq<int>, pc: seq<nat>) {
      forall b: nat {:trigger HasPair(prog, blocks, ipdom, pc, b)} ::
        b < |blocks| - 1 ==> HasPair(prog, blocks, ipdom, pc, b)
    }

    // the idx pairs of the branch blocks before m are in the table
    static ghost predicate Written(prog: Program, blocks: seq<Block>, ipdom: seq<int>, pc: seq<nat>,
                                   table: seq<Recon>, idx: nat, m: nat)
      requires HasPairs(prog, blocks, ipdom, pc) && m < |blocks|
    {
      HasBranches(prog, blocks, ipdom, pc);
      var branches := BranchBlocks(prog, blocks, m);
      && idx == |branches| <= |table| == |BranchBlocks(prog, blocks, |blocks| - 1)|
      && forall j :: 0 <= j < idx ==> table[j] == PairIn(blocks, ipdom, pc, branches[j])
    }

    static lemma {:induction false} HasBranches(prog: Program, blocks: seq<Block>, ipdom: seq<int>, pc: seq<nat>)
      requires HasPairs(prog, blocks, ipdom, pc)
      ensures forall b: nat :: b < |blocks| - 1 ==> 0 <= blocks[b].last < |prog| && prog[blocks[b].last].Inst?
    {
      forall b: nat | b < |blocks| - 1
        ensures 0 <= blocks[b].last < |prog| && prog[blocks[b].last].Inst?
      {
        assert HasPair(prog, blocks, ipdom, pc, b);
      }
    }

    // the next block's pair, if it has one
    static lemma {:induction false} WrittenNext(prog: Program, blocks: seq<Block>, ipdom: seq<int>, pc: seq<nat>,
                                                table: seq<Recon>, idx: nat, i: nat)
      requires HasPairs(prog, blocks, ipdom, pc) && i < |blocks| - 1
      requires Written(prog, blocks, ipdom, pc, table, idx, i)
      ensures 0 <= blocks[i].last < |prog| && prog[blocks[i].last].Inst?
      ensures if prog[blocks[i].last].op == Bra then
                idx < |table|
                && Written(prog, blocks, ipdom, pc, table[idx := PairIn(blocks, ipdom, pc, i)], idx + 1, i + 1)
              else
                Written(prog, blocks, ipdom, pc, table, idx, i + 1)
    {
      HasBranches(prog, blocks, ipdom, pc);
      BranchBlocksGrow(prog, blocks, i);
    }

    // everything a pair is made of exists
    lemma {:induction false} PairParts(b: nat)
      requires Analysed() && b < |blocks| - 1
      ensures HasPair(prog, blocks, immediatePostdominator, pc, b)
    {
      OpenUp();
      SeenEnd(prog, blocks, bb, b);
    }

    // the address a position stands for
    ghost function PcOf(q: nat): int
      requires q <= |prog| == |pc|
      reads `pc
    {
      if q < |prog| then pc[q] else RETURN_PC
    }

    /** What a reconvergence PC is for: of an instruction that is no branch there
        is none; a branch that can lead out of the function reconverges at the
        nearest instruction (or the return) that every way out passes. */
    ghost predicate Reconverges(p: nat, r: int)
      reads `pc
    {
      && p < |prog| == |pc| && prog[p].Inst?
      && (prog[p].op != Bra ==> r == NO_BRANCH_DIVERGENCE)
      && (prog[p].op == Bra && Reaches(InstrGraph(prog), p, |prog|) ==>
            exists q: nat :: q <= |prog| && Nearest(InstrGraph(prog), p, |prog|, q) && r == PcOf(q))
    }

    // what is answered for a branch that cannot lead out
    ghost predicate FallsBack(p: nat, r: int)
      reads `pc
    {
      && p < |prog| == |pc|
      && exists q: nat :: q <= |prog| && FallbackOf(AsSeen(prog), p, q) && r == PcOf(q)
    }

    /** The answer get_converge_point gives for an instruction is right, except
        for a branch that opens the list and is missed; for a branch that cannot
        lead out, where no answer is wrong, it is the fallback. */
    ghost predicate Answered(p: nat, r: int)
      reads `pc
    {
      && p < |prog| == |pc| && prog[p].Inst?
      && (Reconverges(p, r) <==> !Missed(prog, p))
      && (p == 0 && OpensWithTransfer(prog) ==> r == NO_BRANCH_DIVERGENCE)
      && (prog[p].op == Bra && !Reaches(InstrGraph(prog), p, |prog|) && !(p == 0 && OpensWithTransfer(prog)) ==>
            FallsBack(p, r))
    }

    // the block recorded for block b begins with the nearest point that every way
    // out from its last instruction passes
    lemma {:induction false} RecordedIsNearest(b: nat)
      requires Analysed() && b < |blocks| - 1
      ensures |pc| == |prog| && 0 <= blocks[b].last < |prog| && prog[blocks[b].last].Inst?
      ensures OpensWithTransfer(prog) ==> blocks[b].last > 0
      ensures b < |immediatePostdominator| && 0 <= immediatePostdominator[b] < |blocks|
      ensures var first := blocks[immediatePostdominator[b]].first;
              Reaches(InstrGraph(prog), blocks[b].last, |prog|) ==>
                Nearest(InstrGraph(prog), blocks[b].last, |prog|, if 0 <= first < |prog| then first else |prog|)
      ensures var first := blocks[immediatePostdominator[b]].first;
              !Reaches(InstrGraph(prog), blocks[b].last, |prog|) ==>
                FallbackOf(AsSeen(prog), blocks[b].last, if 0 <= first < |prog| then first else |prog|)
    {
      OpenUp();
      SeenEnd(prog, blocks, bb, b);
      var d: nat := immediatePostdominator[b];
      assert Entry(prog, blocks, d) == if 0 <= blocks[d].first < |prog| then blocks[d].first else |prog|;
      if Reaches(InstrGraph(prog), blocks[b].last, |prog|) {
        SeenNearestBlock(prog, blocks, bb, successors, predecessors, b);
        assert ReachesExit(b);
      } else {
        SeenFallback(prog, blocks, bb, successors, predecessors, b);
        assert !ReachesExit(b);
      }
    }

    lemma {:induction false} PairReconverges(b: nat)
      requires Analysed() && LastsAreInsts() && b < |blocks| - 1 && prog[blocks[b].last].op == Bra
      ensures Reconverges(blocks[b].last, PairOf(b).targetPc)
      ensures !Reaches(InstrGraph(prog), blocks[b].last, |prog|) ==> FallsBack(blocks[b].last, PairOf(b).targetPc)
      ensures PairOf(b).sourcePc == pc[blocks[b].last]
      ensures OpensWithTransfer(prog) ==> blocks[b].last > 0
    {
      RecordedIsNearest(b);
      var first := blocks[immediatePostdominator[b]].first;
      assert PairOf(b).targetPc == PcOf(if 0 <= first < |prog| then first else |prog|);
    }

    static predicate FirstFrom(pairs: seq<Recon>, at: int, i: nat) {
      i < |pairs| && pairs[i].sourcePc == at && forall j: nat :: j < i ==> pairs[j].sourcePc != at
    }

    // the first pair with this source PC, if any
    static method Lookup(pairs: seq<Recon>, at: int) returns (r: int)
      ensures (exists i: nat :: FirstFrom(pairs, at, i) && r == pairs[i].targetPc)
              || (r == NO_BRANCH_DIVERGENCE && forall i :: 0 <= i < |pairs| ==> pairs[i].sourcePc != at)
    {
      for i := 0 to |pairs|
        invariant forall j :: 0 <= j < i ==> pairs[j].sourcePc != at
      {
        if pairs[i].sourcePc == at {
          assert FirstFrom(pairs, at, i);
          if pairs[i].targetPc == -2 {
            return RETURN_PC;
          } else {
            return pairs[i].targetPc;
          }
        }
      }
      return NO_BRANCH_DIVERGENCE;
    }

    // distinct instructions have distinct addresses
    lemma {:induction false} PcIdentifies(p: nat, q: nat)
      requires EncodedSizes(prog) && AddressesUpTo(|prog|)
      requires p < |prog| && q < |prog| && prog[p].Inst? && prog[q].Inst? && pc[p] == pc[q]
      ensures p == q
    {
      if p < q {
        AddrIdentifies(prog, p, q);
      } else if q < p {
        AddrIdentifies(prog, q, p);
      }
    }

    lemma {:induction false} LookupAnswers(pairs: seq<Recon>, p: nat, r: int)
      requires IsPairTable(pairs) && p < |prog| && prog[p].Inst?
      requires EncodedSizes(prog) && AddressesUpTo(|prog|)
      requires (exists i :: 0 <= i < |pairs| && pairs[i].sourcePc == pc[p] && r == pairs[i].targetPc)
               || (r == NO_BRANCH_DIVERGENCE && forall i :: 0 <= i < |pairs| ==> pairs[i].sourcePc != pc[p])
      ensures Answered(p, r)
    {
      var branches := BranchBlocks(prog, blocks, |blocks| - 1);
      if i :| 0 <= i < |pairs| && pairs[i].sourcePc == pc[p] && r == pairs[i].targetPc {
        var b := branches[i];
        PairReconverges(b);
        PcIdentifies(p, blocks[b].last);
      } else if prog[p].op == Bra && (OpensWithTransfer(prog) ==> p > 0) {
        BranchIsListed(pairs, p);
      }
    }

    lemma {:induction false} BranchEndsBlock(p: nat)
      requires Analysed() && LastsAreInsts() && p < |prog| && prog[p].Inst? && prog[p].op == Bra
      requires OpensWithTransfer(prog) ==> p > 0
      ensures p < |bb| && bb[p] < |blocks| - 1 && p == blocks[bb[p]].last
      ensures bb[p] in BranchBlocks(prog, blocks, |blocks| - 1)
    {
      OpenUp();
      SeenBranchIsListed(prog, blocks, bb, p);
    }

    // any other branch is the last instruction of its block, so it is in the table
    lemma {:induction false} BranchIsListed(pairs: seq<Recon>, p: nat)
      requires IsPairTable(pairs) && p < |prog| && prog[p].Inst? && prog[p].op == Bra
      requires |pc| == |prog| && (OpensWithTransfer(prog) ==> p > 0)
      ensures exists i :: 0 <= i < |pairs| && pairs[i].sourcePc == pc[p]
    {
      var branches := BranchBlocks(prog, blocks, |blocks| - 1);
      BranchEndsBlock(p);
      PairParts(bb[p]);
      var i :| 0 <= i < |branches| && branches[i] == bb[p];
      assert pairs[i] == PairOf(bb[p]);
    }

    // ----- the whole pass -----

    ghost predicate Ready(ctx: Context)
      reads `blocks, `bb, `successors, `predecessors, `immediatePostdominator, `memIndex, `pc, `startPc
      reads `numReconvergencePairs, `labels, `n, `instrMem, instrMem
      reads ctx, ctx.functions`startPc, ctx.functions`n, ctx.functions`memIndex, ctx.functions`pc
    {
      forall q: bool {:trigger Asked(q)} :: Asked(q) ==>
        && ctx.Valid() && this in ctx.functions && InMemory()
        && Analysed() && CountIsRight() && ctx.Remembers(this)
    }

    // pre_decode of the instruction at p: its reconvergence PC
    method PreDecode(ctx: Context, p: nat)
      requires ctx.Valid() && this in ctx.functions
      requires Analysed() && CountIsRight() && ctx.Remembers(this)
      requires p < |prog| == |reconvergencePc| == |pc| && prog[p].Inst?
      modifies `reconvergencePc, ctx`rpts, `numReconvergencePairs
      ensures CountIsRight() && ctx.Remembers(this)
      ensures |reconvergencePc| == |prog| && Answered(p, reconvergencePc[p])
      ensures reconvergencePc == old(reconvergencePc)[p := reconvergencePc[p]]
      ensures ctx.rpts - {this} == old(ctx.rpts) - {this}
    {
      ctx.FoundAtOwnPc(this, p);
      var r := ctx.GetConvergePoint(pc[p], this, p);
      reconvergencePc := reconvergencePc[p := r];
    }

    ghost predicate DecodedUpTo(m: nat)
      reads `pc, `reconvergencePc
    {
      DecodedBy(reconvergencePc, m)
    }

    // these are the answers for the instructions before m
    ghost predicate DecodedBy(recon: seq<int>, m: nat)
      reads `pc
    {
      && |recon| == |prog| && m <= |prog|
      && forall q: nat {:trigger recon[q]} :: q < m && prog[q].Inst? ==> Answered(q, recon[q])
    }

    /** All the recorded reconvergence PCs are right exactly if no branch is
        missed, which only a branch that opens the list can be. */
    lemma {:induction false} AllRightExactly()
      requires DecodedUpTo(|prog|)
      ensures (forall p: nat :: p < |prog| && prog[p].Inst? ==> Reconverges(p, reconvergencePc[p])) <==>
              !Missed(prog, 0)
      ensures forall p: nat :: 0 < p < |prog| && prog[p].Inst? ==> Reconverges(p, reconvergencePc[p])
    {
      forall p: nat | p < |prog| && prog[p].Inst?
        ensures Reconverges(p, reconvergencePc[p]) <==> !Missed(prog, p)
      {
        assert Answered(p, reconvergencePc[p]);
      }
      assert Missed(prog, 0) ==> prog[0].Inst? && !Reconverges(0, reconvergencePc[0]);
    }

    lemma {:induction false} DecodedNext(recon: seq<int>, p: nat, r: int)
      requires p < |prog| && DecodedBy(recon, p) && Answered(p, r)
      ensures DecodedBy(recon[p := r], NextReal(prog, p + 1))
    {
    }

    // the pre-decoding loop of do_pdom: walk instruction memory
    method PreDecodeAll(ctx: Context)
      requires Ready(ctx)
      modifies `reconvergencePc, ctx`rpts, `numReconvergencePairs
      ensures DecodedUpTo(|prog|) && Ready(ctx)
      ensures ctx.rpts - {this} == old(ctx.rpts) - {this}
    {
      ReadyMeans(ctx);
      reconvergencePc := seq(|prog|, _ => NO_BRANCH_DIVERGENCE);
      var ii := 0;
      ghost var p: nat := NextReal(prog, 0);
      AddrMonotone(prog, 0, p);
      while ii < n
        invariant p <= |prog| && ii == Addr(prog, p) && Stop(prog, p)
        invariant Ready(ctx) && DecodedUpTo(p)
        invariant ctx.rpts - {this} == old(ctx.rpts) - {this}
        decreases n - ii
      {
        ii, p := PreDecodeAt(ctx, ii, p);
      }
      if p < |prog| {
        AddrIdentifies(prog, p, |prog|);
      }
    }

    // one step of that walk
    method PreDecodeAt(ctx: Context, ii: nat, ghost p: nat) returns (jj: nat, ghost q: nat)
      requires Ready(ctx)
      requires p <= |prog| && ii == Addr(prog, p) < n && Stop(prog, p) && DecodedUpTo(p)
      modifies `reconvergencePc, ctx`rpts, `numReconvergencePairs
      ensures Ready(ctx) && ctx.rpts - {this} == old(ctx.rpts) - {this}
      ensures p < q <= |prog| && jj == Addr(prog, q) > ii && Stop(prog, q) && DecodedUpTo(q)
    {
      InstructionAt(ctx, p);
      var pI := instrMem[ii].pos;
      DecodeReady(ctx, pI);
      jj := ii + prog[pI].size;
      q := NextReal(prog, p + 1);
      AddrIdentifies(prog, p, q);
    }

    // instruction memory holds the instruction the walk has come to
    lemma {:induction false} InstructionAt(ctx: Context, p: nat)
      requires Ready(ctx) && p <= |prog| && Stop(prog, p) && Addr(prog, p) < n
      ensures EncodedSizes(prog) && p < |prog| && prog[p].Inst?
      ensures Addr(prog, p) < instrMem.Length && instrMem[Addr(prog, p)] == Insn(p)
    {
      assert Asked(true);
      ImageHolds(prog, |prog|, p);
      assert instrMem[Addr(prog, p)] == instrMem[..n][Addr(prog, p)];
    }

    method DecodeReady(ctx: Context, p: nat)
      requires Ready(ctx) && p < |prog| && prog[p].Inst? && DecodedUpTo(p)
      modifies `reconvergencePc, ctx`rpts, `numReconvergencePairs
      ensures Ready(ctx) && DecodedUpTo(NextReal(prog, p + 1))
      ensures ctx.rpts - {this} == old(ctx.rpts) - {this}
    {
      assert Asked(true);
      ghost var recon := reconvergencePc;
      PreDecode(ctx, p);
      DecodedNext(recon, p, reconvergencePc[p]);
      MakeReady(ctx);
    }

    // the blocks, a proper partition of the list as seen
    method CutBlocks()
      requires HasCode(prog) && !OpensWithLabels(prog) && blocks == []
      modifies `blocks, `bb, `successors, `predecessors, `dominators, `postdominators, `tmp
      modifies `immediateDominator, `immediatePostdominator
      ensures Layout(AsSeen(prog), blocks, bb)
      ensures NoRow(successors) && NoRow(predecessors) && NoRow(dominators) && NoRow(postdominators)
      ensures |tmp| == |immediateDominator| == |immediatePostdominator| == |blocks|
    {
      CreateBasicBlocks();
    }

    // blocks and links
    method LinkBlocks()
      requires InMemory() && Analysable(prog) && !OpensWithLabels(prog) && blocks == []
      modifies `blocks, `bb, `successors, `predecessors, `dominators, `postdominators, `tmp
      modifies `immediateDominator, `immediatePostdominator
      ensures Faithful(AsSeen(prog), blocks, bb, successors, predecessors)
      ensures NoRow(dominators) && NoRow(postdominators)
      ensures |tmp| == |immediateDominator| == |immediatePostdominator| == |blocks|
    {
      CutBlocks();
      ConnectBasicBlocks();
      SeenFaithful(prog, blocks, bb, successors, predecessors);
    }

    // dominators; false if the dominator assertion fails
    method DominatorPass() returns (ok: bool)
      requires Faithful(AsSeen(prog), blocks, bb, successors, predecessors) && NoRow(dominators)
      requires |tmp| == |immediateDominator| == |blocks|
      modifies `dominators, `tmp, `immediateDominator
      ensures DominatorSets() && NearestDominators() && |tmp| == |blocks|
      ensures ok <==> !LoopsToStart(prog)
    {
      FindDominators();
      ok := FindIdominators();
      EntryPredecessors(AsSeen(prog), blocks, bb, successors, predecessors);
      SameLoops(prog);
    }

    // post-dominators; false if one of their assertions fails
    method PostdominatorPass() returns (ok: bool)
      requires Faithful(AsSeen(prog), blocks, bb, successors, predecessors) && AddressesUpTo(|prog|)
      requires NoRow(postdominators) && |tmp| == |immediatePostdominator| == |blocks|
      modifies `postdominators, `tmp, `immediatePostdominator
      ensures MustPass(successors, |blocks| - 1, postdominators)
      ensures ok ==> Analysed()
      ensures ok <==> PostdominatorsFound(AsSeen(prog))
    {
      FindPostdominators();
      ok := FindIpostdominators();
      PostdominatorsFoundAgrees(AsSeen(prog), blocks, bb, successors, predecessors);
    }

    // the block analysis; false if one of its assertions fails
    method AnalyseBlocks() returns (ok: bool)
      requires InMemory() && Analysable(prog) && !OpensWithLabels(prog) && blocks == []
      modifies `blocks, `bb, `successors, `predecessors, `dominators, `postdominators, `tmp
      modifies `immediateDominator, `immediatePostdominator
      ensures ok <==> Passes(prog)
      ensures ok ==> Analysed()
    {
      LinkBlocks();
      ok := DominatorPass();
      if ok {
        ok := PostdominatorPass();
      }
    }

    lemma MakeReady(ctx: Context)
      requires ctx.Valid() && this in ctx.functions && InMemory()
      requires Analysed() && CountIsRight() && ctx.Remembers(this)
      ensures Ready(ctx)
    {
    }

    /** do_pdom, for functions without break instructions.  It gets through its
        own assertions exactly if no instruction continues at the first one and
        the post-dominators are found; then every instruction has its
        reconvergence PC, but for a branch that opens the list and is missed, and
        the function is ready to be asked for it. */
    method DoPdom(ctx: Context) returns (ok: bool)
      requires ctx.Valid() && this in ctx.functions && this !in ctx.rpts
      requires InMemory() && Analysable(prog) && !OpensWithLabels(prog)
      requires blocks == [] && numReconvergencePairs == 0
      modifies `blocks, `bb, `successors, `predecessors, `dominators, `postdominators, `tmp
      modifies `immediateDominator, `immediatePostdominator
      modifies `reconvergencePc, `assembled, ctx`rpts, `numReconvergencePairs
      ensures ok <==> Passes(prog)
      ensures ok ==> assembled && DecodedUpTo(|prog|) && Ready(ctx)
      ensures ctx.Valid() && ctx.rpts - {this} == old(ctx.rpts) - {this}
    {
      ok := Analyse(ctx);
      if ok {
        PreDecodeAll(ctx);
        assembled := true;
        ReadyMeans(ctx);
      }
    }

    // the analysis proper
    method Analyse(ctx: Context) returns (ok: bool)
      requires ctx.Valid() && this in ctx.functions && this !in ctx.rpts
      requires InMemory() && Analysable(prog) && !OpensWithLabels(prog)
      requires blocks == [] && numReconvergencePairs == 0
      modifies `blocks, `bb, `successors, `predecessors, `dominators, `postdominators, `tmp
      modifies `immediateDominator, `immediatePostdominator
      ensures ok <==> Passes(prog)
      ensures ok ==> Ready(ctx)
      ensures ctx.Valid()
    {
      ok := AnalyseBlocks();
      if ok {
        MakeReady(ctx);
      }
    }

    lemma ReadyMeans(ctx: Context)
      requires Ready(ctx)
      ensures ctx.Valid() && EncodedSizes(prog) && n == Addr(prog, |prog|)
    {
      assert Asked(true);
    }

    /** From the parsed program to reconvergence points: assemble, then analyse.
        The program alone decides whether the analysis gets through, and the
        other functions' part of the shared tables stays. */
    method Prepare(ctx: Context) returns (ok: bool)
      requires ctx.Valid() && this !in ctx.functions && this !in ctx.rpts
      requires Unprepared()
      requires Analysable(prog) && !OpensWithLabels(prog)
      modifies this, ctx
      ensures ctx.Valid() && ctx.functions == old(ctx.functions) + {this}
      ensures ctx.rpts - {this} == old(ctx.rpts) - {this}
      ensures old(ctx.pcToInsn) <= ctx.pcToInsn
      ensures ok <==> Passes(prog)
      ensures ok ==> assembled && DecodedUpTo(|prog|) && Ready(ctx)
    {
      var r := PtxAssemble(ctx);
      assert r == Assembled;
      ok := DoPdom(ctx);
    }

    predicate Unprepared()
      reads `assembled, `blocks, `numReconvergencePairs
    {
      !assembled && blocks == [] && numReconvergencePairs == 0
    }

    /** A ready function can be asked for the reconvergence PC of any of its
        instructions. */
    lemma {:induction false} CanBeAsked(ctx: Context, p: nat)
      requires Ready(ctx) && p < |prog| && prog[p].Inst?
      ensures |pc| == |prog| && pc[p] in ctx.pcToFinfo && ctx.pcToFinfo[pc[p]] == this
      ensures EncodedSizes(prog) && AddressesUpTo(|prog|)
      ensures Analysed() && CountIsRight() && ctx.Remembers(this)
    {
      assert Asked(true);
      ctx.FoundAtOwnPc(this, p);
    }

    /** The instruction list and the addresses alone decide every answer. */
    lemma {:induction false} AnswerIsUnique(p: nat, r: int, s: int)
      requires Answered(p, r) && Answered(p, s)
      ensures r == s
    {
      if prog[p].op == Bra && !(p == 0 && OpensWithTransfer(prog)) {
        if Reaches(InstrGraph(prog), p, |prog|) {
          ReconvergenceIsUnique(p, r, s);
        } else {
          var q: nat :| q <= |prog| && FallbackOf(AsSeen(prog), p, q) && r == PcOf(q);
          var t: nat :| t <= |prog| && FallbackOf(AsSeen(prog), p, t) && s == PcOf(t);
          FallbackIsUnique(AsSeen(prog), p, q, t);
        }
      }
    }

    /** For a branch that can lead out there is only one right answer. */
    lemma {:induction false} ReconvergenceIsUnique(p: nat, r: int, s: int)
      requires Reconverges(p, r) && Reconverges(p, s)
      requires prog[p].op == Bra ==> Reaches(InstrGraph(prog), p, |prog|)
      ensures r == s
    {
      var g := InstrGraph(prog);
      if prog[p].op == Bra {
        var m: nat :| m <= |prog| && Nearest(g, p, |prog|, m) && r == PcOf(m);
        var k: nat :| k <= |prog| && Nearest(g, p, |prog|, k) && s == PcOf(k);
        NearestIsUnique(g, |prog|, p, m, k);
      }
    }
  }

  // g_pc_to_finfo after the first m list entries of a function
  ghost function FinfoTable(f: Function, was: map<nat, Function>, startPc: nat, m: nat): map<nat, Function>
    requires m <= |f.prog|
  {
    if m == 0 then was
    else if f.prog[m - 1].Label? then FinfoTable(f, was, startPc, m - 1)
    else FinfoTable(f, was, startPc, m - 1)[startPc + Addr(f.prog, m - 1) := f]
  }

  lemma {:induction false} FinfoTableKeys(f: Function, was: map<nat, Function>, startPc: nat, m: nat, a: nat)
    requires m <= |f.prog| && EncodedSizes(f.prog)
    ensures var now := FinfoTable(f, was, startPc, m);
            var image := Image(f.prog, m);
            var here := startPc <= a < startPc + |image| && image[a - startPc].Insn?;
            && (a in now <==> a in was || here)
            && (here ==> now[a] == f)
            && (a in was && !here ==> now[a] == was[a])
  {
    if m > 0 {
      FinfoTableKeys(f, was, startPc, m - 1, a);
      if f.prog[m - 1].Inst? {
        var own := [Insn(m - 1)] + Empties(f.prog[m - 1].size - 1);
        assert Image(f.prog, m) == Image(f.prog, m - 1) + own;
        assert own[0].Insn?;
        assert forall k :: 0 < k < |own| ==> own[k] == Empty;
      }
    }
  }

  /** The tables shared by all functions. */
  class Context {
    var nextPc: nat
    var pcToInsn: seq<Slot>
    var pcToFinfo: map<nat, Function>
    var rpts: map<Function, seq<Recon>>
    ghost var functions: set<Function>

    /** Nothing assembled yet. */
    constructor ()
      ensures Valid() && functions == {} && rpts == map[] && pcToInsn == []
    {
      nextPc, pcToInsn, pcToFinfo, rpts, functions := 0, [], map[], map[], {};
    }

    // start a function on an aligned address
    method Align() returns (PC: nat)
      requires |pcToInsn| == nextPc && nextPc % 4 == 0
      modifies `pcToInsn
      ensures PC == nextPc + nextPc % MAX_INST_SIZE && PC % MAX_INST_SIZE == 0
      ensures pcToInsn == old(pcToInsn) + Fillers(PC - nextPc)
    {
      PC := nextPc;
      for i := 0 to PC % MAX_INST_SIZE
        invariant pcToInsn == old(pcToInsn) + Fillers(i)
      {
        pcToInsn := pcToInsn + [None];
      }
      AlignsUp(PC);
      PC := PC + PC % MAX_INST_SIZE;
    }

    ghost predicate Valid()
      reads this, functions`startPc, functions`n, functions`memIndex, functions`pc
    {
      |pcToInsn| == nextPc && Consistent(functions, pcToInsn, pcToFinfo)
    }

    /** Every byte of the table belongs to at most one function; a function's
        bytes are its image; the two tables agree. */
    static ghost predicate Consistent(functions: set<Function>, table: seq<Slot>, finfo: map<nat, Function>)
      reads functions`startPc, functions`n, functions`memIndex, functions`pc
    {
      && |table| % 4 == 0
      && (forall f :: f in functions ==> Holds(f, table))
      && (forall f, g :: f in functions && g in functions && f != g ==> Apart(f, g))
      && (forall a: nat :: a < |table| && table[a].Some? ==> Owned(functions, table, a))
      && Agree(table, finfo)
    }

    // an occupied byte lies in the range of the function recorded there
    static ghost predicate Owned(functions: set<Function>, table: seq<Slot>, a: nat)
      requires a < |table| && table[a].Some?
      reads functions`startPc, functions`n
    {
      var f := table[a].value.0;
      f in functions && f.startPc <= a < f.startPc + f.n
    }

    static ghost predicate Agree(table: seq<Slot>, finfo: map<nat, Function>) {
      && (forall a: nat :: a in finfo <==> a < |table| && table[a].Some?)
      && (forall a: nat :: a in finfo ==> finfo[a] == table[a].value.0)
    }

    // the byte ranges of two functions do not meet
    static ghost predicate Apart(f: Function, g: Function)
      reads f`startPc, f`n, g`startPc, g`n
    {
      f.startPc + f.n <= g.startPc || g.startPc + g.n <= f.startPc
    }

    // an assembled function: aligned, inside the table, found at its own addresses
    static ghost predicate Holds(f: Function, table: seq<Slot>)
      reads f`startPc, f`n, f`memIndex, f`pc
    {
      && EncodedSizes(f.prog)
      && f.startPc % MAX_INST_SIZE == 0 && f.n == Addr(f.prog, |f.prog|) && f.startPc + f.n <= |table|
      && f.AddressesUpTo(|f.prog|)
      && table[f.startPc..f.startPc + f.n] == Slots(f, Image(f.prog, |f.prog|))
    }

    // the table with one more function behind it
    static ghost function Grown(table: seq<Slot>, f: Function): (t: seq<Slot>)
      requires EncodedSizes(f.prog) && |table| <= f.startPc
      reads f`startPc
      ensures |t| == f.startPc + Addr(f.prog, |f.prog|)
    {
      table + Fillers(f.startPc - |table|) + Slots(f, Image(f.prog, |f.prog|))
    }

    static lemma {:induction false} KeepsFunction(g: Function, table: seq<Slot>, table': seq<Slot>)
      requires Holds(g, table) && table <= table'
      ensures Holds(g, table')
    {
      assert table'[g.startPc..g.startPc + g.n] == table[g.startPc..g.startPc + g.n];
    }

    static lemma {:induction false} AddsFunction(table: seq<Slot>, f: Function)
      requires EncodedSizes(f.prog) && f.AddressesUpTo(|f.prog|) && f.n == Addr(f.prog, |f.prog|)
      requires |table| <= f.startPc && f.startPc % MAX_INST_SIZE == 0
      ensures Holds(f, Grown(table, f)) && table <= Grown(table, f)
    {
      var t := Grown(table, f);
      assert t[f.startPc..f.startPc + f.n] == Slots(f, Image(f.prog, |f.prog|));
    }

    // what is at byte a of the grown table
    static lemma {:induction false} GrownEntry(table: seq<Slot>, f: Function, a: nat)
      requires EncodedSizes(f.prog) && |table| <= f.startPc
      requires a < |Grown(table, f)| && Grown(table, f)[a].Some?
      ensures a < |table| ==> Grown(table, f)[a] == table[a]
      ensures |table| <= a ==> Grown(table, f)[a].value.0 == f && f.startPc <= a
    {
    }

    static lemma {:induction false} GrownAgree(table: seq<Slot>, finfo: map<nat, Function>, f: Function)
      requires EncodedSizes(f.prog) && |table| <= f.startPc
      requires Agree(table, finfo)
      ensures Agree(Grown(table, f), FinfoTable(f, finfo, f.startPc, |f.prog|))
    {
      forall a: nat
        ensures var t := Grown(table, f);
                var finfo' := FinfoTable(f, finfo, f.startPc, |f.prog|);
                && (a in finfo' <==> a < |t| && t[a].Some?)
                && (a in finfo' ==> finfo'[a] == t[a].value.0)
      {
        FinfoTableKeys(f, finfo, f.startPc, |f.prog|, a);
      }
    }

    static lemma {:induction false} GrownHolds(functions: set<Function>, table: seq<Slot>, f: Function)
      requires forall g :: g in functions ==> Holds(g, table)
      requires EncodedSizes(f.prog) && f.AddressesUpTo(|f.prog|) && f.n == Addr(f.prog, |f.prog|)
      requires |table| <= f.startPc && f.startPc % MAX_INST_SIZE == 0
      ensures forall g :: g in functions + {f} ==> Holds(g, Grown(table, f))
      ensures forall g :: g in functions ==> Apart(f, g) && Apart(g, f)
    {
      AddsFunction(table, f);
      forall g | g in functions
        ensures Holds(g, Grown(table, f)) && Apart(f, g) && Apart(g, f)
      {
        KeepsFunction(g, table, Grown(table, f));
      }
    }

    static lemma {:induction false} GrownOwned(functions: set<Function>, table: seq<Slot>, f: Function)
      requires forall a: nat :: a < |table| && table[a].Some? ==> Owned(functions, table, a)
      requires EncodedSizes(f.prog) && f.n == Addr(f.prog, |f.prog|) && |table| <= f.startPc
      ensures forall a: nat :: a < |Grown(table, f)| && Grown(table, f)[a].Some? ==>
                Owned(functions + {f}, Grown(table, f), a)
    {
      forall a: nat | a < |Grown(table, f)| && Grown(table, f)[a].Some?
        ensures Owned(functions + {f}, Grown(table, f), a)
      {
        GrownEntry(table, f, a);
        if a < |table| {
          assert Owned(functions, table, a);
        }
      }
    }

    /** Assembling one more function keeps the tables consistent. */
    static lemma {:induction false} Extends(functions: set<Function>, table: seq<Slot>, finfo: map<nat, Function>,
                                            f: Function)
      requires Consistent(functions, table, finfo) && f !in functions
      requires EncodedSizes(f.prog)
      requires f.AddressesUpTo(|f.prog|) && f.n == Addr(f.prog, |f.prog|)
      requires f.startPc == |table| + |table| % MAX_INST_SIZE
      ensures Consistent(functions + {f}, Grown(table, f), FinfoTable(f, finfo, f.startPc, |f.prog|))
    {
      GrownSize(table, f);
      GrownHolds(functions, table, f);
      GrownApart(functions, table, f);
      GrownOwned(functions, table, f);
      GrownAgree(table, finfo, f);
    }

    static lemma {:induction false} GrownSize(table: seq<Slot>, f: Function)
      requires EncodedSizes(f.prog) && |table| % 4 == 0 && f.startPc == |table| + |table| % MAX_INST_SIZE
      ensures f.startPc % MAX_INST_SIZE == 0 && |Grown(table, f)| % 4 == 0
    {
      AlignsUp(|table|);
      AddrBounded(f.prog, |f.prog|);
      EndsInFours(f.startPc, Addr(f.prog, |f.prog|));
    }

    static lemma {:induction false} EndsInFours(a: nat, b: nat)
      requires a % 8 == 0 && b % 4 == 0
      ensures (a + b) % 4 == 0
    {
    }

    static lemma {:induction false} GrownApart(functions: set<Function>, table: seq<Slot>, f: Function)
      requires forall g :: g in functions ==> Apart(f, g) && Apart(g, f)
      requires forall g, h :: g in functions && h in functions && g != h ==> Apart(g, h)
      ensures forall g, h :: g in functions + {f} && h in functions + {f} && g != h ==> Apart(g, h)
    {
    }

    // the remembered table of f, if any, is f's table
    ghost predicate Remembers(f: Function)
      reads `rpts, f`blocks, f`bb, f`successors, f`predecessors, f`immediatePostdominator, f`memIndex, f`pc, f`startPc
    {
      f in rpts ==> f.IsPairTable(rpts[f])
    }

    /** find_reconvergence_points, with its cache */
    method FindReconvergencePoints(f: Function) returns (pairs: seq<Recon>)
      requires f.Analysed() && f.CountIsRight() && Remembers(f)
      modifies `rpts, f`numReconvergencePairs
      ensures f.CountIsRight() && f.IsPairTable(pairs) && Remembers(f)
      ensures f in rpts && rpts[f] == pairs && rpts - {f} == old(rpts) - {f}
    {
      if f !in rpts {
        var num := f.GetNumReconvergencePairs();
        var points := new Recon[num];
        f.GetReconvergencePairs(points);
        pairs := points[..];
        rpts := rpts[f := pairs];
        assert rpts - {f} == old(rpts) - {f};
      } else {
        pairs := rpts[f];
      }
    }

    /** get_converge_point: the end-to-end property of the whole analysis.
        f and p are the function and instruction whose PC is asked for. */
    method GetConvergePoint(at: nat, ghost f: Function, ghost p: nat) returns (r: int)
      requires at in pcToFinfo && pcToFinfo[at] == f
      requires EncodedSizes(f.prog) && f.AddressesUpTo(|f.prog|)
      requires p < |f.prog| && f.prog[p].Inst? && f.pc[p] == at
      requires f.Analysed() && f.CountIsRight() && Remembers(f)
      modifies `rpts, f`numReconvergencePairs
      ensures f.CountIsRight() && Remembers(f)
      ensures f in rpts && rpts - {f} == old(rpts) - {f}
      ensures f.Answered(p, r)
    {
      var finfo := pcToFinfo[at];
      var pairs := FindReconvergencePoints(finfo);
      r := Function.Lookup(pairs, at);
      f.LookupAnswers(pairs, p, r);
    }

    /** An occupied byte of the table is the start of an instruction of the
        function recorded there. */
    lemma {:induction false} SlotIsInstruction(at: nat)
      requires Valid() && at in pcToFinfo
      ensures at < |pcToInsn| && pcToInsn[at].Some?
      ensures var (f, p) := pcToInsn[at].value;
              && f == pcToFinfo[at] && f in functions && EncodedSizes(f.prog)
              && p < |f.prog| && f.prog[p].Inst? && f.AddressesUpTo(|f.prog|) && f.pc[p] == at
    {
      assert Owned(functions, pcToInsn, at);
      var f := pcToInsn[at].value.0;
      assert Holds(f, pcToInsn);
      var slots := pcToInsn[f.startPc..f.startPc + f.n];
      assert slots[at - f.startPc] == pcToInsn[at];
      ImageOnly(f.prog, |f.prog|, at - f.startPc);
    }

    static lemma {:induction false} SlotOf(f: Function, table: seq<Slot>, p: nat)
      requires Holds(f, table) && p < |f.prog| && f.prog[p].Inst?
      ensures f.startPc + Addr(f.prog, p) < |table|
      ensures table[f.startPc + Addr(f.prog, p)] == Some((f, p))
    {
      var a := Addr(f.prog, p);
      ImageHolds(f.prog, |f.prog|, p);
      var slots := table[f.startPc..f.startPc + f.n];
      assert slots[a] == table[f.startPc + a];
    }

    /** Every assembled instruction is found at its own PC, in both tables. */
    lemma {:induction false} FoundAtOwnPc(f: Function, p: nat)
      requires Valid() && f in functions && p < |f.prog| && f.prog[p].Inst?
      ensures f.startPc + Addr(f.prog, p) < nextPc
      ensures pcToInsn[f.startPc + Addr(f.prog, p)] == Some((f, p))
      ensures f.startPc + Addr(f.prog, p) in pcToFinfo && pcToFinfo[f.startPc + Addr(f.prog, p)] == f
    {
      SlotOf(f, pcToInsn, p);
    }
  }

  predicate Distinct(fs: seq<Function>) {
    forall i: nat, j: nat :: i < j < |fs| ==> fs[i] != fs[j]
  }

  ghost function Members(fs: seq<Function>, k: nat): (m: set<Function>)
    requires k <= |fs|
    ensures forall i :: 0 <= i < k ==> fs[i] in m
  {
    if k == 0 then {} else Members(fs, k - 1) + {fs[k - 1]}
  }

  // this is f's own outcome, and f is ready if it passed
  ghost predicate Concluded(ctx: Context, f: Function, ok: bool)
    reads ctx, ctx.functions, f, f.instrMem
  {
    && (ok <==> Passes(f.prog))
    && (ok ==> f.Ready(ctx) && f.DecodedUpTo(|f.prog|))
  }

  // the first of these functions are through
  ghost predicate Done(ctx: Context, fs: seq<Function>, oks: seq<bool>)
    requires |oks| <= |fs|
    reads ctx, ctx.functions, fs, set f: Function | f in fs :: f.instrMem
  {
    forall i :: 0 <= i < |oks| ==> Concluded(ctx, fs[i], oks[i])
  }

  // f is freshly parsed and unknown to the tables
  ghost predicate Awaits(ctx: Context, f: Function)
    reads ctx, f
  {
    && f !in ctx.functions && f !in ctx.rpts && f.Unprepared()
    && Analysable(f.prog) && !OpensWithLabels(f.prog)
  }

  // the others are still to come
  ghost predicate ToDo(ctx: Context, fs: seq<Function>, i: nat)
    reads ctx, fs
  {
    forall j: nat :: i <= j < |fs| ==> Awaits(ctx, fs[j])
  }

  // what the remembered tables say of another function than f
  lemma {:induction false} OthersKept(was: map<Function, seq<Recon>>, now: map<Function, seq<Recon>>,
                                      f: Function, g: Function)
    requires now - {f} == was - {f} && g != f
    ensures g in now <==> g in was
    ensures g in now ==> now[g] == was[g]
  {
    assert g in now <==> g in now - {f};
    assert g in was <==> g in was - {f};
    assert g in now ==> now[g] == (now - {f})[g];
  }

  // preparing one more function leaves the outcomes as they are
  method PrepareBehind(ctx: Context, f: Function, fs: seq<Function>, oks: seq<bool>) returns (ok: bool)
    requires ctx.Valid() && Awaits(ctx, f) && |oks| <= |fs| && Done(ctx, fs, oks)
    requires forall i :: 0 <= i < |oks| ==> fs[i] != f
    modifies ctx, f
    ensures ctx.Valid() && ctx.functions == old(ctx.functions) + {f}
    ensures ctx.rpts - {f} == old(ctx.rpts) - {f}
    ensures Concluded(ctx, f, ok) && Done(ctx, fs, oks)
  {
    ok := f.Prepare(ctx);
    forall i | 0 <= i < |oks|
      ensures Concluded(ctx, fs[i], oks[i])
    {
      var g := fs[i];
      assert old(Concluded(ctx, g, oks[i]));
      if oks[i] {
        assert Asked(true);
        assert old(g.Ready(ctx));
        OthersKept(old(ctx.rpts), ctx.rpts, f, g);
        g.MakeReady(ctx);
      }
    }
  }

  // in the middle of preparing them; sealed like Ready
  ghost predicate Underway(ctx: Context, was: set<Function>, fs: seq<Function>, oks: seq<bool>)
    reads ctx, ctx.functions, fs, set f: Function | f in fs :: f.instrMem
  {
    forall q: bool {:trigger Asked(q)} :: Asked(q) ==>
      && |oks| <= |fs| && Distinct(fs)
      && ctx.Valid() && ctx.functions == was + Members(fs, |oks|)
      && Done(ctx, fs, oks) && ToDo(ctx, fs, |oks|)
  }

  lemma {:induction false} SetOut(ctx: Context, fs: seq<Function>)
    requires ctx.Valid() && Distinct(fs) && ToDo(ctx, fs, 0)
    ensures Underway(ctx, ctx.functions, fs, [])
  {
  }

  lemma {:induction false} Arrived(ctx: Context, was: set<Function>, fs: seq<Function>, oks: seq<bool>)
    requires |oks| >= |fs| && Underway(ctx, was, fs, oks)
    ensures |oks| == |fs| && ctx.Valid() && ctx.functions == was + Members(fs, |fs|) && Done(ctx, fs, oks)
  {
    assert Asked(true);
  }

  // the next function is prepared, and those behind it are where they were
  method PrepareNext(ctx: Context, ghost was: set<Function>, fs: seq<Function>, oks: seq<bool>)
    returns (oks': seq<bool>)
    requires Underway(ctx, was, fs, oks) && |oks| < |fs|
    modifies ctx, fs[|oks|]
    ensures |oks'| == |oks| + 1 && Underway(ctx, was, fs, oks')
  {
    assert Asked(true);
    var f := fs[|oks|];
    var ok := PrepareBehind(ctx, f, fs, oks);
    oks' := oks + [ok];
    forall j: nat | |oks'| <= j < |fs|
      ensures Awaits(ctx, fs[j])
    {
      assert old(Awaits(ctx, fs[j])) && fs[j] != f;
      OthersKept(old(ctx.rpts), ctx.rpts, f, fs[j]);
    }
    assert ctx.functions == was + Members(fs, |oks'|);
  }

  /** Any number of functions, one after the other, in the same tables: each is
      analysed exactly if its own program passes, and all that are stay ready. */
  method PrepareAll(ctx: Context, fs: seq<Function>) returns (oks: seq<bool>)
    requires ctx.Valid() && Distinct(fs) && ToDo(ctx, fs, 0)
    modifies ctx, fs
    ensures ctx.Valid() && ctx.functions == old(ctx.functions) + Members(fs, |fs|)
    ensures |oks| == |fs| && Done(ctx, fs, oks)
  {
    oks := [];
    ghost var was := ctx.functions;
    SetOut(ctx, fs);
    while |oks| < |fs|
      invariant Underway(ctx, was, fs, oks)
    {
      oks := PrepareNext(ctx, was, fs, oks);
    }
    Arrived(ctx, was, fs, oks);
  }
}
