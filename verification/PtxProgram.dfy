/**
 The instruction list of a PTX function and what it means: which instruction
 control can reach next.  An instruction is identified by its position in the
 list; the position just past the list stands for "returned from the function".
 */
module PtxProgram {
  import opened FlowGraph

  datatype Opcode = Bra | Ret | Retp | Exit | Call | Callp | Other

  // Labels and instructions share one list.  `size` is the encoded size in bytes.
  datatype Item =
    | Label(name: string)
    | Inst(op: Opcode, pred: bool, target: string, size: nat)

  type Program = seq<Item>

  const MAX_INST_SIZE := 8

  predicate IsReturn(op: Opcode) {
    op == Ret || op == Retp || op == Exit
  }

  // does control always, or under a guard, leave for somewhere else
  predicate Leaves(i: Item) {
    i.Inst? && (i.op == Bra || IsReturn(i.op))
  }

  // does this instruction end a basic block (create_basic_blocks' switch)
  predicate Ends(i: Item) {
    Leaves(i) || (i.Inst? && (i.op == Call || i.op == Callp) && i.pred)
  }

  // can control go on to the textually next instruction
  predicate FallsThrough(i: Item) {
    i.Inst? && (i.pred || !Leaves(i))
  }

  // first instruction at or after p, or the end of the list
  function NextReal(prog: Program, p: nat): (q: nat)
    requires p <= |prog|
    ensures p <= q <= |prog|
    ensures q < |prog| ==> prog[q].Inst?
    ensures forall k :: p <= k < q ==> prog[k].Label?
    decreases |prog| - p
  {
    if p < |prog| && prog[p].Label? then NextReal(prog, p + 1) else p
  }

  // last instruction before q, or position 0 when there is none
  function LastReal(prog: Program, q: nat): (p: nat)
    requires q <= |prog|
    ensures q == 0 ==> p == 0
    ensures q > 0 ==> p < q
    ensures forall k :: p < k < q ==> prog[k].Label?
    ensures p == 0 || prog[p].Inst?
  {
    if q == 0 then 0 else if prog[q - 1].Inst? then q - 1 else LastReal(prog, q - 1)
  }

  // byte offset of position p from the start of the function
  function Addr(prog: Program, p: nat): nat
    requires p <= |prog|
  {
    if p == 0 then 0
    else Addr(prog, p - 1) + (if prog[p - 1].Inst? then prog[p - 1].size else 0)
  }

  // a later definition of a label replaces an earlier one
  function LabelPosition(prog: Program, name: string, n: nat): (p: nat)
    requires n <= |prog|
    ensures p < n || p == |prog|
    ensures p < |prog| ==> prog[p] == Label(name) && forall k :: p < k < n ==> prog[k] != Label(name)
    ensures p == |prog| ==> forall k :: 0 <= k < n ==> prog[k] != Label(name)
  {
    if n == 0 then |prog|
    else if prog[n - 1] == Label(name) then n - 1
    else LabelPosition(prog, name, n - 1)
  }

  // the instruction a branch to this label goes to: the first one behind the
  // label's last definition
  function Target(prog: Program, name: string): (q: nat)
    ensures Label(name) in prog ==>
              exists l: nat :: l < |prog| && prog[l] == Label(name) && q == NextReal(prog, l)
                               && forall k :: l < k < |prog| ==> prog[k] != Label(name)
  {
    NextReal(prog, LabelPosition(prog, name, |prog|))
  }

  predicate NeedsLabel(i: Item) {
    i.Inst? && (i.op == Bra || i.op == Callp)
  }

  predicate Defined(prog: Program, name: string) {
    LabelPosition(prog, name, |prog|) < |prog|
  }

  predicate LabelsDefined(prog: Program) {
    forall p {:trigger NeedsLabel(prog[p])} :: 0 <= p < |prog| && NeedsLabel(prog[p]) ==> Defined(prog, prog[p].target)
  }

  // by opcode: what is branched to, or called through a pointer, is a label of
  // the list
  lemma {:induction false} LabelsDefinedMeans(prog: Program)
    ensures LabelsDefined(prog) <==>
            forall p: nat :: p < |prog| && prog[p].Inst? && prog[p].op in {Bra, Callp} ==> Label(prog[p].target) in prog
  {
    forall p: nat | p < |prog| && prog[p].Inst?
      ensures NeedsLabel(prog[p]) <==> prog[p].op in {Bra, Callp}
      ensures Defined(prog, prog[p].target) <==> Label(prog[p].target) in prog
    {
      var l := LabelPosition(prog, prog[p].target, |prog|);
      assert l < |prog| ==> prog[l] in prog;
    }
    if !LabelsDefined(prog) {
      var p :| 0 <= p < |prog| && NeedsLabel(prog[p]) && !Defined(prog, prog[p].target);
      assert Label(prog[p].target) !in prog;
    }
  }

  predicate Lands(prog: Program, name: string) {
    Defined(prog, name) ==> Target(prog, name) < |prog|
  }

  // every label that is branched to is followed by an instruction
  predicate LabelsLand(prog: Program) {
    forall p {:trigger NeedsLabel(prog[p])} :: 0 <= p < |prog| && NeedsLabel(prog[p]) ==> Lands(prog, prog[p].target)
  }

  predicate EncodedSizes(prog: Program) {
    forall p :: 0 <= p < |prog| && prog[p].Inst? ==> prog[p].size == 4 || prog[p].size == 8
  }

  predicate HasCode(prog: Program) {
    NextReal(prog, 0) < |prog|
  }

  // control never runs off the end of the list
  predicate StaysInside(prog: Program) {
    forall p {:trigger FallsThrough(prog[p])} :: 0 <= p < |prog| && FallsThrough(prog[p]) ==> NextReal(prog, p + 1) < |prog|
  }

  // what the analysis relies on, all of it readable off the instruction list
  predicate Analysable(prog: Program) {
    && HasCode(prog)
    && EncodedSizes(prog)
    && LabelsDefined(prog)
    && LabelsLand(prog)
    && StaysInside(prog)
  }

  // ----- control flow between instructions -----

  ghost function InstrSucc(prog: Program, p: nat): set<nat>
    requires p < |prog|
  {
    if prog[p].Label? then {}
    else
      var next := NextReal(prog, p + 1);
      if IsReturn(prog[p].op) then
        if prog[p].pred then {|prog|, next} else {|prog|}
      else if prog[p].op == Bra then
        if prog[p].pred then {Target(prog, prog[p].target), next} else {Target(prog, prog[p].target)}
      else
        {next}
  }

  ghost function InstrGraph(prog: Program): (g: Graph)
    ensures |g| == |prog| + 1
    ensures IsGraph(g)
  {
    seq(|prog| + 1, p requires 0 <= p <= |prog| => if p < |prog| then InstrSucc(prog, p) else {})
  }

  lemma {:induction false} TargetLands(prog: Program, p: nat)
    requires LabelsDefined(prog) && LabelsLand(prog) && p < |prog| && NeedsLabel(prog[p])
    ensures var l := LabelPosition(prog, prog[p].target, |prog|);
            l < |prog| && prog[l].Label? && NextReal(prog, l) == Target(prog, prog[p].target) < |prog|
  {
  }

  // ----- addresses -----

  lemma AddrMonotone(prog: Program, p: nat, q: nat)
    requires p <= q <= |prog|
    ensures Addr(prog, p) <= Addr(prog, q)
    ensures (forall k :: p <= k < q ==> prog[k].Label?) ==> Addr(prog, p) == Addr(prog, q)
    decreases q - p
  {
    if p < q {
      AddrMonotone(prog, p, q - 1);
    }
  }

  /** Byte offsets identify instructions, and the offset right behind an
      instruction is the offset of the next one. */
  lemma AddrIdentifies(prog: Program, p: nat, q: nat)
    requires p < q <= |prog| && prog[p].Inst?
    ensures Addr(prog, p) + prog[p].size <= Addr(prog, q)
    ensures q == NextReal(prog, p + 1) ==> Addr(prog, p) + prog[p].size == Addr(prog, q)
  {
    AddrMonotone(prog, p + 1, q);
  }

  lemma AddrBounded(prog: Program, p: nat)
    requires p <= |prog| && EncodedSizes(prog)
    ensures Addr(prog, p) <= MAX_INST_SIZE * p
    ensures Addr(prog, p) % 4 == 0
  {
  }
}
