/**
 The byte image of an assembled function: each instruction sits at its byte
 offset, the rest of its bytes are empty, labels take no room.
 */
module InstructionMemory {
  import opened PtxProgram

  // one entry of m_instr_mem
  datatype Cell = Empty | Insn(pos: nat)

  function Empties(k: nat): (s: seq<Cell>) {
    seq(k, _ => Empty)
  }

  function Image(prog: Program, m: nat): (s: seq<Cell>)
    requires m <= |prog| && EncodedSizes(prog)
    ensures |s| == Addr(prog, m)
  {
    if m == 0 then []
    else if prog[m - 1].Label? then Image(prog, m - 1)
    else Image(prog, m - 1) + ([Insn(m - 1)] + Empties(prog[m - 1].size - 1))
  }

  /** Every instruction is found at its own offset ... */
  lemma {:induction false} ImageHolds(prog: Program, m: nat, p: nat)
    requires p < m <= |prog| && EncodedSizes(prog) && prog[p].Inst?
    ensures Addr(prog, p) < |Image(prog, m)| && Image(prog, m)[Addr(prog, p)] == Insn(p)
  {
    if p < m - 1 {
      ImageHolds(prog, m - 1, p);
    }
  }

  /** ... and an offset that holds an instruction is that instruction's own. */
  lemma {:induction false} ImageOnly(prog: Program, m: nat, a: nat)
    requires m <= |prog| && EncodedSizes(prog)
    requires a < |Image(prog, m)| && Image(prog, m)[a].Insn?
    ensures var p := Image(prog, m)[a].pos; p < m && prog[p].Inst? && Addr(prog, p) == a
  {
    if a < Addr(prog, m - 1) {
      ImageOnly(prog, m - 1, a);
    } else {
      assert prog[m - 1].Inst?;
      assert Image(prog, m)[a] == ([Insn(m - 1)] + Empties(prog[m - 1].size - 1))[a - Addr(prog, m - 1)];
    }
  }

  // the label table after the first m list entries
  function LabelTable(prog: Program, m: nat): map<string, nat>
    requires m <= |prog|
  {
    if m == 0 then map[]
    else if prog[m - 1].Label? then LabelTable(prog, m - 1)[prog[m - 1].name := Addr(prog, m - 1)]
    else LabelTable(prog, m - 1)
  }

  /** A label resolves to the offset of the next instruction behind its last
      definition; undefined labels are absent. */
  lemma {:induction false} LabelResolves(prog: Program, m: nat, name: string)
    requires m <= |prog|
    ensures name in LabelTable(prog, m) <==> LabelPosition(prog, name, m) < |prog|
    ensures name in LabelTable(prog, m) ==>
              LabelTable(prog, m)[name] == Addr(prog, NextReal(prog, LabelPosition(prog, name, m)))
  {
    if m > 0 {
      LabelResolves(prog, m - 1, name);
      if prog[m - 1] == Label(name) {
        AddrMonotone(prog, m - 1, NextReal(prog, m - 1));
      }
    }
  }
}
