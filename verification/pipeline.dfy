/** The tools together: what the assembler writes, the processor runs. */
module Pipeline {
  import opened CLib
  import opened CInt
  import opened ProcCmd
  import Labels
  import Header
  import Assembler
  import Machine

  /** An unconditional jump or a call that names a label bound at a single
      address `p` sends the processor to `p`: after the two passes the
      operand is the displacement from the jump's own offset `hdr + s`, and
      executing it shifts the instruction pointer by exactly that much. The
      displacement must fit in an `int` and must not be zero, which would
      stop the run instead. */
  lemma AssembledJumpLands(h: string -> int, f: Header.Format, cap: nat, lines: seq<string>, k: nat,
                           hdr: nat, s: nat, p: int, m: Machine.State)
    requires Header.Valid(f) && hdr == f.headerSize
    requires Assembler.LabelJump(h, hdr, cap, lines, k, p) && s == Assembler.Size(h, lines, k)
    requires Assembler.Classify(h, lines[k]).op in {JMP, CALL}
    requires IsInt32(p - (hdr + s)) && p != hdr + s
    ensures var r := Machine.Exec(Assembler.Assemble(h, f, cap, lines).binary, hdr + s, m);
      r.Next? && hdr + s + r.shift == p
  {
    Assembler.JumpResolves(h, f, cap, lines, k, hdr, s, p);
    Machine.JumpAt(Assembler.Assemble(h, f, cap, lines).binary, hdr, s, Assembler.Classify(h, lines[k]).op, p, m);
  }
}
