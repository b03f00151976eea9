/** The disassembler of the earlier revision. It reads the header as the
    current one does and lists commands until a zero shift or the end of the
    file, but its cases are selected by the opcode byte shifted right by
    two, as in the current encoding, while the assembler of the same
    revision writes the plain opcode. */
module LegacyDisasm {
  import opened CLib
  import opened CInt
  import opened ArgWorks
  import opened LegacyCmd
  import Header

  /** What a command's disassembly script prints after its name: `PUSH` and
      `MOVE` print their operand in the form selected by the low two bits of
      the opcode byte, `RGET` and `RSET` print a register name, the rest
      print nothing. */
  function OperandText(op: LOp, mode: nat, arg: int): string
    requires mode < 4 && IsInt32(arg)
  {
    if op in {PUSH, MOVE} then Render(arg, mode)
    else if op in {RGET, RSET} then Render(arg, USE_REGISTER)
    else ""
  }

  /** The line listed for a command: its name, a blank, the operand text
      and a newline. */
  function Line(op: LOp, mode: nat, arg: int): (l: string)
    requires mode < 4 && IsInt32(arg)
    ensures |l| > 0 && l[|l| - 1] == '\n'
    ensures |l| > |Name(op)| + 1 && l[..|Name(op)| + 1] == Name(op) + " "
  {
    var l := Name(op) + " " + OperandText(op, mode, arg) + "\n";
    assert l == (Name(op) + " ") + (OperandText(op, mode, arg) + "\n");
    l
  }

  /** What listing the command at `ip` does: print a line and move on by
      `shift` bytes; stop on an unknown opcode (EIO, shift 0, nothing
      printed); read an operand past the end of the file; or run a command
      whose definition is not part of this model. */
  datatype Listed = Listed(line: string, shift: nat) | UnknownOp | ReadPast | Unmodelled

  /** The case `execute_command` selects for a byte: the signed `char`
      shifted right by two, which rounds towards minus infinity. */
  function Selected(b: Byte): (c: int)
    ensures b < 128 ==> c == b / 4
    ensures b >= 128 ==> c < 0
  {
    SignedByte(b) / 4
  }

  /** `execute_command` of the disassembler: the case is `*ptr >> 2`, the
      mode `*ptr & 3`, and a command with an operand reads the four bytes
      after the opcode byte. */
  function ListCommand(t: Table, prog: seq<Byte>, ip: nat): (r: Listed)
    requires ip < |prog|
    ensures r.UnknownOp? <==> EntryAt(t, Selected(prog[ip])).None?
    ensures r.Unmodelled? <==> EntryAt(t, Selected(prog[ip])).Some? && EntryAt(t, Selected(prog[ip])).value.Foreign?
    ensures r.ReadPast? ==> |prog| < ip + 5
    ensures r.Listed? ==> EntryAt(t, Selected(prog[ip])).Some? && EntryAt(t, Selected(prog[ip])).value.Known?
    ensures r.Listed? ==> var op := EntryAt(t, Selected(prog[ip])).value.op;
      r.shift == Width(op) && |r.line| > |Name(op)| + 1 && r.line[..|Name(op)| + 1] == Name(op) + " "
  {
    match EntryAt(t, Selected(prog[ip]))
    case None => UnknownOp
    case Some(Foreign(_)) => Unmodelled
    case Some(Known(op)) =>
      if HasOperand(op) && ip + 5 > |prog| then ReadPast
      else
        var arg := if HasOperand(op) then ReadInt32(prog, ip + 1) else 0;
        Listed(Line(op, prog[ip] % 4, arg), Width(op))
  }

  /** The byte that names a known command to this disassembler: the opcode
      in the upper six bits and the mode in the lower two. */
  function ShiftedByte(t: Table, op: LOp, mode: nat): (b: Byte)
    requires mode < 4 && |Source(t)| <= 32
    ensures Selected(b) == Code(t, op) && b % 4 == mode
  {
    (4 * Code(t, op) + mode) as Byte
  }

  /** The bytes of a command in the encoding this disassembler reads. */
  function ShiftedEncode(t: Table, op: LOp, mode: nat, arg: int): (bs: seq<Byte>)
    requires mode < 4 && |Source(t)| <= 32 && IsInt32(arg)
    ensures |bs| == Width(op)
  {
    [ShiftedByte(t, op, mode)] + if HasOperand(op) then Int32Bytes(arg) else []
  }

  /** A command in that encoding, anywhere in a file, is listed as its own
      line and moved past. */
  lemma ListShifted(t: Table, pre: seq<Byte>, op: LOp, mode: nat, arg: int, post: seq<Byte>)
    requires mode < 4 && |Source(t)| <= 32 && IsInt32(arg)
    ensures ListCommand(t, pre + ShiftedEncode(t, op, mode, arg) + post, |pre|)
      == Listed(Line(op, mode, if HasOperand(op) then arg else 0), Width(op))
  {
    var b := ShiftedByte(t, op, mode);
    var prog := pre + ShiftedEncode(t, op, mode, arg) + post;
    assert prog[|pre|] == b;
    EntryAtCode(t, op);
    if HasOperand(op) {
      assert prog == (pre + [b]) + Int32Bytes(arg) + post;
      ReadInt32Bytes(arg, pre + [b], post);
    }
  }

  /** What the assembler of this revision writes is read with the opcode
      divided by four and its low bits taken as the mode. */
  lemma ListAssembled(t: Table, pre: seq<Byte>, op: LOp, arg: int, post: seq<Byte>)
    requires ValidTable(t) && IsInt32(arg)
    ensures ListCommand(t, pre + Encode(t, op, arg) + post, |pre|)
      == ListCommand(t, pre + [(Code(t, op) / 4 * 4 + Code(t, op) % 4) as Byte] + Encode(t, op, arg)[1..] + post, |pre|)
    ensures Selected((pre + Encode(t, op, arg) + post)[|pre|]) == Code(t, op) / 4
  {
    var prog := pre + Encode(t, op, arg) + post;
    assert prog[|pre|] == Code(t, op);
    assert prog == pre + [(Code(t, op) / 4 * 4 + Code(t, op) % 4) as Byte] + Encode(t, op, arg)[1..] + post;
  }

  /** With no flow or console commands, `POP` (opcode 1) is read back as
      `PUSH` with mode 1, which wants an operand the one-byte command does
      not have. */
  lemma AssembledPopMisread()
    ensures ListCommand(Table([], []), Encode(Table([], []), POP, 0), 0) == ReadPast
  {
    var t := Table([], []);
    var prog := Encode(t, POP, 0);
    assert prog[0] == 1;
    assert Selected(prog[0]) == 0;
    assert EntryAt(t, 0) == Some(Known(PUSH));
  }

  /** The text written by the command loop and the last errno value
      written; or a read past the end of the file or a command that is not
      part of this model. */
  datatype Listing = Listing(text: string, err: int) | ListingUndefined | ListingUnmodelled

  /** `t` written before everything `r` writes. */
  function Then(t: string, r: Listing): Listing {
    match r
    case Listing(text, err) => Listing(t + text, err)
    case _ => r
  }

  /** The command loop from file offset `ip`: list the command there, stop
      on a zero shift, move on, and stop when the next offset is not inside
      the file. */
  function Sweep(t: Table, prog: seq<Byte>, ip: nat): (r: Listing)
    ensures r.Listing? && r.err != 0 ==> r.err == EIO
    decreases |prog| - ip
  {
    if ip >= |prog| then ListingUndefined
    else
      match ListCommand(t, prog, ip)
      case UnknownOp => Listing("", EIO)
      case ReadPast => ListingUndefined
      case Unmodelled => ListingUnmodelled
      case Listed(line, shift) =>
        if ip + shift < |prog| then Then(line, Sweep(t, prog, ip + shift))
        else Listing(line, 0)
  }

  /** A command of a program: opcode, addressing mode and operand. */
  datatype Command = Command(op: LOp, mode: nat, arg: int)

  /** Every command has a two-bit mode and an `int` operand. */
  predicate AllWellFormed(cs: seq<Command>) {
    forall k | 0 <= k < |cs| :: cs[k].mode < 4 && IsInt32(cs[k].arg)
  }

  /** The bytes of a program in the encoding this disassembler reads. */
  function Binary(t: Table, cs: seq<Command>): seq<Byte>
    requires AllWellFormed(cs) && |Source(t)| <= 32
  {
    if |cs| == 0 then []
    else ShiftedEncode(t, cs[0].op, cs[0].mode, cs[0].arg) + Binary(t, cs[1..])
  }

  /** The operand a command's line shows: commands without one show none. */
  function Shown(c: Command): int {
    if HasOperand(c.op) then c.arg else 0
  }

  /** The listing of a program: one line per command. */
  function Lines(cs: seq<Command>): string
    requires AllWellFormed(cs)
  {
    if |cs| == 0 then ""
    else Line(cs[0].op, cs[0].mode, Shown(cs[0])) + Lines(cs[1..])
  }

  /** Sweeping a non-empty program in that encoding, placed after a
      non-empty prefix, lists every command in order and leaves errno
      untouched. */
  lemma {:induction false} SweepBinary(t: Table, pre: seq<Byte>, cs: seq<Command>)
    requires |pre| > 0 && |cs| > 0 && |Source(t)| <= 32
    requires AllWellFormed(cs)
    ensures Sweep(t, pre + Binary(t, cs), |pre|) == Listing(Lines(cs), 0)
    decreases |cs|
  {
    var c := cs[0];
    var head := ShiftedEncode(t, c.op, c.mode, c.arg);
    var line := Line(c.op, c.mode, Shown(c));
    SweepFirst(t, pre, cs);
    assert Lines(cs) == line + Lines(cs[1..]);
    if |cs| > 1 {
      SweepBinary(t, pre + head, cs[1..]);
      assert Then(line, Listing(Lines(cs[1..]), 0)) == Listing(line + Lines(cs[1..]), 0);
    } else {
      assert Lines(cs[1..]) == "";
    }
  }

  /** The first command of a program in that encoding is listed as its own
      line, and the sweep goes on with the rest of the program. */
  lemma SweepFirst(t: Table, pre: seq<Byte>, cs: seq<Command>)
    requires |pre| > 0 && |cs| > 0 && |Source(t)| <= 32
    requires AllWellFormed(cs)
    ensures var head := ShiftedEncode(t, cs[0].op, cs[0].mode, cs[0].arg);
      var line := Line(cs[0].op, cs[0].mode, Shown(cs[0]));
      Sweep(t, pre + Binary(t, cs), |pre|)
      == if |cs| > 1 then Then(line, Sweep(t, (pre + head) + Binary(t, cs[1..]), |pre + head|))
         else Listing(line, 0)
  {
    var c := cs[0];
    var head := ShiftedEncode(t, c.op, c.mode, c.arg);
    var rest := Binary(t, cs[1..]);
    var prog := pre + Binary(t, cs);
    assert prog == pre + head + rest;
    ListShifted(t, pre, c.op, c.mode, c.arg, rest);
    assert prog == (pre + head) + rest;
    if |cs| == 1 {
      assert |prog| == |pre| + |head|;
    } else {
      assert |rest| > 0;
    }
  }

  /** The outcome of a run: refused by the header check, the text written
      and the final errno value, or an undefined or unmodelled run. */
  datatype Output = Refused | Wrote(text: string, err: int) | OutputUndefined | OutputUnmodelled

  /** `main` after the file is read: `read_header` writes the version
      comments when it accepts the header, and the command loop starts right
      after it. */
  function Disassemble(t: Table, f: Header.Format, file: seq<Byte>): (r: Output)
    requires Header.Valid(f)
    ensures r.Refused? <==> Header.ReadHeader(f, file).Rejected?
    ensures r.Wrote? ==> |r.text| > 0 && (r.err == 0 || r.err == EIO)
  {
    match Header.ReadHeader(f, file)
    case Rejected => Refused
    case Unreadable => OutputUndefined
    case Accepted(start) =>
      match Sweep(t, file, start)
      case ListingUndefined => OutputUndefined
      case ListingUnmodelled => OutputUnmodelled
      case Listing(text, err) => Wrote(Header.Banner(f, ReadInt32(file, 4)) + text, err)
  }

  /** A file in that encoding disassembles to the version comments and one
      line per command, and the run succeeds. */
  lemma DisassembleBinary(t: Table, f: Header.Format, cs: seq<Command>)
    requires Header.Valid(f) && |cs| > 0 && |Source(t)| <= 32
    requires AllWellFormed(cs)
    ensures Disassemble(t, f, Header.PutHeader(f) + Binary(t, cs)) == Wrote(Header.Banner(f, f.version) + Lines(cs), 0)
  {
    Header.ReadHeaderPutHeader(f, Binary(t, cs));
    Header.PutHeaderVersion(f, Binary(t, cs));
    SweepBinary(t, Header.PutHeader(f), cs);
  }
}
