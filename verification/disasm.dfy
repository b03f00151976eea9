/** The disassembler: it checks the header of a binary, writes two comment
    lines about the versions, and then lists the commands one line each, in
    the syntax the assembler reads, until a command reports a zero shift or
    the next command would lie outside the file. */
module Disasm {
  import opened CLib
  import opened CInt
  import opened CFormat
  import opened ProcCmd
  import opened ArgWorks
  import Header
  import FileProc

  /** What a command's disassembly script prints after its name: a jump
      prints its displacement as a number, `PUSH` and `MOVE` print their
      operand in the form it was written in, and the rest print nothing. */
  function OperandText(op: Op, mode: nat, arg: int): string
    requires mode < 4 && IsInt32(arg)
  {
    if IsJump(op) then FormatDec(arg)
    else if HasOperand(op) then Render(arg, mode)
    else ""
  }

  /** The text of the line listed for a command: its name and a blank, then
      the operand text. */
  function Text(op: Op, mode: nat, arg: int): string
    requires mode < 4 && IsInt32(arg)
  {
    Name(op) + " " + OperandText(op, mode, arg)
  }

  /** The line listed for a command, with its newline. */
  function Line(op: Op, mode: nat, arg: int): (l: string)
    requires mode < 4 && IsInt32(arg)
    ensures |l| > 0 && l[|l| - 1] == '\n'
  {
    Text(op, mode, arg) + "\n"
  }

  /** What listing the command at `ip` does: print a line and move on by
      `shift` bytes; stop on an unknown opcode (EIO, shift 0, nothing
      printed); or read an operand past the end of the file. */
  datatype Listed = Listed(line: string, shift: nat) | UnknownOp | ReadPast

  /** `execute_command` of the disassembler: the opcode selects a case by
      `*ptr >> 2` on a signed `char`, the mode is `*ptr & 3`, and a command
      with an operand reads the four bytes after the opcode byte. */
  function ListCommand(prog: seq<Byte>, ip: nat): (r: Listed)
    requires ip < |prog|
    ensures r.UnknownOp? <==> prog[ip] >= 4 * COUNT
    ensures r.ReadPast? <==> prog[ip] < 4 * COUNT && HasOperand(OpOfByte(prog[ip]).value) && |prog| < ip + 5
    ensures r.Listed? ==> r.shift == Width(OpOfByte(prog[ip]).value) && r.shift > 0
    ensures r.Listed? ==> |r.line| > 0 && r.line[|r.line| - 1] == '\n'
  {
    match OpOfByte(prog[ip])
    case None => UnknownOp
    case Some(op) =>
      if HasOperand(op) && ip + 5 > |prog| then ReadPast
      else
        var arg := if HasOperand(op) then ReadInt32(prog, ip + 1) else 0;
        Listed(Line(op, ModeOf(prog[ip]), arg), Width(op))
  }

  /** Listing an encoded command anywhere in a file prints exactly the line
      of that command and moves past it. */
  lemma ListEncode(pre: seq<Byte>, op: Op, mode: nat, arg: int, post: seq<Byte>)
    requires mode < 4 && IsInt32(arg)
    ensures ListCommand(pre + Encode(op, mode, arg) + post, |pre|) == Listed(Line(op, mode, arg), Width(op))
  {
    var prog := pre + Encode(op, mode, arg) + post;
    DecodeEncode(op, mode);
    assert prog[|pre|] == OpcodeByte(op, mode);
    if HasOperand(op) {
      assert prog == (pre + [OpcodeByte(op, mode)]) + Int32Bytes(arg) + post;
      ReadInt32Bytes(arg, pre + [OpcodeByte(op, mode)], post);
    }
  }

  /** The text written by the command loop and the last errno value written;
      or a read past the end of the file. */
  datatype Listing = Listing(text: string, err: int) | ListingUndefined

  /** `t` written before everything `r` writes. */
  function Then(t: string, r: Listing): Listing {
    match r
    case Listing(text, err) => Listing(t + text, err)
    case ListingUndefined => ListingUndefined
  }

  /** The command loop from file offset `ip`: list the command there, stop
      on a zero shift, move on, and stop when the next offset is not inside
      the file. The first command is read before any range check, so an
      offset at or past the end of the file reads past it. */
  function Sweep(prog: seq<Byte>, ip: nat): (r: Listing)
    ensures r.Listing? && r.err != 0 ==> r.err == EIO
    decreases |prog| - ip
  {
    if ip >= |prog| then ListingUndefined
    else
      match ListCommand(prog, ip)
      case UnknownOp => Listing("", EIO)
      case ReadPast => ListingUndefined
      case Listed(line, shift) =>
        // `pointer > content` holds, as the shift is positive
        if ip + shift < |prog| then Then(line, Sweep(prog, ip + shift))
        else Listing(line, 0)
  }

  /** A command of a program: opcode, addressing mode and operand. */
  datatype Command = Command(op: Op, mode: nat, arg: int)

  /** A command the assembler can emit: a two-bit mode and an `int`
      operand. */
  predicate WellFormed(c: Command) {
    c.mode < 4 && IsInt32(c.arg)
  }

  /** Every command of `cs` is well formed. */
  predicate AllWellFormed(cs: seq<Command>) {
    forall k | 0 <= k < |cs| :: WellFormed(cs[k])
  }

  /** The bytes of a program: the commands' encodings one after another. */
  function Binary(cs: seq<Command>): (bs: seq<Byte>)
    requires AllWellFormed(cs)
  {
    if |cs| == 0 then []
    else Encode(cs[0].op, cs[0].mode, cs[0].arg) + Binary(cs[1..])
  }

  /** The listing of a program: one line per command. */
  function Lines(cs: seq<Command>): (t: string)
    requires AllWellFormed(cs)
  {
    if |cs| == 0 then ""
    else Line(cs[0].op, cs[0].mode, cs[0].arg) + Lines(cs[1..])
  }

  /** The texts of the listed lines, without their newlines. */
  function Texts(cs: seq<Command>): (ts: seq<string>)
    requires AllWellFormed(cs)
    ensures |ts| == |cs|
    ensures forall k | 0 <= k < |cs| :: ts[k] == Text(cs[k].op, cs[k].mode, cs[k].arg)
  {
    if |cs| == 0 then [] else [Text(cs[0].op, cs[0].mode, cs[0].arg)] + Texts(cs[1..])
  }

  /** The listing of a non-empty program is its texts joined by newlines,
      with a newline at the end. */
  lemma {:induction false} LinesJoin(cs: seq<Command>)
    requires AllWellFormed(cs) && |cs| > 0
    ensures Lines(cs) == FileProc.Join(Texts(cs)) + "\n"
    decreases |cs|
  {
    var t := Text(cs[0].op, cs[0].mode, cs[0].arg);
    assert Lines(cs) == t + "\n" + Lines(cs[1..]);
    assert Texts(cs) == [t] + Texts(cs[1..]);
    if |cs| > 1 {
      LinesJoin(cs[1..]);
      FileProc.JoinCons(t, Lines(cs[1..]), Texts(cs[1..]));
    }
  }

  /** Sweeping a non-empty program placed after a non-empty prefix lists
      every command, one line each in order, and ends with errno untouched:
      the last command moves the offset to the end of the file. */
  lemma {:induction false} SweepBinary(pre: seq<Byte>, cs: seq<Command>)
    requires |pre| > 0 && |cs| > 0
    requires AllWellFormed(cs)
    ensures Sweep(pre + Binary(cs), |pre|) == Listing(Lines(cs), 0)
    decreases |cs|
  {
    var c := cs[0];
    var head := Encode(c.op, c.mode, c.arg);
    var prog := pre + Binary(cs);
    assert prog == pre + head + Binary(cs[1..]);
    ListEncode(pre, c.op, c.mode, c.arg, Binary(cs[1..]));
    if |cs| > 1 {
      assert prog == (pre + head) + Binary(cs[1..]);
      SweepBinary(pre + head, cs[1..]);
    }
  }

  /** The outcome of a disassembler run: refused by the header check (exit
      failure with EIO), or the text written and the final errno value (the
      exit status fails exactly when it is non-zero); or a read past the end
      of the file. */
  datatype Output = Refused | Wrote(text: string, err: int) | OutputUndefined

  /** The disassembler's `main` after the file is read: `read_header`
      writes the version comments when it accepts the header, and the command
      loop starts right after the header. */
  function Disassemble(f: Header.Format, file: seq<Byte>): (r: Output)
    requires Header.Valid(f)
    ensures r.Refused? <==> Header.ReadHeader(f, file).Rejected?
    ensures r.Wrote? ==> |r.text| > 0 && (r.err == 0 || r.err == EIO)
  {
    match Header.ReadHeader(f, file)
    case Rejected => Refused
    case Unreadable => OutputUndefined
    case Accepted(start) =>
      match Sweep(file, start)
      case ListingUndefined => OutputUndefined
      case Listing(text, err) => Wrote(Header.Banner(f, ReadInt32(file, 4)) + text, err)
  }

  /** The lines of the version comments: the file's version, the
      disassembler's, and an empty line. */
  function BannerLines(f: Header.Format, fileVersion: int): seq<string> {
    ["# Binary file version: " + FormatDec(fileVersion), "# Disassembler version: " + FormatDec(f.version), ""]
  }

  /** The version comments are their lines joined by newlines, with a
      newline at the end. */
  lemma BannerJoin(f: Header.Format, fileVersion: int)
    ensures Header.Banner(f, fileVersion) == FileProc.Join(BannerLines(f, fileVersion)) + "\n"
  {
    var b := BannerLines(f, fileVersion);
    FileProc.JoinThree(b[0], b[1], b[2]);
  }

  /** The disassembler's whole output for a non-empty program: the version
      comments and the command texts, joined by newlines, ending in a
      newline. */
  lemma ListingJoin(f: Header.Format, fileVersion: int, cs: seq<Command>)
    requires AllWellFormed(cs) && |cs| > 0
    ensures Header.Banner(f, fileVersion) + Lines(cs)
      == FileProc.Join(BannerLines(f, fileVersion) + Texts(cs) + [""])
  {
    BannerJoin(f, fileVersion);
    LinesJoin(cs);
    FileProc.JoinTexts(Header.Banner(f, fileVersion), BannerLines(f, fileVersion), Lines(cs), Texts(cs));
  }

  /** What the assembler writes for a non-empty program disassembles to the
      version comments followed by one line per command, and the run
      succeeds. */
  lemma DisassembleBinary(f: Header.Format, cs: seq<Command>)
    requires Header.Valid(f) && |cs| > 0
    requires AllWellFormed(cs)
    ensures Disassemble(f, Header.PutHeader(f) + Binary(cs)) == Wrote(Header.Banner(f, f.version) + Lines(cs), 0)
  {
    Header.ReadHeaderPutHeader(f, Binary(cs));
    Header.PutHeaderVersion(f, Binary(cs));
    SweepBinary(Header.PutHeader(f), cs);
  }
}
