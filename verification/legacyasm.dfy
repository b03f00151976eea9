/** The assembler of the earlier revision. A line is a comment only when its
    very first character is `#`; a known command becomes its plain opcode
    byte and, for PUSH, MOVE, RGET and RSET, a 4-byte operand. No command
    defined here reads the label table, so the bytes of a line depend on the
    line alone. The source is assembled twice, the second time over the
    same output file rewound to the start, and the run always exits
    successfully. */
module LegacyAsm {
  import opened CLib
  import opened CInt
  import opened CFormat
  import opened ArgWorks
  import opened LegacyCmd
  import ProcCmd
  import Labels
  import Header
  import Assembler
  import LegacyMachine

  /** How `process_line` reads a line. */
  datatype Kind =
    | Blank                       // empty, or starting with `#`
    | Bind(name: string)          // `HERE name`
    | Instr(code: nat, at: nat)   // the command with opcode `code`; its operand text starts at `at`
    | Unknown                     // a first word that names no command

  /** `process_line`'s reading of a line: `sscanf("%c")` takes the very
      first character, so only a line starting with `#` is a comment. The
      hash of the first word is compared with the label keyword's, then with
      each command's in opcode order. */
  function Classify(h: string -> int, t: Table, line: string): (k: Kind)
    ensures k.Blank? <==> !Has(line, 0) || line[0] == ProcCmd.COMMENT_CHAR
    ensures k.Bind? ==> h(Assembler.WordAt(line, 0).0) == h(ProcCmd.LABEL_KEYWORD)
    ensures k.Instr? ==> k.at <= |line| && k.code < |Source(t)|
    ensures k.Instr? ==> h(Source(t)[k.code]) == h(Assembler.WordAt(line, 0).0)
  {
    if !Has(line, 0) || line[0] == ProcCmd.COMMENT_CHAR then Blank
    else
      var (word, shift) := Assembler.WordAt(line, 0);
      if h(word) == h(ProcCmd.LABEL_KEYWORD) then Bind(Assembler.WordAt(line, shift).0)
      else match Lookup(h, t, word)
        case None => Unknown
        case Some(c) => Instr(c, shift)
  }

  /** On a line that does not start with a blank, the two revisions agree
      on whether it is a comment; they differ only on indented comments. */
  lemma CommentAgrees(h: string -> int, t: Table, line: string)
    requires !Has(line, 0) || !IsSpace(line[0])
    ensures Classify(h, t, line).Blank? == Assembler.Classify(h, line).Blank?
  {
    if Has(line, 0) {
      assert SkipSpace(line, 0) == 0;
    }
  }

  /** An indented comment is not a comment here: its first word is looked
      up like any other. */
  lemma IndentedComment(h: string -> int, t: Table, rest: string)
    ensures !Classify(h, t, " #" + rest).Blank?
    ensures Assembler.Classify(h, " #" + rest).Blank?
  {
    var line := " #" + rest;
    assert Has(line, 0) && IsSpace(line[0]);
    assert Has(line, 1) && !IsSpace(line[1]);
    assert SkipSpace(line, 1) == 1;
    assert SkipSpace(line, 0) == 1;
  }

  /** The operand a known command's parse script writes: `read_pparg` for
      PUSH and MOVE, `sscanf("%d")` for RGET and RSET (0 when no number is
      there), nothing for the rest. */
  function Operand(op: LOp, line: string, at: nat): (v: int)
    requires at <= |line|
    ensures IsInt32(v)
  {
    if op in {PUSH, MOVE} then
      ReadPPArgRanged(line[at..]);
      ReadPPArg(line[at..]).value
    else if op in {RGET, RSET} then
      match ReadDec(line, at)
      case Some((v, _)) => v
      case None => 0
    else 0
  }

  /** `read_pparg` always yields an `int`. */
  lemma ReadPPArgRanged(s: string)
    ensures IsInt32(ReadPPArg(s).value)
  {
    var a := ReadPPArg(s);
    assert Ranged(a);
  }

  /** The bytes a line assembles to: nothing for blank, label and unknown
      lines, the encoded command for a known command; `None` for a command
      whose definition is not part of this model. */
  function LineBytes(h: string -> int, t: Table, line: string): (r: Option<seq<Byte>>)
    requires ValidTable(t)
  {
    match Classify(h, t, line)
    case Instr(c, at) =>
      (match EntryAt(t, c).value
       case Foreign(_) => None
       case Known(op) => Some(Encode(t, op, Operand(op, line, at))))
    case _ => Some([])
  }

  /** What a line does to the label table when the output file is at
      offset `at`: `HERE` binds the label to that offset. */
  function LineEvent(h: string -> int, t: Table, at: nat, line: string): Labels.Event {
    match Classify(h, t, line)
    case Bind(name) => Labels.Define(h(name), at)
    case _ => Labels.Quiet
  }

  /** `process_line` with the output file at offset `hdr + size`; `None`
      for a command whose definition is not part of this model. */
  function ProcessLine(h: string -> int, t: Table, hdr: nat, labels: Labels.LabelSet, size: nat, line: string): (r: Option<Assembler.Emitted>)
    requires ValidTable(t)
    ensures r.None? <==> LineBytes(h, t, line).None?
    ensures r.Some? ==> r.value.bytes == LineBytes(h, t, line).value
    ensures r.Some? ==> r.value.labels == Labels.Apply(labels, LineEvent(h, t, hdr + size, line))
    ensures r.Some? && r.value.err != 0 ==>
      r.value.err == ENOMEM && Classify(h, t, line).Bind? && |labels.labels| >= labels.maxSize
  {
    match Classify(h, t, line)
    case Blank => Some(Assembler.Emitted(labels, [], 0))
    case Unknown => Some(Assembler.Emitted(labels, [], 0))
    case Bind(name) =>
      var a := Labels.AddLabel(labels, h(name), hdr + size);
      Some(Assembler.Emitted(a.table, [], a.err))
    case Instr(c, at) =>
      match EntryAt(t, c).value
      case Foreign(_) => None
      case Known(op) => Some(Assembler.Emitted(labels, Encode(t, op, Operand(op, line, at)), 0))
  }

  /** A known command's line assembles to its plain opcode byte followed by
      the operand, whatever the table and the offset. */
  lemma KnownLine(h: string -> int, t: Table, line: string, op: LOp)
    requires ValidTable(t)
    requires Classify(h, t, line).Instr? && EntryAt(t, Classify(h, t, line).code) == Some(Known(op))
    ensures LineBytes(h, t, line).Some?
    ensures var bs := LineBytes(h, t, line).value;
      |bs| == Width(op) && bs[0] == Code(t, op)
      && (HasOperand(op) ==> ReadInt32(bs, 1) == Operand(op, line, Classify(h, t, line).at))
  {
    var at := Classify(h, t, line).at;
    var v := Operand(op, line, at);
    if HasOperand(op) {
      var none: seq<Byte> := [];
      assert Encode(t, op, v) == [Code(t, op) as Byte] + Int32Bytes(v) + none;
      ReadInt32Bytes(v, [Code(t, op) as Byte], none);
    }
  }

  /** State after some lines: the table, the bytes so far and the last
      error written; `None` once a line names a command whose definition is
      not part of this model. */
  function Pass(h: string -> int, t: Table, hdr: nat, labels: Labels.LabelSet, lines: seq<string>, n: nat): (r: Option<Assembler.PassState>)
    requires ValidTable(t) && n <= |lines|
    decreases n
  {
    if n == 0 then Some(Assembler.PassState(labels, [], 0))
    else
      match Pass(h, t, hdr, labels, lines, n - 1)
      case None => None
      case Some(p) =>
        match ProcessLine(h, t, hdr, p.labels, |p.bytes|, lines[n - 1])
        case None => None
        case Some(e) => Some(Assembler.PassState(e.labels, p.bytes + e.bytes, if e.err != 0 then e.err else p.err))
  }

  /** The bytes of the first `n` lines, one line after another. */
  function Bytes(h: string -> int, t: Table, lines: seq<string>, n: nat): (r: Option<seq<Byte>>)
    requires ValidTable(t) && n <= |lines|
  {
    if n == 0 then Some([])
    else
      match Bytes(h, t, lines, n - 1)
      case None => None
      case Some(b) =>
        match LineBytes(h, t, lines[n - 1])
        case None => None
        case Some(l) => Some(b + l)
  }

  /** A pass emits the lines' bytes one after another, whatever table it
      starts from. */
  lemma {:induction false} PassBytes(h: string -> int, t: Table, hdr: nat, labels: Labels.LabelSet, lines: seq<string>, n: nat)
    requires ValidTable(t) && n <= |lines|
    ensures Pass(h, t, hdr, labels, lines, n).Some? <==> Bytes(h, t, lines, n).Some?
    ensures Pass(h, t, hdr, labels, lines, n).Some? ==>
      Pass(h, t, hdr, labels, lines, n).value.bytes == Bytes(h, t, lines, n).value
    decreases n
  {
    if n > 0 {
      PassBytes(h, t, hdr, labels, lines, n - 1);
      var p := Pass(h, t, hdr, labels, lines, n - 1);
      if p.Some? {
        var e := ProcessLine(h, t, hdr, p.value.labels, |p.value.bytes|, lines[n - 1]);
        assert e.None? <==> LineBytes(h, t, lines[n - 1]).None?;
      }
    }
  }

  /** The file after writing `update` from its start over `prior`: bytes past
      the end of `update` stay as they were. */
  function Overwrite(prior: seq<Byte>, update: seq<Byte>): (r: seq<Byte>)
    ensures |r| == if |update| <= |prior| then |prior| else |update|
    ensures r[..|update|] == update
  {
    if |update| <= |prior| then update + prior[|update|..] else update
  }

  /** `main`: the header and a first pass over an empty table of
      `maxLabels` entries, then the file rewound, the header rewritten and a
      second pass over the table the first one left. The exit status is
      always success, whatever errno the passes left. */
  function Assemble(h: string -> int, t: Table, f: Header.Format, maxLabels: nat, lines: seq<string>): (r: Option<seq<Byte>>)
    requires ValidTable(t) && Header.Valid(f)
  {
    match Pass(h, t, f.headerSize, Labels.Empty(maxLabels), lines, |lines|)
    case None => None
    case Some(first) =>
      match Pass(h, t, f.headerSize, first.labels, lines, |lines|)
      case None => None
      case Some(second) => Some(Overwrite(Header.PutHeader(f) + first.bytes, Header.PutHeader(f) + second.bytes))
  }

  /** Both passes write the same bytes, so the output is the header
      followed by the lines' bytes, and the label table plays no part in
      it. */
  lemma AssembleBytes(h: string -> int, t: Table, f: Header.Format, maxLabels: nat, lines: seq<string>)
    requires ValidTable(t) && Header.Valid(f)
    ensures Assemble(h, t, f, maxLabels, lines).Some? <==> Bytes(h, t, lines, |lines|).Some?
    ensures Assemble(h, t, f, maxLabels, lines).Some? ==>
      Assemble(h, t, f, maxLabels, lines).value == Header.PutHeader(f) + Bytes(h, t, lines, |lines|).value
  {
    var empty := Labels.Empty(maxLabels);
    PassBytes(h, t, f.headerSize, empty, lines, |lines|);
    var first := Pass(h, t, f.headerSize, empty, lines, |lines|);
    if first.Some? {
      PassBytes(h, t, f.headerSize, first.value.labels, lines, |lines|);
      var w := Header.PutHeader(f) + first.value.bytes;
      assert w[|w|..] == [];
    }
  }

  /** A known command's line, wherever it sits in the output, executes on
      the earlier processor as that command with the operand the line
      spells, but with the addressing mode the low bits of its opcode give:
      the mode written in the source is not kept. */
  lemma LineExecutes(h: string -> int, t: Table, line: string, op: LOp, pre: seq<Byte>, post: seq<Byte>, m: LegacyMachine.State)
    requires ValidTable(t)
    requires Classify(h, t, line).Instr? && EntryAt(t, Classify(h, t, line).code) == Some(Known(op))
    ensures LineBytes(h, t, line).Some?
    ensures LegacyMachine.Exec(t, pre + LineBytes(h, t, line).value + post, |pre|, m)
      == LegacyMachine.Dispatch(op, Code(t, op) % 4,
           if HasOperand(op) then Operand(op, line, Classify(h, t, line).at) else 0, m)
  {
    var at := Classify(h, t, line).at;
    LegacyMachine.ExecEncode(t, pre, op, Operand(op, line, at), post, m);
  }
}
