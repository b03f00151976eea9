/** The disassembler's output read back by the assembler: a listed command
    assembles to the bytes it was listed from, when its text can say them. */
module Reassembly {
  import opened CLib
  import opened CInt
  import opened CFormat
  import opened ProcCmd
  import opened ArgWorks
  import Labels
  import Assembler
  import Disasm
  import FileProc
  import Header

  /** A word of capital letters followed by a blank is read as the first
      word of the text, and the text does not start with a blank. */
  lemma WordBeforeBlank(w: string, rest: string)
    requires |w| > 0 && forall k | 0 <= k < |w| :: 'A' <= w[k] <= 'Z'
    ensures var line := w + " " + rest;
      Has(line, 0) && SkipSpace(line, 0) == 0 && ReadWord(line, 0) == Some((w, |w|))
  {
    var line := w + " " + rest;
    assert forall k | 0 <= k < |w| :: line[k] == w[k];
    WordEndAt(line, 0, |w|);
    assert line[0..|w|] == w;
  }

  /** A listed line starts with the command's name, which is the first word
      the assembler reads, and it is not a comment. */
  lemma ListedWord(op: Op, mode: nat, arg: int)
    requires mode < 4 && IsInt32(arg)
    ensures var line := Disasm.Text(op, mode, arg);
      Has(line, 0) && Assembler.FirstChar(line) != COMMENT_CHAR
      && Assembler.WordAt(line, 0) == (Name(op), |Name(op)|)
  {
    NameLetters(op);
    WordBeforeBlank(Name(op), Disasm.OperandText(op, mode, arg));
  }

  /** The assembler takes a listed line for the command it lists, with the
      operand text right after the name, when no two commands share a hash
      and the command's hash is not the label keyword's. */
  lemma ClassifyListed(h: string -> int, op: Op, mode: nat, arg: int)
    requires mode < 4 && IsInt32(arg)
    requires Distinct(Hashes(h)) && h(Name(op)) != h(LABEL_KEYWORD)
    ensures Assembler.Classify(h, Disasm.Text(op, mode, arg)) == Assembler.Instr(op, |Name(op)|)
  {
    ListedWord(op, mode, arg);
    LookupName(h, op);
  }

  /** The number listed for a jump reads back as that number, when it is not
      zero. */
  lemma JumpNumberListed(op: Op, arg: int)
    requires IsJump(op) && IsInt32(arg) && arg != 0
    ensures Assembler.JumpNumber(Disasm.Text(op, 0, arg), |Name(op)|) == Some(arg)
  {
    var line := Disasm.Text(op, 0, arg);
    assert line == Name(op) + " " + FormatDec(arg);
    ReadDecAfterBlank(Name(op), FormatDec(arg), arg);
  }

  /** A number printed after a word and a blank reads back from the end of
      the word. */
  lemma ReadDecAfterBlank(w: string, d: string, v: int)
    requires IsInt32(v) && d == FormatDec(v)
    ensures ReadDec(w + " " + d, |w|) == Some((v, |w| + 1 + |d|))
  {
    var line := w + " " + d;
    var n := |w|;
    assert line[n + 1..n + 1 + |d|] == d;
    assert SkipSpace(line, n) == SkipSpace(line, n + 1);
    ReadDecOfFormat(line, n + 1, v);
  }

  /** The operand listed for `PUSH` or `MOVE` reads back as the same value
      and mode, for registers `A`..`Z`. */
  lemma OperandListed(op: Op, mode: nat, arg: int)
    requires op in {PUSH, MOVE} && mode < 4 && IsInt32(arg)
    requires mode == USE_REGISTER ==> 0 <= arg < 26
    requires mode == USE_MEMORY + USE_REGISTER ==> RegId(arg) < 26
    ensures var line := Disasm.Text(op, mode, arg);
      |Name(op)| <= |line| && ReadPPArg(line[|Name(op)|..]) == PPArgument(arg, mode)
  {
    var line := Disasm.Text(op, mode, arg);
    assert line[|Name(op)|..] == " " + Render(arg, mode);
    ReadPPArgLeadingBlank(Render(arg, mode));
    ReadPPArgOfRender(arg, mode);
  }

  /** A command whose listed line says everything its bytes hold: a jump
      with no mode bits and a non-zero displacement (a listed 0 reads back
      as a label name), a command without an operand with no mode bits, and
      register operands naming `A`..`Z`; and a hash under which the names
      are told apart. */
  predicate Listable(h: string -> int, c: Disasm.Command) {
    && Disasm.WellFormed(c)
    && Distinct(Hashes(h)) && h(Name(c.op)) != h(LABEL_KEYWORD)
    && (IsJump(c.op) ==> c.mode == 0 && c.arg != 0)
    && (!HasOperand(c.op) ==> c.mode == 0)
    && (c.mode == USE_REGISTER ==> 0 <= c.arg < 26)
    && (c.mode == USE_MEMORY + USE_REGISTER ==> RegId(c.arg) < 26)
  }

  /** Assembling the line the disassembler lists for a command gives back
      the command's bytes, leaves the label table alone and reports no
      error, wherever the line stands in the program. */
  lemma ReassembleLine(h: string -> int, hdr: nat, labels: Labels.LabelSet, size: nat, c: Disasm.Command)
    requires Listable(h, c)
    ensures Assembler.ProcessLine(h, hdr, labels, size, Disasm.Text(c.op, c.mode, c.arg))
      == Assembler.Emitted(labels, Encode(c.op, c.mode, c.arg), 0)
  {
    ClassifyListed(h, c.op, c.mode, c.arg);
    if IsJump(c.op) {
      JumpNumberListed(c.op, c.arg);
    } else if HasOperand(c.op) {
      OperandListed(c.op, c.mode, c.arg);
    }
  }

  // ---------------------------------------------------------------------
  // A whole listing read back.

  /** Every command of `cs` can be listed and read back under `h`. */
  predicate AllListable(h: string -> int, cs: seq<Disasm.Command>) {
    forall k | 0 <= k < |cs| :: Listable(h, cs[k])
  }

  /** The bytes of each command of a program. */
  function Encodings(cs: seq<Disasm.Command>): (bs: seq<seq<Byte>>)
    requires Disasm.AllWellFormed(cs)
    ensures |bs| == |cs|
    ensures forall k | 0 <= k < |cs| :: bs[k] == Encode(cs[k].op, cs[k].mode, cs[k].arg)
  {
    if |cs| == 0 then [] else [Encode(cs[0].op, cs[0].mode, cs[0].arg)] + Encodings(cs[1..])
  }

  /** The encodings one after another are the program's bytes. */
  lemma {:induction false} FlatEncodings(cs: seq<Disasm.Command>)
    requires Disasm.AllWellFormed(cs)
    ensures Assembler.Flat(Encodings(cs)) == Disasm.Binary(cs)
    decreases |cs|
  {
    if |cs| > 0 {
      var e := Encode(cs[0].op, cs[0].mode, cs[0].arg);
      assert Encodings(cs) == [e] + Encodings(cs[1..]);
      Assembler.FlatAppend([e], Encodings(cs[1..]));
      var none: seq<seq<Byte>> := [];
      assert Assembler.Flat([e]) == e by {
        assert [e][..0] == none;
      }
      FlatEncodings(cs[1..]);
    }
  }

  /** A comment line assembles to nothing. */
  lemma CommentInert(h: string -> int, hdr: nat, line: string)
    requires |line| > 0 && line[0] == COMMENT_CHAR
    ensures Assembler.Inert(h, hdr, line, [])
  {
    assert SkipSpace(line, 0) == 0;
    assert Assembler.Classify(h, line).Blank?;
  }

  /** An empty line assembles to nothing. */
  lemma EmptyInert(h: string -> int, hdr: nat)
    ensures Assembler.Inert(h, hdr, "", [])
  {
    assert Assembler.Classify(h, "").Blank?;
  }

  /** A listed line assembles to its command's bytes under every table and
      at every offset. */
  lemma ListedInert(h: string -> int, hdr: nat, c: Disasm.Command)
    requires Listable(h, c)
    ensures Assembler.Inert(h, hdr, Disasm.Text(c.op, c.mode, c.arg), Encode(c.op, c.mode, c.arg))
  {
    forall labels: Labels.LabelSet, size: nat
      ensures Assembler.ProcessLine(h, hdr, labels, size, Disasm.Text(c.op, c.mode, c.arg))
        == Assembler.Emitted(labels, Encode(c.op, c.mode, c.arg), 0)
    {
      ReassembleLine(h, hdr, labels, size, c);
    }
  }

  /** `printf("%d", v)` writes no newline. */
  lemma FormatDecPlain(v: int)
    ensures FileProc.NoNewline(FormatDec(v))
  {
    var ds := if v < 0 then NatDigits(-v) else NatDigits(v);
    assert forall k | 0 <= k < |ds| :: IsDigit(ds[k]);
  }

  /** The register letter of a listed register operand is a capital
      letter. */
  lemma RegisterLetter(v: int)
    requires 0 <= v < 26
    ensures 'A' <= CharOfValue(v + 'A' as int) <= 'Z'
  {
  }

  /** The operand text of a listable command holds no newline. */
  lemma OperandPlain(h: string -> int, c: Disasm.Command)
    requires Listable(h, c)
    ensures FileProc.NoNewline(Disasm.OperandText(c.op, c.mode, c.arg))
  {
    if IsJump(c.op) {
      FormatDecPlain(c.arg);
    } else if HasOperand(c.op) {
      if c.mode == 0 {
        FormatDecPlain(c.arg);
        CharValueOfValue(10);
      } else if c.mode == USE_MEMORY {
        FormatDecPlain(c.arg);
      } else if c.mode == USE_REGISTER {
        RegisterLetter(c.arg);
      } else {
        RegisterLetter(RegId(c.arg));
        FormatDecPlain(RegOffset(c.arg));
      }
    }
  }

  /** The line listed for a listable command holds no newline. */
  lemma TextPlain(h: string -> int, c: Disasm.Command)
    requires Listable(h, c)
    ensures FileProc.NoNewline(Disasm.Text(c.op, c.mode, c.arg))
  {
    NameLetters(c.op);
    OperandPlain(h, c);
  }

  /** The version comments hold no newline. */
  lemma BannerPlain(f: Header.Format, v: int)
    ensures forall k | 0 <= k < 3 :: FileProc.NoNewline(Disasm.BannerLines(f, v)[k])
  {
    FormatDecPlain(v);
    FormatDecPlain(f.version);
  }

  /** The listed lines of a listable program hold no newline. */
  lemma TextsPlain(h: string -> int, cs: seq<Disasm.Command>)
    requires AllListable(h, cs)
    ensures forall k | 0 <= k < |cs| :: FileProc.NoNewline(Disasm.Texts(cs)[k])
  {
    forall k | 0 <= k < |cs|
      ensures FileProc.NoNewline(Disasm.Texts(cs)[k])
    {
      TextPlain(h, cs[k]);
    }
  }

  /** The assembler's lines of the disassembler's output for a non-empty
      listable program: the version comments, an empty line, one line per
      command, and the empty line after the last newline. */
  lemma SplitListing(h: string -> int, f: Header.Format, v: int, cs: seq<Disasm.Command>)
    requires |cs| > 0 && AllListable(h, cs)
    ensures FileProc.Split(Header.Banner(f, v) + Disasm.Lines(cs))
      == Disasm.BannerLines(f, v) + Disasm.Texts(cs) + [""]
  {
    Disasm.ListingJoin(f, v, cs);
    BannerPlain(f, v);
    TextsPlain(h, cs);
    FileProc.SplitJoinTwo(Header.Banner(f, v) + Disasm.Lines(cs), Disasm.BannerLines(f, v), Disasm.Texts(cs));
  }

  /** What each line of a listing assembles to: nothing for the comments
      and the empty lines, the command's bytes for a command's line. */
  function ListingOuts(cs: seq<Disasm.Command>): (outs: seq<seq<Byte>>)
    requires Disasm.AllWellFormed(cs)
  {
    [[], [], []] + Encodings(cs) + [[]]
  }

  /** Three lines that assemble to nothing, then lines that each assemble
      to fixed bytes, then an empty line: each line assembles to its entry
      of the outputs. */
  lemma InertLines(h: string -> int, hdr: nat, pre: seq<string>, texts: seq<string>, encs: seq<seq<Byte>>)
    requires |pre| == 3 && forall k | 0 <= k < 3 :: Assembler.Inert(h, hdr, pre[k], [])
    requires |texts| == |encs| && forall k | 0 <= k < |texts| :: Assembler.Inert(h, hdr, texts[k], encs[k])
    ensures var ls, outs := pre + texts + [""], [[], [], []] + encs + [[]];
      |ls| == |outs| && forall k | 0 <= k < |ls| :: Assembler.Inert(h, hdr, ls[k], outs[k])
  {
    var ls, outs := pre + texts + [""], [[], [], []] + encs + [[]];
    forall k | 0 <= k < |ls|
      ensures Assembler.Inert(h, hdr, ls[k], outs[k])
    {
      if k == |ls| - 1 {
        EmptyInert(h, hdr);
      } else if k >= 3 {
        assert ls[k] == texts[k - 3] && outs[k] == encs[k - 3];
      }
    }
  }

  /** Every line of a listing assembles to fixed bytes. */
  lemma ListingInert(h: string -> int, hdr: nat, f: Header.Format, v: int, cs: seq<Disasm.Command>)
    requires AllListable(h, cs)
    ensures var ls := Disasm.BannerLines(f, v) + Disasm.Texts(cs) + [""];
      |ls| == |ListingOuts(cs)| && forall k | 0 <= k < |ls| :: Assembler.Inert(h, hdr, ls[k], ListingOuts(cs)[k])
  {
    var pre := Disasm.BannerLines(f, v);
    CommentInert(h, hdr, pre[0]);
    CommentInert(h, hdr, pre[1]);
    EmptyInert(h, hdr);
    var texts, encs := Disasm.Texts(cs), Encodings(cs);
    forall k | 0 <= k < |texts|
      ensures Assembler.Inert(h, hdr, texts[k], encs[k])
    {
      ListedInert(h, hdr, cs[k]);
    }
    InertLines(h, hdr, pre, texts, encs);
  }

  /** What a listing assembles to, one line after another, is the
      program's bytes. */
  lemma FlatListingOuts(cs: seq<Disasm.Command>)
    requires Disasm.AllWellFormed(cs)
    ensures Assembler.Flat(ListingOuts(cs)) == Disasm.Binary(cs)
  {
    var none: seq<seq<Byte>> := [];
    var blank: seq<Byte> := [];
    Assembler.FlatAppend([blank, blank, blank] + Encodings(cs), [blank]);
    Assembler.FlatAppend([blank, blank, blank], Encodings(cs));
    assert Assembler.Flat([blank]) == blank by {
      assert [blank][..0] == none;
    }
    assert Assembler.Flat([blank, blank, blank]) == blank by {
      assert [blank, blank, blank][..2] == [blank, blank];
      assert [blank, blank][..1] == [blank];
      assert [blank][..0] == none;
    }
    FlatEncodings(cs);
  }

  /** The disassembler's output for a non-empty program of listable
      commands, assembled again, gives back the very file it was listed
      from, and the assembler succeeds. */
  lemma Reassemble(h: string -> int, f: Header.Format, cap: nat, cs: seq<Disasm.Command>)
    requires Header.Valid(f) && |cs| > 0 && AllListable(h, cs)
    ensures var file := Header.PutHeader(f) + Disasm.Binary(cs);
      && Disasm.Disassemble(f, file).Wrote?
      && Assembler.Assemble(h, f, cap, FileProc.Split(Disasm.Disassemble(f, file).text)) == Assembler.Output(file, true)
  {
    Disasm.DisassembleBinary(f, cs);
    SplitListing(h, f, f.version, cs);
    ListingInert(h, f.headerSize, f, f.version, cs);
    Assembler.AssembleInert(h, f, cap, Disasm.BannerLines(f, f.version) + Disasm.Texts(cs) + [""], ListingOuts(cs));
    FlatListingOuts(cs);
  }
}
