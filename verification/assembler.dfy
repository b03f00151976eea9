/** The assembler of the current instruction set: each source line is a
    comment, a label binding (`HERE name`), an instruction or an unknown
    word; instructions become an opcode byte and, for jumps, `PUSH` and
    `MOVE`, a 4-byte operand. The whole source is assembled twice over the
    same label table, so that jumps to labels bound further down resolve in
    the second pass; the output is the header followed by the second pass's
    bytes. */
module Assembler {
  import opened CLib
  import opened CInt
  import opened CFormat
  import opened ProcCmd
  import opened ArgWorks
  import Labels
  import Header

  /** How `process_line` reads a line. */
  datatype Kind =
    | Blank                       // empty, or a comment
    | Bind(name: string)          // `HERE name`
    | Instr(op: Op, at: nat)      // a command; its operand text starts at `at`
    | Unknown                     // a first word that names no command

  /** The word a `%s` conversion stores at `i`, or the empty string when it
      fails (the buffers start out empty), with where reading stopped. */
  function WordAt(line: string, i: nat): (r: (string, nat))
    ensures r.1 <= |line| || r.1 == i
  {
    match ReadWord(line, i)
    case None => ("", i)
    case Some(w) => w
  }

  /** The character `sscanf(line, " %c", ...)` stores: the first one that is
      not blank, or NUL when there is none. */
  function FirstChar(line: string): char {
    var p := SkipSpace(line, 0);
    if Has(line, p) then line[p] else '\0'
  }

  /** `process_line`'s reading of a line: a line that is empty or whose
      first non-blank character is `#` is skipped; otherwise the hash of its
      first word is compared with the label keyword's, then with each
      command's in opcode order. */
  function Classify(h: string -> int, line: string): (k: Kind)
    ensures k.Instr? ==> k.at <= |line| && h(Name(k.op)) == h(WordAt(line, 0).0)
    ensures k.Bind? ==> h(WordAt(line, 0).0) == h(LABEL_KEYWORD)
    ensures k.Blank? <==> !Has(line, 0) || FirstChar(line) == COMMENT_CHAR
  {
    if !Has(line, 0) || FirstChar(line) == COMMENT_CHAR then Blank
    else
      var (word, shift) := WordAt(line, 0);
      if h(word) == h(LABEL_KEYWORD) then Bind(WordAt(line, shift).0)
      else match Lookup(h, word)
        case None => Unknown
        case Some(op) => Instr(op, shift)
  }

  /** The number of bytes a line assembles to. */
  function LineWidth(h: string -> int, line: string): nat {
    match Classify(h, line)
    case Instr(op, _) => Width(op)
    case _ => 0
  }

  /** A jump operand: a non-zero decimal number is taken as the displacement
      itself; otherwise the next word names a label. */
  function JumpNumber(line: string, at: nat): Option<int> {
    match ReadDec(line, at)
    case Some((v, _)) => if v != 0 then Some(v) else None
    case None => None
  }

  /** What a line does to the label table when it is assembled at output
      offset `size` (addresses count the header of `hdr` bytes). */
  function LineEvent(h: string -> int, hdr: nat, size: nat, line: string): Labels.Event {
    match Classify(h, line)
    case Bind(name) => Labels.Define(h(name), size + hdr)
    case Instr(op, at) => InstrEvent(h, line, op, at)
    case _ => Labels.Quiet
  }

  /** What a command line does to the label table: a jump to a label refers
      to it; nothing else touches the table. */
  function InstrEvent(h: string -> int, line: string, op: Op, at: nat): Labels.Event {
    if IsJump(op) && JumpNumber(line, at).None? then Labels.Refer(h(WordAt(line, at).0))
    else Labels.Quiet
  }

  /** One line's effect: the label table afterwards, the bytes emitted and
      the error written (0 when none). */
  datatype Emitted = Emitted(labels: Labels.LabelSet, bytes: seq<Byte>, err: int)

  /** The operand of a jump at address `cur`: an explicit non-zero number,
      or the label's address minus `cur` (a label not yet known gives 0, so
      the displacement is `-cur` in the first pass). */
  function JumpOperand(h: string -> int, labels: Labels.LabelSet, cur: int, line: string, at: nat): (r: (Labels.LabelSet, int))
    ensures IsInt32(r.1)
  {
    match JumpNumber(line, at)
    case Some(v) => (labels, Wrap32(v))
    case None =>
      var g := Labels.GetLabel(labels, h(WordAt(line, at).0));
      (g.table, Displacement(cur, g.point))
  }

  /** `process_line` at output offset `size`, with the header of `hdr` bytes
      in front. */
  function ProcessLine(h: string -> int, hdr: nat, labels: Labels.LabelSet, size: nat, line: string): (r: Emitted)
    ensures |r.bytes| == LineWidth(h, line)
    ensures r.labels == Labels.Apply(labels, LineEvent(h, hdr, size, line))
    ensures r.err != 0 ==> r.err == ENOMEM && Classify(h, line).Bind? && |labels.labels| >= labels.maxSize
    ensures Classify(h, line).Instr? ==> r.bytes[0] / 4 == Code(Classify(h, line).op)
  {
    match Classify(h, line)
    case Blank => Emitted(labels, [], 0)
    case Unknown => Emitted(labels, [], 0)
    case Bind(name) =>
      var a := Labels.AddLabel(labels, h(name), size + hdr);
      Emitted(a.table, [], a.err)
    case Instr(op, at) => EmitInstr(h, labels, size + hdr, line, op, at)
  }

  /** A command line at address `cur`: the opcode byte and, for commands
      with an operand, the operand; a jump may look its label up. */
  function EmitInstr(h: string -> int, labels: Labels.LabelSet, cur: int, line: string, op: Op, at: nat): (r: Emitted)
    requires at <= |line|
    ensures |r.bytes| == Width(op) && r.bytes[0] / 4 == Code(op) && r.err == 0
    ensures r.labels == Labels.Apply(labels, InstrEvent(h, line, op, at))
  {
    if IsJump(op) then
      var (l', arg) := JumpOperand(h, labels, cur, line, at);
      Emitted(l', Encode(op, 0, arg), 0)
    else if HasOperand(op) then
      var a := ReadPPArg(line[at..]);
      Emitted(labels, Encode(op, a.props, a.value), 0)
    else
      Emitted(labels, Encode(op, 0, 0), 0)
  }

  /** Output size after the first `n` lines. */
  function Size(h: string -> int, lines: seq<string>, n: nat): nat
    requires n <= |lines|
  {
    if n == 0 then 0 else Size(h, lines, n - 1) + LineWidth(h, lines[n - 1])
  }

  /** The label events of the first `n` lines, which depend on the lines
      alone: widths never depend on labels. */
  function Events(h: string -> int, hdr: nat, lines: seq<string>, n: nat): (es: seq<Labels.Event>)
    requires n <= |lines|
    ensures |es| == n
  {
    if n == 0 then []
    else Events(h, hdr, lines, n - 1) + [LineEvent(h, hdr, Size(h, lines, n - 1), lines[n - 1])]
  }

  /** State after assembling some lines: the table, the bytes so far and
      the errno value (the last error written). */
  datatype PassState = PassState(labels: Labels.LabelSet, bytes: seq<Byte>, err: int)

  /** `assemble` over the first `n` lines, starting from the table
      `labels`. */
  function Pass(h: string -> int, hdr: nat, labels: Labels.LabelSet, lines: seq<string>, n: nat): (r: PassState)
    requires n <= |lines|
    ensures |r.bytes| == Size(h, lines, n)
    ensures r.labels == Labels.Run(labels, Events(h, hdr, lines, n))
  {
    if n == 0 then PassState(labels, [], 0)
    else
      var p := Pass(h, hdr, labels, lines, n - 1);
      var e := ProcessLine(h, hdr, p.labels, |p.bytes|, lines[n - 1]);
      var es := Events(h, hdr, lines, n);
      assert es[..n - 1] == Events(h, hdr, lines, n - 1);
      PassState(e.labels, p.bytes + e.bytes, if e.err != 0 then e.err else p.err)
  }

  /** The assembler's output for a source of lines and whether it exits
      successfully. */
  datatype Output = Output(binary: seq<Byte>, ok: bool)

  /** `assemble` run twice over a label table of `cap` entries (`-S`,
      `Labels.MAX_LABELS` by default), then the header and the second
      pass's bytes. */
  function Assemble(h: string -> int, f: Header.Format, cap: nat, lines: seq<string>): (r: Output)
    requires Header.Valid(f)
    ensures |r.binary| == f.headerSize + Size(h, lines, |lines|)
    ensures r.binary[..f.headerSize] == Header.PutHeader(f)
  {
    var first := Pass(h, f.headerSize, Labels.Empty(cap), lines, |lines|);
    var second := Pass(h, f.headerSize, first.labels, lines, |lines|);
    Output(Header.PutHeader(f) + second.bytes, first.err == 0 && second.err == 0)
  }

  /** The events of a prefix are a prefix of the events. */
  lemma {:induction false} EventsPrefix(h: string -> int, hdr: nat, lines: seq<string>, k: nat, n: nat)
    requires k <= n <= |lines|
    ensures Events(h, hdr, lines, n)[..k] == Events(h, hdr, lines, k)
    decreases n
  {
    if k < n {
      EventsPrefix(h, hdr, lines, k, n - 1);
      assert Events(h, hdr, lines, n)[..k] == Events(h, hdr, lines, n - 1)[..k];
    }
  }

  /** One more line appends its bytes. */
  lemma PassStep(h: string -> int, hdr: nat, labels: Labels.LabelSet, lines: seq<string>, n: nat)
    requires 0 < n <= |lines|
    ensures Pass(h, hdr, labels, lines, n).bytes[..Size(h, lines, n - 1)] == Pass(h, hdr, labels, lines, n - 1).bytes
  {
  }

  /** The bytes of a prefix of the lines are a prefix of the bytes. */
  lemma {:induction false} PassPrefix(h: string -> int, hdr: nat, labels: Labels.LabelSet, lines: seq<string>, k: nat, n: nat)
    requires k <= n <= |lines|
    ensures Size(h, lines, k) <= Size(h, lines, n)
    ensures Pass(h, hdr, labels, lines, n).bytes[..Size(h, lines, k)] == Pass(h, hdr, labels, lines, k).bytes
    decreases n
  {
    if k < n {
      PassPrefix(h, hdr, labels, lines, k, n - 1);
      PassStep(h, hdr, labels, lines, n);
      var b := Pass(h, hdr, labels, lines, n).bytes;
      var m := Size(h, lines, n - 1);
      assert m <= Size(h, lines, n) == |b|;
      PrefixOfPrefix(b, m, Size(h, lines, k));
    }
  }

  /** The bytes of the second pass, which runs with the table the first
      pass filled. */
  function SecondPass(h: string -> int, hdr: nat, cap: nat, lines: seq<string>): (bytes: seq<Byte>)
    ensures |bytes| == Size(h, lines, |lines|)
  {
    var first := Pass(h, hdr, Labels.Empty(cap), lines, |lines|);
    Pass(h, hdr, first.labels, lines, |lines|).bytes
  }

  /** A prefix of a prefix. */
  lemma PrefixOfPrefix(b: seq<Byte>, m: nat, k: nat)
    requires k <= m <= |b|
    ensures b[..m][..k] == b[..k]
  {
  }

  /** Where the bytes of line `k` sit in the pass output, and what they
      are: the line processed with the table as the lines before it left
      it. */
  lemma LineBytes(h: string -> int, hdr: nat, labels: Labels.LabelSet, lines: seq<string>, k: nat)
    requires k < |lines|
    ensures Size(h, lines, k + 1) <= Size(h, lines, |lines|)
    ensures Pass(h, hdr, labels, lines, |lines|).bytes[Size(h, lines, k)..Size(h, lines, k + 1)]
      == ProcessLine(h, hdr, Labels.Run(labels, Events(h, hdr, lines, k)), Size(h, lines, k), lines[k]).bytes
  {
    PassPrefix(h, hdr, labels, lines, k + 1, |lines|);
    var whole := Pass(h, hdr, labels, lines, |lines|).bytes;
    var upto := Pass(h, hdr, labels, lines, k + 1).bytes;
    var before := Pass(h, hdr, labels, lines, k).bytes;
    assert whole[Size(h, lines, k)..Size(h, lines, k + 1)] == upto[|before|..];
  }

  /** A jump naming a label the table maps to `p` assembles to the jump
      with the displacement from its own address to `p`. */
  lemma JumpLineBytes(h: string -> int, hdr: nat, labels: Labels.LabelSet, size: nat, line: string, p: int)
    requires Classify(h, line).Instr? && IsJump(Classify(h, line).op)
    requires JumpNumber(line, Classify(h, line).at).None?
    requires Labels.Value(labels, h(WordAt(line, Classify(h, line).at).0)) == Some(p)
    ensures ProcessLine(h, hdr, labels, size, line).bytes
      == Encode(Classify(h, line).op, 0, Displacement(hdr + size, p))
  {
  }

  /** In the second pass, every label bound at a single address already
      has that address when line `k` is assembled. */
  lemma SecondPassTable(h: string -> int, hdr: nat, cap: nat, lines: seq<string>, k: nat, x: int, p: int)
    requires k <= |lines|
    requires var es := Events(h, hdr, lines, |lines|);
      |Labels.Mentioned(es)| < cap && Labels.BoundOnlyAt(es, x, p)
    ensures var first := Pass(h, hdr, Labels.Empty(cap), lines, |lines|);
      Labels.Value(Labels.Run(first.labels, Events(h, hdr, lines, k)), x) == Some(p)
  {
    var es := Events(h, hdr, lines, |lines|);
    EventsPrefix(h, hdr, lines, k, |lines|);
    Labels.LabelsSettle(es, cap, x, p, k);
  }

  /** Line `k` is a jump whose operand names a label, the label is bound at
      the single address `p`, and the source mentions fewer distinct label
      names than the table holds. */
  predicate LabelJump(h: string -> int, hdr: nat, cap: nat, lines: seq<string>, k: nat, p: int) {
    && k < |lines|
    && Classify(h, lines[k]).Instr? && IsJump(Classify(h, lines[k]).op)
    && JumpNumber(lines[k], Classify(h, lines[k]).at).None?
    && var es := Events(h, hdr, lines, |lines|);
      && |Labels.Mentioned(es)| < cap
      && Labels.BoundOnlyAt(es, h(WordAt(lines[k], Classify(h, lines[k]).at).0), p)
  }

  /** In the second pass, a jump at offset `s` whose operand names a label
      bound at a single address `p` holds the displacement from its own
      address to `p`. */
  lemma SecondPassJump(h: string -> int, hdr: nat, cap: nat, lines: seq<string>, k: nat, s: nat, p: int)
    requires LabelJump(h, hdr, cap, lines, k, p) && s == Size(h, lines, k)
    ensures s + 5 <= |SecondPass(h, hdr, cap, lines)|
    ensures SecondPass(h, hdr, cap, lines)[s..s + 5] == Encode(Classify(h, lines[k]).op, 0, Displacement(hdr + s, p))
  {
    var x := h(WordAt(lines[k], Classify(h, lines[k]).at).0);
    var first := Pass(h, hdr, Labels.Empty(cap), lines, |lines|);
    var table := Labels.Run(first.labels, Events(h, hdr, lines, k));
    SecondPassTable(h, hdr, cap, lines, k, x, p);
    JumpLineBytes(h, hdr, table, s, lines[k], p);
    LineBytes(h, hdr, first.labels, lines, k);
  }

  /** Two passes resolve forward references: when the source mentions fewer
      distinct label names than the table holds, a jump that sits `s` bytes
      after the header and whose operand names a label bound at a single
      address `p` assembles to that jump with the displacement from its own
      address to `p`. */
  lemma JumpResolves(h: string -> int, f: Header.Format, cap: nat, lines: seq<string>, k: nat, hdr: nat, s: nat, p: int)
    requires Header.Valid(f) && hdr == f.headerSize
    requires LabelJump(h, hdr, cap, lines, k, p) && s == Size(h, lines, k)
    ensures hdr + s + 5 <= |Assemble(h, f, cap, lines).binary|
    ensures Fetch(Assemble(h, f, cap, lines).binary, hdr + s)
      == Encode(Classify(h, lines[k]).op, 0, Displacement(hdr + s, p))
  {
    SecondPassJump(h, hdr, cap, lines, k, s, p);
    AssembleBinary(h, f, cap, lines, hdr);
    ConcatField(Header.PutHeader(f), SecondPass(h, hdr, cap, lines), hdr, s);
  }

  /** The binary is the header followed by the second pass's bytes. */
  lemma AssembleBinary(h: string -> int, f: Header.Format, cap: nat, lines: seq<string>, hdr: nat)
    requires Header.Valid(f) && hdr == f.headerSize
    ensures Assemble(h, f, cap, lines).binary == Header.PutHeader(f) + SecondPass(h, hdr, cap, lines)
    ensures |Header.PutHeader(f)| == hdr
  {
  }

  /** An instruction at offset `s` of the code, seen in the whole file. */
  lemma ConcatField(a: seq<Byte>, b: seq<Byte>, n: nat, s: nat)
    requires |a| == n && s + 5 <= |b|
    ensures Fetch(a + b, n + s) == b[s..s + 5]
  {
  }

  /** A label bound by a `HERE` line gets the address of the next
      instruction: the header size plus the bytes of the lines above. */
  lemma BindAddress(h: string -> int, hdr: nat, lines: seq<string>, d: nat)
    requires d < |lines| && Classify(h, lines[d]).Bind?
    ensures Events(h, hdr, lines, |lines|)[d]
      == Labels.Define(h(Classify(h, lines[d]).name), hdr + Size(h, lines, d))
  {
    EventsPrefix(h, hdr, lines, d + 1, |lines|);
    assert Events(h, hdr, lines, |lines|)[d] == Events(h, hdr, lines, |lines|)[..d + 1][d];
  }

  // ---------------------------------------------------------------------
  // Lines that do not depend on labels.

  /** Byte runs one after another. */
  function Flat(bs: seq<seq<Byte>>): seq<Byte> {
    if |bs| == 0 then [] else Flat(bs[..|bs| - 1]) + bs[|bs| - 1]
  }

  /** Byte runs split in two, flattened. */
  lemma {:induction false} FlatAppend(a: seq<seq<Byte>>, b: seq<seq<Byte>>)
    ensures Flat(a + b) == Flat(a) + Flat(b)
    decreases |b|
  {
    if |b| > 0 {
      var front := b[..|b| - 1];
      assert (a + b)[..|a + b| - 1] == a + front;
      FlatAppend(a, front);
    } else {
      assert a + b == a;
    }
  }

  /** `line` assembles to `out` under every table and at every offset,
      leaving the table and errno alone. */
  ghost predicate Inert(h: string -> int, hdr: nat, line: string, out: seq<Byte>) {
    forall labels: Labels.LabelSet, size: nat ::
      ProcessLine(h, hdr, labels, size, line) == Emitted(labels, out, 0)
  }

  /** A pass over lines that each assemble to fixed bytes writes those bytes
      one after another, and leaves the table and errno alone. */
  lemma {:induction false} PassInert(h: string -> int, hdr: nat, labels: Labels.LabelSet, lines: seq<string>, outs: seq<seq<Byte>>, n: nat)
    requires |outs| == |lines| && n <= |lines|
    requires forall k | 0 <= k < |lines| :: Inert(h, hdr, lines[k], outs[k])
    ensures Pass(h, hdr, labels, lines, n) == PassState(labels, Flat(outs[..n]), 0)
    decreases n
  {
    if n > 0 {
      PassInert(h, hdr, labels, lines, outs, n - 1);
      assert Inert(h, hdr, lines[n - 1], outs[n - 1]);
      var b := Flat(outs[..n - 1]);
      assert ProcessLine(h, hdr, labels, |b|, lines[n - 1]) == Emitted(labels, outs[n - 1], 0);
      PassInertStep(h, hdr, labels, lines, outs, n);
    }
  }

  /** One more inert line extends an inert pass by its fixed bytes. */
  lemma PassInertStep(h: string -> int, hdr: nat, labels: Labels.LabelSet, lines: seq<string>, outs: seq<seq<Byte>>, n: nat)
    requires |outs| == |lines| && 0 < n <= |lines|
    requires ProcessLine(h, hdr, labels, |Flat(outs[..n - 1])|, lines[n - 1]) == Emitted(labels, outs[n - 1], 0)
    requires Pass(h, hdr, labels, lines, n - 1) == PassState(labels, Flat(outs[..n - 1]), 0)
    ensures Pass(h, hdr, labels, lines, n) == PassState(labels, Flat(outs[..n]), 0)
  {
    PassQuietStep(h, hdr, labels, lines, n, Flat(outs[..n - 1]), outs[n - 1]);
    FlatPrefix(outs, n);
  }

  /** The prefix of every run flattens like the runs themselves. */
  lemma FlatWhole(bs: seq<seq<Byte>>)
    ensures Flat(bs[..|bs|]) == Flat(bs)
  {
    assert bs[..|bs|] == bs;
  }

  /** Flattening one more run of a prefix appends that run. */
  lemma FlatPrefix(bs: seq<seq<Byte>>, n: nat)
    requires 0 < n <= |bs|
    ensures Flat(bs[..n]) == Flat(bs[..n - 1]) + bs[n - 1]
  {
    assert bs[..n][..n - 1] == bs[..n - 1];
  }

  /** A line that leaves the table and errno alone appends its bytes to a
      pass that has not touched them either. */
  lemma PassQuietStep(h: string -> int, hdr: nat, labels: Labels.LabelSet, lines: seq<string>, n: nat, b: seq<Byte>, out: seq<Byte>)
    requires 0 < n <= |lines|
    requires Pass(h, hdr, labels, lines, n - 1) == PassState(labels, b, 0)
    requires ProcessLine(h, hdr, labels, |b|, lines[n - 1]) == Emitted(labels, out, 0)
    ensures Pass(h, hdr, labels, lines, n) == PassState(labels, b + out, 0)
  {
  }

  /** A source whose lines each assemble to fixed bytes assembles to the
      header and those bytes, and the assembler succeeds. */
  lemma AssembleInert(h: string -> int, f: Header.Format, cap: nat, lines: seq<string>, outs: seq<seq<Byte>>)
    requires Header.Valid(f) && |outs| == |lines|
    requires forall k | 0 <= k < |lines| :: Inert(h, f.headerSize, lines[k], outs[k])
    ensures Assemble(h, f, cap, lines) == Output(Header.PutHeader(f) + Flat(outs), true)
  {
    PassInert(h, f.headerSize, Labels.Empty(cap), lines, outs, |lines|);
    FlatWhole(outs);
    AssembleQuiet(h, f, cap, lines, Flat(outs));
  }

  /** A first pass that finds no label and no error is repeated verbatim by
      the second, and the assembler succeeds with its bytes. */
  lemma AssembleQuiet(h: string -> int, f: Header.Format, cap: nat, lines: seq<string>, b: seq<Byte>)
    requires Header.Valid(f)
    requires Pass(h, f.headerSize, Labels.Empty(cap), lines, |lines|) == PassState(Labels.Empty(cap), b, 0)
    ensures Assemble(h, f, cap, lines) == Output(Header.PutHeader(f) + b, true)
  {
  }

  // ---------------------------------------------------------------------
  // The program.

  /** What the assembler program does: writes a file and exits, or writes
      past its output buffer, which C leaves undefined. */
  datatype Run = Wrote(out: Output) | Overrun

  /** The assembler's `main` with a label table of `cap` entries (`-S`) and
      an output buffer of `outSize` bytes (`-F`, 0xFFFF by default). Each
      pass copies every line's bytes into that buffer unchecked, so a
      program whose code is larger than the buffer overruns it. */
  function AssemblerMain(h: string -> int, f: Header.Format, cap: nat, outSize: nat, lines: seq<string>): (r: Run)
    requires Header.Valid(f)
    ensures r.Overrun? <==> Size(h, lines, |lines|) > outSize
    ensures r.Wrote? ==> r.out == Assemble(h, f, cap, lines) && |r.out.binary| <= f.headerSize + outSize
  {
    if Size(h, lines, |lines|) > outSize then Overrun else Wrote(Assemble(h, f, cap, lines))
  }
}
