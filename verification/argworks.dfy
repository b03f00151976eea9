/** The operand codec of PUSH and MOVE: `read_pparg` turns operand text into
    a 4-byte value and a 2-bit addressing mode, `link_argument` resolves a
    value and mode to the cell the instruction reads or writes, and the
    disassembler's operand rendering turns them back into text. */
module ArgWorks {
  import opened CLib
  import opened CInt
  import opened CFormat

  /** Addressing-mode bits: the value names a register, a RAM cell, or
      (both bits) a RAM cell addressed by a register plus an offset. */
  const USE_REGISTER: int := 1
  const USE_MEMORY: int := 2

  /** An operand as the assembler stores it: the 4-byte value and the mode
      bits that are OR-ed into the opcode byte. */
  datatype PPArgument = PPArgument(value: int, props: int)

  /** An operand that fits the instruction: an `int` value and a 2-bit
      mode. */
  predicate Ranged(a: PPArgument) {
    IsInt32(a.value) && 0 <= a.props < 4
  }

  /** The operand forms `read_pparg` tries, in the order it tries them. */
  datatype Form =
    | RegIndexed  // " [ R%cX %c %d ]": a register plus a signed offset
    | RegMem      // " [ R%cX ]": the RAM cell a register points at
    | Mem         // " [ %d ]": a RAM cell
    | Reg         // " R%cX": a register
    | Imm         // " %d": an immediate number
    | Quoted      // " '%c'": a character constant
    | Escaped     // " '\%c'": an escaped character constant

  const FORMS: seq<Form> := [RegIndexed, RegMem, Mem, Reg, Imm, Quoted, Escaped]

  /** The `sscanf` format of each form, without its final `%n`. */
  function Directives(f: Form): (fmt: seq<Directive>)
    ensures |fmt| > 0 && !fmt[|fmt| - 1].Space?
  {
    match f
    case RegIndexed => [Space, Lit('['), Space, Lit('R'), Chr, Lit('X'), Space, Chr, Space, Dec, Space, Lit(']')]
    case RegMem => [Space, Lit('['), Space, Lit('R'), Chr, Lit('X'), Space, Lit(']')]
    case Mem => [Space, Lit('['), Space, Dec, Space, Lit(']')]
    case Reg => [Space, Lit('R'), Chr, Lit('X')]
    case Imm => [Space, Dec]
    case Quoted => [Space, Lit('\''), Chr, Lit('\'')]
    case Escaped => [Space, Lit('\''), Lit('\\'), Chr, Lit('\'')]
  }

  /** The upper three bytes of an `int` holding `w` in their low 24 bits and
      a zero low byte: the `memcpy` of the offset into bytes 1..3. */
  function PackOffset(w: int): (r: int)
    requires IsInt32(w)
    ensures IsInt32(r) && r % 0x100 == 0
  {
    var r := Wrap32((Unsigned32(w) % TWO_24) * 0x100);
    assert r % 0x100 == 0 by {
      var m := (Unsigned32(w) % TWO_24) * 0x100;
      assert m % 0x100 == 0;
      assert (m - r) % TWO_32 == 0;
      var k := (m - r) / TWO_32;
      assert r == m - k * TWO_32;
      assert r == 0x100 * ((Unsigned32(w) % TWO_24) - k * TWO_24);
    }
    r
  }

  /** The register-indexed value: the offset in the upper three bytes, OR-ed
      with the register number `low` (a `char` minus 'A', so possibly
      negative). */
  function Pack(low: int, w: int): (r: int)
    requires IsInt32(low) && IsInt32(w)
    ensures IsInt32(r)
  {
    Or32(PackOffset(w), low)
  }

  /** The register number stored in the low byte of a register-indexed
      value (`arg & 0xFF`). */
  function RegId(arg: int): (id: nat)
    ensures id < 0x100
  {
    arg % 0x100
  }

  /** The offset a register-indexed value carries: its upper three bytes,
      sign-extended. */
  function RegOffset(arg: int): (off: int)
    requires IsInt32(arg)
    ensures -0x80_0000 <= off < 0x80_0000
    ensures arg == 0x100 * off + RegId(arg)
  {
    arg / 0x100
  }

  /** The character code an escape `\c` stands for. */
  function EscapeValue(c: char): (v: int)
    ensures -128 <= v < 128
  {
    match c
    case 'n' => 10
    case 't' => 9
    case 'r' => 13
    case 'v' => 11
    case 'a' => 7
    case 'f' => 12
    case _ => CharValue(c)
  }

  /** A form that matched: the operand it yields and how many characters it
      consumed. */
  datatype Cand = Cand(arg: PPArgument, len: nat)

  /** The operand form `f` yields at the start of `s`, when its whole format
      matches. */
  function Candidate(s: string, f: Form): (r: Option<Cand>)
    ensures r.Some? ==> r.value.len >= 1 && Ranged(r.value.arg)
  {
    CandidateOf(f, Scan(s, Directives(f), 0))
  }

  /** The match a scan result makes for form `f`: none when the scan failed
      or stored values of the wrong kinds. */
  function CandidateOf(f: Form, r: Option<Scanned>): (c: Option<Cand>)
    requires r.Some? ==> r.value.end >= 1
    ensures c.Some? ==> c.value.len >= 1 && Ranged(c.value.arg)
  {
    match r
    case None => None
    case Some(sc) =>
      match FormOperand(f, sc.items)
      case None => None
      case Some(arg) => Some(Cand(arg, sc.end))
  }

  /** The operand a matched form stores, from the values its conversions
      stored. */
  function FormOperand(f: Form, its: seq<Item>): (r: Option<PPArgument>)
    ensures r.Some? ==> Ranged(r.value)
  {
    match f
    case RegIndexed =>
      if |its| == 3 && its[0].ChrItem? && its[1].ChrItem? && its[2].DecItem? then
        Some(RegIndexedOperand(its[0].c, its[1].c, its[2].v))
      else None
    case RegMem =>
      if |its| == 1 && its[0].ChrItem? then Some(PPArgument(CharValue(its[0].c) - 'A' as int, USE_MEMORY + USE_REGISTER))
      else None
    case Mem =>
      if |its| == 1 && its[0].DecItem? then Some(PPArgument(its[0].v, USE_MEMORY)) else None
    case Reg =>
      if |its| == 1 && its[0].ChrItem? then Some(PPArgument(CharValue(its[0].c) - 'A' as int, USE_REGISTER)) else None
    case Imm =>
      if |its| == 1 && its[0].DecItem? then Some(PPArgument(its[0].v, 0)) else None
    case Quoted =>
      if |its| == 1 && its[0].ChrItem? then Some(PPArgument(CharValue(its[0].c), 0)) else None
    case Escaped =>
      if |its| == 1 && its[0].ChrItem? then Some(PPArgument(EscapeValue(its[0].c), 0)) else None
  }

  /** The register-indexed operand for register letter `r`, sign character
      `sign` and offset `v`: a minus sign negates the offset. */
  function RegIndexedOperand(r: char, sign: char, v: Int32): PPArgument {
    var x: int := v;
    var w: int := if sign == '-' then Wrap32(-x) else x;
    PPArgument(Pack(CharValue(r) - 'A' as int, w), USE_MEMORY + USE_REGISTER)
  }

  /** What every form yields on `s`, in the order `read_pparg` tries them. */
  function Candidates(s: string): (cs: seq<Option<Cand>>)
    ensures |cs| == |FORMS| && Matches(cs)
    ensures forall k | 0 <= k < |FORMS| :: cs[k] == Candidate(s, FORMS[k])
  {
    seq(|FORMS|, k requires 0 <= k < |FORMS| => Candidate(s, FORMS[k]))
  }

  /** Every match consumes at least one character. */
  predicate Matches(cs: seq<Option<Cand>>) {
    forall k | 0 <= k < |cs| :: cs[k].Some? ==> cs[k].value.len >= 1
  }

  /** The state `read_pparg` carries from form to form: the answer so far
      and the longest match so far. A form that does not match leaves its
      `%n` variable at the previous length, which never exceeds the
      longest, so it changes nothing. */
  datatype ReadState = ReadState(answer: PPArgument, maxLength: nat)

  /** Goes through the matches `cs[k..]` in order; a match replaces the
      answer only when it consumed strictly more characters than every match
      before it. */
  function Choose(cs: seq<Option<Cand>>, k: nat, st: ReadState): ReadState
    requires k <= |cs|
    decreases |cs| - k
  {
    if k == |cs| then st
    else
      var c := cs[k];
      Choose(cs, k + 1, if c.Some? && c.value.len > st.maxLength then ReadState(c.value.arg, c.value.len) else st)
  }

  /** `read_pparg`: an empty or blank operand is the immediate 0; otherwise
      every form is tried and the longest match wins. */
  function ReadPPArg(s: string): (a: PPArgument)
    ensures Ranged(a)
  {
    if !Has(s, SkipSpace(s, 0)) then PPArgument(0, 0)
    else
      ChooseRanged(Candidates(s), 0, ReadState(PPArgument(0, 0), 0));
      Choose(Candidates(s), 0, ReadState(PPArgument(0, 0), 0)).answer
  }

  /** Every match yields a value and mode that fit the instruction, so the
      answer chosen from them does too. */
  lemma {:induction false} ChooseRanged(cs: seq<Option<Cand>>, k: nat, st: ReadState)
    requires k <= |cs| && Ranged(st.answer)
    requires forall j | k <= j < |cs| :: cs[j].Some? ==> Ranged(cs[j].value.arg)
    ensures Ranged(Choose(cs, k, st).answer)
    decreases |cs| - k
  {
    if k < |cs| {
      var c := cs[k];
      ChooseRanged(cs, k + 1, if c.Some? && c.value.len > st.maxLength then ReadState(c.value.arg, c.value.len) else st);
    }
  }

  /** Characters match `k` consumed, 0 when the form did not match. */
  function Len(cs: seq<Option<Cand>>, k: nat): nat
    requires k < |cs|
  {
    match cs[k]
    case None => 0
    case Some(c) => c.len
  }

  /** The longest match among `cs[k..]`. */
  function MaxFrom(cs: seq<Option<Cand>>, k: nat): (n: nat)
    requires k <= |cs|
    ensures forall j | k <= j < |cs| :: Len(cs, j) <= n
    ensures n > 0 ==> exists j | k <= j < |cs| :: Len(cs, j) == n
    decreases |cs| - k
  {
    if k == |cs| then 0
    else
      var rest := MaxFrom(cs, k + 1);
      if Len(cs, k) >= rest then Len(cs, k) else rest
  }

  /** The first match at or after `k` that consumed exactly `n` characters. */
  function FirstOfLength(cs: seq<Option<Cand>>, k: nat, n: nat): (r: Option<nat>)
    requires k <= |cs|
    ensures r.Some? ==> k <= r.value < |cs| && Len(cs, r.value) == n
    ensures r.Some? ==> forall j | k <= j < r.value :: Len(cs, j) != n
    ensures r.None? ==> forall j | k <= j < |cs| :: Len(cs, j) != n
    decreases |cs| - k
  {
    if k == |cs| then None
    else if Len(cs, k) == n then Some(k)
    else FirstOfLength(cs, k + 1, n)
  }

  /** The reference choice: the first of the forms that consumed the most
      characters, or none when no form matched. */
  function Winner(cs: seq<Option<Cand>>): (r: Option<nat>)
    requires Matches(cs)
    ensures r.Some? ==> r.value < |cs| && cs[r.value].Some?
    ensures r.Some? ==> forall j | 0 <= j < |cs| :: Len(cs, j) <= Len(cs, r.value)
    ensures r.Some? ==> forall j | 0 <= j < r.value :: Len(cs, j) < Len(cs, r.value)
    ensures r.None? ==> forall j | 0 <= j < |cs| :: cs[j].None?
  {
    var n := MaxFrom(cs, 0);
    if n == 0 then
      assert forall j | 0 <= j < |cs| :: cs[j].None? by {
        forall j | 0 <= j < |cs|
          ensures cs[j].None?
        {
          assert Len(cs, j) == 0;
        }
      }
      None
    else
      var r := FirstOfLength(cs, 0, n);
      assert r.Some? by {
        var j :| 0 <= j < |cs| && Len(cs, j) == n;
      }
      r
  }

  /** What `Choose` ends with, stated through the longest match among the
      remaining forms. */
  lemma {:induction false} ChooseLongest(cs: seq<Option<Cand>>, k: nat, st: ReadState)
    requires k <= |cs|
    ensures MaxFrom(cs, k) <= st.maxLength ==> Choose(cs, k, st) == st
    ensures MaxFrom(cs, k) > st.maxLength ==>
      (FirstOfLength(cs, k, MaxFrom(cs, k)).Some?
      && Choose(cs, k, st).answer == cs[FirstOfLength(cs, k, MaxFrom(cs, k)).value].value.arg)
    decreases |cs| - k
  {
    if k < |cs| {
      var c := cs[k];
      var st' := if c.Some? && c.value.len > st.maxLength then ReadState(c.value.arg, c.value.len) else st;
      ChooseLongest(cs, k + 1, st');
    }
  }

  /** `read_pparg` returns the operand of the first form among those that
      consume the most characters, and the immediate 0 when none matches:
      the longest match wins and a tie keeps the earlier form. */
  lemma ReadPPArgLongestMatch(s: string)
    ensures var w := Winner(Candidates(s));
      w.None? ==> ReadPPArg(s) == PPArgument(0, 0)
    ensures var w := Winner(Candidates(s));
      w.Some? ==> ReadPPArg(s) == Candidate(s, FORMS[w.value]).value.arg
  {
    var cs := Candidates(s);
    ChooseLongest(cs, 0, ReadState(PPArgument(0, 0), 0));
    if !Has(s, SkipSpace(s, 0)) {
      BlankMatchesNothing(s);
    }
  }

  /** No form matches blank text: each starts by skipping whitespace and
      then needs a character. */
  lemma BlankMatchesNothing(s: string)
    requires !Has(s, SkipSpace(s, 0))
    ensures forall j | 0 <= j < |FORMS| :: Candidate(s, FORMS[j]).None?
  {
    var p := SkipSpace(s, 0);
    assert SkipSpace(s, p) == p;
    assert DigitsEnd(s, p) == p;
    assert ReadDec(s, p).None?;
    forall j | 0 <= j < |FORMS|
      ensures Candidate(s, FORMS[j]).None?
    {
      var f := Directives(FORMS[j]);
      assert f[0] == Space && (f[1].Lit? || f[1].Dec?);
      assert Convert(s, f[1], p).None?;
      assert ScanFrom(s, f, 1, p).None?;
    }
  }

  /** An empty or whitespace-only operand is the immediate 0. */
  lemma BlankIsImmediateZero(s: string)
    requires forall k | 0 <= k < |s| :: s[k] == '\0' || IsSpace(s[k])
    ensures ReadPPArg(s) == PPArgument(0, 0)
  {
    var p := SkipSpace(s, 0);
    assert !Has(s, p);
  }

  /** The cell an operand resolves to: the operand itself (immediate), a RAM
      cell or a register. */
  datatype Cell = Operand | RamCell(index: nat) | RegCell(index: nat)

  /** The result of `link_argument`: a cell; a failed bounds check (EFAULT
      in the caller's status); for a usage tag outside 0..3, no cell and no
      error; or a read outside the register file, which C leaves undefined. */
  datatype Link = Linked(cell: Cell) | Fault | NoCell | LinkUndefined

  /** `link_argument`: resolves `arg` under the mode `usage` against RAM of
      `ramSize` cells and the register file `reg`. The guards do not stop
      the function, but every caller discards the address once the status
      is set, so a failed check is just `Fault`, except for a register-indexed
      operand naming no register: that register is still read, past the end
      of the register file. */
  function LinkArgument(usage: int, arg: int, ramSize: nat, reg: seq<int>): (r: Link)
    requires IsInt32(arg)
    ensures usage == 0 ==> r == Linked(Operand)
    ensures usage == USE_MEMORY ==> (r.Fault? <==> !(0 <= arg < ramSize))
    ensures usage == USE_MEMORY && r.Linked? ==> r.cell == RamCell(arg)
    ensures usage == USE_REGISTER ==> (r.Fault? <==> !(0 <= arg < |reg|))
    ensures usage == USE_REGISTER && r.Linked? ==> r.cell == RegCell(arg)
    ensures usage == USE_MEMORY + USE_REGISTER ==> (r.LinkUndefined? <==> RegId(arg) >= |reg|)
    ensures usage == USE_MEMORY + USE_REGISTER && RegId(arg) < |reg| ==>
      (r.Fault? <==> !(0 <= Wrap32(reg[RegId(arg)] + RegOffset(arg)) < ramSize))
    ensures usage == USE_MEMORY + USE_REGISTER && r.Linked? ==>
      r.cell == RamCell(Wrap32(reg[RegId(arg)] + RegOffset(arg)))
    ensures !(0 <= usage < 4) ==> r == NoCell
    ensures r.Linked? && r.cell.RamCell? ==> r.cell.index < ramSize
    ensures r.Linked? && r.cell.RegCell? ==> r.cell.index < |reg|
  {
    if usage == 0 then Linked(Operand)
    else if usage == USE_MEMORY then
      if 0 <= arg < ramSize then Linked(RamCell(arg)) else Fault
    else if usage == USE_REGISTER then
      if 0 <= arg < |reg| then Linked(RegCell(arg)) else Fault
    else if usage == USE_MEMORY + USE_REGISTER then
      var id := RegId(arg);
      if id >= |reg| then LinkUndefined
      else
        var index := Wrap32(reg[id] + RegOffset(arg));
        if 0 <= index < ramSize then Linked(RamCell(index)) else Fault
    else NoCell
  }

  /** A 24-bit offset stored by the parser comes back unchanged through the
      unpacking, and so does a register number that fits a byte. */
  lemma UnpackPack(id: int, off: int)
    requires 0 <= id < 0x100 && -0x80_0000 <= off < 0x80_0000
    ensures RegId(Pack(id, off)) == id && RegOffset(Pack(id, off)) == off
  {
    PackOffsetSmall(off);
    Or32LowByte(0x100 * off, id);
    DivMod256(0x100 * off + id, off, id);
  }

  /** Every register-indexed value is the packing of its own register number
      and offset. */
  lemma PackUnpack(arg: int)
    requires IsInt32(arg)
    ensures Pack(RegId(arg), RegOffset(arg)) == arg
  {
    var off := RegOffset(arg);
    PackOffsetSmall(off);
    Or32LowByte(0x100 * off, RegId(arg));
  }

  /** For an offset that fits 24 signed bits the packing is a shift. */
  lemma PackOffsetSmall(w: int)
    requires -0x80_0000 <= w < 0x80_0000
    ensures PackOffset(w) == 0x100 * w
  {
    var u := Unsigned32(w);
    var m := (u % TWO_24) * 0x100;
    if w >= 0 {
      assert u % TWO_24 == w;
    } else {
      assert u == w + TWO_32;
      assert u == 0xFF * TWO_24 + (w + TWO_24);
      assert u % TWO_24 == w + TWO_24;
      assert m == 0x100 * w + TWO_32;
    }
    Wrap32Congruent(m, 0x100 * w);
  }

  /** A register-indexed operand resolves through register `id` to the RAM
      cell `reg[id] + off`, when that cell exists. */
  lemma LinkPacked(id: int, off: int, ramSize: nat, reg: seq<int>)
    requires 0 <= id < |reg| && id < 0x100 && -0x80_0000 <= off < 0x80_0000
    requires 0 <= Wrap32(reg[id] + off) < ramSize
    ensures LinkArgument(USE_MEMORY + USE_REGISTER, Pack(id, off), ramSize, reg)
      == Linked(RamCell(Wrap32(reg[id] + off)))
  {
    UnpackPack(id, off);
  }

  /** `DISASM_COMPLEX`: the text the disassembler prints for the operand
      `arg` under the mode `usage`. */
  function Render(arg: int, usage: int): (t: string)
    requires IsInt32(arg) && 0 <= usage < 4
    ensures |t| >= 1
  {
    if usage == 0 then
      FormatDec(arg)
      + (if IsPrint(CharValue(CharOfValue(arg))) then " # '" + [CharOfValue(arg)] + "'" else "")
    else if usage == USE_MEMORY then "[" + FormatDec(arg) + "]"
    else if usage == USE_REGISTER then "R" + [CharOfValue(arg + 'A' as int)] + "X"
    else "[R" + [CharOfValue(RegId(arg) + 'A' as int)] + "X + " + FormatDec(RegOffset(arg)) + "]"
  }

  /** Text in which exactly one form matches yields that form's operand. */
  lemma OnlyCandidate(s: string, k: nat)
    requires k < |FORMS| && Candidate(s, FORMS[k]).Some?
    requires forall f: Form | f != FORMS[k] :: Candidate(s, f).None?
    ensures ReadPPArg(s) == Candidate(s, FORMS[k]).value.arg
  {
    var cs := Candidates(s);
    forall j | 0 <= j < |cs| && j != k
      ensures cs[j].None?
    {
      FormsDistinct(j, k);
    }
    WinnerOfOnly(cs, k);
    ReadPPArgLongestMatch(s);
  }

  /** A scan that stored `items` makes the match of the operand those items
      give. */
  lemma YieldCandidate(f: Form, r: Option<Scanned>, items: seq<Item>, end: nat)
    requires Yields(r, items, end) && end >= 1 && FormOperand(f, items).Some?
    ensures CandidateOf(f, r) == Some(Cand(FormOperand(f, items).value, end))
  {
  }

  /** The forms are listed once each. */
  lemma FormsDistinct(i: nat, j: nat)
    requires i < |FORMS| && j < |FORMS| && i != j
    ensures FORMS[i] != FORMS[j]
  {
  }

  /** When exactly one entry matched, it is the winner. */
  lemma WinnerOfOnly(cs: seq<Option<Cand>>, k: nat)
    requires Matches(cs) && k < |cs| && cs[k].Some?
    requires forall j | 0 <= j < |cs| && j != k :: cs[j].None?
    ensures Winner(cs) == Some(k)
  {
    var w := Winner(cs);
    assert Len(cs, k) >= 1;
  }

  /** The operand text the disassembler prints parses back to the same value
      and mode, for registers `A`..`Z`. */
  lemma ReadPPArgOfRender(arg: int, usage: int)
    requires IsInt32(arg) && 0 <= usage < 4
    requires usage == USE_REGISTER ==> 0 <= arg < 26
    requires usage == USE_MEMORY + USE_REGISTER ==> RegId(arg) < 26
    ensures ReadPPArg(Render(arg, usage)) == PPArgument(arg, usage)
  {
    var s := Render(arg, usage);
    if usage == 0 {
      RenderImmediate(arg);
    } else if usage == USE_MEMORY {
      RenderMemory(arg);
    } else if usage == USE_REGISTER {
      RenderRegister(arg);
    } else {
      RenderRegIndexed(arg);
    }
  }

  /** A form whose first directive after the leading blank fails on the
      first character of the operand does not match. */
  lemma FirstDirectiveFails(s: string, f: Form)
    requires Has(s, 0) && !IsSpace(s[0]) && Convert(s, Directives(f)[1], 0).None?
    ensures Candidate(s, f).None?
  {
    assert SkipSpace(s, 0) == 0;
    assert ScanFrom(s, Directives(f), 1, 0).None?;
  }

  /** A bracketed form whose directive after `[` and a blank fails on the
      character after the bracket does not match. */
  lemma BracketDirectiveFails(s: string, f: Form)
    requires f == RegIndexed || f == RegMem || f == Mem
    requires Has(s, 0) && s[0] == '[' && Has(s, 1) && !IsSpace(s[1])
    requires Convert(s, Directives(f)[3], 1).None?
    ensures Candidate(s, f).None?
  {
    assert SkipSpace(s, 0) == 0 && SkipSpace(s, 1) == 1;
    assert ScanFrom(s, Directives(f), 3, 1).None?;
    assert ScanFrom(s, Directives(f), 1, 0).None?;
  }

  /** No number starts at `i` when the character there is neither a sign
      nor a digit. */
  lemma NoNumberAt(s: string, i: nat)
    requires Has(s, i) && !IsSpace(s[i]) && !(s[i] == '-' || s[i] == '+' || IsDigit(s[i]))
    ensures Convert(s, Dec, i).None?
  {
    assert SkipSpace(s, i) == i;
    assert DigitsEnd(s, i) == i;
  }

  /** An operand starting with `[` is none of the unbracketed forms. */
  lemma BracketRulesOutPlain(s: string)
    requires Has(s, 0) && s[0] == '['
    ensures Candidate(s, Reg).None? && Candidate(s, Imm).None?
    ensures Candidate(s, Quoted).None? && Candidate(s, Escaped).None?
  {
    FirstDirectiveFails(s, Reg);
    NoNumberAt(s, 0);
    FirstDirectiveFails(s, Imm);
    FirstDirectiveFails(s, Quoted);
    FirstDirectiveFails(s, Escaped);
  }

  /** `[R<c>X +` is not a register in brackets: the closing bracket is
      missing. */
  lemma RegMemNeedsClose(s: string)
    requires |s| >= 6 && s[0] == '[' && s[1] == 'R' && Has(s, 2) && s[3] == 'X' && s[4] == ' ' && s[5] == '+'
    ensures Candidate(s, RegMem).None?
  {
    var f := Directives(RegMem);
    assert SkipSpace(s, 0) == 0 && SkipSpace(s, 1) == 1 && SkipSpace(s, 4) == 5;
    assert ScanFrom(s, f, 7, 5).None?;
    assert ScanFrom(s, f, 6, 4).None?;
    assert ScanFrom(s, f, 5, 3).None?;
    assert ScanFrom(s, f, 4, 2).None?;
    assert ScanFrom(s, f, 3, 1).None?;
    assert ScanFrom(s, f, 2, 1).None?;
    assert ScanFrom(s, f, 1, 0).None?;
  }

  /** A number printed alone reads back as the immediate form only. */
  lemma RenderImmediate(arg: int)
    requires IsInt32(arg)
    ensures ReadPPArg(Render(arg, 0)) == PPArgument(arg, 0)
  {
    var s := Render(arg, 0);
    var d := FormatDec(arg);
    var n := |d|;
    assert s[..n] == d;
    assert s[0] == d[0];
    assert !(Has(s, n) && IsDigit(s[n]));
    ReadDecOfFormat(s, 0, arg);
    ImmediateRead(s, arg, n);
  }

  /** Text that starts with a number and carries nothing a longer form
      could take reads as that immediate number. */
  lemma ImmediateRead(s: string, arg: int, n: nat)
    requires Has(s, 0) && (s[0] == '-' || IsDigit(s[0]))
    requires ReadDec(s, 0).Some? && ReadDec(s, 0).value.0 == arg && ReadDec(s, 0).value.1 == n
    ensures ReadPPArg(s) == PPArgument(arg, 0)
  {
    ImmediateScan(s, arg, n);
    YieldCandidate(Imm, Scan(s, Directives(Imm), 0), [DecItem(arg)], n);
    FirstDirectiveFails(s, RegIndexed);
    FirstDirectiveFails(s, RegMem);
    FirstDirectiveFails(s, Mem);
    FirstDirectiveFails(s, Reg);
    FirstDirectiveFails(s, Quoted);
    FirstDirectiveFails(s, Escaped);
    OnlyCandidate(s, 4);
  }

  /** The immediate format read over a number. */
  lemma ImmediateScan(s: string, arg: int, n: nat)
    requires Has(s, 0) && !IsSpace(s[0])
    requires ReadDec(s, 0).Some? && ReadDec(s, 0).value.0 == arg && ReadDec(s, 0).value.1 == n
    ensures Yields(Scan(s, Directives(Imm), 0), [DecItem(arg)], n)
  {
    var f := Directives(Imm);
    assert SkipSpace(s, 0) == 0;
    assert Yields(ScanFrom(s, f, 2, n), [], n);
    assert Yields(ScanFrom(s, f, 1, 0), [DecItem(arg)], n);
  }

  /** A bracketed number reads back as the memory form only. */
  lemma RenderMemory(arg: int)
    requires IsInt32(arg)
    ensures ReadPPArg(Render(arg, USE_MEMORY)) == PPArgument(arg, USE_MEMORY)
  {
    var s := Render(arg, USE_MEMORY);
    var d := FormatDec(arg);
    var n := |d|;
    assert s[1..1 + n] == d;
    assert s[1] == d[0];
    assert s[0] == '[' && s[1 + n] == ']' && |s| == n + 2;
    ReadDecOfFormat(s, 1, arg);
    MemoryRead(s, arg, n);
  }

  /** `[<number>]` reads as the memory cell of that number. */
  lemma MemoryRead(s: string, arg: int, n: nat)
    requires |s| == n + 2 && s[0] == '[' && s[1 + n] == ']' && Has(s, 1) && (s[1] == '-' || IsDigit(s[1]))
    requires ReadDec(s, 1).Some? && ReadDec(s, 1).value.0 == arg && ReadDec(s, 1).value.1 == 1 + n
    ensures ReadPPArg(s) == PPArgument(arg, USE_MEMORY)
  {
    MemoryScan(s, arg, n);
    YieldCandidate(Mem, Scan(s, Directives(Mem), 0), [DecItem(arg)], 2 + n);
    BracketRulesOutPlain(s);
    BracketDirectiveFails(s, RegIndexed);
    BracketDirectiveFails(s, RegMem);
    OnlyCandidate(s, 2);
  }

  /** The memory format read over `[<number>]`. */
  lemma MemoryScan(s: string, arg: int, n: nat)
    requires |s| == n + 2 && s[0] == '[' && s[1 + n] == ']' && Has(s, 1) && (s[1] == '-' || IsDigit(s[1]))
    requires ReadDec(s, 1).Some? && ReadDec(s, 1).value.0 == arg && ReadDec(s, 1).value.1 == 1 + n
    ensures Yields(Scan(s, Directives(Mem), 0), [DecItem(arg)], 2 + n)
  {
    var f := Directives(Mem);
    assert SkipSpace(s, 0) == 0 && SkipSpace(s, 1) == 1 && SkipSpace(s, 1 + n) == 1 + n;
    assert Yields(ScanFrom(s, f, 6, 2 + n), [], 2 + n);
    assert Yields(ScanFrom(s, f, 5, 1 + n), [], 2 + n);
    assert Yields(ScanFrom(s, f, 4, 1 + n), [], 2 + n);
    assert Yields(ScanFrom(s, f, 3, 1), [DecItem(arg)], 2 + n);
    assert Yields(ScanFrom(s, f, 2, 1), [DecItem(arg)], 2 + n);
    assert Yields(ScanFrom(s, f, 1, 0), [DecItem(arg)], 2 + n);
  }

  /** A register name reads back as the register form only. */
  lemma RenderRegister(arg: int)
    requires 0 <= arg < 26
    ensures ReadPPArg(Render(arg, USE_REGISTER)) == PPArgument(arg, USE_REGISTER)
  {
    var s := Render(arg, USE_REGISTER);
    var c := CharOfValue(arg + 'A' as int);
    assert c as int == arg + 65;
    assert s == ['R', c, 'X'];
    RegisterRead(s, c);
  }

  /** `R<c>X` reads as register `c - 'A'`. */
  lemma RegisterRead(s: string, c: char)
    requires s == ['R', c, 'X'] && c != '\0'
    ensures ReadPPArg(s) == PPArgument(CharValue(c) - 'A' as int, USE_REGISTER)
  {
    RegisterScan(s, c);
    YieldCandidate(Reg, Scan(s, Directives(Reg), 0), [ChrItem(c)], 3);
    assert Candidate(s, Reg) == Some(Cand(PPArgument(CharValue(c) - 'A' as int, USE_REGISTER), 3));
    FirstDirectiveFails(s, RegIndexed);
    FirstDirectiveFails(s, RegMem);
    FirstDirectiveFails(s, Mem);
    NoNumberAt(s, 0);
    FirstDirectiveFails(s, Imm);
    FirstDirectiveFails(s, Quoted);
    FirstDirectiveFails(s, Escaped);
    OnlyCandidate(s, 3);
  }

  /** The register format read over `R<c>X`. */
  lemma RegisterScan(s: string, c: char)
    requires s == ['R', c, 'X'] && c != '\0'
    ensures Yields(Scan(s, Directives(Reg), 0), [ChrItem(c)], 3)
  {
    var f := Directives(Reg);
    assert SkipSpace(s, 0) == 0;
    assert Yields(ScanFrom(s, f, 4, 3), [], 3);
    assert Yields(ScanFrom(s, f, 3, 2), [], 3);
    assert Yields(ScanFrom(s, f, 2, 1), [ChrItem(c)], 3);
    assert Yields(ScanFrom(s, f, 1, 0), [ChrItem(c)], 3);
  }

  /** A register plus an offset in brackets reads back as the
      register-indexed form only. */
  lemma RenderRegIndexed(arg: int)
    requires IsInt32(arg) && RegId(arg) < 26
    ensures ReadPPArg(Render(arg, USE_MEMORY + USE_REGISTER)) == PPArgument(arg, USE_MEMORY + USE_REGISTER)
  {
    var s := Render(arg, USE_MEMORY + USE_REGISTER);
    var id := RegId(arg);
    var off := RegOffset(arg);
    var c := CharOfValue(id + 'A' as int);
    var n := |FormatDec(off)|;
    RegIndexedText(arg, s, c, n);
    RegIndexedRead(s, c, off, n);
    assert CharValue(c) - 'A' as int == id;
    PackUnpack(arg);
  }

  /** `s` is `[R<c>X + ` followed by `n` characters that start with a sign
      or digit and then `]`. */
  predicate RegIndexedShape(s: string, c: char, n: nat) {
    && |s| == n + 8 && s[0] == '[' && s[1] == 'R' && s[2] == c && s[3] == 'X'
    && s[4] == ' ' && s[5] == '+' && s[6] == ' ' && s[7 + n] == ']'
    && 'A' <= c <= 'Z' && Has(s, 7) && !IsSpace(s[7])
  }

  /** The characters of the rendering of a register-indexed operand. */
  lemma RegIndexedText(arg: int, s: string, c: char, n: nat)
    requires IsInt32(arg) && RegId(arg) < 26
    requires s == Render(arg, USE_MEMORY + USE_REGISTER)
    requires c == CharOfValue(RegId(arg) + 'A' as int) && n == |FormatDec(RegOffset(arg))|
    ensures c as int == RegId(arg) + 65
    ensures RegIndexedShape(s, c, n)
    ensures DecAt(s, 7, RegOffset(arg), 7 + n)
  {
    var off := RegOffset(arg);
    var d := FormatDec(off);
    assert s == "[R" + [c] + "X + " + d + "]";
    assert s[7..7 + n] == d;
    assert s[7] == d[0];
    ReadDecOfFormat(s, 7, off);
  }

  /** `[R<c>X + <off>]` reads as register `c - 'A'` plus the offset,
      packed. */
  lemma RegIndexedRead(s: string, c: char, off: Int32, n: nat)
    requires RegIndexedShape(s, c, n) && DecAt(s, 7, off, 7 + n)
    ensures ReadPPArg(s) == PPArgument(Pack(CharValue(c) - 'A' as int, off), USE_MEMORY + USE_REGISTER)
  {
    RegIndexedScan(s, c, off, n);
    RegIndexedCandidate(Scan(s, Directives(RegIndexed), 0), c, off, n);
    RegIndexedOthers(s, c, n);
    OnlyCandidate(s, 0);
  }

  /** No form but the register-indexed one matches `[R<c>X + ...`. */
  lemma RegIndexedOthers(s: string, c: char, n: nat)
    requires RegIndexedShape(s, c, n)
    ensures forall f: Form | f != RegIndexed :: Candidate(s, f).None?
  {
    BracketRulesOutPlain(s);
    NoNumberAt(s, 1);
    BracketDirectiveFails(s, Mem);
    RegMemNeedsClose(s);
  }

  /** What the register-indexed form yields once its format matched. */
  lemma RegIndexedCandidate(r: Option<Scanned>, c: char, off: Int32, n: nat)
    requires Yields(r, [ChrItem(c), ChrItem('+'), DecItem(off)], 8 + n)
    ensures CandidateOf(RegIndexed, r) == Some(Cand(PPArgument(Pack(CharValue(c) - 'A' as int, off), USE_MEMORY + USE_REGISTER), 8 + n))
  {
    YieldCandidate(RegIndexed, r, [ChrItem(c), ChrItem('+'), DecItem(off)], 8 + n);
  }

  /** The register-indexed format read over `[R<c>X + <off>]`. */
  lemma RegIndexedScan(s: string, c: char, off: Int32, n: nat)
    requires RegIndexedShape(s, c, n) && DecAt(s, 7, off, 7 + n)
    ensures Yields(Scan(s, Directives(RegIndexed), 0), [ChrItem(c), ChrItem('+'), DecItem(off)], 8 + n)
  {
    RegIndexedTail(s, c, off, n);
    RegIndexedMiddle(s, c, off, n);
    RegIndexedLetter(s, c, off, n);
    RegIndexedHead(s, c, off, n);
  }

  /** The opening bracket and the blanks around it. */
  lemma RegIndexedHead(s: string, c: char, off: Int32, n: nat)
    requires RegIndexedShape(s, c, n)
    requires Yields(ScanFrom(s, Directives(RegIndexed), 3, 1), [ChrItem(c), ChrItem('+'), DecItem(off)], 8 + n)
    ensures Yields(Scan(s, Directives(RegIndexed), 0), [ChrItem(c), ChrItem('+'), DecItem(off)], 8 + n)
  {
    var f := Directives(RegIndexed);
    var rest := [ChrItem(c), ChrItem('+'), DecItem(off)];
    assert SkipSpace(s, 0) == 0 && SkipSpace(s, 1) == 1;
    assert Yields(ScanFrom(s, f, 2, 1), rest, 8 + n);
    assert Yields(ScanFrom(s, f, 0, 0), rest, 8 + n);
  }

  /** The `R` and the register letter. */
  lemma RegIndexedLetter(s: string, c: char, off: Int32, n: nat)
    requires RegIndexedShape(s, c, n)
    requires Yields(ScanFrom(s, Directives(RegIndexed), 5, 3), [ChrItem('+'), DecItem(off)], 8 + n)
    ensures Yields(ScanFrom(s, Directives(RegIndexed), 3, 1), [ChrItem(c), ChrItem('+'), DecItem(off)], 8 + n)
  {
    var f := Directives(RegIndexed);
    assert Yields(ScanFrom(s, f, 4, 2), [ChrItem(c)] + [ChrItem('+'), DecItem(off)], 8 + n);
  }

  /** The `X` after the register letter and the blank before the sign. */
  lemma RegIndexedMiddle(s: string, c: char, off: Int32, n: nat)
    requires RegIndexedShape(s, c, n)
    requires Yields(ScanFrom(s, Directives(RegIndexed), 7, 5), [ChrItem('+'), DecItem(off)], 8 + n)
    ensures Yields(ScanFrom(s, Directives(RegIndexed), 5, 3), [ChrItem('+'), DecItem(off)], 8 + n)
  {
    assert SkipSpace(s, 4) == 5;
  }

  /** The sign character, the offset and the closing bracket of a
      register-indexed operand. */
  lemma RegIndexedTail(s: string, c: char, off: Int32, n: nat)
    requires RegIndexedShape(s, c, n) && DecAt(s, 7, off, 7 + n)
    ensures Yields(ScanFrom(s, Directives(RegIndexed), 7, 5), [ChrItem('+'), DecItem(off)], 8 + n)
  {
    var f := Directives(RegIndexed);
    assert SkipSpace(s, 6) == 7 && SkipSpace(s, 7 + n) == 7 + n;
    assert Yields(ScanFrom(s, f, 10, 7 + n), [], 8 + n);
    assert Yields(ScanFrom(s, f, 8, 6), [DecItem(off)], 8 + n);
  }

  // ---------------------------------------------------------------------
  // A blank in front of an operand.

  /** `cs'` are the matches `cs`, each one character longer. */
  predicate OneLonger(cs': seq<Option<Cand>>, cs: seq<Option<Cand>>) {
    && |cs'| == |cs|
    && forall k | 0 <= k < |cs| ::
         && (cs'[k].Some? <==> cs[k].Some?)
         && (cs[k].Some? ==> cs'[k].value.arg == cs[k].value.arg && cs'[k].value.len == cs[k].value.len + 1)
  }

  /** Every form starts by skipping blanks, so a blank in front of the text
      changes no match but its length. */
  lemma CandidateLeadingBlank(t: string, f: Form)
    ensures Candidate(" " + t, f).Some? <==> Candidate(t, f).Some?
    ensures Candidate(t, f).Some? ==>
      Candidate(" " + t, f).value.arg == Candidate(t, f).value.arg
      && Candidate(" " + t, f).value.len == Candidate(t, f).value.len + 1
  {
    ScanLeadingBlank(t, Directives(f));
  }

  /** Matches that are all one character longer are chosen the same way:
      the comparisons with the longest match so far all come out the same. */
  lemma {:induction false} ChooseOneLonger(cs': seq<Option<Cand>>, cs: seq<Option<Cand>>, k: nat, st': ReadState, st: ReadState)
    requires k <= |cs| && OneLonger(cs', cs) && Matches(cs)
    requires st'.answer == st.answer
    requires st'.maxLength == st.maxLength + 1 || st'.maxLength == st.maxLength == 0
    ensures Choose(cs', k, st').answer == Choose(cs, k, st).answer
    decreases |cs| - k
  {
    if k < |cs| {
      var c', c := cs'[k], cs[k];
      var next' := if c'.Some? && c'.value.len > st'.maxLength then ReadState(c'.value.arg, c'.value.len) else st';
      var next := if c.Some? && c.value.len > st.maxLength then ReadState(c.value.arg, c.value.len) else st;
      ChooseOneLonger(cs', cs, k + 1, next', next);
    }
  }

  /** The matches on a text with a blank in front are the matches on the
      text, one character longer. */
  lemma CandidatesLeadingBlank(t: string)
    ensures OneLonger(Candidates(" " + t), Candidates(t))
  {
    var cs', cs := Candidates(" " + t), Candidates(t);
    forall k | 0 <= k < |FORMS|
      ensures cs'[k].Some? <==> cs[k].Some?
      ensures cs[k].Some? ==> cs'[k].value.arg == cs[k].value.arg && cs'[k].value.len == cs[k].value.len + 1
    {
      CandidateLeadingBlank(t, FORMS[k]);
    }
  }

  /** A text with a blank in front is blank exactly when the text is. */
  lemma BlankLeadingBlank(t: string)
    ensures Has(" " + t, SkipSpace(" " + t, 0)) == Has(t, SkipSpace(t, 0))
  {
    var s := " " + t;
    assert Behind(s, t, 1);
    assert Has(s, 0) && IsSpace(s[0]);
    SkipSpaceBehind(s, t, 1, 0);
    HasBehind(s, t, 1, SkipSpace(t, 0));
  }

  /** `read_pparg` reads an operand the same with a blank in front of it. */
  lemma ReadPPArgLeadingBlank(t: string)
    ensures ReadPPArg(" " + t) == ReadPPArg(t)
  {
    BlankLeadingBlank(t);
    CandidatesLeadingBlank(t);
    var init := ReadState(PPArgument(0, 0), 0);
    ChooseOneLonger(Candidates(" " + t), Candidates(t), 0, init, init);
  }
}
