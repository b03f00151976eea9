/** The processor of the current instruction set: a machine with a value
    stack, an address stack, RAM, a register file and video memory, which
    executes the instruction at a pointer into the loaded file and moves the
    pointer by the shift the instruction returns. */
module Machine {
  import opened CLib
  import opened CInt
  import opened ProcCmd
  import opened ArgWorks
  import Header

  /** Sizes of the memory segments: RAM and registers hold `int` cells, the
      video memory is `width * height` cells. */
  datatype Config = Config(ramSize: nat, regSize: nat, width: nat, height: nat)

  /** The sizes the processor is built with. */
  const DEFAULT: Config := Config(1024, 1024, 32, 32)

  /** The glyphs `draw_vmd` prints, densest first, in pieces of ten. */
  const GLYPH_PIECES: seq<string> := [
    "$@B%8&WM#*", "oahkbdpqwm", "ZO0QLCJUYX", "zcvunxrjft", "/\\|()1{}[]", "?-_+~<>i!l", "I;:,\"^`'. "]

  /** `PIX_STATES` without its terminator: the C array also holds the
      terminating NUL, so its `sizeof` is one more. */
  const PALETTE: string :=
    GLYPH_PIECES[0] + GLYPH_PIECES[1] + GLYPH_PIECES[2] + GLYPH_PIECES[3]
    + GLYPH_PIECES[4] + GLYPH_PIECES[5] + GLYPH_PIECES[6]

  /** `sizeof(PIX_STATES)`. */
  const PALETTE_SIZEOF: nat := |PALETTE| + 1

  /** What the console commands write to standard output. */
  datatype Out = Char(c: Byte) | Number(v: int) | Clear | Frame(text: string)

  /** The machine: the value stack (`long long` values, bottom first), the
      address stack (return addresses as offsets into the file), the memory
      segments, the errno value and everything written to the console. */
  datatype State = State(
    stack: seq<int>, calls: seq<int>,
    ram: seq<int>, reg: seq<int>, vmd: seq<int>, width: nat, height: nat,
    errno: int, output: seq<Out>)

  /** The result of one instruction: the machine afterwards and the shift of
      the instruction pointer (0 stops the run), or behaviour the C code
      leaves undefined (an out-of-range read or write, a read of an empty
      stack whose value reaches the machine, a signed overflow). */
  datatype Step = Next(m: State, shift: int) | Undefined

  /** The stacks hold `long long` values and the memory segments `int`
      cells, and the video memory has `width * height` of them. */
  predicate Valid(m: State) {
    && (forall i | 0 <= i < |m.stack| :: IsInt64(m.stack[i]))
    && (forall i | 0 <= i < |m.ram| :: IsInt32(m.ram[i]))
    && (forall i | 0 <= i < |m.reg| :: IsInt32(m.reg[i]))
    && (forall i | 0 <= i < |m.vmd| :: IsInt32(m.vmd[i]))
    && |m.vmd| == m.width * m.height
  }

  /** RAM as the processor prepares it: zero, except that the first four
      cells, as far as they exist, hold the RAM size, the screen width and
      height and `sizeof(PIX_STATES)`. */
  function SeededRam(c: Config): (ram: seq<int>)
    ensures |ram| == c.ramSize
    ensures forall i | 4 <= i < c.ramSize :: ram[i] == 0
    ensures c.ramSize > 0 ==> ram[0] == Wrap32(c.ramSize)
    ensures c.ramSize > 1 ==> ram[1] == Wrap32(c.width)
    ensures c.ramSize > 2 ==> ram[2] == Wrap32(c.height)
    ensures c.ramSize > 3 ==> ram[3] == PALETTE_SIZEOF
  {
    seq(c.ramSize, i =>
      if i == 0 then Wrap32(c.ramSize)
      else if i == 1 then Wrap32(c.width)
      else if i == 2 then Wrap32(c.height)
      else if i == 3 then PALETTE_SIZEOF
      else 0)
  }

  /** The machine before the first instruction: empty stacks, seeded RAM,
      zeroed registers and screen, nothing written. */
  function Initial(c: Config): (m: State)
    ensures Valid(m) && m.stack == [] && m.calls == [] && m.errno == 0
    ensures |m.ram| == c.ramSize && |m.reg| == c.regSize
  {
    State([], [], SeededRam(c), seq(c.regSize, _ => 0), seq(c.width * c.height, _ => 0),
          c.width, c.height, 0, [])
  }

  // ---------------------------------------------------------------------
  // The screen.

  /** The palette index `draw_vmd` prints for a cell as written: negative
      values become 0 and values from `sizeof(PIX_STATES)` on become
      `sizeof(PIX_STATES) - 1`, the index of the terminating NUL. */
  function GlyphIndexAsWritten(v: int): (i: nat)
    ensures i <= |PALETTE|
  {
    if v < 0 then 0 else if v >= PALETTE_SIZEOF then PALETTE_SIZEOF - 1 else v
  }

  /** The character printed for a cell as written: the NUL terminator when
      the index reaches it. */
  function DrawCellAsWritten(v: int): char {
    var i := GlyphIndexAsWritten(v);
    if i < |PALETTE| then PALETTE[i] else '\0'
  }

  /** The terminator is not one of the glyphs. */
  lemma NoNulGlyph()
    ensures '\0' !in PALETTE
  {
    assert forall i | 0 <= i < 7 :: '\0' !in GLYPH_PIECES[i];
  }

  /** Large values print the NUL terminator instead of a glyph. */
  lemma BrightCellPrintsNul(v: int)
    requires v >= |PALETTE|
    ensures DrawCellAsWritten(v) == '\0'
    ensures DrawCellAsWritten(v) !in PALETTE
  {
    NoNulGlyph();
  }

  /** The palette index intended for a cell: the value clamped to the
      glyphs. */
  function GlyphIndex(v: int): (i: nat)
    ensures i < |PALETTE|
    ensures 0 <= v < |PALETTE| ==> i == v
    ensures v < 0 ==> i == 0
    ensures v >= |PALETTE| ==> i == |PALETTE| - 1
  {
    if v < 0 then 0 else if v >= |PALETTE| then |PALETTE| - 1 else v
  }

  /** The character printed for a cell: never the terminator, and the
      cell's own glyph whenever the value indexes the palette. */
  function DrawCell(v: int): (c: char)
    ensures c != '\0'
    ensures 0 <= v < |PALETTE| ==> c == PALETTE[v]
  {
    NoNulGlyph();
    PALETTE[GlyphIndex(v)]
  }

  /** Every cell prints one of the glyphs: the darkest for negative values,
      the lightest for values past the palette. */
  lemma DrawCellIsGlyph(v: int)
    ensures DrawCell(v) in PALETTE
    ensures v < 0 ==> DrawCell(v) == PALETTE[0]
    ensures v >= |PALETTE| ==> DrawCell(v) == PALETTE[|PALETTE| - 1]
  {
  }

  /** Clamping is monotone: a brighter cell never prints a denser glyph. */
  lemma GlyphIndexMonotone(v: int, w: int)
    requires v <= w
    ensures GlyphIndex(v) <= GlyphIndex(w)
  {
  }

  /** Within the palette both clamps agree; they differ only from its last
      index on. */
  lemma DrawCellAgrees(v: int)
    requires v < |PALETTE|
    ensures DrawCellAsWritten(v) == DrawCell(v)
  {
  }

  /** The first `x` characters of the screen row whose cells start at
      `base`, each cell drawn by `draw`. */
  function Row(draw: int -> char, vmd: seq<int>, base: nat, x: nat): (t: string)
    requires base + x <= |vmd|
    ensures |t| == x
  {
    if x == 0 then [] else Row(draw, vmd, base, x - 1) + [draw(vmd[base + x - 1])]
  }

  /** The first `y` rows of the screen, each cell drawn by `draw`: each
      row's characters, then a newline. `draw_vmd` prints
      `Screen(DrawCellAsWritten, …)`; `Screen(DrawCell, …)` is the screen
      intended. */
  function Screen(draw: int -> char, vmd: seq<int>, width: nat, y: nat): (t: string)
    requires y * width <= |vmd|
    ensures |t| == y * (width + 1)
  {
    if y == 0 then []
    else
      assert (y - 1) * width + width == y * width;
      Screen(draw, vmd, width, y - 1) + Row(draw, vmd, (y - 1) * width, width) + "\n"
  }

  /** A row shows each of its cells, left to right. */
  lemma {:induction false} RowCells(draw: int -> char, vmd: seq<int>, base: nat, x: nat)
    requires base + x <= |vmd|
    ensures forall k | 0 <= k < x :: Row(draw, vmd, base, x)[k] == draw(vmd[base + k])
  {
    if x > 0 {
      RowCells(draw, vmd, base, x - 1);
      assert Row(draw, vmd, base, x) == Row(draw, vmd, base, x - 1) + [draw(vmd[base + x - 1])];
    }
  }

  /** As written, a screen with any cell of `|PALETTE|` or more sends the
      NUL to the terminal. */
  lemma {:induction false} ScreenShowsNul(vmd: seq<int>, width: nat, y: nat, j: nat)
    requires y * width <= |vmd| && j < y * width && vmd[j] >= |PALETTE|
    ensures '\0' in Screen(DrawCellAsWritten, vmd, width, y)
  {
    var base := (y - 1) * width;
    assert base + width == y * width;
    var prev := Screen(DrawCellAsWritten, vmd, width, y - 1);
    var row := Row(DrawCellAsWritten, vmd, base, width);
    assert Screen(DrawCellAsWritten, vmd, width, y) == prev + row + "\n";
    if j < base {
      ScreenShowsNul(vmd, width, y - 1, j);
      assert '\0' in prev;
    } else {
      RowCells(DrawCellAsWritten, vmd, base, width);
      BrightCellPrintsNul(vmd[j]);
      assert row[j - base] == '\0';
    }
  }

  /** The intended screen never sends the NUL to the terminal. */
  lemma {:induction false} ScreenNulFree(vmd: seq<int>, width: nat, y: nat)
    requires y * width <= |vmd|
    ensures forall k | 0 <= k < |Screen(DrawCell, vmd, width, y)| :: Screen(DrawCell, vmd, width, y)[k] != '\0'
  {
    if y > 0 {
      assert (y - 1) * width + width == y * width;
      ScreenNulFree(vmd, width, y - 1);
      RowCells(DrawCell, vmd, (y - 1) * width, width);
    }
  }

  // ---------------------------------------------------------------------
  // One instruction.

  /** The comparison a conditional jump makes between the top `a` and the
      value below it `b`. */
  predicate Taken(op: Op, a: int, b: int)
    requires op in {JMPG, JMPL, JMPE, JMPGE, JMPLE}
  {
    match op
    case JMPG => a > b
    case JMPL => a < b
    case JMPE => a == b
    case JMPGE => a >= b
    case JMPLE => a <= b
  }

  /** `a op b` in `long long` for the arithmetic commands; `None` when C
      leaves it undefined (overflow, or division by zero). Division
      truncates toward zero. */
  function Arith(op: Op, a: int, b: int): (r: Option<int>)
    requires op in {ADD, SUB, MUL, DIV}
    ensures r.Some? ==> IsInt64(r.value)
    ensures op == DIV && b == 0 ==> r.None?
  {
    var v := match op
      case ADD => Some(a + b)
      case SUB => Some(a - b)
      case MUL => Some(a * b)
      case DIV => if b == 0 then None else Some(CDiv(a, b));
    if v.Some? && IsInt64(v.value) then v else None
  }

  /** The value stack without its top. */
  function Drop(s: seq<int>, n: nat): seq<int>
    requires n <= |s|
  {
    s[..|s| - n]
  }

  /** The value of a linked cell: the operand itself, or the RAM or register
      cell it names. */
  function CellValue(m: State, arg: int, cell: Cell): int
    requires cell.RamCell? ==> cell.index < |m.ram|
    requires cell.RegCell? ==> cell.index < |m.reg|
  {
    match cell
    case Operand => arg
    case RamCell(i) => m.ram[i]
    case RegCell(i) => m.reg[i]
  }

  /** Stores `v` in a linked cell; storing into the operand changes nothing
      the machine keeps. */
  function Store(m: State, cell: Cell, v: int): (m': State)
    requires cell.RamCell? ==> cell.index < |m.ram|
    requires cell.RegCell? ==> cell.index < |m.reg|
    ensures m'.stack == m.stack && m'.calls == m.calls && m'.vmd == m.vmd && m'.errno == m.errno
    ensures |m'.ram| == |m.ram| && |m'.reg| == |m.reg|
  {
    match cell
    case Operand => m
    case RamCell(i) => m.(ram := m.ram[i := v])
    case RegCell(i) => m.(reg := m.reg[i := v])
  }

  /** The flow commands: END, ABORT, JMP, CALL and RET. `arg` is the operand
      read after the opcode byte (only the jumps have one). A zero
      displacement sets EFAULT; it is also the shift, so the run stops. CALL
      pushes the address after itself before jumping; RET jumps back to the
      address it pops. */
  function FlowStep(op: Op, ip: nat, arg: int, m: State): (r: Step)
    requires op in {END, ABORT, JMP, CALL, RET}
  {
    match op
    case END => Next(m, 0)
    case ABORT => Next(m.(errno := EAGAIN), 0)
    case JMP => Next(if arg == 0 then m.(errno := EFAULT) else m, arg)
    case CALL =>
      var m' := m.(calls := m.calls + [ip + 5]);
      Next(if arg == 0 then m'.(errno := EFAULT) else m', arg)
    case RET =>
      if |m.calls| == 0 then Undefined
      else Next(m.(calls := Drop(m.calls, 1)), Displacement(ip, m.calls[|m.calls| - 1]))
  }

  /** The conditional jumps: the displacement `arg` is checked first (0 sets
      EFAULT but does not stop the command), then the top `a` and the value
      `b` below it are popped; the jump is taken when `a` compares to `b`,
      otherwise the command is skipped. */
  function CondStep(op: Op, arg: int, m: State): (r: Step)
    requires op in {JMPG, JMPL, JMPE, JMPGE, JMPLE}
  {
    var m1 := if arg == 0 then m.(errno := EFAULT) else m;
    if |m.stack| < 2 then Undefined
    else
      var a, b := m.stack[|m.stack| - 1], m.stack[|m.stack| - 2];
      Next(m1.(stack := Drop(m.stack, 2)), if Taken(op, a, b) then arg else 5)
  }

  /** PUSH and MOVE, whose operand is linked under the mode in the opcode
      byte. A failed link stops the run without an errno of its own, and a
      read outside the register file is undefined. MOVE
      checks the stack first: an empty stack sets EFAULT and shift 0, but the
      command goes on, and in immediate mode the pop that follows fails with
      ENXIO while the shift still grows by four. */
  function OperandStep(op: Op, mode: nat, arg: int, m: State): (r: Step)
    requires op in {PUSH, MOVE} && mode < 4 && IsInt32(arg)
  {
    var link := LinkArgument(mode, arg, |m.ram|, m.reg);
    if link.LinkUndefined? then Undefined
    else if op == PUSH then
      if !link.Linked? then Next(m, 0)
      else Next(m.(stack := m.stack + [CellValue(m, arg, link.cell)]), 5)
    else if |m.stack| == 0 then
      var m1 := m.(errno := EFAULT);
      if !link.Linked? then Next(m1, 0)
      else if link.cell.Operand? then Next(m1.(errno := ENXIO), 4)
      else Undefined
    else
      if !link.Linked? then Next(m, 0)
      else
        var m1 := Store(m, link.cell, Wrap32(m.stack[|m.stack| - 1]));
        Next(m1.(stack := Drop(m.stack, 1)), 5)
  }

  /** POP, DUP, VSET and VGET. An empty stack makes POP set EFAULT and shift
      0, and the pop that still follows replaces the errno with ENXIO. The
      screen commands read a key (and VSET a value) as `int`; a key outside
      the screen is written or read anyway, which is undefined. */
  function StackStep(op: Op, m: State): (r: Step)
    requires op in {POP, DUP, VSET, VGET}
  {
    var n := |m.stack|;
    match op
    case POP =>
      if n == 0 then Next(m.(errno := ENXIO), 0) else Next(m.(stack := Drop(m.stack, 1)), 1)
    case DUP =>
      if n == 0 then Undefined else Next(m.(stack := m.stack + [m.stack[n - 1]]), 1)
    case VSET =>
      if n < 2 then Undefined
      else
        var key, value := Wrap32(m.stack[n - 1]), Wrap32(m.stack[n - 2]);
        if !(0 <= key < |m.vmd|) then Undefined
        else Next(m.(stack := Drop(m.stack, 1), vmd := m.vmd[key := value]), 1)
    case VGET =>
      if n == 0 then Undefined
      else
        var key := Wrap32(m.stack[n - 1]);
        if !(0 <= key < |m.vmd|) then Undefined
        else Next(m.(stack := Drop(m.stack, 1) + [m.vmd[key]]), 1)
  }

  /** ADD, SUB, MUL and DIV: pop the top `a`, pop `b`, push `a op b`. */
  function ArithStep(op: Op, m: State): (r: Step)
    requires op in {ADD, SUB, MUL, DIV}
  {
    var n := |m.stack|;
    if n < 2 then Undefined
    else
      match Arith(op, m.stack[n - 1], m.stack[n - 2])
      case None => Undefined
      case Some(v) => Next(m.(stack := Drop(m.stack, 2) + [v]), 1)
  }

  /** The console commands. OUTC and OUT print the top without popping it
      (an empty stack would print a value read outside the stack); CCLR
      clears the console and DRAW prints the screen. */
  function ConsoleStep(op: Op, m: State): (r: Step)
    requires op in {OUTC, OUT, CCLR, DRAW}
  {
    var n := |m.stack|;
    match op
    case OUTC =>
      if n == 0 then Undefined
      else Next(m.(output := m.output + [Char(Wrap32(m.stack[n - 1]) % 256)]), 1)
    case OUT =>
      if n == 0 then Undefined else Next(m.(output := m.output + [Number(m.stack[n - 1])]), 1)
    case CCLR => Next(m.(output := m.output + [Clear]), 1)
    case DRAW =>
      if m.width * m.height > |m.vmd| then Undefined
      else Next(m.(output := m.output + [Frame(Screen(DrawCellAsWritten, m.vmd, m.width, m.height))]), 1)
  }

  /** The command `op` with address mode `mode` and operand `arg`, at offset
      `ip` of the file. */
  function Dispatch(op: Op, mode: nat, ip: nat, arg: int, m: State): (r: Step)
    requires mode < 4 && IsInt32(arg)
  {
    match op
    case END | ABORT | JMP | CALL | RET => FlowStep(op, ip, arg, m)
    case JMPG | JMPL | JMPE | JMPGE | JMPLE => CondStep(op, arg, m)
    case PUSH | MOVE => OperandStep(op, mode, arg, m)
    case POP | DUP | VSET | VGET => StackStep(op, m)
    case ADD | SUB | MUL | DIV => ArithStep(op, m)
    case OUTC | OUT | CCLR | DRAW => ConsoleStep(op, m)
  }

  /** `execute_command` on the file `prog` with the instruction pointer at
      offset `ip`: the command is the opcode byte shifted right by two (read
      as a signed `char`, so bytes from 128 on select nothing), and an
      unknown one sets EIO and stops. A command with an operand reads the
      four bytes after the opcode byte. */
  function Exec(prog: seq<Byte>, ip: nat, m: State): (r: Step)
    ensures ip < |prog| && OpOfByte(prog[ip]).None? ==> r == Next(m.(errno := EIO), 0)
  {
    if ip >= |prog| then Undefined
    else
      match OpOfByte(prog[ip])
      case None => Next(m.(errno := EIO), 0)
      case Some(op) =>
        if HasOperand(op) && ip + 5 > |prog| then Undefined
        else Dispatch(op, ModeOf(prog[ip]), ip, if HasOperand(op) then ReadInt32(prog, ip + 1) else 0, m)
  }

  /** Executing an encoded command anywhere in a file performs exactly that
      command, with the operand it was encoded with. */
  lemma ExecEncode(pre: seq<Byte>, op: Op, mode: nat, arg: int, post: seq<Byte>, m: State)
    requires mode < 4 && IsInt32(arg)
    ensures Exec(pre + Encode(op, mode, arg) + post, |pre|, m)
      == Dispatch(op, mode, |pre|, if HasOperand(op) then arg else 0, m)
  {
    var prog := pre + Encode(op, mode, arg) + post;
    DecodeEncode(op, mode);
    assert prog[|pre|] == OpcodeByte(op, mode);
    if HasOperand(op) {
      assert prog == (pre + [OpcodeByte(op, mode)]) + Int32Bytes(arg) + post;
      ReadInt32Bytes(arg, pre + [OpcodeByte(op, mode)], post);
    }
  }

  /** A JMP or CALL found `s` bytes after a header of `hdr` bytes, whose
      operand is the displacement from its own offset to `target`, sends the
      instruction pointer to `target`. */
  lemma JumpAt(prog: seq<Byte>, hdr: nat, s: nat, op: Op, target: int, m: State)
    requires op in {JMP, CALL} && IsInt32(target - (hdr + s)) && target != hdr + s
    requires hdr + s + 5 <= |prog| && Fetch(prog, hdr + s) == Encode(op, 0, Displacement(hdr + s, target))
    ensures Exec(prog, hdr + s, m).Next? && hdr + s + Exec(prog, hdr + s, m).shift == target
  {
    var ip := hdr + s;
    var arg := Displacement(ip, target);
    assert prog == prog[..ip] + Encode(op, 0, arg) + prog[ip + 5..];
    ExecEncode(prog[..ip], op, 0, arg, prog[ip + 5..], m);
  }

  /** How many values each command takes from the value stack and how many
      it leaves there, when it completes. */
  function Pops(op: Op): nat {
    match op
    case JMPG | JMPL | JMPE | JMPGE | JMPLE | ADD | SUB | MUL | DIV => 2
    case MOVE | POP | VSET | VGET => 1
    case _ => 0
  }

  function Pushes(op: Op): nat {
    match op
    case PUSH | DUP | VGET | ADD | SUB | MUL | DIV => 1
    case _ => 0
  }

  /** A command that completes with a non-zero shift on a stack deep enough
      for it takes exactly its values from the top, leaves every value
      below them untouched and adds its own. */
  lemma StackEffect(op: Op, mode: nat, ip: nat, arg: int, m: State)
    requires mode < 4 && IsInt32(arg) && |m.stack| >= Pops(op)
    requires Dispatch(op, mode, ip, arg, m).Next? && Dispatch(op, mode, ip, arg, m).shift != 0
    ensures var s := Dispatch(op, mode, ip, arg, m).m.stack;
      && |s| == |m.stack| - Pops(op) + Pushes(op)
      && s[..|m.stack| - Pops(op)] == m.stack[..|m.stack| - Pops(op)]
  {
  }

  /** Every command keeps the machine's cells in their C types: the value
      stack holds `long long` values, the segments `int` cells. */
  lemma DispatchValid(op: Op, mode: nat, ip: nat, arg: int, m: State)
    requires mode < 4 && IsInt32(arg) && Valid(m)
    requires Dispatch(op, mode, ip, arg, m).Next?
    ensures Valid(Dispatch(op, mode, ip, arg, m).m)
  {
    if op in {END, ABORT, JMP, CALL, RET} {
      FlowValid(op, ip, arg, m);
    } else if op in {JMPG, JMPL, JMPE, JMPGE, JMPLE} {
      CondValid(op, arg, m);
    } else if op in {PUSH, MOVE} {
      OperandValid(op, mode, arg, m);
    } else if op in {POP, DUP, VSET, VGET} {
      StackValid(op, m);
    } else if op in {ADD, SUB, MUL, DIV} {
      ArithValid(op, m);
    } else {
      ConsoleValid(op, m);
    }
  }

  lemma FlowValid(op: Op, ip: nat, arg: int, m: State)
    requires op in {END, ABORT, JMP, CALL, RET} && Valid(m)
    requires FlowStep(op, ip, arg, m).Next?
    ensures Valid(FlowStep(op, ip, arg, m).m)
  {
  }

  lemma CondValid(op: Op, arg: int, m: State)
    requires op in {JMPG, JMPL, JMPE, JMPGE, JMPLE} && Valid(m)
    requires CondStep(op, arg, m).Next?
    ensures Valid(CondStep(op, arg, m).m)
  {
  }

  lemma ArithValid(op: Op, m: State)
    requires op in {ADD, SUB, MUL, DIV} && Valid(m)
    requires ArithStep(op, m).Next?
    ensures Valid(ArithStep(op, m).m)
  {
  }

  lemma ConsoleValid(op: Op, m: State)
    requires op in {OUTC, OUT, CCLR, DRAW} && Valid(m)
    requires ConsoleStep(op, m).Next?
    ensures Valid(ConsoleStep(op, m).m)
  {
  }

  lemma OperandValid(op: Op, mode: nat, arg: int, m: State)
    requires op in {PUSH, MOVE} && mode < 4 && IsInt32(arg) && Valid(m)
    requires OperandStep(op, mode, arg, m).Next?
    ensures Valid(OperandStep(op, mode, arg, m).m)
  {
    var link := LinkArgument(mode, arg, |m.ram|, m.reg);
    if link.Linked? {
      assert IsInt64(CellValue(m, arg, link.cell));
    }
  }

  lemma StackValid(op: Op, m: State)
    requires op in {POP, DUP, VSET, VGET} && Valid(m)
    requires StackStep(op, m).Next?
    ensures Valid(StackStep(op, m).m)
  {
  }

  lemma ExecValid(prog: seq<Byte>, ip: nat, m: State)
    requires Valid(m) && Exec(prog, ip, m).Next?
    ensures Valid(Exec(prog, ip, m).m)
  {
    var op := OpOfByte(prog[ip]);
    if op.Some? {
      DispatchValid(op.value, ModeOf(prog[ip]), ip,
        if HasOperand(op.value) then ReadInt32(prog, ip + 1) else 0, m);
    }
  }

  /** A CALL at `ip` whose displacement leads to a RET returns, whatever the
      called code did in between as long as it left the address stack as
      it found it (in a file whose offsets fit in an `int`): the RET resumes at the command after the CALL and the
      address stack is back to what it was before the CALL. */
  lemma CallReturns(prog: seq<Byte>, ip: nat, m: State, callee: State)
    requires |prog| < TWO_31
    requires ip + 5 <= |prog| && OpOfByte(prog[ip]) == Some(CALL)
    requires var d := ReadInt32(prog, ip + 1);
      d != 0 && 0 <= ip + d < |prog| && OpOfByte(prog[ip + d]) == Some(RET)
    requires callee.calls == m.calls + [ip + 5]
    ensures Exec(prog, ip, m).Next? && Exec(prog, ip, m).shift == ReadInt32(prog, ip + 1)
    ensures Exec(prog, ip, m).m.calls == callee.calls
    ensures var r := Exec(prog, ip + ReadInt32(prog, ip + 1), callee);
      r.Next? && ip + ReadInt32(prog, ip + 1) + r.shift == ip + 5 && r.m.calls == m.calls
  {
    var d := ReadInt32(prog, ip + 1);
    var at: nat := ip + d;
    assert Exec(prog, at, callee) == FlowStep(RET, at, 0, callee);
    assert IsInt32(5 - d);
    assert callee.calls[|callee.calls| - 1] - at == 5 - d;
    assert Drop(callee.calls, 1) == m.calls;
  }

  /** MOVE then PUSH with the same memory operand: the value pushed back is
      the old top truncated to `int`, on the stack the MOVE popped. */
  lemma MoveThenPush(mode: nat, arg: int, m: State)
    requires mode < 4 && IsInt32(arg) && |m.stack| > 0
    requires var link := LinkArgument(mode, arg, |m.ram|, m.reg);
      link.Linked? && !link.cell.Operand?
    ensures OperandStep(MOVE, mode, arg, m).Next?
    ensures var m1 := OperandStep(MOVE, mode, arg, m).m;
      && OperandStep(PUSH, mode, arg, m1).Next?
      && OperandStep(PUSH, mode, arg, m1).m.stack == Drop(m.stack, 1) + [Wrap32(m.stack[|m.stack| - 1])]
  {
    var link := LinkArgument(mode, arg, |m.ram|, m.reg);
    var m1 := OperandStep(MOVE, mode, arg, m).m;
    if link.cell.RamCell? {
      assert m1.reg == m.reg;
    }
    assert LinkArgument(mode, arg, |m1.ram|, m1.reg) == link;
  }

  // ---------------------------------------------------------------------
  // The run loop.

  /** How a run ends: the last command returned shift 0; the pointer left
      the file (`EFAULT`); behaviour became undefined; or the fuel ran out
      with the pointer at `ip`. */
  datatype Run = Halted(m: State) | LeftFile(m: State, at: int) | RunUndefined | OutOfFuel(m: State, ip: nat)

  /** The loop of `main`: execute, stop on shift 0, otherwise move the
      pointer and stop with EFAULT unless it lies strictly inside the file
      (offset 0 is refused too). At most `fuel` commands are executed. */
  function Loop(prog: seq<Byte>, ip: nat, m: State, fuel: nat): (r: Run)
    ensures r.LeftFile? ==> r.m.errno == EFAULT && !(0 < r.at < |prog|)
    decreases fuel
  {
    if fuel == 0 then OutOfFuel(m, ip)
    else match Exec(prog, ip, m)
      case Undefined => RunUndefined
      case Next(m', shift) =>
        if shift == 0 then Halted(m')
        else if 0 < ip + shift < |prog| then Loop(prog, ip + shift, m', fuel - 1)
        else LeftFile(m'.(errno := EFAULT), ip + shift)
  }

  /** The processor on a loaded file: the header must be accepted, then the
      loop starts right after it with the initial machine. A file the header
      check cannot read is undefined; a rejected one ends before any command
      with EIO. */
  datatype Process = Refused | Ran(run: Run)

  function ProcessFile(f: Header.Format, c: Config, file: seq<Byte>, fuel: nat): (r: Process)
    requires Header.Valid(f)
    ensures r.Refused? <==> Header.ReadHeader(f, file).Rejected?
    ensures r.Ran? && Header.ReadHeader(f, file).Unreadable? ==> r.run.RunUndefined?
  {
    match Header.ReadHeader(f, file)
    case Rejected => Refused
    case Unreadable => Ran(RunUndefined)
    case Accepted(start) => Ran(Loop(file, start, Initial(c), fuel))
  }

  /** A run from a machine in its C types ends in one: the final machine of
      a halted, escaped or interrupted run is valid. */
  lemma {:induction false} LoopValid(prog: seq<Byte>, ip: nat, m: State, fuel: nat)
    requires Valid(m)
    ensures var r := Loop(prog, ip, m, fuel);
      (r.Halted? || r.LeftFile? || r.OutOfFuel?) ==> Valid(r.m)
    decreases fuel
  {
    if fuel > 0 && Exec(prog, ip, m).Next? {
      ExecValid(prog, ip, m);
      var step := Exec(prog, ip, m);
      if step.shift != 0 && 0 < ip + step.shift < |prog| {
        LoopValid(prog, ip + step.shift, step.m, fuel - 1);
      }
    }
  }

  /** A file that starts with the header the assembler writes is run from
      the first byte after the header, on the initial machine. */
  lemma ProcessAssembled(f: Header.Format, c: Config, body: seq<Byte>, fuel: nat)
    requires Header.Valid(f)
    ensures ProcessFile(f, c, Header.PutHeader(f) + body, fuel)
      == Ran(Loop(Header.PutHeader(f) + body, f.headerSize, Initial(c), fuel))
  {
    Header.ReadHeaderPutHeader(f, body);
  }

  /** The exit status of a finished run: success exactly when no errno value
      was left behind. */
  predicate Succeeded(r: Run)
    requires r.Halted? || r.LeftFile?
  {
    r.Halted? && r.m.errno == 0
  }
}
