/** The processor of the earlier revision. It selects a command by the whole
    opcode byte; the memory commands read their addressing mode from the low
    two bits of that same byte. Values are taken off the stack as `int`,
    and the arithmetic is done in `int`. The flow and console commands are
    defined outside this model, so executing one is `Unmodelled`. */
module LegacyMachine {
  import opened CLib
  import opened CInt
  import opened ArgWorks
  import opened LegacyCmd
  import Machine
  import ProcCmd
  import Header

  /** The machine is the one of the current processor: value stack, address
      stack, RAM, registers, video memory, errno and console output. */
  type State = Machine.State

  /** The result of one instruction: the machine and the shift (0 stops the
      run); behaviour the C code leaves undefined; or a command whose
      definition is not part of this model. */
  datatype Step = Next(m: State, shift: int) | Undefined | Unmodelled

  /** The value stack without its top `n` values. */
  function Drop(s: seq<int>, n: nat): seq<int>
    requires n <= |s|
  {
    s[..|s| - n]
  }

  /** The top of a non-empty stack, read as `int`. */
  function Top(s: seq<int>): int
    requires |s| > 0
  {
    Wrap32(s[|s| - 1])
  }

  // ---------------------------------------------------------------------
  // Commands with an operand.

  /** PUSH: the operand is resolved under the mode `usage`; a failed bounds
      check sets EFAULT but the read still happens, which is undefined. */
  function PushStep(usage: nat, arg: int, m: State): (r: Step)
    requires usage < 4 && IsInt32(arg)
    ensures usage == 0 ==> r == Next(m.(stack := m.stack + [arg]), 5)
    ensures usage == USE_MEMORY ==>
      r == if 0 <= arg < |m.ram| then Next(m.(stack := m.stack + [m.ram[arg]]), 5) else Undefined
    ensures usage == USE_REGISTER ==>
      r == if 0 <= arg < |m.reg| then Next(m.(stack := m.stack + [m.reg[arg]]), 5) else Undefined
    ensures !r.Unmodelled?
  {
    match LinkArgument(usage, arg, |m.ram|, m.reg)
    case Linked(cell) => Next(m.(stack := m.stack + [Machine.CellValue(m, arg, cell)]), 5)
    case _ => Undefined
  }

  /** The register-indexed offset as MOVE reads it: bytes 1 to 3 of the
      operand copied into a zeroed `int`, with no sign extension. */
  function MoveOffsetAsWritten(arg: int): (off: int)
    requires IsInt32(arg)
    ensures 0 <= off < TWO_24
  {
    Unsigned32(arg) / 0x100
  }

  /** MOVE as written resolves a register-indexed operand through the
      zero-extended offset: for the operand `[RAX + -1]` it addresses 2^24
      cells past the one PUSH reads with the same operand. */
  lemma MoveOffsetDiverges()
    ensures Pack(0, -1) == -0x100
    ensures MoveOffsetAsWritten(Pack(0, -1)) == TWO_24 - 1
    ensures RegOffset(Pack(0, -1)) == -1
  {
    UnpackPack(0, -1);
    assert Pack(0, -1) == 0x100 * RegOffset(Pack(0, -1)) + RegId(Pack(0, -1));
  }

  /** The sign-extended offset and the zero-extended one agree exactly on
      operands whose offset is not negative. */
  lemma MoveOffsetAgrees(arg: int)
    requires IsInt32(arg)
    ensures MoveOffsetAsWritten(arg) == RegOffset(arg) <==> RegOffset(arg) >= 0
  {
    if arg < 0 {
      assert Unsigned32(arg) == arg + TWO_32;
      assert arg + TWO_32 == 0x100 * (RegOffset(arg) + TWO_24) + RegId(arg);
      DivMod256(arg + TWO_32, RegOffset(arg) + TWO_24, RegId(arg));
    } else {
      DivMod256(arg, RegOffset(arg), RegId(arg));
    }
  }

  /** The RAM cell MOVE as written stores to for a register-indexed
      operand: register `arg & 0xFF` plus the zero-extended offset. `None`
      when the register or the cell does not exist; the failed check does
      not stop the store, which then goes out of bounds. */
  function MoveCellAsWritten(arg: int, m: State): (cell: Option<nat>)
    requires IsInt32(arg)
    ensures cell.Some? ==> cell.value < |m.ram|
    ensures cell.Some? <==> RegId(arg) < |m.reg| && 0 <= Wrap32(m.reg[RegId(arg)] + MoveOffsetAsWritten(arg)) < |m.ram|
    ensures cell.Some? ==> cell.value == Wrap32(m.reg[RegId(arg)] + MoveOffsetAsWritten(arg))
  {
    var id := RegId(arg);
    if id >= |m.reg| then None
    else
      var index := Wrap32(m.reg[id] + MoveOffsetAsWritten(arg));
      if 0 <= index < |m.ram| then Some(index) else None
  }

  /** The cell MOVE as written resolves its operand to: as PUSH does, except
      for a register-indexed operand, whose offset is zero-extended. */
  function MoveLinkAsWritten(usage: nat, arg: int, m: State): (r: Link)
    requires usage < 4 && IsInt32(arg)
    ensures usage != USE_MEMORY + USE_REGISTER ==> r == LinkArgument(usage, arg, |m.ram|, m.reg)
    ensures usage == USE_MEMORY + USE_REGISTER ==>
      match MoveCellAsWritten(arg, m)
      case Some(i) => r == Linked(RamCell(i))
      case None => r == Fault
  {
    if usage == USE_MEMORY + USE_REGISTER then
      match MoveCellAsWritten(arg, m)
      case Some(i) => Linked(RamCell(i))
      case None => Fault
    else LinkArgument(usage, arg, |m.ram|, m.reg)
  }

  /** MOVE through the resolved cell `link`: the top, read as `int`, is
      stored there and popped. In immediate mode the top is only popped; on
      an empty stack that sets EFAULT, then ENXIO, and the shift still grows
      by four. Any other access to an empty stack, or out of bounds, is
      undefined. */
  function MoveThrough(usage: nat, link: Link, m: State): (r: Step)
    requires usage < 4
    requires link.Linked? && link.cell.RamCell? ==> link.cell.index < |m.ram|
    requires link.Linked? && link.cell.RegCell? ==> link.cell.index < |m.reg|
    ensures !r.Unmodelled?
  {
    if usage == 0 then
      if |m.stack| == 0 then Next(m.(errno := ENXIO), 4) else Next(m.(stack := Drop(m.stack, 1)), 5)
    else if |m.stack| == 0 then Undefined
    else
      match link
      case Linked(cell) => Next(Machine.Store(m, cell, Top(m.stack)).(stack := Drop(m.stack, 1)), 5)
      case _ => Undefined
  }

  /** MOVE as written. A register-indexed operand addresses register
      `arg & 0xFF` plus the zero-extended offset, and the command completes
      exactly when that register and that cell exist. */
  function MoveStep(usage: nat, arg: int, m: State): (r: Step)
    requires usage < 4 && IsInt32(arg)
    ensures usage == 0 ==>
      r == if |m.stack| == 0 then Next(m.(errno := ENXIO), 4) else Next(m.(stack := Drop(m.stack, 1)), 5)
    ensures r.Next? && usage != 0 ==>
      |m.stack| > 0 && r.shift == 5 && r.m.stack == Drop(m.stack, 1) && r.m.errno == m.errno
    ensures usage == USE_MEMORY && r.Next? ==> 0 <= arg < |m.ram| && r.m.ram == m.ram[arg := Top(m.stack)] && r.m.reg == m.reg
    ensures usage == USE_REGISTER && r.Next? ==> 0 <= arg < |m.reg| && r.m.reg == m.reg[arg := Top(m.stack)] && r.m.ram == m.ram
    ensures usage == USE_MEMORY + USE_REGISTER && |m.stack| > 0 ==> (r.Next? <==> MoveCellAsWritten(arg, m).Some?)
    ensures usage == USE_MEMORY + USE_REGISTER && r.Next? ==>
      r.m.ram == m.ram[MoveCellAsWritten(arg, m).value := Top(m.stack)] && r.m.reg == m.reg
    ensures !r.Unmodelled?
  {
    MoveThrough(usage, MoveLinkAsWritten(usage, arg, m), m)
  }

  /** MOVE as intended: the register-indexed offset sign-extended, as PUSH
      resolves it. */
  function MoveStepIntended(usage: nat, arg: int, m: State): (r: Step)
    requires usage < 4 && IsInt32(arg)
    ensures usage != USE_MEMORY + USE_REGISTER ==> r == MoveStep(usage, arg, m)
    ensures usage == USE_MEMORY + USE_REGISTER && r.Next? ==>
      var link := LinkArgument(usage, arg, |m.ram|, m.reg);
      link.Linked? && link.cell.RamCell? && |m.stack| > 0
      && r.m.ram == m.ram[link.cell.index := Top(m.stack)] && r.m.stack == Drop(m.stack, 1)
  {
    MoveThrough(usage, LinkArgument(usage, arg, |m.ram|, m.reg), m)
  }

  /** The two MOVEs part on `MOVE [RAX + -1]` with RAX = 5 and 100 RAM
      cells: as written the store goes 2^24 - 1 cells up, outside RAM, which
      is undefined; as intended it stores to cell 4. */
  lemma MoveStepDiverges(m: State)
    requires |m.reg| > 0 && m.reg[0] == 5 && |m.ram| == 100 && |m.stack| > 0
    ensures MoveStep(USE_MEMORY + USE_REGISTER, Pack(0, -1), m) == Undefined
    ensures var r := MoveStepIntended(USE_MEMORY + USE_REGISTER, Pack(0, -1), m);
      r.Next? && r.m.ram == m.ram[4 := Top(m.stack)]
  {
    MoveOffsetDiverges();
    assert Wrap32(5 + (TWO_24 - 1)) == 5 + (TWO_24 - 1);
    assert Wrap32(5 + -1) == 4;
  }

  /** The two MOVEs are the same command on every operand whose offset is
      not negative. */
  lemma MoveStepAgrees(usage: nat, arg: int, m: State)
    requires usage < 4 && IsInt32(arg) && RegOffset(arg) >= 0
    ensures MoveStep(usage, arg, m) == MoveStepIntended(usage, arg, m)
  {
    MoveOffsetAgrees(arg);
  }

  /** MOVE as intended and PUSH with the same operand, register-indexed
      included, address the same cell: a MOVE then a PUSH gives back the old
      top as `int`. */
  lemma MoveThenPush(usage: nat, arg: int, m: State)
    requires 0 < usage < 4 && IsInt32(arg) && |m.stack| > 0
    requires LinkArgument(usage, arg, |m.ram|, m.reg).Linked?
    ensures MoveStepIntended(usage, arg, m).Next?
    ensures var m1 := MoveStepIntended(usage, arg, m).m;
      && PushStep(usage, arg, m1).Next?
      && PushStep(usage, arg, m1).m.stack == Drop(m.stack, 1) + [Top(m.stack)]
  {
    var link := LinkArgument(usage, arg, |m.ram|, m.reg);
    var m1 := MoveStepIntended(usage, arg, m).m;
    if link.cell.RamCell? {
      assert m1.reg == m.reg;
    }
    assert LinkArgument(usage, arg, |m1.ram|, m1.reg) == link;
  }

  /** The register bound check of RGET and RSET as written: it lets the
      index one past the last register through. */
  predicate RegGuardAsWritten(id: int, regSize: nat) {
    0 <= id <= regSize
  }

  /** The check as written admits the index one past the last register:
      it raises no EFAULT there, although RGET and RSET then read or write
      past the register file. */
  lemma RegGuardAdmitsEnd(m: State)
    ensures RegGuardAsWritten(|m.reg|, |m.reg|) && !RegGuard(|m.reg|, |m.reg|)
    ensures RgetStep(|m.reg|, m) == Undefined && RsetStep(|m.reg|, m) == Undefined
  {
  }

  /** The register bound check as intended: exactly the indices of the
      register file. */
  predicate RegGuard(id: int, regSize: nat) {
    0 <= id < regSize
  }

  /** RGET: pushes register `id` (the operand) and moves on by five bytes;
      an index outside the register file is read anyway, which is
      undefined. */
  function RgetStep(id: int, m: State): (r: Step)
    ensures r.Next? <==> 0 <= id < |m.reg|
    ensures r.Next? ==> r.shift == 5 && r.m.stack == m.stack + [m.reg[id]]
    ensures r.Next? ==> r.m.reg == m.reg && r.m.ram == m.ram && r.m.errno == m.errno
  {
    if RegGuard(id, |m.reg|) then Next(m.(stack := m.stack + [m.reg[id]]), 5) else Undefined
  }

  /** RSET: stores the top, as `int`, in register `id` without popping it;
      an index outside the register file or an empty stack is undefined. */
  function RsetStep(id: int, m: State): (r: Step)
    ensures r.Next? <==> 0 <= id < |m.reg| && |m.stack| > 0
    ensures r.Next? ==> r.shift == 5 && r.m.reg == m.reg[id := Top(m.stack)]
    ensures r.Next? ==> r.m.stack == m.stack && r.m.ram == m.ram && r.m.errno == m.errno
  {
    if !RegGuard(id, |m.reg|) || |m.stack| == 0 then Undefined
    else Next(m.(reg := m.reg[id := Top(m.stack)]), 5)
  }

  /** RSET then RGET on the same register pushes a copy of the top, as
      `int`. */
  lemma RsetThenRget(id: int, m: State)
    requires 0 <= id < |m.reg| && |m.stack| > 0
    ensures RsetStep(id, m).Next?
    ensures RgetStep(id, RsetStep(id, m).m).Next?
    ensures RgetStep(id, RsetStep(id, m).m).m.stack == m.stack + [Top(m.stack)]
  {
  }

  // ---------------------------------------------------------------------
  // Commands without an operand.

  /** POP: an empty stack sets EFAULT and shift 0, then the pop fails with
      ENXIO and changes nothing else. */
  function PopStep(m: State): (r: Step)
    ensures |m.stack| == 0 ==> r == Next(m.(errno := ENXIO), 0)
    ensures |m.stack| > 0 ==> r.Next? && r.shift == 1 && r.m.stack == Drop(m.stack, 1)
    ensures r.Next? ==> r.m.ram == m.ram && r.m.reg == m.reg && r.m.vmd == m.vmd
  {
    if |m.stack| == 0 then Next(m.(errno := ENXIO), 0) else Next(m.(stack := Drop(m.stack, 1)), 1)
  }

  /** DUP: pushes a copy of the top; on an empty stack the copied value is
      undefined. */
  function DupStep(m: State): (r: Step)
    ensures r.Next? <==> |m.stack| > 0
    ensures r.Next? ==> r.shift == 1 && r.m.stack == m.stack + [m.stack[|m.stack| - 1]]
  {
    if |m.stack| == 0 then Undefined else Next(m.(stack := m.stack + [m.stack[|m.stack| - 1]]), 1)
  }

  /** Which memory segment a keyed command works on. */
  datatype Segment = Ram | Video

  /** The cells of a segment. */
  function Cells(m: State, g: Segment): seq<int> {
    if g == Ram then m.ram else m.vmd
  }

  /** The machine with the cells of a segment replaced. */
  function WithCells(m: State, g: Segment, cs: seq<int>): State {
    if g == Ram then m.(ram := cs) else m.(vmd := cs)
  }

  /** MSET and VSET: pop the key, then store the value below it (as `int`)
      at that key of RAM or video memory, leaving the value on the stack. A
      key outside the segment is written anyway, which is undefined, and so
      is a read of an empty stack. */
  function SetStep(g: Segment, m: State): (r: Step)
    ensures r.Next? <==> |m.stack| >= 2 && 0 <= Top(m.stack) < |Cells(m, g)|
    ensures r.Next? ==> r.shift == 1 && r.m.stack == Drop(m.stack, 1)
    ensures r.Next? ==> Cells(r.m, g) == Cells(m, g)[Top(m.stack) := Top(Drop(m.stack, 1))]
    ensures r.Next? ==> r.m.reg == m.reg && r.m.errno == m.errno
  {
    var n := |m.stack|;
    if n < 2 then Undefined
    else
      var key, value := Top(m.stack), Top(Drop(m.stack, 1));
      if !(0 <= key < |Cells(m, g)|) then Undefined
      else Next(WithCells(m, g, Cells(m, g)[key := value]).(stack := Drop(m.stack, 1)), 1)
  }

  /** MGET and VGET: pop the key and push the cell of RAM or video memory
      at that key; a key outside the segment is read anyway. */
  function GetStep(g: Segment, m: State): (r: Step)
    ensures r.Next? <==> |m.stack| > 0 && 0 <= Top(m.stack) < |Cells(m, g)|
    ensures r.Next? ==> r.shift == 1 && r.m.stack == Drop(m.stack, 1) + [Cells(m, g)[Top(m.stack)]]
    ensures r.Next? ==> r.m.ram == m.ram && r.m.vmd == m.vmd && r.m.reg == m.reg && r.m.errno == m.errno
  {
    var n := |m.stack|;
    if n == 0 then Undefined
    else
      var key := Top(m.stack);
      if !(0 <= key < |Cells(m, g)|) then Undefined
      else Next(m.(stack := Drop(m.stack, 1) + [Cells(m, g)[key]]), 1)
  }

  /** A set then a get with the same key in the same segment pushes back the
      value stored, as `int`. */
  lemma SetThenGet(g: Segment, m: State, v: int, key: int)
    requires IsInt32(key) && 0 <= key < |Cells(m, g)| && |m.stack| >= 2
    requires Top(m.stack) == key
    ensures SetStep(g, m).Next?
    ensures var m1 := SetStep(g, m).m;
      var m2 := m1.(stack := m1.stack + [key]);
      && GetStep(g, m2).Next?
      && GetStep(g, m2).m.stack == Drop(m.stack, 1) + [Top(Drop(m.stack, 1))]
  {
    var m1 := SetStep(g, m).m;
    var m2 := m1.(stack := m1.stack + [key]);
    assert Top(m2.stack) == key;
    assert Drop(m2.stack, 1) == Drop(m.stack, 1);
  }

  /** `a op b` in `int` for the arithmetic commands; `None` where C leaves
      it undefined (overflow, or division by zero). Division truncates
      toward zero. */
  function Arith(op: LOp, a: int, b: int): (r: Option<int>)
    requires op in {ADD, SUB, MUL, DIV}
    ensures r.Some? ==> IsInt32(r.value)
    ensures op == DIV && b == 0 ==> r.None?
  {
    var v := match op
      case ADD => Some(a + b)
      case SUB => Some(a - b)
      case MUL => Some(a * b)
      case DIV => if b == 0 then None else Some(CDiv(a, b));
    if v.Some? && IsInt32(v.value) then v else None
  }

  /** ADD, SUB, MUL and DIV: the top `a` and the value `b` below it are each
      read as `int` and popped, and `a op b` is pushed. Fewer than two
      values is undefined. */
  function ArithStep(op: LOp, m: State): (r: Step)
    requires op in {ADD, SUB, MUL, DIV}
    ensures r.Next? <==> |m.stack| >= 2 && Arith(op, Top(m.stack), Top(Drop(m.stack, 1))).Some?
    ensures r.Next? ==> r.shift == 1
    ensures r.Next? ==> r.m.stack == Drop(m.stack, 2) + [Arith(op, Top(m.stack), Top(Drop(m.stack, 1))).value]
    ensures r.Next? ==> r.m.ram == m.ram && r.m.reg == m.reg && r.m.errno == m.errno
  {
    if |m.stack| < 2 then Undefined
    else
      match Arith(op, Top(m.stack), Top(Drop(m.stack, 1)))
      case None => Undefined
      case Some(v) => Next(m.(stack := Drop(m.stack, 2) + [v]), 1)
  }

  /** The current revision's arithmetic command of the same name. */
  function CurrentArith(op: LOp): (c: ProcCmd.Op)
    requires op in {ADD, SUB, MUL, DIV}
    ensures c in {ProcCmd.ADD, ProcCmd.SUB, ProcCmd.MUL, ProcCmd.DIV}
  {
    match op
    case ADD => ProcCmd.ADD
    case SUB => ProcCmd.SUB
    case MUL => ProcCmd.MUL
    case DIV => ProcCmd.DIV
  }

  /** On operands and a result that fit an `int`, the earlier arithmetic
      computes what the current one does. */
  lemma ArithAgrees(op: LOp, m: State)
    requires op in {ADD, SUB, MUL, DIV} && |m.stack| >= 2
    requires IsInt32(m.stack[|m.stack| - 1]) && IsInt32(m.stack[|m.stack| - 2])
    requires Arith(op, m.stack[|m.stack| - 1], m.stack[|m.stack| - 2]).Some?
    ensures ArithStep(op, m).Next? && Machine.ArithStep(CurrentArith(op), m).Next?
    ensures ArithStep(op, m).m == Machine.ArithStep(CurrentArith(op), m).m
  {
    var a, b := m.stack[|m.stack| - 1], m.stack[|m.stack| - 2];
    assert Drop(m.stack, 1)[|m.stack| - 2] == b;
  }

  /** The operands are cut to `int` first: ADD of 2^32 and 1 pushes 1,
      where the current processor pushes 2^32 + 1. */
  lemma ArithTruncates(m: State)
    requires m.stack == [1, TWO_32]
    ensures ArithStep(ADD, m) == Next(m.(stack := [1]), 1)
    ensures Machine.ArithStep(ProcCmd.ADD, m) == Machine.Next(m.(stack := [TWO_32 + 1]), 1)
  {
    assert Top(m.stack) == 0;
    assert Drop(m.stack, 1) == [1];
    assert Drop(m.stack, 2) == [];
  }

  // ---------------------------------------------------------------------
  // Dispatch and the run loop.

  /** A known command with the mode `usage` (the low bits of its opcode
      byte) and the operand `arg` (0 for commands without one). */
  function Dispatch(op: LOp, usage: nat, arg: int, m: State): (r: Step)
    requires usage < 4 && IsInt32(arg)
    ensures !r.Unmodelled?
    ensures r.Next? ==> r.m.calls == m.calls && r.m.output == m.output
    ensures r.Next? && r.shift != 0 ==> r.shift == Width(op) || (op == MOVE && r.shift == 4)
  {
    match op
    case PUSH => PushStep(usage, arg, m)
    case MOVE => MoveStep(usage, arg, m)
    case RGET => RgetStep(arg, m)
    case RSET => RsetStep(arg, m)
    case POP => PopStep(m)
    case DUP => DupStep(m)
    case MSET => SetStep(Ram, m)
    case VSET => SetStep(Video, m)
    case MGET => GetStep(Ram, m)
    case VGET => GetStep(Video, m)
    case ADD | SUB | MUL | DIV => ArithStep(op, m)
  }

  /** `execute_command`: the switch is on the whole opcode byte, read as a
      signed `char`; an opcode that names no command sets EIO and stops. A
      command with an operand reads the four bytes after the opcode byte. */
  function Exec(t: Table, prog: seq<Byte>, ip: nat, m: State): (r: Step)
    ensures ip < |prog| && EntryAt(t, SignedByte(prog[ip])).None? ==> r == Next(m.(errno := EIO), 0)
    ensures r.Unmodelled? ==> ip < |prog| && EntryAt(t, SignedByte(prog[ip])).value.Foreign?
    ensures r.Next? ==> r.m.calls == m.calls && r.m.output == m.output
  {
    if ip >= |prog| then Undefined
    else
      match EntryAt(t, SignedByte(prog[ip]))
      case None => Next(m.(errno := EIO), 0)
      case Some(Foreign(_)) => Unmodelled
      case Some(Known(op)) =>
        if HasOperand(op) && ip + 5 > |prog| then Undefined
        else Dispatch(op, prog[ip] % 4, if HasOperand(op) then ReadInt32(prog, ip + 1) else 0, m)
  }

  /** An encoded known command executes with the operand it was encoded
      with, and with the addressing mode its own opcode's low bits spell. */
  lemma ExecEncode(t: Table, pre: seq<Byte>, op: LOp, arg: int, post: seq<Byte>, m: State)
    requires ValidTable(t) && IsInt32(arg)
    ensures Exec(t, pre + Encode(t, op, arg) + post, |pre|, m)
      == Dispatch(op, Code(t, op) % 4, if HasOperand(op) then arg else 0, m)
  {
    var prog := pre + Encode(t, op, arg) + post;
    assert prog[|pre|] == Code(t, op);
    EntryAtCode(t, op);
    if HasOperand(op) {
      assert prog == (pre + [Code(t, op) as Byte]) + Int32Bytes(arg) + post;
      ReadInt32Bytes(arg, pre + [Code(t, op) as Byte], post);
    }
  }

  /** How a run ends: shift 0; the pointer left the file (EFAULT);
      undefined behaviour; a command outside this model; or the fuel ran out
      with the pointer at `ip`. */
  datatype Run =
    | Halted(m: State)
    | LeftFile(m: State, at: int)
    | RunUndefined
    | RunUnmodelled
    | OutOfFuel(m: State, ip: nat)

  /** The loop of `main`: execute, stop on shift 0, otherwise move the
      pointer and stop with EFAULT unless it lies strictly inside the file.
      At most `fuel` commands are executed. */
  function Loop(t: Table, prog: seq<Byte>, ip: nat, m: State, fuel: nat): (r: Run)
    ensures r.LeftFile? ==> r.m.errno == EFAULT && !(0 < r.at < |prog|)
    ensures r.OutOfFuel? ==> 0 < r.ip < |prog| || (r.m == m && r.ip == ip)
    ensures (r.Halted? || r.LeftFile? || r.OutOfFuel?) ==> r.m.calls == m.calls && r.m.output == m.output
    decreases fuel
  {
    if fuel == 0 then OutOfFuel(m, ip)
    else match Exec(t, prog, ip, m)
      case Undefined => RunUndefined
      case Unmodelled => RunUnmodelled
      case Next(m', shift) =>
        if shift == 0 then Halted(m')
        else if 0 < ip + shift < |prog| then Loop(t, prog, ip + shift, m', fuel - 1)
        else LeftFile(m'.(errno := EFAULT), ip + shift)
  }

  /** The outcome of the processor on a loaded file. */
  datatype Process = Refused | Ran(run: Run)

  /** `main` after the file is read: the header check (the same rule as the
      current processor's), then the loop from the first byte after the
      header on the machine `m`, whose RAM and video memory the program
      itself does not define. */
  function ProcessFile(t: Table, f: Header.Format, m: State, file: seq<Byte>, fuel: nat): (r: Process)
    requires Header.Valid(f)
    ensures r.Refused? <==> Header.ReadHeader(f, file).Rejected?
    ensures r.Ran? && Header.ReadHeader(f, file).Unreadable? ==> r.run.RunUndefined?
  {
    match Header.ReadHeader(f, file)
    case Rejected => Refused
    case Unreadable => Ran(RunUndefined)
    case Accepted(start) => Ran(Loop(t, file, start, m, fuel))
  }

  /** The registers as `main` allocates them: `calloc` gives zeros. */
  function ZeroRegisters(n: nat): (reg: seq<int>)
    ensures |reg| == n && forall i | 0 <= i < n :: reg[i] == 0
  {
    seq(n, i => 0)
  }
}
