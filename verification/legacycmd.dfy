/** The instruction set of the earlier revision. Its command list expands
    the flow commands, the memory commands, the arithmetic and the console
    commands, in that order. Only the memory commands and the arithmetic are
    defined here; the flow and console lists are given as names whose
    definitions are not part of this model. The opcode byte is the plain
    opcode, with no mode bits. */
module LegacyCmd {
  import opened CLib
  import opened CInt
  import ProcCmd

  /** The commands whose definitions are modelled, in the order of their
      definitions: the memory commands, then the arithmetic. */
  datatype LOp =
    | PUSH | POP | MOVE | DUP | RGET | RSET | MSET | MGET | VSET | VGET
    | ADD | SUB | MUL | DIV

  /** Their mnemonics, in the same order. */
  const KNOWN: seq<string> := [
    "PUSH", "POP", "MOVE", "DUP", "RGET", "RSET", "MSET", "MGET", "VSET", "VGET",
    "ADD", "SUB", "MUL", "DIV"]

  /** The command list: the names of the flow commands in front of the known
      ones and the names of the console commands after them. */
  datatype Table = Table(flow: seq<string>, console: seq<string>)

  /** `CMD_SOURCE`: every mnemonic, in opcode order. */
  function Source(t: Table): (src: seq<string>)
    ensures |src| == |t.flow| + |KNOWN| + |t.console|
  {
    t.flow + KNOWN + t.console
  }

  /** The opcodes fit a signed `char`: the hash loop counts up to the
      command count cast to `char`, and the processor's switch reads the
      opcode byte as a signed `char`. */
  predicate ValidTable(t: Table) {
    |Source(t)| < 128
  }

  /** The position of a known command among the known ones. */
  function Index(op: LOp): (i: nat)
    ensures i < |KNOWN|
  {
    match op
    case PUSH => 0
    case POP => 1
    case MOVE => 2
    case DUP => 3
    case RGET => 4
    case RSET => 5
    case MSET => 6
    case MGET => 7
    case VSET => 8
    case VGET => 9
    case ADD => 10
    case SUB => 11
    case MUL => 12
    case DIV => 13
  }

  /** The known command at a position. */
  function OpAt(i: nat): (op: LOp)
    requires i < |KNOWN|
    ensures Index(op) == i
  {
    [PUSH, POP, MOVE, DUP, RGET, RSET, MSET, MGET, VSET, VGET, ADD, SUB, MUL, DIV][i]
  }

  /** The opcode of a known command: the flow commands come first. */
  function Code(t: Table, op: LOp): (c: nat)
    ensures c < |Source(t)| && Source(t)[c] == KNOWN[Index(op)]
  {
    |t.flow| + Index(op)
  }

  /** The mnemonic of a known command. */
  function Name(op: LOp): string {
    KNOWN[Index(op)]
  }

  /** What an opcode stands for: a known command, or a flow or console
      command whose definition is not part of this model. */
  datatype Entry = Known(op: LOp) | Foreign(name: string)

  /** The command with opcode `c`, if there is one. */
  function EntryAt(t: Table, c: int): (r: Option<Entry>)
    ensures r.Some? <==> 0 <= c < |Source(t)|
    ensures r.Some? && r.value.Known? ==> Code(t, r.value.op) == c
    ensures r.Some? && r.value.Foreign? ==> r.value.name == Source(t)[c]
  {
    if !(0 <= c < |Source(t)|) then None
    else if c < |t.flow| then Some(Foreign(t.flow[c]))
    else if c < |t.flow| + |KNOWN| then Some(Known(OpAt(c - |t.flow|)))
    else Some(Foreign(t.console[c - |t.flow| - |KNOWN|]))
  }

  /** Opcodes are dense and each known command's opcode names it back. */
  lemma EntryAtCode(t: Table, op: LOp)
    ensures EntryAt(t, Code(t, op)) == Some(Known(op))
    ensures 0 <= Code(t, op) < |Source(t)|
  {
    assert OpAt(Index(op)) == op by {
      assert Index(OpAt(Index(op))) == Index(op);
    }
  }

  /** `CMD_HASHES` for the hash function `h`. */
  function Hashes(h: string -> int, t: Table): (hs: seq<int>)
    ensures |hs| == |Source(t)|
    ensures forall i | 0 <= i < |hs| :: hs[i] == h(Source(t)[i])
  {
    seq(|Source(t)|, i requires 0 <= i < |Source(t)| => h(Source(t)[i]))
  }

  /** `__cmd_calc_hashes`: fills the hash table up to the command count cast
      to `char`. */
  method CalcHashes(h: string -> int, t: Table) returns (hs: seq<int>)
    requires ValidTable(t)
    ensures hs == Hashes(h, t)
  {
    hs := [];
    var id := 0;
    var src := Source(t);
    while id < SignedByte(|src|)
      invariant 0 <= id <= |src| && |hs| == id
      invariant forall i | 0 <= i < id :: hs[i] == h(src[i])
    {
      hs := hs + [h(src[id])];
      id := id + 1;
    }
  }

  /** The opcode a word of source text stands for: the chain of hash tests
      tries the opcodes in order and takes the first match. */
  function Lookup(h: string -> int, t: Table, word: string): (r: Option<nat>)
    ensures r.Some? ==> r.value < |Source(t)| && h(Source(t)[r.value]) == h(word)
    ensures r.Some? ==> forall j | 0 <= j < r.value :: h(Source(t)[j]) != h(word)
    ensures r.None? ==> forall j | 0 <= j < |Source(t)| :: h(Source(t)[j]) != h(word)
  {
    var hs := Hashes(h, t);
    var r := ProcCmd.FindFrom(hs, h(word), 0);
    assert r.None? ==> forall j | 0 <= j < |hs| :: hs[j] != h(word);
    r
  }

  /** With distinct hashes over the whole list, a known mnemonic selects its
      own command. */
  lemma LookupName(h: string -> int, t: Table, op: LOp)
    requires ProcCmd.Distinct(Hashes(h, t))
    ensures Lookup(h, t, Name(op)) == Some(Code(t, op))
  {
    var hs := Hashes(h, t);
    var r := Lookup(h, t, Name(op));
    assert hs[Code(t, op)] == h(Name(op));
    assert r.Some?;
  }

  /** Commands that read a 4-byte operand after the opcode byte. */
  predicate HasOperand(op: LOp) {
    op in {PUSH, MOVE, RGET, RSET}
  }

  /** Number of bytes a command occupies in a binary. */
  function Width(op: LOp): (n: nat)
    ensures n == 1 || n == 5
  {
    if HasOperand(op) then 5 else 1
  }

  /** The bytes the assembler writes for a known command: the plain opcode
      byte, then the operand when the command has one. */
  function Encode(t: Table, op: LOp, arg: int): (bs: seq<Byte>)
    requires ValidTable(t) && IsInt32(arg)
    ensures |bs| == Width(op) && bs[0] == Code(t, op)
  {
    [Code(t, op) as Byte] + if HasOperand(op) then Int32Bytes(arg) else []
  }
}
