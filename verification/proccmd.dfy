/** The current instruction set: the command list every tool expands from the
    same definitions (flow commands, memory commands, arithmetic, console
    commands, with the conditional jumps first because the flow list includes
    them before its own entries), the mnemonics and their hashes, and the
    opcode byte `(opcode << 2) | mode`. */
module ProcCmd {
  import opened CLib
  import opened CInt

  /** The commands, in the order of the enumeration the definitions expand to. */
  datatype Op =
    | JMPG | JMPL | JMPE | JMPGE | JMPLE
    | END | ABORT | JMP | CALL | RET
    | PUSH | POP | MOVE | DUP | VSET | VGET
    | ADD | SUB | MUL | DIV
    | OUTC | OUT | CCLR | DRAW

  /** The number of commands. */
  const COUNT: nat := 24

  /** `CMD_SOURCE`: the mnemonic of opcode `i` as it is written in source
      text. */
  const SOURCE: seq<string> := [
    "JMPG", "JMPL", "JMPE", "JMPGE", "JMPLE",
    "END", "ABORT", "JMP", "CALL", "RET",
    "PUSH", "POP", "MOVE", "DUP", "VSET", "VGET",
    "ADD", "SUB", "MUL", "DIV",
    "OUTC", "OUT", "CCLR", "DRAW"]

  /** A line whose first non-blank character is this one is a comment. */
  const COMMENT_CHAR: char := '#'

  /** The word that binds a label to the current address. */
  const LABEL_KEYWORD: string := "HERE"

  /** Size of the buffer a label name is read into. */
  const LABEL_MAX_NAME_LENGTH: nat := 128

  /** The opcode of a command: its position in the enumeration. */
  function Code(op: Op): (c: nat)
    ensures c < COUNT
  {
    match op
    case JMPG => 0
    case JMPL => 1
    case JMPE => 2
    case JMPGE => 3
    case JMPLE => 4
    case END => 5
    case ABORT => 6
    case JMP => 7
    case CALL => 8
    case RET => 9
    case PUSH => 10
    case POP => 11
    case MOVE => 12
    case DUP => 13
    case VSET => 14
    case VGET => 15
    case ADD => 16
    case SUB => 17
    case MUL => 18
    case DIV => 19
    case OUTC => 20
    case OUT => 21
    case CCLR => 22
    case DRAW => 23
  }

  /** `CMD_LIST` read backwards: the command whose opcode is `c`. Opcodes are
      dense from 0, so every number below the count names a command. */
  function OpAt(c: nat): (op: Op)
    requires c < COUNT
    ensures Code(op) == c
  {
    if c == 0 then JMPG
    else if c == 1 then JMPL
    else if c == 2 then JMPE
    else if c == 3 then JMPGE
    else if c == 4 then JMPLE
    else if c == 5 then END
    else if c == 6 then ABORT
    else if c == 7 then JMP
    else if c == 8 then CALL
    else if c == 9 then RET
    else if c == 10 then PUSH
    else if c == 11 then POP
    else if c == 12 then MOVE
    else if c == 13 then DUP
    else if c == 14 then VSET
    else if c == 15 then VGET
    else if c == 16 then ADD
    else if c == 17 then SUB
    else if c == 18 then MUL
    else if c == 19 then DIV
    else if c == 20 then OUTC
    else if c == 21 then OUT
    else if c == 22 then CCLR
    else DRAW
  }

  /** Each command is the one its own opcode names. */
  lemma OpAtCode(op: Op)
    ensures OpAt(Code(op)) == op
  {
  }

  /** The command an opcode names, if any. */
  function OpOfCode(c: int): (r: Option<Op>)
    ensures r.Some? <==> 0 <= c < COUNT
    ensures r.Some? ==> Code(r.value) == c
  {
    if 0 <= c < COUNT then Some(OpAt(c)) else None
  }

  /** The mnemonic of a command. */
  function Name(op: Op): string {
    SOURCE[Code(op)]
  }

  /** Every mnemonic is a non-empty run of capital letters. */
  lemma NameLetters(op: Op)
    ensures |Name(op)| > 0 && forall k | 0 <= k < |Name(op)| :: 'A' <= Name(op)[k] <= 'Z'
  {
  }

  /** `CMD_HASHES` for the hash function `h`: entry `i` is the hash of the
      mnemonic of opcode `i`. */
  function Hashes(h: string -> int): (hs: seq<int>)
    ensures |hs| == |SOURCE|
    ensures forall i | 0 <= i < |SOURCE| :: hs[i] == h(SOURCE[i])
  {
    seq(|SOURCE|, i requires 0 <= i < |SOURCE| => h(SOURCE[i]))
  }

  /** `__cmd_calc_hashes`: fills the hash table, running up to the command
      count cast to `char` (which keeps the count of 24 unchanged). */
  method CalcHashes(h: string -> int) returns (hs: seq<int>)
    ensures |hs| == |SOURCE|
    ensures forall i | 0 <= i < |SOURCE| :: hs[i] == h(SOURCE[i])
  {
    hs := [];
    var id := 0;
    while id < SignedByte(|SOURCE|)
      invariant 0 <= id <= |SOURCE| && |hs| == id
      invariant forall i | 0 <= i < id :: hs[i] == h(SOURCE[i])
    {
      hs := hs + [h(SOURCE[id])];
      id := id + 1;
    }
  }

  /** No two commands share a hash. */
  predicate Distinct(hs: seq<int>) {
    forall i, j | 0 <= i < j < |hs| :: hs[i] != hs[j]
  }

  /** The first position of `hs` at or after `k` holding `hash`: the chain of
      `if (hash == CMD_HASHES[...])` tests tries the commands in opcode
      order and takes the first that matches. */
  function FindFrom(hs: seq<int>, hash: int, k: nat): (r: Option<nat>)
    requires k <= |hs|
    ensures r.Some? ==> k <= r.value < |hs| && hs[r.value] == hash
    ensures r.Some? ==> forall j | k <= j < r.value :: hs[j] != hash
    ensures r.None? ==> forall j | k <= j < |hs| :: hs[j] != hash
    decreases |hs| - k
  {
    if k == |hs| then None
    else if hs[k] == hash then Some(k)
    else FindFrom(hs, hash, k + 1)
  }

  /** The command a word of source text stands for under the hash `h`. */
  function Lookup(h: string -> int, word: string): (r: Option<Op>)
    ensures r.Some? ==> h(Name(r.value)) == h(word)
    ensures r.Some? ==> forall i | 0 <= i < Code(r.value) :: h(SOURCE[i]) != h(word)
    ensures r.None? ==> forall i | 0 <= i < |SOURCE| :: h(SOURCE[i]) != h(word)
  {
    var hs := Hashes(h);
    match FindFrom(hs, h(word), 0)
    case None => None
    case Some(i) => Some(OpAt(i))
  }

  /** With distinct command hashes, a mnemonic selects its own command. */
  lemma LookupName(h: string -> int, op: Op)
    requires Distinct(Hashes(h))
    ensures Lookup(h, Name(op)) == Some(op)
  {
    var r := Lookup(h, Name(op));
    assert r.Some?;
    assert Code(r.value) == Code(op);
    OpAtCode(op);
    OpAtCode(r.value);
  }

  /** Commands that carry a 4-byte operand after the opcode byte. */
  predicate HasOperand(op: Op) {
    op in {JMPG, JMPL, JMPE, JMPGE, JMPLE, JMP, CALL, PUSH, MOVE}
  }

  /** Commands whose operand is a jump displacement. */
  predicate IsJump(op: Op) {
    op in {JMPG, JMPL, JMPE, JMPGE, JMPLE, JMP, CALL}
  }

  /** The number of bytes the assembler emits for a command. */
  function Width(op: Op): (n: nat)
    ensures n == 1 || n == 5
  {
    if HasOperand(op) then 5 else 1
  }

  /** The opcode byte: the opcode shifted left by two with the addressing
      mode in the two low bits (the OR is an addition, as the low bits of the
      shifted opcode are clear). */
  function OpcodeByte(op: Op, mode: nat): (b: Byte)
    requires mode < 4
    ensures b < 4 * COUNT
  {
    Code(op) * 4 + mode
  }

  /** The bytes the assembler emits for a command: the opcode byte, then the
      operand when the command has one. */
  function Encode(op: Op, mode: nat, arg: int): (bs: seq<Byte>)
    requires mode < 4 && IsInt32(arg)
    ensures |bs| == Width(op)
  {
    [OpcodeByte(op, mode)] + if HasOperand(op) then Int32Bytes(arg) else []
  }

  /** The operand of a jump at address `from` to address `to`: the
      difference, as an `int`. */
  function Displacement(from: int, to: int): (d: int)
    ensures IsInt32(d)
    ensures IsInt32(to - from) ==> from + d == to
  {
    Wrap32(to - from)
  }

  /** The five bytes of a command with an operand at offset `at` of a
      file. */
  function Fetch(prog: seq<Byte>, at: nat): (bs: seq<Byte>)
    requires at + 5 <= |prog|
    ensures |bs| == 5 && bs[0] == prog[at]
  {
    prog[at..at + 5]
  }

  /** The command a byte of the program selects: the switch is on
      `(*ptr) >> 2` with `*ptr` a signed `char`, so bytes from 0x80 on give
      negative opcodes and select nothing. */
  function OpOfByte(b: Byte): (r: Option<Op>)
    ensures r.Some? <==> b < 4 * COUNT
  {
    OpOfCode(SignedByte(b) / 4)
  }

  /** The addressing mode of an opcode byte (`*ptr & 3`). */
  function ModeOf(b: Byte): (m: nat)
    ensures m < 4
  {
    b % 4
  }

  /** Decoding an opcode byte gives back the command and mode it was built
      from. */
  lemma DecodeEncode(op: Op, mode: nat)
    requires mode < 4
    ensures OpOfByte(OpcodeByte(op, mode)) == Some(op)
    ensures ModeOf(OpcodeByte(op, mode)) == mode
  {
    var b := OpcodeByte(op, mode);
    assert SignedByte(b) == b;
    assert b / 4 == Code(op);
    OpAtCode(op);
  }

  /** Every byte that selects a command is the opcode byte of that command
      and its mode. */
  lemma EncodeDecode(b: Byte)
    requires OpOfByte(b).Some?
    ensures OpcodeByte(OpOfByte(b).value, ModeOf(b)) == b
  {
    assert SignedByte(b) == b;
  }
}
