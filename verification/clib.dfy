/** The pieces of the C runtime the processor tools lean on: optional values,
    errno codes (Linux numbering), the C locale's character classes and the
    signed `char` type. */
module CLib {

  /** A value that may be missing, used where the C code returns a sentinel or
      leaves an out-parameter untouched. */
  datatype Option<+T> = None | Some(value: T) {
    /** Returns the value inside `Some`, or `default` when there is none. */
    function GetOr(default: T): T {
      match this
      case Some(v) => v
      case None => default
    }
  }

  /** errno values written by the tools (Linux numbering). Zero means "no
      error was written". */
  const ENOENT: int := 2
  const EIO: int := 5
  const ENXIO: int := 6
  const EAGAIN: int := 11
  const ENOMEM: int := 12
  const EFAULT: int := 14
  const EINVAL: int := 22

  /** `isspace` in the C locale: space, tab, newline, vertical tab, form feed
      and carriage return. */
  predicate IsSpace(c: char) {
    c == ' ' || ('\t' <= c <= '\r')
  }

  /** `isdigit` in the C locale. */
  predicate IsDigit(c: char) {
    '0' <= c <= '9'
  }

  /** The numeric value of a decimal digit character. */
  function DigitValue(c: char): (d: nat)
    requires IsDigit(c)
    ensures d < 10
  {
    c as int - '0' as int
  }

  /** The digit character of a number below ten. */
  function DigitChar(d: nat): (c: char)
    requires d < 10
    ensures IsDigit(c) && DigitValue(c) == d
  {
    (d + '0' as int) as char
  }

  /** The value a (signed) C `char` holds when the program reads the character
      `c` from its text: each character of the model's strings stands for one
      byte of the file, and bytes 128..255 read as negative numbers. */
  function CharValue(c: char): (v: int)
    ensures -128 <= v < 128
    ensures (v - c as int) % 256 == 0
  {
    var b := c as int % 256;
    if b < 128 then b else b - 256
  }

  /** The character a C `char` holding `v` stands for when it is printed with
      "%c" or `putc`: the byte `v mod 256`. */
  function CharOfValue(v: int): (c: char)
    ensures c as int < 256
    ensures (c as int - v) % 256 == 0
  {
    (v % 256) as char
  }

  /** `isprint` in the C locale, applied to a C `char` value. */
  predicate IsPrint(v: int) {
    32 <= v <= 126
  }

  /** A character read back from the byte a `char` was printed as has the
      same C value. */
  lemma CharValueOfValue(v: int)
    requires -128 <= v < 128
    ensures CharValue(CharOfValue(v)) == v
  {
  }
}
