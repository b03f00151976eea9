/** Fixed-width integer behaviour of the C program written out over Dafny's
    unbounded integers: two's-complement wrap-around of `int` (32 bits) and
    `long long` (64 bits), truncating division, bytes in little-endian order
    and bitwise OR. */
module CInt {

  /** One byte of a binary file. */
  type Byte = b: int | 0 <= b < 256

  const TWO_8: int := 0x100
  const TWO_24: int := 0x100_0000
  const TWO_31: int := 0x8000_0000
  const TWO_32: int := 0x1_0000_0000
  const TWO_63: int := 0x8000_0000_0000_0000
  const TWO_64: int := 0x1_0000_0000_0000_0000

  predicate IsInt32(x: int) {
    -TWO_31 <= x < TWO_31
  }

  /** A value of C `int`. */
  type Int32 = x: int | -0x8000_0000 <= x < 0x8000_0000

  predicate IsInt64(x: int) {
    -TWO_63 <= x < TWO_63
  }

  /** The `int` a conversion or a wrapping 32-bit operation yields for the
      mathematical value `x`: the unique 32-bit value congruent to `x`. */
  function Wrap32(x: int): (r: int)
    ensures IsInt32(r)
    ensures (x - r) % TWO_32 == 0
    ensures IsInt32(x) ==> r == x
  {
    var m := x % TWO_32;
    if m < TWO_31 then m else m - TWO_32
  }

  /** The `long long` a wrapping 64-bit operation yields for `x`. */
  function Wrap64(x: int): (r: int)
    ensures IsInt64(r)
    ensures (x - r) % TWO_64 == 0
    ensures IsInt64(x) ==> r == x
  {
    var m := x % TWO_64;
    if m < TWO_63 then m else m - TWO_64
  }

  /** Two integers congruent modulo 2^32 wrap to the same `int`. */
  lemma Wrap32Congruent(x: int, y: int)
    requires (x - y) % TWO_32 == 0
    ensures Wrap32(x) == Wrap32(y)
  {
    assert x % TWO_32 == y % TWO_32 by {
      var k := (x - y) / TWO_32;
      assert x - y == k * TWO_32;
      assert x == y + k * TWO_32;
    }
  }

  /** The value a byte of the file has when it is read through a (signed)
      `char` pointer. */
  function SignedByte(b: Byte): (v: int)
    ensures -128 <= v < 128
    ensures (v - b) % 256 == 0
  {
    if b < 128 then b else b - 256
  }

  function Abs(x: int): nat {
    if x < 0 then -x else x
  }

  /** C division on integers: the quotient truncated toward zero, so the
      remainder is smaller than the divisor and takes the dividend's sign. */
  function CDiv(a: int, b: int): (q: int)
    requires b != 0
    ensures Abs(a - q * b) < Abs(b)
    ensures a - q * b == 0 || (a - q * b < 0 <==> a < 0)
  {
    var q0 := Abs(a) / Abs(b);
    var r0 := Abs(a) % Abs(b);
    assert Abs(a) == q0 * Abs(b) + r0;
    var q := if (a < 0) == (b < 0) then q0 else -q0;
    assert q * b == q0 * Abs(b) || q * b == -(q0 * Abs(b)) by {
      if b < 0 {
        assert Abs(b) == -b;
      }
    }
    assert a - q * b == (if a < 0 then -r0 else r0);
    q
  }

  /** The bit pattern of the `int` `x` read as an unsigned number. */
  function Unsigned32(x: int): (u: nat)
    requires IsInt32(x)
    ensures u < TWO_32 && (u - x) % TWO_32 == 0
  {
    if x < 0 then x + TWO_32 else x
  }

  /** Quotient and remainder by 256 of a number written as `256 * q + r`. */
  lemma DivMod256(x: int, q: int, r: int)
    requires x == 0x100 * q + r && 0 <= r < 0x100
    ensures x / 0x100 == q && x % 0x100 == r
  {
  }

  /** The four bytes, least significant first, that hold the `int` `x`. */
  function Int32Bytes(x: int): (bs: seq<Byte>)
    requires IsInt32(x)
    ensures |bs| == 4
  {
    var u := Unsigned32(x);
    var c1 := u / 0x100;
    var c2 := c1 / 0x100;
    var c3 := c2 / 0x100;
    [u % 0x100, c1 % 0x100, c2 % 0x100, c3]
  }

  /** The unsigned number four bytes spell, least significant first. */
  function LittleEndian(b0: int, b1: int, b2: int, b3: int): int {
    b0 + 0x100 * (b1 + 0x100 * (b2 + 0x100 * b3))
  }

  /** The `int` stored little-endian in `bs[at..at + 4]`. */
  function ReadInt32(bs: seq<Byte>, at: nat): (x: int)
    requires at + 4 <= |bs|
    ensures IsInt32(x)
  {
    Wrap32(LittleEndian(bs[at], bs[at + 1], bs[at + 2], bs[at + 3]))
  }

  /** Reading back the bytes written for an `int` yields that `int`. */
  lemma ReadInt32Bytes(x: int, pre: seq<Byte>, post: seq<Byte>)
    requires IsInt32(x)
    ensures ReadInt32(pre + Int32Bytes(x) + post, |pre|) == x
  {
    var bs := pre + Int32Bytes(x) + post;
    var u := Unsigned32(x);
    var c1 := u / 0x100;
    var c2 := c1 / 0x100;
    var c3 := c2 / 0x100;
    assert bs[|pre|..|pre| + 4] == Int32Bytes(x);
    assert u == u % 0x100 + 0x100 * c1;
    assert c1 == c1 % 0x100 + 0x100 * c2;
    assert c2 == c2 % 0x100 + 0x100 * c3;
    assert LittleEndian(bs[|pre|], bs[|pre| + 1], bs[|pre| + 2], bs[|pre| + 3]) == u;
  }

  /** Writing out an `int` read from four bytes gives those bytes back. */
  lemma Int32BytesRead(bs: seq<Byte>, at: nat)
    requires at + 4 <= |bs|
    ensures Int32Bytes(ReadInt32(bs, at)) == bs[at..at + 4]
  {
    var b0: int, b1: int, b2: int, b3: int := bs[at], bs[at + 1], bs[at + 2], bs[at + 3];
    var u := LittleEndian(b0, b1, b2, b3);
    assert 0 <= u < TWO_32;
    var x := ReadInt32(bs, at);
    assert Unsigned32(x) == u;
    DivMod256(u, b1 + 0x100 * (b2 + 0x100 * b3), b0);
    DivMod256(b1 + 0x100 * (b2 + 0x100 * b3), b2 + 0x100 * b3, b1);
    DivMod256(b2 + 0x100 * b3, b3, b2);
  }

  function Pow2(k: nat): (p: nat)
    ensures p >= 1
  {
    if k == 0 then 1 else 2 * Pow2(k - 1)
  }

  /** Bitwise OR of two non-negative integers, bit by bit from the lowest. */
  function OrNat(a: nat, b: nat): nat
    decreases a + b
  {
    if a == 0 then b
    else if b == 0 then a
    else 2 * OrNat(a / 2, b / 2) + (if a % 2 == 1 || b % 2 == 1 then 1 else 0)
  }

  /** OR-ing a value whose low `k` bits are clear with a value below 2^k is
      addition. */
  lemma {:induction false} OrNatDisjoint(a: nat, b: nat, k: nat)
    requires b < Pow2(k)
    ensures OrNat(a * Pow2(k), b) == a * Pow2(k) + b
  {
    if k == 0 || a == 0 || b == 0 {
    } else {
      assert a * Pow2(k) == 2 * (a * Pow2(k - 1));
      OrNatDisjoint(a, b / 2, k - 1);
    }
  }

  /** OR never sets a bit at or above `k` when neither operand has one. */
  lemma {:induction false} OrNatBound(a: nat, b: nat, k: nat)
    requires a < Pow2(k) && b < Pow2(k)
    ensures OrNat(a, b) < Pow2(k)
    decreases a + b
  {
    if a == 0 || b == 0 {
    } else {
      OrNatBound(a / 2, b / 2, k - 1);
    }
  }

  lemma Pow2At32()
    ensures Pow2(32) == TWO_32
  {
    assert Pow2(8) == 0x100 by {
      assert Pow2(4) == 16;
    }
    assert Pow2(16) == 0x1_0000 by {
      Pow2Add(8, 8);
    }
    Pow2Add(16, 16);
  }

  lemma {:induction false} Pow2Add(i: nat, j: nat)
    ensures Pow2(i + j) == Pow2(i) * Pow2(j)
  {
    if j != 0 {
      Pow2Add(i, j - 1);
      assert Pow2(i + j) == 2 * Pow2(i + j - 1);
    }
  }

  /** `a | b` on two `int`s: OR of the two's-complement bit patterns. */
  function Or32(a: int, b: int): (r: int)
    requires IsInt32(a) && IsInt32(b)
    ensures IsInt32(r)
  {
    Wrap32(OrNat(Unsigned32(a), Unsigned32(b)))
  }

  /** OR-ing a small non-negative `int` into an `int` whose low byte is clear
      adds it. */
  lemma Or32LowByte(a: int, b: int)
    requires IsInt32(a) && a % 0x100 == 0 && 0 <= b < 0x100
    ensures Or32(a, b) == a + b
  {
    var m := a / 0x100;
    DivMod256(a, m, 0);
    var n := if a >= 0 then m else m + TWO_24;
    assert Unsigned32(a) == 0x100 * n;
    OrNatLowByte(n, b);
  }

  lemma OrNatLowByte(n: nat, b: nat)
    requires b < 0x100
    ensures OrNat(0x100 * n, b) == 0x100 * n + b
  {
    var p := Pow2(8);
    assert p == 0x100 by {
      assert Pow2(4) == 16;
    }
    OrNatDisjoint(n, b, 8);
    assert n * p == 0x100 * n;
  }
}
