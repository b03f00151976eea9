/** The part of `sscanf` and `printf` the tools use: whitespace directives,
    literal characters and the `%c`, `%d`, `%s` and `%n` conversions, read over
    C strings; and "%d" output. */
module CFormat {
  import opened CLib
  import opened CInt

  /** `s` read as a C string: position `i` holds a character before the end
      of the text or its first NUL. */
  predicate Has(s: string, i: nat) {
    i < |s| && s[i] != '\0'
  }

  /** End of the run of whitespace starting at `i`. */
  function SkipSpace(s: string, i: nat): (j: nat)
    ensures i <= j
    ensures j > i ==> j <= |s|
    ensures forall k | i <= k < j :: Has(s, k) && IsSpace(s[k])
    ensures !(Has(s, j) && IsSpace(s[j]))
    decreases |s| - i
  {
    if Has(s, i) && IsSpace(s[i]) then SkipSpace(s, i + 1) else i
  }

  /** End of the run of decimal digits starting at `i`. */
  function DigitsEnd(s: string, i: nat): (j: nat)
    ensures i <= j
    ensures j > i ==> j <= |s|
    ensures forall k | i <= k < j :: Has(s, k) && IsDigit(s[k])
    ensures !(Has(s, j) && IsDigit(s[j]))
    decreases |s| - i
  {
    if Has(s, i) && IsDigit(s[i]) then DigitsEnd(s, i + 1) else i
  }

  /** End of the run of non-whitespace characters starting at `i`. */
  function WordEnd(s: string, i: nat): (j: nat)
    ensures i <= j
    ensures j > i ==> j <= |s|
    ensures forall k | i <= k < j :: Has(s, k) && !IsSpace(s[k])
    ensures !(Has(s, j) && !IsSpace(s[j]))
    decreases |s| - i
  {
    if Has(s, i) && !IsSpace(s[i]) then WordEnd(s, i + 1) else i
  }

  predicate AllDigits(ds: string) {
    forall k | 0 <= k < |ds| :: IsDigit(ds[k])
  }

  /** The number a string of decimal digits spells, most significant first. */
  function DigitsValue(ds: string): nat
    requires AllDigits(ds)
  {
    if |ds| == 0 then 0
    else 10 * DigitsValue(ds[..|ds| - 1]) + DigitValue(ds[|ds| - 1])
  }

  /** What a `%d` conversion stores: `strtol` saturates at the limits of a
      64-bit `long`, and the result is then converted to `int`. */
  function StrtolToInt(v: int): (r: int)
    ensures IsInt32(r)
    ensures IsInt32(v) ==> r == v
  {
    var l := if v < -TWO_63 then -TWO_63 else if v >= TWO_63 then TWO_63 - 1 else v;
    Wrap32(l)
  }

  /** One directive of a `scanf` format string. `%n` is not a directive of its
      own: a successful scan reports how far it read. */
  datatype Directive =
    | Space          // a blank in the format: skips any amount of whitespace
    | Lit(c: char)   // an ordinary character: must match exactly
    | Chr            // %c: any one character, whitespace included
    | Dec            // %d: optional whitespace, optional sign, one or more digits
    | Str            // %s: optional whitespace, one or more non-whitespace characters

  /** A value a conversion stored. */
  datatype Item = ChrItem(c: char) | DecItem(v: Int32) | StrItem(w: string)

  /** A scan that matched every directive: the stored values in order, and the
      count of characters consumed (what a final `%n` stores). */
  datatype Scanned = Scanned(items: seq<Item>, end: nat)

  /** The `int` a `%d` conversion stores for an optional minus sign and a
      run of digits. */
  function DecValue(neg: bool, ds: string): (v: int)
    requires AllDigits(ds)
    ensures IsInt32(v)
  {
    var mag: int := DigitsValue(ds);
    StrtolToInt(if neg then -mag else mag)
  }

  /** A `%d` conversion at position `i`: the value stored and where reading
      stopped. */
  function ReadDec(s: string, i: nat): (r: Option<(int, nat)>)
    ensures r.Some? ==> i < r.value.1 <= |s| && IsInt32(r.value.0)
  {
    DecFrom(s, SkipSpace(s, i))
  }

  /** Where the digits of a number written at `p` begin: after its sign, if
      it has one. */
  function SignEnd(s: string, p: nat): (q: nat)
    ensures p <= q <= p + 1
  {
    if Has(s, p) && (s[p] == '-' || s[p] == '+') then p + 1 else p
  }

  /** The number written at `p`, with no leading blanks skipped. */
  function DecFrom(s: string, p: nat): (r: Option<(int, nat)>)
    ensures r.Some? ==> p < r.value.1 <= |s| && IsInt32(r.value.0)
  {
    var q := SignEnd(s, p);
    var e := DigitsEnd(s, q);
    if e == q then None
    else
      Some((DecValue(Has(s, p) && s[p] == '-', s[q..e]), e))
  }

  /** A `%d` conversion at `i` stores `v` and stops at `e`. */
  predicate DecAt(s: string, i: nat, v: int, e: nat) {
    ReadDec(s, i).Some? && ReadDec(s, i).value.0 == v && ReadDec(s, i).value.1 == e
  }

  /** A `%s` conversion at position `i`: the word stored and where reading
      stopped. */
  function ReadWord(s: string, i: nat): (r: Option<(string, nat)>)
    ensures r.Some? ==> i < r.value.1 <= |s| && 1 <= |r.value.0|
    ensures r.Some? ==> forall k | 0 <= k < |r.value.0| :: !IsSpace(r.value.0[k]) && r.value.0[k] != '\0'
  {
    var p := SkipSpace(s, i);
    var e := WordEnd(s, p);
    if e == p then None else Some((s[p..e], e))
  }

  /** Applies one directive at position `i`. */
  function Convert(s: string, d: Directive, i: nat): (r: Option<(seq<Item>, nat)>)
    ensures r.Some? ==> i <= r.value.1
    ensures r.Some? && r.value.1 > i ==> r.value.1 <= |s|
    ensures r.Some? && !d.Space? ==> r.value.1 > i
  {
    match d
    case Space => Some(([], SkipSpace(s, i)))
    case Lit(c) => if Has(s, i) && s[i] == c then Some(([], i + 1)) else None
    case Chr => if Has(s, i) then Some(([ChrItem(s[i])], i + 1)) else None
    case Dec =>
      (match ReadDec(s, i)
       case None => None
       case Some((v, e)) => Some(([DecItem(v)], e)))
    case Str =>
      (match ReadWord(s, i)
       case None => None
       case Some((w, e)) => Some(([StrItem(w)], e)))
  }

  /** `sscanf(s + i, fmt, ...)` when every directive matches; `None` when one
      fails (a matching failure or the end of the string). */
  function Scan(s: string, fmt: seq<Directive>, i: nat): (r: Option<Scanned>)
    ensures r.Some? ==> i <= r.value.end
    ensures r.Some? && r.value.end > i ==> r.value.end <= |s|
    ensures r.Some? && |fmt| > 0 && !fmt[|fmt| - 1].Space? ==> r.value.end > i
  {
    ScanFrom(s, fmt, 0, i)
  }

  /** `r` is a successful scan that stored `items` and stopped at `end`
      (compared field by field, so that the stored sequences are compared by
      their elements). */
  predicate Yields(r: Option<Scanned>, items: seq<Item>, end: nat) {
    r.Some? && r.value.items == items && r.value.end == end
  }

  /** The directives `fmt[k..]` applied from position `i` on. */
  function ScanFrom(s: string, fmt: seq<Directive>, k: nat, i: nat): (r: Option<Scanned>)
    requires k <= |fmt|
    ensures r.Some? ==> i <= r.value.end
    ensures r.Some? && r.value.end > i ==> r.value.end <= |s|
    ensures r.Some? && k < |fmt| && !fmt[|fmt| - 1].Space? ==> r.value.end > i
    decreases |fmt| - k
  {
    if k == |fmt| then Some(Scanned([], i))
    else
      match Convert(s, fmt[k], i)
      case None => None
      case Some((items, j)) =>
        match ScanFrom(s, fmt, k + 1, j)
        case None => None
        case Some(rest) => Some(Scanned(items + rest.items, rest.end))
  }

  /** One step of a scan: the directive at `k` stores `items` and stops at
      `j`, and the rest of the format goes on from there. */
  lemma ScanStep(s: string, fmt: seq<Directive>, k: nat, i: nat, items: seq<Item>, j: nat, rest: seq<Item>, end: nat)
    requires k < |fmt| && Convert(s, fmt[k], i) == Some((items, j))
    requires Yields(ScanFrom(s, fmt, k + 1, j), rest, end)
    ensures Yields(ScanFrom(s, fmt, k, i), items + rest, end)
  {
  }

  /** The decimal digits of `n`, most significant first, without leading
      zeros. */
  function NatDigits(n: nat): (ds: string)
    ensures 1 <= |ds| && AllDigits(ds)
    ensures n >= 10 ==> ds[0] != '0'
  {
    if n < 10 then [DigitChar(n)] else NatDigits(n / 10) + [DigitChar(n % 10)]
  }

  /** `printf("%d", v)`. */
  function FormatDec(v: int): (t: string)
    ensures 1 <= |t|
  {
    if v < 0 then "-" + NatDigits(-v) else NatDigits(v)
  }

  /** Reading the digits printed for `n` gives `n` back. */
  lemma {:induction false} DigitsValueOfNatDigits(n: nat)
    ensures DigitsValue(NatDigits(n)) == n
  {
    if n >= 10 {
      var ds := NatDigits(n);
      assert ds[..|ds| - 1] == NatDigits(n / 10);
      DigitsValueOfNatDigits(n / 10);
    }
  }

  /** A `%d` conversion reads back exactly the text "%d" printed, provided no
      digit follows it. */
  lemma ReadDecOfFormat(s: string, i: nat, v: int)
    requires IsInt32(v)
    requires i + |FormatDec(v)| <= |s| && s[i..i + |FormatDec(v)|] == FormatDec(v)
    requires !(Has(s, i + |FormatDec(v)|) && IsDigit(s[i + |FormatDec(v)|]))
    ensures ReadDec(s, i).Some?
    ensures ReadDec(s, i).value.0 == v && ReadDec(s, i).value.1 == i + |FormatDec(v)|
  {
    DecValueOfNatDigits(v);
    if v < 0 {
      ReadDecOfNegative(s, i, NatDigits(-v));
    } else {
      var ds := NatDigits(v);
      assert s[i] == s[i..i + |ds|][0] == ds[0];
      ReadDecAt(s, i, false, ds);
    }
  }

  /** `%d` reads a minus sign followed by digits as the negated number. */
  lemma ReadDecOfNegative(s: string, i: nat, ds: string)
    requires 1 <= |ds| && AllDigits(ds)
    requires i + 1 + |ds| <= |s| && s[i..i + 1 + |ds|] == "-" + ds
    requires !(Has(s, i + 1 + |ds|) && IsDigit(s[i + 1 + |ds|]))
    ensures ReadDec(s, i).Some?
    ensures ReadDec(s, i).value.0 == DecValue(true, ds) && ReadDec(s, i).value.1 == i + 1 + |ds|
  {
    assert s[i + 1..i + 1 + |ds|] == s[i..i + 1 + |ds|][1..];
    assert s[i] == s[i..i + 1 + |ds|][0];
    ReadDecAt(s, i, true, ds);
  }

  /** The value of the digits "%d" prints, with their sign, is the number
      printed. */
  lemma DecValueOfNatDigits(v: int)
    requires IsInt32(v)
    ensures DecValue(v < 0, NatDigits(if v < 0 then -v else v)) == v
  {
    DigitsValueOfNatDigits(if v < 0 then -v else v);
  }

  /** `%d` on an optional minus sign followed by a run of digits. */
  lemma ReadDecAt(s: string, i: nat, neg: bool, ds: string)
    requires 1 <= |ds| && AllDigits(ds)
    requires i < |s| && s[i] == (if neg then '-' else ds[0])
    requires var q := if neg then i + 1 else i;
      q + |ds| <= |s| && s[q..q + |ds|] == ds && !(Has(s, q + |ds|) && IsDigit(s[q + |ds|]))
    ensures ReadDec(s, i).Some?
    ensures ReadDec(s, i).value.0 == DecValue(neg, ds)
    ensures ReadDec(s, i).value.1 == (if neg then i + 1 else i) + |ds|
  {
    var q := if neg then i + 1 else i;
    assert IsDigit(ds[0]);
    assert SkipSpace(s, i) == i;
    DigitRunOf(s, q, ds);
  }

  /** A run of digits written at `i` and followed by a non-digit is exactly
      what `DigitsEnd` finds. */
  lemma DigitRunOf(s: string, i: nat, ds: string)
    requires 1 <= |ds| && AllDigits(ds)
    requires i + |ds| <= |s| && s[i..i + |ds|] == ds
    requires !(Has(s, i + |ds|) && IsDigit(s[i + |ds|]))
    ensures DigitsEnd(s, i) == i + |ds|
    ensures s[i..DigitsEnd(s, i)] == ds
  {
    assert forall k | i <= k < i + |ds| :: s[k] == ds[k - i];
    DigitsEndAt(s, i, |ds|);
  }

  /** The word starting at `i` ends at the first blank after it. */
  lemma WordEndAt(s: string, i: nat, n: nat)
    requires i + n < |s| && IsSpace(s[i + n])
    requires forall k | i <= k < i + n :: Has(s, k) && !IsSpace(s[k])
    ensures WordEnd(s, i) == i + n
  {
  }

  /** The digit run starting at `i` ends where the digits stop. */
  lemma DigitsEndAt(s: string, i: nat, n: nat)
    requires i + n <= |s|
    requires forall k | i <= k < i + n :: Has(s, k) && IsDigit(s[k])
    requires !(Has(s, i + n) && IsDigit(s[i + n]))
    ensures DigitsEnd(s, i) == i + n
  {
  }

  // ---------------------------------------------------------------------
  // Reading after a prefix.

  /** `s` is `t` behind a prefix of `n` characters. */
  predicate Behind(s: string, t: string, n: nat) {
    |s| == n + |t| && forall k | 0 <= k < |t| :: s[n + k] == t[k]
  }

  /** `r'` is the scan result `r` with its end moved `n` characters on. */
  predicate ShiftedBy(r': Option<Scanned>, r: Option<Scanned>, n: nat) {
    && (r'.Some? <==> r.Some?)
    && (r.Some? ==> r'.value.items == r.value.items && r'.value.end == r.value.end + n)
  }

  lemma HasBehind(s: string, t: string, n: nat, i: nat)
    requires Behind(s, t, n)
    ensures Has(s, n + i) == Has(t, i)
    ensures Has(t, i) ==> s[n + i] == t[i]
  {
    if i < |t| {
      assert s[n + i] == t[i];
    }
  }

  lemma {:induction false} SkipSpaceBehind(s: string, t: string, n: nat, i: nat)
    requires Behind(s, t, n)
    ensures SkipSpace(s, n + i) == n + SkipSpace(t, i)
    decreases |t| - i
  {
    HasBehind(s, t, n, i);
    if Has(t, i) && IsSpace(t[i]) {
      SkipSpaceBehind(s, t, n, i + 1);
    }
  }

  lemma {:induction false} DigitsEndBehind(s: string, t: string, n: nat, i: nat)
    requires Behind(s, t, n)
    ensures DigitsEnd(s, n + i) == n + DigitsEnd(t, i)
    decreases |t| - i
  {
    HasBehind(s, t, n, i);
    if Has(t, i) && IsDigit(t[i]) {
      DigitsEndBehind(s, t, n, i + 1);
    }
  }

  lemma {:induction false} WordEndBehind(s: string, t: string, n: nat, i: nat)
    requires Behind(s, t, n)
    ensures WordEnd(s, n + i) == n + WordEnd(t, i)
    decreases |t| - i
  {
    HasBehind(s, t, n, i);
    if Has(t, i) && !IsSpace(t[i]) {
      WordEndBehind(s, t, n, i + 1);
    }
  }

  lemma SliceBehind(s: string, t: string, n: nat, i: nat, j: nat)
    requires Behind(s, t, n) && i <= j <= |t|
    ensures s[n + i..n + j] == t[i..j]
  {
    assert forall k | i <= k < j :: s[n + i..n + j][k - i] == t[k];
  }

  /** The digits of a `%d` conversion, with their sign, read the same after
      a prefix. */
  lemma DigitsBehind(s: string, t: string, n: nat, q: nat, neg: bool)
    requires Behind(s, t, n)
    ensures DigitsEnd(s, n + q) == n + DigitsEnd(t, q)
    ensures DigitsEnd(t, q) != q ==>
      DecValue(neg, s[n + q..n + DigitsEnd(t, q)]) == DecValue(neg, t[q..DigitsEnd(t, q)])
  {
    DigitsEndBehind(s, t, n, q);
    if DigitsEnd(t, q) != q {
      SliceBehind(s, t, n, q, DigitsEnd(t, q));
    }
  }

  /** A number written at `p` reads the same after a prefix. */
  lemma DecFromBehind(s: string, t: string, n: nat, p: nat)
    requires Behind(s, t, n)
    ensures DecFrom(s, n + p).Some? <==> DecFrom(t, p).Some?
    ensures DecFrom(t, p).Some? ==>
      DecFrom(s, n + p).value.0 == DecFrom(t, p).value.0 && DecFrom(s, n + p).value.1 == n + DecFrom(t, p).value.1
  {
    HasBehind(s, t, n, p);
    assert SignEnd(s, n + p) == n + SignEnd(t, p);
    assert (Has(s, n + p) && s[n + p] == '-') == (Has(t, p) && t[p] == '-');
    DigitsBehind(s, t, n, SignEnd(t, p), Has(t, p) && t[p] == '-');
  }

  /** A `%d` conversion reads the same after a prefix. */
  lemma ReadDecBehind(s: string, t: string, n: nat, i: nat)
    requires Behind(s, t, n)
    ensures ReadDec(s, n + i).Some? <==> ReadDec(t, i).Some?
    ensures ReadDec(t, i).Some? ==>
      ReadDec(s, n + i).value.0 == ReadDec(t, i).value.0 && ReadDec(s, n + i).value.1 == n + ReadDec(t, i).value.1
  {
    SkipSpaceBehind(s, t, n, i);
    DecFromBehind(s, t, n, SkipSpace(t, i));
  }

  /** A `%s` conversion reads the same after a prefix. */
  lemma ReadWordBehind(s: string, t: string, n: nat, i: nat)
    requires Behind(s, t, n)
    ensures ReadWord(s, n + i).Some? <==> ReadWord(t, i).Some?
    ensures ReadWord(t, i).Some? ==>
      ReadWord(s, n + i).value.0 == ReadWord(t, i).value.0 && ReadWord(s, n + i).value.1 == n + ReadWord(t, i).value.1
  {
    var p := SkipSpace(t, i);
    SkipSpaceBehind(s, t, n, i);
    WordEndBehind(s, t, n, p);
    var e := WordEnd(t, p);
    if e != p {
      SliceBehind(s, t, n, p, e);
    }
  }

  lemma ConvertBehind(s: string, t: string, n: nat, d: Directive, i: nat)
    requires Behind(s, t, n)
    ensures Convert(s, d, n + i).Some? <==> Convert(t, d, i).Some?
    ensures Convert(t, d, i).Some? ==>
      Convert(s, d, n + i).value.0 == Convert(t, d, i).value.0 && Convert(s, d, n + i).value.1 == n + Convert(t, d, i).value.1
  {
    match d
    case Space => SkipSpaceBehind(s, t, n, i);
    case Lit(c) => HasBehind(s, t, n, i);
    case Chr => HasBehind(s, t, n, i);
    case Dec => ReadDecBehind(s, t, n, i);
    case Str => ReadWordBehind(s, t, n, i);
  }

  /** A scan stores the same values after a prefix, and stops as many
      characters later as the prefix is long. */
  lemma {:induction false} ScanFromBehind(s: string, t: string, n: nat, fmt: seq<Directive>, k: nat, i: nat)
    requires Behind(s, t, n) && k <= |fmt|
    ensures ShiftedBy(ScanFrom(s, fmt, k, n + i), ScanFrom(t, fmt, k, i), n)
    decreases |fmt| - k
  {
    if k < |fmt| {
      ConvertBehind(s, t, n, fmt[k], i);
      if Convert(t, fmt[k], i).Some? {
        ScanFromBehind(s, t, n, fmt, k + 1, Convert(t, fmt[k], i).value.1);
      }
    }
  }

  /** A format that starts by skipping whitespace reads a string the same
      with one more blank in front, one character later. */
  lemma ScanLeadingBlank(t: string, fmt: seq<Directive>)
    requires |fmt| > 0 && fmt[0] == Space
    ensures ShiftedBy(Scan(" " + t, fmt, 0), Scan(t, fmt, 0), 1)
  {
    var s := " " + t;
    assert Behind(s, t, 1);
    assert Has(s, 0) && IsSpace(s[0]);
    SkipSpaceBehind(s, t, 1, 0);
    assert SkipSpace(s, 0) == 1 + SkipSpace(t, 0);
    ScanFromBehind(s, t, 1, fmt, 1, SkipSpace(t, 0));
  }
}
