/** The header every binary starts with: a four-byte file prefix, the
    version of the instruction set the file was written for, and padding up
    to the fixed header size. The assembler writes it; the processor and the
    disassembler check it before running or listing the code after it. */
module Header {
  import opened CLib
  import opened CInt
  import opened CFormat

  /** The header layout. The prefix, version and size are build constants
      defined outside the modelled files; the version is stored as a 4-byte
      `int` right after the prefix. */
  datatype Format = Format(prefix: seq<Byte>, version: int, headerSize: nat)

  /** A layout the tools can use: four non-zero prefix bytes (so `strncmp`
      compares all four), an `int` version, and room for both. */
  predicate Valid(f: Format) {
    && |f.prefix| == 4
    && (forall i | 0 <= i < 4 :: f.prefix[i] != 0)
    && IsInt32(f.version)
    && f.headerSize >= 8
  }

  /** `n` zero bytes: `fseek` past the end of the header leaves a gap that
      reads as zeros. */
  function Zeros(n: nat): (z: seq<Byte>)
    ensures |z| == n && forall i | 0 <= i < n :: z[i] == 0
  {
    seq(n, i => 0)
  }

  /** `put_header` for a file of instruction-set version `v`: the prefix,
      the version and zero padding. */
  function HeaderOf(f: Format, v: int): (hd: seq<Byte>)
    requires Valid(f) && IsInt32(v)
    ensures |hd| == f.headerSize
    ensures hd[..4] == f.prefix
  {
    f.prefix + Int32Bytes(v) + Zeros(f.headerSize - 8)
  }

  /** The header the assembler writes: the version of the tools that built
      it. */
  function PutHeader(f: Format): (hd: seq<Byte>)
    requires Valid(f)
    ensures |hd| == f.headerSize
  {
    HeaderOf(f, f.version)
  }

  /** Outcome of `read_header`: the offset of the first instruction, a
      rejection (EIO), or a file too short to hold the fields read. */
  datatype Check = Accepted(start: nat) | Rejected | Unreadable

  /** The prefix test as `strncmp` performs it: byte by byte up to four
      bytes, stopping at the first difference. It is defined as long as the
      file has the byte being compared. */
  function PrefixCheck(prefix: seq<Byte>, file: seq<Byte>, k: nat): (r: Option<bool>)
    requires |prefix| == 4 && k <= 4 && k <= |file|
    ensures r == Some(true) ==> |file| >= 4 && file[k..4] == prefix[k..4]
    ensures r == Some(false) ==> exists i | k <= i < 4 :: i < |file| && file[i] != prefix[i]
    ensures r.None? ==> |file| < 4 && forall i | k <= i < |file| :: file[i] == prefix[i]
    decreases 4 - k
  {
    if k == 4 then Some(true)
    else if k >= |file| then None
    else if file[k] != prefix[k] then Some(false)
    else PrefixCheck(prefix, file, k + 1)
  }

  /** `read_header`: the prefix must match, then the stored version must not
      exceed the tools' own; the instructions start right after the header. */
  function ReadHeader(f: Format, file: seq<Byte>): (r: Check)
    requires Valid(f)
    ensures r.Accepted? <==> |file| >= 8 && file[..4] == f.prefix && ReadInt32(file, 4) <= f.version
    ensures r.Accepted? ==> r.start == f.headerSize
    ensures r.Rejected? <==>
      (exists i | 0 <= i < 4 :: i < |file| && file[i] != f.prefix[i])
      || (|file| >= 8 && file[..4] == f.prefix && ReadInt32(file, 4) > f.version)
  {
    match PrefixCheck(f.prefix, file, 0)
    case None => Unreadable
    case Some(false) => Rejected
    case Some(true) =>
      if |file| < 8 then Unreadable
      else if ReadInt32(file, 4) <= f.version then Accepted(f.headerSize)
      else Rejected
  }

  /** A header written for version `v`, followed by anything, is accepted
      exactly when `v` is not newer than the reader; an accepted file's code
      starts right after the header. */
  lemma ReadHeaderOf(f: Format, v: int, body: seq<Byte>)
    requires Valid(f) && IsInt32(v)
    ensures ReadHeader(f, HeaderOf(f, v) + body).Accepted? <==> v <= f.version
    ensures ReadHeader(f, HeaderOf(f, v) + body).Rejected? <==> v > f.version
  {
    var file := HeaderOf(f, v) + body;
    assert file == f.prefix + Int32Bytes(v) + (Zeros(f.headerSize - 8) + body);
    ReadInt32Bytes(v, f.prefix, Zeros(f.headerSize - 8) + body);
    assert file[..4] == f.prefix;
  }

  /** What the assembler writes, the processor and the disassembler accept,
      and they start at the first byte after the header. */
  lemma ReadHeaderPutHeader(f: Format, body: seq<Byte>)
    requires Valid(f)
    ensures ReadHeader(f, PutHeader(f) + body) == Accepted(f.headerSize)
  {
    ReadHeaderOf(f, f.version, body);
  }

  /** The version field of what the assembler writes holds the tools' own
      version. */
  lemma PutHeaderVersion(f: Format, body: seq<Byte>)
    requires Valid(f)
    ensures |PutHeader(f) + body| >= 8 && ReadInt32(PutHeader(f) + body, 4) == f.version
  {
    var file := PutHeader(f) + body;
    assert file == f.prefix + Int32Bytes(f.version) + (Zeros(f.headerSize - 8) + body);
    ReadInt32Bytes(f.version, f.prefix, Zeros(f.headerSize - 8) + body);
  }

  /** The two comment lines the disassembler writes for an accepted header:
      the file's version and its own. */
  function Banner(f: Format, fileVersion: int): (t: string)
    ensures |t| > 0 && t[|t| - 1] == '\n'
  {
    "# Binary file version: " + FormatDec(fileVersion) + "\n"
      + "# Disassembler version: " + FormatDec(f.version) + "\n\n"
  }
}
