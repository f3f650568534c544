/** The on-disk format of a stream archive (.foz): an append-only log of records, each a
    40-character hexadecimal name, a 16-byte little-endian header and a payload. */
module ArchiveFormat {
  import opened Words
  import opened Wrappers

  const NAME_LENGTH: nat := 40
  const HEADER_LENGTH: nat := 16
  const PREFIX_LENGTH: nat := 56
  const MAGIC_LENGTH: nat := 16
  const RESOURCE_COUNT: nat := 9
  const FORMAT_VERSION: byte := 6
  const FORMAT_MIN_COMPAT_VERSION: byte := 5
  const COMPRESSION_NONE: uint32 := 1
  const COMPRESSION_DEFLATE: uint32 := 2

  type bytes = seq<byte>

  const MAGIC: bytes := [0x81, 0x46, 0x4f, 0x53, 0x53, 0x49, 0x4c, 0x49, 0x5a, 0x45, 0x44, 0x42, 0, 0, 0]

  /** The first 16 bytes pass the test made when an archive is opened. */
  predicate HasMagic(data: bytes) {
    && |data| >= MAGIC_LENGTH && data[..MAGIC_LENGTH - 1] == MAGIC
    && FORMAT_MIN_COMPAT_VERSION <= data[MAGIC_LENGTH - 1] <= FORMAT_VERSION
  }

  datatype Header = Header(payloadSize: uint32, format: uint32, crc: uint32, uncompressedSize: uint32)
  datatype Record = Record(name: bytes, header: Header, payload: bytes)
  datatype Key = Key(tag: nat, hash: uint64)

  // ----- Little-endian words -----

  function ToLe32(v: uint32): (b: bytes)
    ensures |b| == 4
  {
    [v % 0x100, v / 0x100 % 0x100, v / 0x100 / 0x100 % 0x100, v / 0x100 / 0x100 / 0x100]
  }

  function FromLe32(b: bytes, i: nat): uint32
    requires i + 4 <= |b|
  {
    b[i] as int + 0x100 * b[i + 1] as int + 0x1_0000 * b[i + 2] as int + 0x100_0000 * b[i + 3] as int
  }

  lemma Le32RoundTrip(v: uint32, b: bytes)
    requires |b| == 4
    ensures FromLe32(ToLe32(v), 0) == v
    ensures ToLe32(FromLe32(b, 0)) == b
  {
    LastByte(b[0], b[1] as int + 0x100 * b[2] as int + 0x1_0000 * b[3] as int);
    LastByte(b[1], b[2] as int + 0x100 * b[3] as int);
    LastByte(b[2], b[3]);
  }

  lemma LastByte(b: byte, rest: nat)
    ensures (b + 0x100 * rest) % 0x100 == b && (b + 0x100 * rest) / 0x100 == rest
  {
  }

  function HeaderBytes(h: Header): (b: bytes)
    ensures |b| == HEADER_LENGTH
  {
    ToLe32(h.payloadSize) + ToLe32(h.format) + ToLe32(h.crc) + ToLe32(h.uncompressedSize)
  }

  function ParseHeader(b: bytes): Header
    requires |b| == HEADER_LENGTH
  {
    HeaderAt(b, 0)
  }

  function HeaderAt(b: bytes, i: nat): Header
    requires i + HEADER_LENGTH <= |b|
  {
    Header(FromLe32(b, i), FromLe32(b, i + 4), FromLe32(b, i + 8), FromLe32(b, i + 12))
  }

  lemma HeaderRoundTrip(h: Header, b: bytes)
    requires |b| == HEADER_LENGTH
    ensures ParseHeader(HeaderBytes(h)) == h
    ensures HeaderBytes(ParseHeader(b)) == b
  {
    WordAt(h.payloadSize, b, 0);
    WordAt(h.format, b, 4);
    WordAt(h.crc, b, 8);
    WordAt(h.uncompressedSize, b, 12);
    assert b == b[0..4] + b[4..8] + b[8..12] + b[12..16];
  }

  lemma WordAt(v: uint32, b: bytes, i: nat)
    requires i + 4 <= |b|
    ensures FromLe32(ToLe32(v), 0) == v
    ensures ToLe32(FromLe32(b, i)) == b[i..i + 4]
  {
    Le32RoundTrip(v, b[i..i + 4]);
  }

  /** Four little-endian words: payload size, format, checksum, uncompressed size. */
  lemma HeaderLayout(h: Header)
    ensures var b := HeaderBytes(h);
      && LittleEndian(b[0], b[1], b[2], b[3]) == h.payloadSize
      && LittleEndian(b[4], b[5], b[6], b[7]) == h.format
      && LittleEndian(b[8], b[9], b[10], b[11]) == h.crc
      && LittleEndian(b[12], b[13], b[14], b[15]) == h.uncompressedSize
  {
    Le32RoundTrip(h.payloadSize, [0, 0, 0, 0]);
    Le32RoundTrip(h.format, [0, 0, 0, 0]);
    Le32RoundTrip(h.crc, [0, 0, 0, 0]);
    Le32RoundTrip(h.uncompressedSize, [0, 0, 0, 0]);
  }

  function LittleEndian(b0: byte, b1: byte, b2: byte, b3: byte): nat {
    b0 + 0x100 * b1 as int + 0x1_0000 * b2 as int + 0x100_0000 * b3 as int
  }

  // ----- Hexadecimal names -----

  function HexDigit(d: nat): byte
    requires d < 16
  {
    if d < 10 then 0x30 + d else 0x61 + d - 10
  }

  /** printf with %0nx: n lower-case hexadecimal digits. */
  function Hex(v: nat, n: nat): (s: bytes)
    ensures |s| == n
  {
    if n == 0 then [] else Hex(v / 16, n - 1) + [HexDigit(v % 16)]
  }

  predicate IsHexDigit(c: byte) {
    0x30 <= c <= 0x39 || 0x41 <= c <= 0x46 || 0x61 <= c <= 0x66
  }

  function DigitValue(c: byte): nat
    requires IsHexDigit(c)
  {
    if c <= 0x39 then c - 0x30 else if c <= 0x46 then c - 0x41 + 10 else c - 0x61 + 10
  }

  predicate IsSpace(c: byte) {
    c == 0x20 || 9 <= c <= 13
  }

  /** How many hexadecimal digits the text starts with. */
  function DigitRun(s: bytes): (n: nat)
    ensures n <= |s| && forall i :: 0 <= i < n ==> IsHexDigit(s[i])
    ensures n < |s| ==> !IsHexDigit(s[n])
  {
    if s == [] || !IsHexDigit(s[0]) then 0 else 1 + DigitRun(s[1..])
  }

  function HexValue(s: bytes): nat
    requires forall c :: c in s ==> IsHexDigit(c)
  {
    if s == [] then 0 else 16 * HexValue(s[..|s| - 1]) + DigitValue(s[|s| - 1])
  }

  function SkipSpace(s: bytes): bytes {
    if s != [] && IsSpace(s[0]) then SkipSpace(s[1..]) else s
  }

  /** strtoull in base 16: white space, a sign, an optional 0x, then as many digits as there
      are, saturating at 2^64 - 1. */
  function StrToUll(text: bytes): uint64 {
    var s := SkipSpace(text);
    if s != [] && s[0] == 0x2d then Negated(Digits(s[1..]))
    else if s != [] && s[0] == 0x2b then Digits(s[1..])
    else Digits(s)
  }

  function Negated(v: uint64): uint64 {
    if v == 0 then 0 else 0x1_0000_0000_0000_0000 - v
  }

  function Digits(t: bytes): uint64 {
    var u := if |t| >= 3 && t[0] == 0x30 && t[1] in {0x58, 0x78} && IsHexDigit(t[2]) then t[2..] else t;
    var v := HexValue(u[..DigitRun(u)]);
    if v > 0xffff_ffff_ffff_ffff then 0xffff_ffff_ffff_ffff else v
  }

  function Name(k: Key): (s: bytes)
    ensures |s| == NAME_LENGTH
  {
    Hex(k.tag, NAME_LENGTH - 16) + Hex(k.hash, 16)
  }

  /** The key that the scan of an archive reads from a name; tags out of range are skipped. */
  function KeyOf(name: bytes): Option<Key>
    requires |name| == NAME_LENGTH
  {
    KeyWith(name, StrToUll)
  }

  /** The last 32 characters hold the tag, cut to 32 bits, and the hash. */
  function KeyWith(name: bytes, parse: bytes -> uint64): Option<Key>
    requires |name| == NAME_LENGTH
  {
    var tag := parse(name[8..24]) % TWO_TO_THE_32;
    if tag < RESOURCE_COUNT then Some(Key(tag, parse(name[24..]))) else None
  }

  lemma {:induction false} HexIsDigits(v: nat, n: nat)
    ensures forall i :: 0 <= i < n ==> IsHexDigit(Hex(v, n)[i])
  {
    if n > 0 {
      HexIsDigits(v / 16, n - 1);
    }
  }

  function Pow16(n: nat): nat {
    if n == 0 then 1 else 16 * Pow16(n - 1)
  }

  lemma {:induction false} HexValueRoundTrip(v: nat, n: nat)
    requires v < Pow16(n)
    ensures forall c :: c in Hex(v, n) ==> IsHexDigit(c)
    ensures HexValue(Hex(v, n)) == v
  {
    HexIsDigits(v, n);
    if n > 0 {
      HexValueRoundTrip(v / 16, n - 1);
      var h := Hex(v, n);
      assert h[..n - 1] == Hex(v / 16, n - 1);
    }
  }

  lemma {:induction false} DigitRunAll(s: bytes)
    requires forall i :: 0 <= i < |s| ==> IsHexDigit(s[i])
    ensures DigitRun(s) == |s|
  {
    if s != [] {
      DigitRunAll(s[1..]);
    }
  }

  lemma {:induction false} HexZeros(v: nat, n: nat, i: nat)
    requires i < n && v < Pow16(n - 1 - i)
    ensures Hex(v, n)[i] == 0x30
  {
    if i == n - 1 {
      assert v == 0;
    } else {
      HexZeros(v / 16, n - 1, i);
    }
  }

  lemma {:induction false} HexTail(v: nat, n: nat, m: nat)
    requires m <= n
    ensures Hex(v, n)[n - m..] == Hex(v, m)
  {
    if m > 0 {
      HexTail(v / 16, n - 1, m - 1);
      assert Hex(v, n)[n - m..] == Hex(v / 16, n - 1)[n - m..] + [HexDigit(v % 16)];
    }
  }

  lemma PrintedParses(v: uint64)
    ensures StrToUll(Hex(v, 16)) == v
  {
    var s := Hex(v, 16);
    assert Pow16(4) == 0x1_0000 && Pow16(8) == 0x1_0000_0000 && Pow16(12) == 0x1_0000_0000_0000;
    assert Pow16(16) == 0x1_0000_0000_0000_0000;
    HexValueRoundTrip(v, 16);
    HexIsDigits(v, 16);
    DigitRunAll(s);
    assert IsHexDigit(s[0]) && IsHexDigit(s[1]);
    assert s[..16] == s;
  }

  lemma NameParts(k: Key)
    ensures Name(k)[8..24] == Hex(k.tag, 16) && Name(k)[24..] == Hex(k.hash, 16)
  {
    HexTail(k.tag, 24, 16);
    assert Name(k)[8..24] == Hex(k.tag, 24)[8..];
  }

  /** The name written for a key is read back as that key. */
  lemma NameRoundTrip(k: Key)
    requires k.tag < RESOURCE_COUNT
    ensures KeyOf(Name(k)) == Some(k)
  {
    TagParses(k);
    HashParses(k);
    KeyWithParts(Name(k), StrToUll, k);
  }

  const HEX_LETTERS: bytes :=
    [0x30, 0x31, 0x32, 0x33, 0x34, 0x35, 0x36, 0x37, 0x38, 0x39, 0x61, 0x62, 0x63, 0x64, 0x65, 0x66]

  /** The number with the given digits in base 16, the most significant first. */
  function FromDigits(digits: seq<nat>): nat {
    if digits == [] then 0 else 16 * FromDigits(digits[..|digits| - 1]) + digits[|digits| - 1]
  }

  /** A name in full: the digits of the tag and then those of the hash, in lower case. */
  lemma NameOfDigits(tag: seq<nat>, hash: seq<nat>)
    requires |tag| == 24 && |hash| == 16 && FromDigits(hash) < 0x1_0000_0000_0000_0000
    requires (forall i :: 0 <= i < 24 ==> tag[i] < 16) && forall i :: 0 <= i < 16 ==> hash[i] < 16
    ensures var name := Name(Key(FromDigits(tag), FromDigits(hash)));
      && (forall i :: 0 <= i < 24 ==> name[i] == HEX_LETTERS[tag[i]])
      && forall i :: 0 <= i < 16 ==> name[24 + i] == HEX_LETTERS[hash[i]]
  {
    HexOfDigits(tag);
    HexOfDigits(hash);
  }

  lemma {:induction false} HexOfDigits(digits: seq<nat>)
    requires forall i :: 0 <= i < |digits| ==> digits[i] < 16
    ensures forall i :: 0 <= i < |digits| ==> Hex(FromDigits(digits), |digits|)[i] == HEX_LETTERS[digits[i]]
  {
    if digits != [] {
      var front, last := digits[..|digits| - 1], digits[|digits| - 1];
      HexOfDigits(front);
      HexStep(FromDigits(front), |front|, last);
    }
  }

  lemma HexStep(v: nat, n: nat, d: nat)
    requires d < 16
    ensures Hex(16 * v + d, n + 1) == Hex(v, n) + [HEX_LETTERS[d]]
  {
    assert (16 * v + d) / 16 == v && (16 * v + d) % 16 == d;
  }

  /** How other names are read: white space in front is skipped, a minus negates in 64 bits, a 0x in front of
      a digit is no part of the number, and the first character that is no digit ends it. */
  lemma {:induction false} ReadsLikeStrtoull(digits: bytes, rest: bytes)
    requires digits != [] && forall i :: 0 <= i < |digits| ==> IsHexDigit(digits[i])
    requires rest == [] || !IsHexDigit(rest[0])
    requires |digits| == 1 && digits[0] == 0x30 ==> |rest| < 2 || rest[0] !in {0x58, 0x78} || !IsHexDigit(rest[1])
    ensures var v := HexValue(digits);
      && StrToUll(digits + rest) == (if v > 0xffff_ffff_ffff_ffff then 0xffff_ffff_ffff_ffff else v)
      && StrToUll([0x20] + (digits + rest)) == StrToUll(digits + rest)
      && StrToUll([0x2b] + (digits + rest)) == StrToUll(digits + rest)
      && StrToUll([0x30, 0x78] + (digits + rest)) == StrToUll(digits + rest)
      && (0 < v <= 0xffff_ffff_ffff_ffff ==> StrToUll([0x2d] + (digits + rest)) == 0x1_0000_0000_0000_0000 - v)
  {
    var s := digits + rest;
    DigitsRead(digits, rest);
    Signs(s);
  }

  lemma DigitsRead(digits: bytes, rest: bytes)
    requires digits != [] && forall i :: 0 <= i < |digits| ==> IsHexDigit(digits[i])
    requires rest == [] || !IsHexDigit(rest[0])
    requires |digits| == 1 && digits[0] == 0x30 ==> |rest| < 2 || rest[0] !in {0x58, 0x78} || !IsHexDigit(rest[1])
    ensures var s, v := digits + rest, HexValue(digits);
      && !IsSpace(s[0]) && s[0] !in {0x2b, 0x2d}
      && Digits(s) == (if v > 0xffff_ffff_ffff_ffff then 0xffff_ffff_ffff_ffff else v)
      && Digits([0x30, 0x78] + s) == Digits(s)
  {
    var s := digits + rest;
    RunOfDigits(digits, rest);
    assert s[..|digits|] == digits && ([0x30, 0x78] + s)[2..] == s;
  }

  lemma Signs(s: bytes)
    requires s != [] && !IsSpace(s[0]) && s[0] !in {0x2b, 0x2d}
    ensures StrToUll(s) == Digits(s) && StrToUll([0x20] + s) == Digits(s) && StrToUll([0x2b] + s) == Digits(s)
    ensures StrToUll([0x30, 0x78] + s) == Digits([0x30, 0x78] + s) && StrToUll([0x2d] + s) == Negated(Digits(s))
  {
    assert ([0x20] + s)[1..] == s && ([0x2b] + s)[1..] == s && ([0x2d] + s)[1..] == s;
    assert SkipSpace([0x20] + s) == s && SkipSpace([0x2b] + s) == [0x2b] + s && SkipSpace([0x2d] + s) == [0x2d] + s;
    assert SkipSpace([0x30, 0x78] + s) == [0x30, 0x78] + s && SkipSpace(s) == s;
  }

  lemma {:induction false} RunOfDigits(digits: bytes, rest: bytes)
    requires forall i :: 0 <= i < |digits| ==> IsHexDigit(digits[i])
    requires rest == [] || !IsHexDigit(rest[0])
    ensures DigitRun(digits + rest) == |digits|
  {
    if digits != [] {
      assert (digits + rest)[1..] == digits[1..] + rest;
      RunOfDigits(digits[1..], rest);
    } else {
      assert digits + rest == rest;
    }
  }

  lemma KeyWithParts(name: bytes, parse: bytes -> uint64, k: Key)
    requires |name| == NAME_LENGTH && k.tag < RESOURCE_COUNT
    requires parse(name[8..24]) == k.tag && parse(name[24..]) == k.hash
    ensures KeyWith(name, parse) == Some(k)
  {
  }

  lemma TagParses(k: Key)
    requires k.tag < RESOURCE_COUNT
    ensures StrToUll(Name(k)[8..24]) == k.tag
  {
    NameParts(k);
    PrintedParses(k.tag);
  }

  lemma HashParses(k: Key)
    ensures StrToUll(Name(k)[24..]) == k.hash
  {
    NameParts(k);
    PrintedParses(k.hash);
  }

  /** Every name starts with zero digits, which as a header would announce 0x30303030 bytes. */
  lemma NameAsHeader(k: Key)
    requires k.tag < RESOURCE_COUNT
    ensures ParseHeader(Name(k)[..HEADER_LENGTH]).payloadSize == 0x3030_3030
  {
    var b := Name(k)[..HEADER_LENGTH][..4];
    forall i: nat | i < 4
      ensures b[i] == 0x30
    {
      assert Pow16(1) == 16;
      PowGrows(1, 23 - i);
      HexZeros(k.tag, 24, i);
      assert b[i] == Name(k)[i] == Hex(k.tag, 24)[i];
    }
  }

  lemma {:induction false} PowGrows(a: nat, b: nat)
    requires a <= b
    ensures Pow16(a) <= Pow16(b)
  {
    if a < b {
      PowGrows(a, b - 1);
    }
  }

  // ----- Records and the scan -----

  predicate WellFormed(r: Record) {
    |r.name| == NAME_LENGTH && r.header.payloadSize == |r.payload|
  }

  predicate AllWellFormed(rs: seq<Record>) {
    forall r :: r in rs ==> WellFormed(r)
  }

  function Encode(r: Record): (b: bytes)
    ensures |b| == |r.name| + HEADER_LENGTH + |r.payload|
  {
    r.name + HeaderBytes(r.header) + r.payload
  }

  function EncodeAll(rs: seq<Record>): bytes {
    if rs == [] then [] else Encode(rs[0]) + EncodeAll(rs[1..])
  }

  /** The stretch does not start with a whole record: it is shorter than name and header, or
      shorter than its header announces.  The empty stretch is incomplete too. */
  predicate Incomplete(b: bytes) {
    |b| < PREFIX_LENGTH || |b| < PREFIX_LENGTH + HeaderIn(b).payloadSize
  }

  function HeaderIn(b: bytes): Header
    requires |b| >= PREFIX_LENGTH
  {
    HeaderAt(b, NAME_LENGTH)
  }

  function First(b: bytes): (r: Record)
    requires !Incomplete(b)
    ensures WellFormed(r)
  {
    var h := HeaderIn(b);
    Record(b[..NAME_LENGTH], h, b[PREFIX_LENGTH..PREFIX_LENGTH + h.payloadSize])
  }

  function Rest(b: bytes): (t: bytes)
    requires !Incomplete(b)
    ensures |t| < |b|
  {
    b[PREFIX_LENGTH + HeaderIn(b).payloadSize..]
  }

  /** The records that a scan of the stretch finds, up to the first incomplete one. */
  function Records(b: bytes): (rs: seq<Record>)
    ensures AllWellFormed(rs)
    decreases |b|
  {
    if Incomplete(b) then [] else [First(b)] + Records(Rest(b))
  }

  /** What is left where the scan stops. */
  function Tail(b: bytes): (t: bytes)
    ensures Incomplete(t) && |t| <= |b|
    decreases |b|
  {
    if Incomplete(b) then b else Tail(Rest(b))
  }

  lemma FirstOfEncode(r: Record, t: bytes)
    requires WellFormed(r)
    ensures !Incomplete(Encode(r) + t) && First(Encode(r) + t) == r && Rest(Encode(r) + t) == t
  {
    var b := Encode(r) + t;
    assert b[..NAME_LENGTH] == r.name;
    assert b[NAME_LENGTH..PREFIX_LENGTH] == HeaderBytes(r.header);
    HeaderRoundTrip(r.header, HeaderBytes(r.header));
    assert b[PREFIX_LENGTH..PREFIX_LENGTH + |r.payload|] == r.payload;
    assert b[PREFIX_LENGTH + |r.payload|..] == t;
  }

  lemma EncodeOfFirst(b: bytes)
    requires !Incomplete(b)
    ensures Encode(First(b)) + Rest(b) == b
  {
    var n := HeaderIn(b).payloadSize;
    HeaderOfPart(b);
    HeaderRoundTrip(HeaderIn(b), b[NAME_LENGTH..PREFIX_LENGTH]);
    FourParts(b, n);
  }

  lemma HeaderOfPart(b: bytes)
    requires |b| >= PREFIX_LENGTH
    ensures ParseHeader(b[NAME_LENGTH..PREFIX_LENGTH]) == HeaderIn(b)
  {
  }

  lemma FourParts(b: bytes, n: nat)
    requires PREFIX_LENGTH + n <= |b|
    ensures b == ((b[..NAME_LENGTH] + b[NAME_LENGTH..PREFIX_LENGTH]) + b[PREFIX_LENGTH..PREFIX_LENGTH + n]) + b[PREFIX_LENGTH + n..]
  {
  }

  /** Scanning undoes encoding, whatever follows the encoded records. */
  lemma {:induction false} ScanOfEncode(rs: seq<Record>, t: bytes)
    requires AllWellFormed(rs)
    ensures Records(EncodeAll(rs) + t) == rs + Records(t)
    ensures Tail(EncodeAll(rs) + t) == Tail(t)
  {
    if rs == [] {
      assert EncodeAll(rs) + t == t;
    } else {
      var u := EncodeAll(rs[1..]) + t;
      Associative(Encode(rs[0]), EncodeAll(rs[1..]), t);
      FirstOfEncode(rs[0], u);
      ScanOfEncode(rs[1..], t);
      ConsAppend(rs, Records(t));
    }
  }

  lemma ConsAppend<T>(xs: seq<T>, ys: seq<T>)
    requires xs != []
    ensures xs + ys == [xs[0]] + (xs[1..] + ys)
  {
  }

  /** Every stretch of bytes is the encoding of the records its scan finds, and a tail. */
  lemma {:induction false} EncodeOfScan(b: bytes)
    ensures EncodeAll(Records(b)) + Tail(b) == b
    decreases |b|
  {
    if !Incomplete(b) {
      EncodeOfFirst(b);
      EncodeOfScan(Rest(b));
      var e := EncodeAll(Records(Rest(b)));
      assert Records(b)[1..] == Records(Rest(b));
      Associative(Encode(First(b)), e, Tail(b));
    }
  }

  lemma {:induction false} EncodeAllAppend(rs: seq<Record>, ss: seq<Record>)
    ensures EncodeAll(rs + ss) == EncodeAll(rs) + EncodeAll(ss)
  {
    if rs == [] {
      assert rs + ss == ss;
    } else {
      assert (rs + ss)[1..] == rs[1..] + ss;
      EncodeAllAppend(rs[1..], ss);
    }
  }

  /** A whole log scans to its records, and nothing is left over. */
  lemma ScanOfWhole(rs: seq<Record>)
    requires AllWellFormed(rs)
    ensures Records(EncodeAll(rs)) == rs && Tail(EncodeAll(rs)) == []
  {
    ScanOfEncode(rs, []);
    assert EncodeAll(rs) + [] == EncodeAll(rs) && rs + [] == rs;
  }

  lemma WholeIsEncoding(b: bytes)
    requires Tail(b) == []
    ensures EncodeAll(Records(b)) == b
  {
    EncodeOfScan(b);
    assert EncodeAll(Records(b)) + [] == EncodeAll(Records(b));
  }

  /** Appending the encoding of one record to a whole log. */
  lemma AppendOne(log: bytes, r: Record)
    requires Tail(log) == [] && WellFormed(r)
    ensures Records(log + Encode(r)) == Records(log) + [r] && Tail(log + Encode(r)) == []
  {
    WholeIsEncoding(log);
    EncodeAllAppend(Records(log), [r]);
    assert [r][1..] == [] && Encode(r) + [] == Encode(r);
    ScanOfWhole(Records(log) + [r]);
  }
}
