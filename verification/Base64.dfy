/** The base64 codec of fossilize.cpp (section 4 of RFC 4648). Characters past the end of a
    string read as the terminating NUL. */
module Base64 {
  import opened Words

  type sextet = x: int | 0 <= x < 64

  function Letter(v: sextet): char {
    if v == 63 then '/'
    else if v == 62 then '+'
    else if v >= 52 then '0' + (v - 52) as char
    else if v >= 26 then 'a' + (v - 26) as char
    else 'A' + v as char
  }

  function Index(c: char): sextet {
    if 'A' <= c <= 'Z' then (c - 'A') as int
    else if 'a' <= c <= 'z' then (c - 'a') as int + 26
    else if '0' <= c <= '9' then (c - '0') as int + 52
    else if c == '+' then 62
    else if c == '/' then 63
    else 0
  }

  lemma LetterRoundTrip(v: sextet)
    ensures Index(Letter(v)) == v && Letter(v) != '=' && Letter(v) != '\0'
  {
  }

  /** The alphabet of section 4 of RFC 4648: A to Z, a to z, 0 to 9, plus and slash. */
  lemma LetterIsAscii(v: sextet)
    ensures v < 26 ==> Letter(v) as int == 0x41 + v
    ensures 26 <= v < 52 ==> Letter(v) as int == 0x61 + (v - 26)
    ensures 52 <= v < 62 ==> Letter(v) as int == 0x30 + (v - 52)
    ensures v == 62 ==> Letter(v) as int == 0x2b
    ensures v == 63 ==> Letter(v) as int == 0x2f
  {
  }

  /** The digits of a number in base 64 and in base 256, the most significant first. */
  function Sextets(code: nat, n: nat): (s: seq<sextet>)
    ensures |s| == n
  {
    if n == 0 then [] else Sextets(code / 64, n - 1) + [code % 64]
  }

  function Octets(code: nat, n: nat): (s: seq<byte>)
    ensures |s| == n
  {
    if n == 0 then [] else Octets(code / 256, n - 1) + [code % 256]
  }

  function FromSextets(s: seq<sextet>): nat {
    if s == [] then 0 else FromSextets(s[..|s| - 1]) * 64 + s[|s| - 1]
  }

  function FromOctets(s: seq<byte>): nat {
    if s == [] then 0 else FromOctets(s[..|s| - 1]) * 256 + s[|s| - 1]
  }

  function Power(base: nat, n: nat): nat {
    if n == 0 then 1 else base * Power(base, n - 1)
  }

  lemma {:induction false} SextetsInverse(code: nat, n: nat)
    requires code < Power(64, n)
    ensures FromSextets(Sextets(code, n)) == code
  {
    if n > 0 {
      SextetsInverse(code / 64, n - 1);
      var front := Sextets(code / 64, n - 1);
      assert (front + [code % 64])[..n - 1] == front;
    }
  }

  lemma {:induction false} OctetsInverse(s: seq<byte>)
    ensures Octets(FromOctets(s), |s|) == s && FromOctets(s) < Power(256, |s|)
  {
    if s != [] {
      OctetsInverse(s[..|s| - 1]);
    }
  }

  /** One to three bytes, filled up with zeros. */
  function Padded(data: seq<byte>): (s: seq<byte>)
    requires 1 <= |data| <= 3
    ensures |s| == 3
  {
    if |data| == 1 then data + [0, 0] else if |data| == 2 then data + [0] else data
  }

  /** Zero bytes at the end of a group are zero sextets at its end. */
  lemma LastSextets(code: nat, high: nat)
    ensures code == high * 0x100 ==> Sextets(code, 4)[3] == 0
    ensures code == high * 0x1_0000 ==> Sextets(code, 4)[2] == 0
  {
    var front := Sextets(code / 64, 3);
    assert Sextets(code, 4) == front + [code % 64];
    assert front == Sextets(code / 64 / 64, 2) + [code / 64 % 64];
  }

  lemma PaddingSextets(data: seq<byte>)
    requires 1 <= |data| <= 3
    ensures FromOctets(Padded(data)) < 0x100_0000
    ensures |data| <= 2 ==> Sextets(FromOctets(Padded(data)), 4)[3] == 0
    ensures |data| == 1 ==> Sextets(FromOctets(Padded(data)), 4)[2] == 0
  {
    var s := Padded(data);
    var code := FromOctets(s);
    CodeIs(s);
    LastSextets(code, s[0] as int * 0x100 + s[1] as int);
    LastSextets(code, s[0]);
  }

  lemma CodeIs(s: seq<byte>)
    requires |s| == 3
    ensures FromOctets(s) == s[0] as int * 0x1_0000 + s[1] as int * 0x100 + s[2]
  {
    assert FromOctets(s) == FromOctets(s[..2]) * 256 + s[2];
    assert FromOctets(s[..2]) == FromOctets(s[..2][..1]) * 256 + s[1];
    assert s[..2][..1][..0] == [] && FromOctets(s[..2][..1]) == s[0];
  }

  function Group(data: seq<byte>): (s: seq<char>)
    requires 1 <= |data| <= 3
    ensures |s| == 4
  {
    var v := Sextets(FromOctets(Padded(data)), 4);
    [Letter(v[0]), Letter(v[1]), if |data| == 1 then '=' else Letter(v[2]), if |data| <= 2 then '=' else Letter(v[3])]
  }

  /** The 24 bits of three bytes, six at a time from the top; missing bytes are zeros, and letters that hold
      none of the data are padding. */
  lemma GroupLayout(data: seq<byte>)
    requires 1 <= |data| <= 3
    ensures var s := Padded(data);
      && Group(data)[0] == Letter(s[0] / 4)
      && Group(data)[1] == Letter(s[0] % 4 * 16 + s[1] / 16)
      && Group(data)[2] == (if |data| == 1 then '=' else Letter(s[1] % 16 * 4 + s[2] / 64))
      && Group(data)[3] == if |data| <= 2 then '=' else Letter(s[2] % 64)
  {
    var s := Padded(data);
    CodeIs(s);
    var code := FromOctets(s);
    SextetsAre(code, s[0], s[1], s[2]);
  }

  lemma SextetsAre(code: nat, b0: byte, b1: byte, b2: byte)
    requires code == b0 * 0x1_0000 + b1 * 0x100 + b2
    ensures Sextets(code, 4) == [b0 / 4, b0 % 4 * 16 + b1 / 16, b1 % 16 * 4 + b2 / 64, b2 % 64]
  {
    var c1 := b0 * 0x400 + b1 * 4 + b2 / 64;
    var c2 := b0 * 0x10 + b1 / 16;
    assert code / 64 == c1 && code % 64 == b2 % 64;
    assert c1 / 64 == c2 && c1 % 64 == b1 % 16 * 4 + b2 / 64;
    assert c2 / 64 == b0 / 4 && c2 % 64 == b0 % 4 * 16 + b1 / 16;
    assert Sextets(b0 / 4, 1) == [b0 / 4];
    assert Sextets(c2, 2) == Sextets(b0 / 4, 1) + [c2 % 64];
    assert Sextets(c1, 3) == Sextets(c2, 2) + [c1 % 64];
  }

  function Front(data: seq<byte>): seq<byte> {
    if |data| <= 3 then data else data[..3]
  }

  function Encode(data: seq<byte>): (s: seq<char>)
    ensures |s| == 4 * ((|data| + 2) / 3)
  {
    if data == [] then []
    else Group(Front(data)) + Encode(data[|Front(data)|..])
  }

  function CharAt(s: seq<char>, k: nat): char {
    if k < |s| then s[k] else '\0'
  }

  /** The bytes of the four characters at the front: one, two or three, by the padding. */
  function Bytes(c0: char, c1: char, c2: char, c3: char): (b: seq<byte>)
    ensures 1 <= |b| <= 3
  {
    var values := Octets(FromSextets([Index(c0), Index(c1), Index(c2), Index(c3)]), 3);
    if c2 == '=' && c3 == '=' then values[..1] else if c3 == '=' then values[..2] else values
  }

  /** The bytes of four characters, from the top of the 24 bits: the last one is there unless the last
      character is padding, the middle one unless the last two are.  Characters that are no letters count
      as zero. */
  lemma BytesLayout(c0: char, c1: char, c2: char, c3: char)
    ensures var b, i0, i1, i2, i3 := Bytes(c0, c1, c2, c3), Index(c0), Index(c1), Index(c2), Index(c3);
      && |b| == (if c3 != '=' then 3 else if c2 != '=' then 2 else 1)
      && b[0] == i0 * 4 + i1 / 16
      && (|b| > 1 ==> b[1] == i1 % 16 * 16 + i2 / 4)
      && (|b| > 2 ==> b[2] == i2 % 4 * 64 + i3)
  {
    OctetsAre(FromSextets([Index(c0), Index(c1), Index(c2), Index(c3)]), Index(c0), Index(c1), Index(c2), Index(c3));
  }

  lemma OctetsAre(code: nat, i0: sextet, i1: sextet, i2: sextet, i3: sextet)
    requires code == FromSextets([i0, i1, i2, i3])
    ensures Octets(code, 3) == [i0 * 4 + i1 / 16, i1 % 16 * 16 + i2 / 4, i2 % 4 * 64 + i3]
  {
    SextetCode(i0, i1, i2, i3);
    var c1 := i0 * 0x400 + i1 * 0x10 + i2 / 4;
    var c2 := i0 * 4 + i1 / 16;
    assert code / 256 == c1 && code % 256 == i2 % 4 * 64 + i3;
    assert c1 / 256 == c2 && c1 % 256 == i1 % 16 * 16 + i2 / 4;
    assert Octets(c2, 1) == [c2];
    assert Octets(c1, 2) == Octets(c2, 1) + [c1 % 256];
  }

  lemma SextetCode(i0: sextet, i1: sextet, i2: sextet, i3: sextet)
    ensures FromSextets([i0, i1, i2, i3]) == i0 * 0x4_0000 + i1 * 0x1000 + i2 * 0x40 + i3
  {
    assert [i0, i1, i2, i3][..3] == [i0, i1, i2] && [i0, i1, i2][..2] == [i0, i1] && [i0, i1][..1] == [i0] && [i0][..0] == [];
    assert FromSextets([i0]) == i0;
    assert FromSextets([i0, i1]) == i0 * 64 + i1;
    assert FromSextets([i0, i1, i2]) == (i0 * 64 + i1) * 64 + i2;
  }

  /** What is written for a string when a number of bytes is asked for. */
  function Decode(s: seq<char>, length: int): seq<byte>
    decreases length
  {
    if length <= 0 || CharAt(s, 0) == '\0' || CharAt(s, 1) == '\0' || CharAt(s, 2) == '\0' || CharAt(s, 3) == '\0'
    then []
    else
      var bytes := Bytes(s[0], s[1], s[2], s[3]);
      bytes + Decode(s[4..], length - |bytes|)
  }

  lemma GroupRoundTrip(data: seq<byte>)
    requires 1 <= |data| <= 3
    ensures var s := Group(data); Bytes(s[0], s[1], s[2], s[3]) == data
    ensures forall k :: 0 <= k < 4 ==> Group(data)[k] != '\0'
  {
    var code := FromOctets(Padded(data));
    var v := Sextets(code, 4);
    PaddingSextets(data);
    LetterRoundTrip(v[0]);
    LetterRoundTrip(v[1]);
    LetterRoundTrip(v[2]);
    LetterRoundTrip(v[3]);
    var s := Group(data);
    assert [Index(s[0]), Index(s[1]), Index(s[2]), Index(s[3])] == v;
    assert Power(64, 4) == 64 * Power(64, 3) == 64 * 64 * Power(64, 2);
    SextetsInverse(code, 4);
    OctetsInverse(Padded(data));
  }

  /** Decoding undoes encoding and writes exactly the length of the data, whatever follows. */
  lemma {:induction false} RoundTrip(data: seq<byte>, rest: seq<char>)
    ensures Decode(Encode(data) + rest, |data|) == data
  {
    if data != [] {
      var first := Front(data);
      var tail := data[|first|..];
      GroupRoundTrip(first);
      EncodeStep(data, Group(first), tail, rest);
      GroupDecodes(Group(first), Encode(tail) + rest, first, |data|);
      RoundTrip(tail, rest);
      assert first + tail == data;
    }
  }

  lemma EncodeStep(data: seq<byte>, group: seq<char>, tail: seq<byte>, rest: seq<char>)
    requires data != [] && group == Group(Front(data)) && tail == data[|Front(data)|..]
    ensures Encode(data) + rest == group + (Encode(tail) + rest)
  {
    Joined(group, Encode(tail), rest);
  }

  /** Decoding takes the four characters in front first. */
  lemma GroupDecodes(group: seq<char>, rest: seq<char>, bytes: seq<byte>, length: int)
    requires |group| == 4 && length > 0 && Bytes(group[0], group[1], group[2], group[3]) == bytes
    requires forall k :: 0 <= k < 4 ==> group[k] != '\0'
    ensures Decode(group + rest, length) == bytes + Decode(rest, length - |bytes|)
  {
    var s := group + rest;
    assert s[4..] == rest;
    assert s[0] == group[0] && s[1] == group[1] && s[2] == group[2] && s[3] == group[3];
    DecodeStep(s, rest, bytes, length);
  }

  lemma DecodeStep(s: seq<char>, rest: seq<char>, bytes: seq<byte>, length: int)
    requires |s| >= 4 && s[4..] == rest && length > 0 && Bytes(s[0], s[1], s[2], s[3]) == bytes
    requires s[0] != '\0' && s[1] != '\0' && s[2] != '\0' && s[3] != '\0'
    ensures Decode(s, length) == bytes + Decode(rest, length - |bytes|)
  {
  }

  method EncodeBase64(data: seq<byte>) returns (ret: seq<char>)
    ensures ret == Encode(data)
  {
    ret := [];
    var i := 0;
    while i < |data|
      invariant i <= |data| + 2 && ret + Encode(From(data, i)) == Encode(data)
      decreases |data| - i
    {
      ghost var rest := data[i..];
      var group := EncodeGroup(data, i);
      assert From(data, i + 3) == rest[|Front(rest)|..];
      ghost var tail := Encode(From(data, i + 3));
      assert ret + (group + tail) == ret + group + tail;
      ret := ret + group;
      i := i + 3;
    }
  }

  function From(data: seq<byte>, i: nat): seq<byte> {
    if i <= |data| then data[i..] else []
  }

  method EncodeGroup(data: seq<byte>, i: nat) returns (letters: seq<char>)
    requires i < |data|
    ensures letters == Group(Front(data[i..]))
  {
    var code: nat := data[i];
    code := code * 0x1_0000;
    if i + 1 < |data| {
      var b: nat := data[i + 1];
      code := code + b * 0x100;
    }
    if i + 2 < |data| {
      code := code + data[i + 2];
    }
    CodeIs(Padded(Front(data[i..])));
    var v := Sextets(code, 4);
    var c0, c1, c2, c3 := Letter(v[0]), Letter(v[1]), Letter(v[2]), Letter(v[3]);
    var outBytes := if |data| - i < 3 then |data| - i else 3;
    if outBytes == 1 {
      c2, c3 := '=', '=';
    } else if outBytes == 2 {
      c3 := '=';
    }
    letters := [c0, c1, c2, c3];
  }

  method DecodeBase64(s: seq<char>, length: nat) returns (buf: seq<byte>)
    ensures buf == Decode(s, length)
  {
    buf := [];
    var at, i := 0, 0;
    ghost var todo, left: int := Decode(s, length), length;
    assert s[0..] == s;
    while i < length
      invariant at <= |s| && i == |buf| && buf + todo == Decode(s, length)
      invariant left == length - i && todo == Decode(s[at..], left)
      decreases length - i
    {
      var ended, bytes;
      ended, bytes, todo := NextBytes(s, at, left, todo);
      if ended {
        break;
      }
      Joined(buf, bytes, todo);
      buf := buf + bytes;
      i, left := i + |bytes|, left - |bytes|;
      at := at + 4;
    }
  }

  lemma Joined<T>(a: seq<T>, b: seq<T>, c: seq<T>)
    ensures a + (b + c) == (a + b) + c
  {
  }

  /** The bytes of the next four characters, if the string does not end before them. */
  method NextBytes(s: seq<char>, at: nat, ghost left: int, ghost todo: seq<byte>)
    returns (ended: bool, bytes: seq<byte>, ghost after: seq<byte>)
    requires at <= |s| && left > 0 && todo == Decode(s[at..], left)
    ensures todo == bytes + after && (ended ==> todo == [])
    ensures !ended ==> |bytes| > 0 && at + 4 <= |s| && after == Decode(s[at + 4..], left - |bytes|)
  {
    var c0, c1, c2, c3 := CharAt(s, at), CharAt(s, at + 1), CharAt(s, at + 2), CharAt(s, at + 3);
    ghost var rest := s[at..];
    assert c0 == CharAt(rest, 0) && c1 == CharAt(rest, 1) && c2 == CharAt(rest, 2) && c3 == CharAt(rest, 3);
    if c0 == '\0' || c1 == '\0' || c2 == '\0' || c3 == '\0' {
      return true, [], [];
    }
    ended, bytes := false, Bytes(c0, c1, c2, c3);
    after := Decode(s[at + 4..], left - |bytes|);
    DecodeStep(rest, s[at + 4..], bytes, left);
  }
}
