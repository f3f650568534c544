/** The variable-length word codec of varint.cpp. */
module Varint {
  import opened Words
  import opened Wrappers

  function SizeOf(w: uint32): nat {
    if w < 0x80 then 1
    else if w < 0x4000 then 2
    else if w < 0x20_0000 then 3
    else if w < 0x1000_0000 then 4
    else 5
  }

  function Size(words: seq<uint32>): nat {
    if words == [] then 0 else SizeOf(words[0]) + Size(words[1..])
  }

  function EncodeWord(w: uint32): (s: seq<byte>)
    ensures |s| == SizeOf(w)
  {
    if w < 0x80 then [w]
    else if w < 0x4000 then [0x80 + w % 128, w / 128 % 128]
    else if w < 0x20_0000 then [0x80 + w % 128, 0x80 + w / 128 % 128, w / 0x4000 % 128]
    else if w < 0x1000_0000 then
      [0x80 + w % 128, 0x80 + w / 128 % 128, 0x80 + w / 0x4000 % 128, w / 0x20_0000 % 128]
    else
      [0x80 + w % 128, 0x80 + w / 128 % 128, 0x80 + w / 0x4000 % 128, 0x80 + w / 0x20_0000 % 128,
       w / 0x1000_0000 % 128]
  }

  function Encode(words: seq<uint32>): (s: seq<byte>)
    ensures |s| == Size(words)
  {
    if words == [] then [] else EncodeWord(words[0]) + Encode(words[1..])
  }

  /** What byte k of a word's group contributes: seven bits, shifted by 7 * k, in a 32-bit word. */
  function Part(b: byte, k: nat): nat
    requires k < 5
  {
    if k == 0 then b % 128
    else if k == 1 then b % 128 * 0x80
    else if k == 2 then b % 128 * 0x4000
    else if k == 3 then b % 128 * 0x20_0000
    else b % 128 * 0x1000_0000 % 0x1_0000_0000
  }

  /** Everything below byte k of a group. */
  function Below(k: nat): nat {
    if k == 0 then 1 else if k == 1 then 0x80 else if k == 2 then 0x4000
    else if k == 3 then 0x20_0000 else if k == 4 then 0x1000_0000 else 0x1_0000_0000
  }

  lemma BelowIsPower(k: nat)
    requires k < 5
    ensures Below(k) == Pow2(7 * k)
  {
    if k == 1 {
      assert Pow2(7) == 0x80;
    } else if k == 2 {
      assert Pow2(14) == 0x4000;
    } else if k == 3 {
      assert Pow2(21) == 0x20_0000;
    } else if k == 4 {
      assert Pow2(28) == 0x1000_0000;
    }
  }

  lemma PartIsMultiple(b: byte, k: nat)
    requires k < 5
    ensures Part(b, k) == (if k < 4 then b % 128 else b % 16) * Below(k)
  {
  }

  /** The part of a byte does not overlap what the bytes before it gave, so or-ing it in is adding it. */
  lemma PartsDoNotOverlap(w: nat, b: byte, k: nat)
    requires k < 5 && w < Below(k)
    ensures Or(w, Part(b, k)) == w + Part(b, k)
  {
    BelowIsPower(k);
    PartIsMultiple(b, k);
    OrDisjoint(w, if k < 4 then b % 128 else b % 16, 7 * k);
  }

  /** Reads the rest of a group from byte k on, given the word read so far. */
  function DecodeGroup(buffer: seq<byte>, k: nat, w: nat): (r: Option<(uint32, nat)>)
    requires k <= 5 && w < Below(k)
    ensures r.Some? ==> k < r.value.1 <= |buffer| && r.value.1 <= 5
    decreases 5 - k
  {
    if k >= |buffer| || k >= 5 then None
    else if buffer[k] >= 0x80 then DecodeGroup(buffer, k + 1, w + Part(buffer[k], k))
    else Some((w + Part(buffer[k], k), k + 1))
  }

  function Decode(buffer: seq<byte>, n: nat): (r: Option<seq<uint32>>)
    ensures r.Some? ==> |r.value| == n
  {
    if n == 0 then (if buffer == [] then Some([]) else None)
    else
      var first := DecodeGroup(buffer, 0, 0);
      if first.None? then None
      else
        var rest := Decode(buffer[first.value.1..], n - 1);
        if rest.None? then None else Some([first.value.0] + rest.value)
  }

  /** A group reads the same with anything behind it. */
  lemma {:induction false} GroupExtends(a: seq<byte>, b: seq<byte>, k: nat, w: nat)
    requires k <= 5 && w < Below(k) && DecodeGroup(a, k, w).Some?
    ensures DecodeGroup(a + b, k, w) == DecodeGroup(a, k, w)
    decreases 5 - k
  {
    if a[k] >= 0x80 {
      GroupExtends(a, b, k + 1, w + Part(a[k], k));
    }
  }

  /** The seven-bit digits of a word add up to it. */
  lemma Digit1(w: uint32, d: nat)
    requires d == w / 0x80 % 128
    ensures w % 0x80 + d * 0x80 == w % 0x4000
  {
  }

  lemma Digit2(w: uint32, d: nat)
    requires d == w / 0x4000 % 128
    ensures w % 0x4000 + d * 0x4000 == w % 0x20_0000
  {
  }

  lemma Digit3(w: uint32, d: nat)
    requires d == w / 0x20_0000 % 128
    ensures w % 0x20_0000 + d * 0x20_0000 == w % 0x1000_0000
  {
  }

  lemma Digit4(w: uint32, d: nat)
    requires d == w / 0x1000_0000 % 128
    ensures d < 16 && w % 0x1000_0000 + d * 0x1000_0000 == w
  {
  }

  /** What a group has read before byte k. */
  function Low(w: uint32, k: nat): (r: nat)
    ensures r < Below(k)
  {
    if k == 0 then 0 else if k == 1 then w % 0x80 else if k == 2 then w % 0x4000
    else if k == 3 then w % 0x20_0000 else if k == 4 then w % 0x1000_0000 else w
  }

  function Digit(w: uint32, k: nat): (r: byte)
    requires k < 5
    ensures r < 128
  {
    if k == 0 then w % 128 else if k == 1 then w / 128 % 128 else if k == 2 then w / 0x4000 % 128
    else if k == 3 then w / 0x20_0000 % 128 else w / 0x1000_0000 % 128
  }

  lemma DigitAdds(w: uint32, k: nat, b: byte)
    requires k < 5 && b % 128 == Digit(w, k)
    ensures Low(w, k) + Part(b, k) == Low(w, k + 1)
  {
    var d: nat := b % 128;
    if k == 1 {
      Digit1(w, d);
    } else if k == 2 {
      Digit2(w, d);
    } else if k == 3 {
      Digit3(w, d);
    } else if k == 4 {
      Digit4(w, d);
      PartOfLast(b, d);
    }
  }

  lemma PartOfLast(b: byte, d: nat)
    requires d == b % 128 && d < 16
    ensures Part(b, 4) == d * 0x1000_0000
  {
  }

  /** A group that holds the digits of a word reads as that word, if the digits are all of it. */
  lemma {:induction false} GroupReads(s: seq<byte>, w: uint32, k: nat)
    requires k < |s| <= 5 && Low(w, |s|) == w
    requires forall i :: 0 <= i < |s| ==> s[i] == Digit(w, i) + if i < |s| - 1 then 0x80 else 0
    ensures DecodeGroup(s, k, Low(w, k)) == Some((w, |s|))
    decreases |s| - k
  {
    DigitAdds(w, k, s[k]);
    if k < |s| - 1 {
      GroupReads(s, w, k + 1);
    }
  }

  /** Seven bits a byte, the lowest first; every byte but the last has its top bit set, and the last one is
      not zero unless it is the only one. */
  lemma GroupLayout(w: uint32)
    ensures forall i :: 0 <= i < SizeOf(w) ==>
      && Pow2(7 * i) > 0 && EncodeWord(w)[i] % 128 == w / Pow2(7 * i) % 128
      && (EncodeWord(w)[i] >= 128 <==> i < SizeOf(w) - 1)
    ensures SizeOf(w) > 1 ==> EncodeWord(w)[SizeOf(w) - 1] != 0
  {
    forall i: nat | i < SizeOf(w)
      ensures Pow2(7 * i) > 0 && EncodeWord(w)[i] % 128 == w / Pow2(7 * i) % 128
      ensures EncodeWord(w)[i] >= 128 <==> i < SizeOf(w) - 1
    {
      ByteOfWord(w, i);
      BelowIsPower(i);
      DigitIs(w, i);
    }
    TopDigit(w);
  }

  lemma ByteOfWord(w: uint32, i: nat)
    requires i < SizeOf(w)
    ensures EncodeWord(w)[i] == Digit(w, i) + if i < SizeOf(w) - 1 then 0x80 else 0
  {
  }

  lemma DigitIs(w: uint32, k: nat)
    requires k < 5
    ensures Digit(w, k) == w / Below(k) % 128
  {
  }

  lemma TopDigit(w: uint32)
    ensures SizeOf(w) > 1 ==> EncodeWord(w)[SizeOf(w) - 1] != 0
  {
  }

  lemma WordRoundTrip(w: uint32)
    ensures DecodeGroup(EncodeWord(w), 0, 0) == Some((w, SizeOf(w)))
  {
    GroupReads(EncodeWord(w), w, 0);
  }

  lemma {:induction false} RoundTrip(words: seq<uint32>)
    ensures Decode(Encode(words), |words|) == Some(words)
  {
    if words != [] {
      var first, rest := EncodeWord(words[0]), Encode(words[1..]);
      WordRoundTrip(words[0]);
      GroupExtends(first, rest, 0, 0);
      assert (first + rest)[|first|..] == rest && [words[0]] + words[1..] == words;
      RoundTrip(words[1..]);
    }
  }

  /** A buffer that is accepted for a number of words is not accepted for it once bytes are
      missing at its end or have been added to it. */
  lemma {:induction false} OneLengthOnly(a: seq<byte>, b: seq<byte>, n: nat)
    requires b != []
    ensures Decode(a, n).None? || Decode(a + b, n).None?
  {
    if n > 0 && DecodeGroup(a, 0, 0).Some? {
      GroupExtends(a, b, 0, 0);
      var len := DecodeGroup(a, 0, 0).value.1;
      assert (a + b)[len..] == a[len..] + b;
      OneLengthOnly(a[len..], b, n - 1);
    }
  }

  /** A decoded word fits the bytes its group took, so its own encoding is no longer. */
  lemma {:induction false} GroupBound(buffer: seq<byte>, k: nat, w: nat)
    requires k <= 5 && w < Below(k) && DecodeGroup(buffer, k, w).Some?
    ensures DecodeGroup(buffer, k, w).value.0 < Below(DecodeGroup(buffer, k, w).value.1)
    decreases 5 - k
  {
    if buffer[k] >= 0x80 {
      GroupBound(buffer, k + 1, w + Part(buffer[k], k));
    }
  }

  lemma {:induction false} EncodingIsShortest(buffer: seq<byte>, n: nat)
    requires Decode(buffer, n).Some?
    ensures |Encode(Decode(buffer, n).value)| <= |buffer|
  {
    if n > 0 {
      GroupBound(buffer, 0, 0);
      var (w, len) := DecodeGroup(buffer, 0, 0).value;
      EncodingIsShortest(buffer[len..], n - 1);
      var rest := Decode(buffer[len..], n - 1).value;
      assert ([w] + rest)[1..] == rest;
    }
  }

  /** How many bytes end a group. */
  function Ends(buffer: seq<byte>): nat {
    if buffer == [] then 0 else (if buffer[0] < 0x80 then 1 else 0) + Ends(buffer[1..])
  }

  /** Whole groups of at most five bytes, and nothing behind the last. */
  ghost predicate Grouped(buffer: seq<byte>) {
    && (buffer != [] ==> buffer[|buffer| - 1] < 0x80)
    && forall i :: 0 <= i && i + 5 <= |buffer| ==> EndIn(buffer, i)
  }

  ghost predicate EndIn(buffer: seq<byte>, i: nat)
    requires i + 5 <= |buffer|
  {
    exists j :: i <= j < i + 5 && buffer[j] < 0x80
  }

  /** A group is complete exactly if one of its up to five bytes ends it, and it stops at the first. */
  lemma {:induction false} GroupAccepted(buffer: seq<byte>, k: nat, w: nat)
    requires k <= 5 && w < Below(k)
    ensures DecodeGroup(buffer, k, w).Some? ==>
      && buffer[DecodeGroup(buffer, k, w).value.1 - 1] < 0x80
      && forall j :: k <= j < DecodeGroup(buffer, k, w).value.1 - 1 ==> buffer[j] >= 0x80
    ensures DecodeGroup(buffer, k, w).None? ==> forall j :: k <= j < 5 && j < |buffer| ==> buffer[j] >= 0x80
    decreases 5 - k
  {
    if k < |buffer| && k < 5 && buffer[k] >= 0x80 {
      var w' := w + Part(buffer[k], k);
      GroupAccepted(buffer, k + 1, w');
      assert DecodeGroup(buffer, k, w) == DecodeGroup(buffer, k + 1, w');
    }
  }

  lemma {:induction false} EndsAfter(buffer: seq<byte>, len: nat)
    requires 0 < len <= |buffer| && buffer[len - 1] < 0x80
    requires forall j :: 0 <= j < len - 1 ==> buffer[j] >= 0x80
    ensures Ends(buffer) == 1 + Ends(buffer[len..])
  {
    if len > 1 {
      EndsAfter(buffer[1..], len - 1);
      assert buffer[1..][len - 1..] == buffer[len..];
    }
  }

  lemma GroupedAfter(buffer: seq<byte>, len: nat)
    requires 0 < len <= 5 && len <= |buffer| && buffer[len - 1] < 0x80
    ensures Grouped(buffer) <==> Grouped(buffer[len..])
  {
    var rest := buffer[len..];
    if Grouped(buffer) {
      forall i | 0 <= i && i + 5 <= |rest|
        ensures EndIn(rest, i)
      {
        assert EndIn(buffer, len + i);
        var j :| len + i <= j < len + i + 5 && buffer[j] < 0x80;
        assert rest[j - len] < 0x80;
      }
    }
    if Grouped(rest) {
      forall i | 0 <= i && i + 5 <= |buffer|
        ensures EndIn(buffer, i)
      {
        if i >= len {
          assert EndIn(rest, i - len);
          var j :| i - len <= j < i - len + 5 && rest[j] < 0x80;
          assert buffer[j + len] < 0x80;
        } else {
          assert buffer[len - 1] < 0x80;
        }
      }
    }
  }

  /** Exactly the buffers of n whole groups are accepted for n words. */
  lemma {:induction false} AcceptedExactly(buffer: seq<byte>, n: nat)
    ensures Decode(buffer, n).Some? <==> Grouped(buffer) && Ends(buffer) == n
  {
    GroupAccepted(buffer, 0, 0);
    if n == 0 {
      if buffer != [] && Grouped(buffer) {
        EndsPositive(buffer, |buffer| - 1);
      }
    } else if DecodeGroup(buffer, 0, 0).Some? {
      var len := DecodeGroup(buffer, 0, 0).value.1;
      EndsAfter(buffer, len);
      GroupedAfter(buffer, len);
      AcceptedExactly(buffer[len..], n - 1);
    } else if |buffer| >= 5 {
      assert !EndIn(buffer, 0);
    }
  }

  lemma {:induction false} EndsPositive(buffer: seq<byte>, i: nat)
    requires i < |buffer| && buffer[i] < 0x80
    ensures Ends(buffer) > 0
  {
    if i > 0 {
      EndsPositive(buffer[1..], i - 1);
    }
  }

  method ComputeSizeVarint(words: seq<uint32>) returns (size: nat)
    ensures size == |Encode(words)|
  {
    size := 0;
    for i := 0 to |words|
      invariant size + Size(words[i..]) == Size(words)
    {
      var w := words[i];
      assert words[i..][1..] == words[i + 1..];
      if w < 0x80 {
        size := size + 1;
      } else if w < 0x4000 {
        size := size + 2;
      } else if w < 0x20_0000 {
        size := size + 3;
      } else if w < 0x1000_0000 {
        size := size + 4;
      } else {
        size := size + 5;
      }
    }
  }

  method Store(buffer: array<byte>, at: nat, s: seq<byte>)
    requires at + |s| <= buffer.Length
    modifies buffer
    ensures buffer[..] == old(buffer[..at]) + s + old(buffer[at + |s|..])
  {
    for k := 0 to |s|
      invariant buffer[..at] == old(buffer[..at]) && buffer[at..at + k] == s[..k]
      invariant buffer[at + k..] == old(buffer[at + k..])
    {
      buffer[at + k] := s[k];
    }
    assert buffer[..] == buffer[..at] + buffer[at..at + |s|] + buffer[at + |s|..];
  }

  /** Writes the words from the start of the buffer and returns the end of what was written. */
  method EncodeVarint(buffer: array<byte>, words: seq<uint32>) returns (end: nat)
    requires Size(words) <= buffer.Length
    modifies buffer
    ensures end == Size(words) && buffer[..end] == Encode(words)
    ensures buffer[end..] == old(buffer[end..])
  {
    end := 0;
    for i := 0 to |words|
      invariant end + Size(words[i..]) == Size(words)
      invariant buffer[..end] + Encode(words[i..]) == Encode(words)
      invariant buffer[end..] == old(buffer[end..])
    {
      ghost var rest := words[i + 1..];
      var group := EncodeWord(words[i]);
      assert words[i..][1..] == rest;
      ghost var done := buffer[..end];
      Store(buffer, end, group);
      Associative(done, group, Encode(rest));
      assert buffer[..end + |group|] == done + group;
      end := end + |group|;
    }
  }

  /** One byte more of a group. */
  lemma GroupStep(rest: seq<byte>, k: nat, w: nat, w': nat)
    requires k < 5 && k < |rest| && w < Below(k) && w' == Or(w, Part(rest[k], k))
    ensures rest[k] >= 0x80 ==> w' < Below(k + 1) && DecodeGroup(rest, k, w) == DecodeGroup(rest, k + 1, w')
    ensures rest[k] < 0x80 ==> w' < TWO_TO_THE_32 && DecodeGroup(rest, k, w) == Some((w', k + 1))
  {
    PartsDoNotOverlap(w, rest[k], k);
  }

  /** Reads the group at an offset. */
  method DecodeOne(buffer: seq<byte>, start: nat) returns (ok: bool, w: uint32, offset: nat)
    requires start <= |buffer|
    ensures ok <==> DecodeGroup(buffer[start..], 0, 0).Some?
    ensures ok ==> start <= offset <= |buffer| && DecodeGroup(buffer[start..], 0, 0) == Some((w, offset - start))
  {
    ghost var rest := buffer[start..];
    var word: nat := 0;
    ok, w, offset := false, 0, start;
    var shift := 0;
    var b: byte := 0x80;
    while b >= 0x80
      invariant start <= offset <= |buffer| && shift == 7 * (offset - start) && offset - start <= 5
      invariant b >= 0x80 ==> word < Below(offset - start)
      invariant b >= 0x80 ==> DecodeGroup(rest, 0, 0) == DecodeGroup(rest, offset - start, word)
      invariant b < 0x80 ==> word < TWO_TO_THE_32 && DecodeGroup(rest, 0, 0) == Some((word, offset - start))
      decreases b >= 0x80, 5 - (offset - start)
    {
      if offset >= |buffer| || shift >= 32 {
        return;
      }
      b := buffer[offset];
      assert b == rest[offset - start];
      ghost var before := word;
      word := Or(word, Part(b, offset - start));
      GroupStep(rest, offset - start, before, word);
      shift := shift + 7;
      offset := offset + 1;
    }
    ok, w := true, word;
  }

  /** Reads as many words as the array holds; what it holds after a failure is not specified. */
  method DecodeVarint(words: array<uint32>, buffer: seq<byte>) returns (ok: bool)
    modifies words
    ensures ok <==> Decode(buffer, words.Length).Some?
    ensures ok ==> words[..] == Decode(buffer, words.Length).value
  {
    var offset := 0;
    var n := words.Length;
    assert buffer[0..] == buffer && forall s: seq<uint32> :: words[..0] + s == s;
    for i := 0 to n
      invariant offset <= |buffer|
      invariant Decode(buffer, n) == Prepend(words[..i], Decode(buffer[offset..], n - i))
    {
      ghost var rest, done := buffer[offset..], words[..i];
      var more, w, end := DecodeOne(buffer, offset);
      if !more {
        return false;
      }
      assert rest[end - offset..] == buffer[end..];
      words[i] := w;
      assert words[..i + 1] == done + [w];
      PrependTwice(done, w, Decode(buffer[end..], n - i - 1));
      offset := end;
    }
    ok := offset == |buffer|;
    assert words[..n] + [] == words[..];
  }

  lemma PrependTwice(front: seq<uint32>, w: uint32, rest: Option<seq<uint32>>)
    ensures Prepend(front, Prepend([w], rest)) == Prepend(front + [w], rest)
  {
    if rest.Some? {
      assert front + ([w] + rest.value) == front + [w] + rest.value;
    }
  }

  function Prepend(front: seq<uint32>, rest: Option<seq<uint32>>): Option<seq<uint32>> {
    if rest.None? then None else Some(front + rest.value)
  }
}
