/** The ring buffer of fossilize_external_replayer_control_block.hpp and the loop that drains it.

    The four counters are 32-bit and wrap.  `Written` and `Taken` are the true byte totals;
    the buffer refines the FIFO `Contents()`. */
module Ring {
  import opened Words
  import opened Wrappers

  const MESSAGE_SIZE: nat := 64

  class SharedControlBlock {
    var writeCount: uint32
    var readCount: uint32
    var readOffset: uint32
    var writeOffset: uint32
    const ring: array<byte>

    /** Bytes waiting, as `shared_control_block_read_avail` computes them. */
    ghost function Used(): uint32
      reads this
    {
      WrapSub(writeCount, readCount)
    }

    ghost predicate Valid()
      reads this
    {
      && 0 < ring.Length <= 0x8000_0000
      && readOffset < ring.Length && Used() <= ring.Length
      && writeOffset == Shift(readOffset, Used(), ring.Length)
    }

    /** The bytes accepted and not yet taken, oldest first. */
    ghost function Contents(): (s: seq<byte>)
      requires Valid()
      reads this, ring
      ensures |s| == Used()
    {
      Window(ring[..], readOffset, Used())
    }

    /** Every offset is its 32-bit count masked to the power-of-two size. */
    ghost predicate InStep()
      reads this
    {
      && ring.Length > 0 && PowerOfTwo(ring.Length)
      && readOffset == And(readCount, ring.Length - 1)
      && writeOffset == And(writeCount, ring.Length - 1)
    }

    /** A block whose size passed the corruption test of the master process. */
    constructor (size: uint32)
      requires size > 0 && And(size, size - 1) == 0
      ensures Valid() && InStep() && fresh(ring) && ring.Length == size
      ensures readCount == writeCount == 0 && Contents() == []
    {
      PowerOfTwoTest(size);
      PotBound(size);
      ring := new byte[size];
      writeCount, readCount, readOffset, writeOffset := 0, 0, 0, 0;
    }

    method ReadAvail() returns (n: uint32)
      requires Valid()
      ensures n == |Contents()|
    {
      n := WrapSub(writeCount, readCount);
    }

    /** The free space, when no wrap separates the two counts it subtracts; otherwise nothing. */
    method WriteAvail() returns (n: uint32)
      requires Valid()
      ensures n == if SameLap(readCount, |Contents()|, 0, ring.Length) then ring.Length - |Contents()| else 0
    {
      var maxCapacityWriteCount := WrapAdd(readCount, ring.Length);
      if writeCount >= maxCapacityWriteCount {
        n := 0;
      } else {
        n := maxCapacityWriteCount - writeCount;
      }
    }

    method Read(data: array<byte>) returns (ok: bool)
      requires Valid() && InStep() && data != ring && data.Length < TWO_TO_THE_32
      modifies this, data
      ensures Valid() && InStep() && writeCount == old(writeCount)
      ensures ok <==> data.Length <= |old(Contents())|
      ensures readCount == if ok then WrapAdd(old(readCount), data.Length) else old(readCount)
      ensures ok ==> data[..] + Contents() == old(Contents())
      ensures !ok ==> Contents() == old(Contents()) && data[..] == old(data[..])
    {
      var size := data.Length;
      if size > ring.Length || size > WrapSub(writeCount, readCount) {
        return false;
      }
      ghost var used := Used();
      CopyOut(data);
      WindowSplit(ring[..], readOffset, size, used);
      assert ring[..] == old(ring[..]);
      var next := AdvanceOffset(readOffset, readCount, size);
      readOffset, readCount := next, WrapAdd(readCount, size);
      ok := true;
    }

    /** Accepts by comparing wrapped counts, and then appends its bytes if they fit. */
    method Write(data: array<byte>) returns (ok: bool)
      requires Valid() && InStep() && data != ring && data.Length < TWO_TO_THE_32
      modifies this, ring
      ensures InStep() && readCount == old(readCount)
      ensures ok <==> Accepts(old(readCount), old(writeCount), data.Length, ring.Length)
      ensures !ok ==> Valid() && Contents() == old(Contents()) && writeCount == old(writeCount)
      ensures ok ==> writeCount == WrapAdd(old(writeCount), data.Length)
      ensures ok && |old(Contents())| + data.Length <= ring.Length ==>
        Valid() && Contents() == old(Contents()) + data[..]
    {
      var size := data.Length;
      if size > ring.Length {
        return false;
      }
      var maxCapacityWriteCount := WrapAdd(readCount, ring.Length);
      if WrapAdd(writeCount, size) > maxCapacityWriteCount {
        return false;
      }
      ghost var used := Used();
      CopyIn(data);
      if used + size <= ring.Length {
        StoreExtends(old(ring[..]), readOffset, used, data[..]);
        UsedGrows(readCount, writeCount, size);
      }
      var next := AdvanceOffset(writeOffset, writeCount, size);
      writeOffset, writeCount := next, WrapAdd(writeCount, size);
      ok := true;
    }

    /** The two copies of a read. */
    method CopyOut(data: array<byte>)
      requires data != ring && data.Length <= ring.Length && readOffset < ring.Length
      modifies data
      ensures data[..] == Window(ring[..], readOffset, data.Length)
    {
      var readFirst := ring.Length - readOffset;
      if readFirst > data.Length {
        readFirst := data.Length;
      }
      var readSecond := data.Length - readFirst;
      Memcpy(data, 0, ring, readOffset, readFirst);
      Memcpy(data, readFirst, ring, 0, readSecond);
    }

    /** The two copies of a write. */
    method CopyIn(data: array<byte>)
      requires data != ring && data.Length <= ring.Length && writeOffset < ring.Length
      modifies ring
      ensures ring[..] == Store(old(ring[..]), writeOffset, data[..])
    {
      var writeFirst := ring.Length - writeOffset;
      if writeFirst > data.Length {
        writeFirst := data.Length;
      }
      var writeSecond := data.Length - writeFirst;
      Memcpy(ring, writeOffset, data, 0, writeFirst);
      Memcpy(ring, 0, data, writeFirst, writeSecond);
    }

    /** The masked addition of both operations. */
    method AdvanceOffset(offset: uint32, ghost count: uint32, size: uint32) returns (next: uint32)
      requires 0 < ring.Length <= 0x8000_0000 && size <= ring.Length && PowerOfTwo(ring.Length)
      requires offset == And(count, ring.Length - 1)
      ensures next == Shift(offset, size, ring.Length)
      ensures next == And(WrapAdd(count, size), ring.Length - 1)
    {
      OffsetAdvances(offset, count, size, ring.Length);
      next := And(offset + size, ring.Length - 1);
    }

    /** The drain loop of the poll: takes whole messages until fewer than 64 bytes remain. */
    method PollMessages() returns (messages: seq<seq<byte>>)
      requires Valid() && InStep()
      modifies this
      ensures Valid() && InStep() && writeCount == old(writeCount)
      ensures messages == Messages(old(Contents()))
      ensures |Contents()| < MESSAGE_SIZE && Contents() == Leftover(old(Contents()))
    {
      messages := [];
      var readAvail := ReadAvail();
      var i := MESSAGE_SIZE;
      while i <= readAvail
        invariant Valid() && InStep() && writeCount == old(writeCount)
        invariant |Contents()| == readAvail + MESSAGE_SIZE - i
        invariant messages + Messages(Contents()) == Messages(old(Contents()))
        invariant Leftover(Contents()) == Leftover(old(Contents()))
      {
        var buf := new byte[MESSAGE_SIZE](_ => 0);
        ghost var before := Contents();
        var ok := Read(buf);
        assert before[..MESSAGE_SIZE] == buf[..] && before[MESSAGE_SIZE..] == Contents();
        TakeMessage(messages, before);
        messages := messages + [buf[..]];
        i := i + MESSAGE_SIZE;
      }
    }
  }

  lemma TakeMessage(taken: seq<seq<byte>>, b: seq<byte>)
    requires |b| >= MESSAGE_SIZE
    ensures taken + Messages(b) == taken + [b[..MESSAGE_SIZE]] + Messages(b[MESSAGE_SIZE..])
    ensures Leftover(b) == Leftover(b[MESSAGE_SIZE..])
  {
  }

  /** A byte stream cut into messages, and what is left over. */
  function Messages(bytes: seq<byte>): seq<seq<byte>> {
    if |bytes| < MESSAGE_SIZE then [] else [bytes[..MESSAGE_SIZE]] + Messages(bytes[MESSAGE_SIZE..])
  }

  function Leftover(bytes: seq<byte>): (t: seq<byte>)
    ensures |t| < MESSAGE_SIZE && |t| <= |bytes|
  {
    if |bytes| < MESSAGE_SIZE then bytes else Leftover(bytes[MESSAGE_SIZE..])
  }

  /** All bytes are in the messages, one after the other, or left over. */
  lemma {:induction false} MessagesAreAll(bytes: seq<byte>)
    ensures Joined(Messages(bytes)) + Leftover(bytes) == bytes
    ensures forall m :: m in Messages(bytes) ==> |m| == MESSAGE_SIZE
  {
    if |bytes| < MESSAGE_SIZE {
      assert [] + bytes == bytes;
    } else {
      var first, rest := bytes[..MESSAGE_SIZE], bytes[MESSAGE_SIZE..];
      MessagesAreAll(rest);
      assert Messages(bytes)[0] == first && Messages(bytes)[1..] == Messages(rest);
      assert (first + Joined(Messages(rest))) + Leftover(rest) == first + (Joined(Messages(rest)) + Leftover(rest));
      assert first + rest == bytes;
    }
  }

  function Joined(messages: seq<seq<byte>>): seq<byte> {
    if messages == [] then [] else messages[0] + Joined(messages[1..])
  }

  /** memcpy between two different buffers. */
  method Memcpy(to: array<byte>, toOffset: nat, from: array<byte>, fromOffset: nat, n: nat)
    requires to != from && toOffset + n <= to.Length && fromOffset + n <= from.Length
    modifies to
    ensures forall i :: 0 <= i < to.Length ==>
      to[i] == if toOffset <= i < toOffset + n then from[fromOffset + i - toOffset] else old(to[i])
  {
    forall i | 0 <= i < n {
      to[toOffset + i] := from[fromOffset + i];
    }
  }

  function Flatten(messages: seq<seq<byte>>): seq<byte> {
    if messages == [] then [] else messages[0] + Flatten(messages[1..])
  }

  lemma {:induction false} FlattenAppend(messages: seq<seq<byte>>, m: seq<byte>)
    ensures Flatten(messages + [m]) == Flatten(messages) + m
    decreases |messages|
  {
    if messages == [] {
      assert [m][1..] == [];
    } else {
      assert (messages + [m])[1..] == messages[1..] + [m];
      FlattenAppend(messages[1..], m);
    }
  }

  // ----- Offsets and windows -----

  /** n bytes from an offset, going on at the start of the buffer. */
  function Window<T>(buffer: seq<T>, offset: nat, n: nat): (w: seq<T>)
    requires offset < |buffer| && n <= |buffer|
    ensures |w| == n
  {
    seq(n, i requires 0 <= i < n => buffer[Shift(offset, i, |buffer|)])
  }

  /** The buffer after copying data in at an offset, across the end if need be. */
  function Store<T>(buffer: seq<T>, offset: nat, data: seq<T>): (b: seq<T>)
    requires offset < |buffer| && |data| <= |buffer|
    ensures |b| == |buffer|
  {
    seq(|buffer|, j requires 0 <= j < |buffer| =>
      var i := if offset <= j then j - offset else j - offset + |buffer|;
      if i < |data| then data[i] else buffer[j])
  }

  lemma WindowSplit<T>(buffer: seq<T>, offset: nat, n: nat, total: nat)
    requires offset < |buffer| && n <= total <= |buffer| && Shift(offset, n, |buffer|) < |buffer|
    ensures Window(buffer, offset, total) == Window(buffer, offset, n) + Window(buffer, Shift(offset, n, |buffer|), total - n)
    ensures Shift(Shift(offset, n, |buffer|), total - n, |buffer|) == Shift(offset, total, |buffer|)
  {
  }

  /** Storing behind a window extends it and disturbs nothing in it. */
  lemma StoreExtends<T>(buffer: seq<T>, offset: nat, used: nat, data: seq<T>)
    requires offset < |buffer| && used + |data| <= |buffer| && Shift(offset, used, |buffer|) < |buffer|
    ensures var w := Shift(offset, used, |buffer|);
      Window(Store(buffer, w, data), offset, used + |data|) == Window(buffer, offset, used) + data
    ensures Shift(Shift(offset, used, |buffer|), |data|, |buffer|) == Shift(offset, used + |data|, |buffer|)
  {
  }

  /** The masked offset stays the masked count, also when the 32-bit count wraps. */
  lemma OffsetAdvances(offset: nat, count: uint32, size: uint32, ringSize: nat)
    requires 0 < ringSize <= 0x8000_0000 && size <= ringSize && PowerOfTwo(ringSize)
    requires offset == And(count, ringSize - 1)
    ensures And(offset + size, ringSize - 1) == Shift(offset, size, ringSize)
    ensures And(offset + size, ringSize - 1) == And(WrapAdd(count, size), ringSize - 1)
  {
    var k: nat :| ringSize == Pow2(k);
    MaskIsLap(count, k);
    MaskIsLap(offset + size, k);
    MaskIsLap(WrapAdd(count, size), k);
    LapAdvance(count, size, ringSize);
    LapAdvance(offset, size, ringSize);
    PowUnder32(k);
    LapMultiple(WrapAdd(count, size), Pow2(32 - k), ringSize);
  }

  lemma Pow32()
    ensures Pow2(31) == 0x8000_0000 && Pow2(32) == TWO_TO_THE_32
  {
    assert Pow2(8) == 256;
    assert Pow2(16) == 65536;
    assert Pow2(24) == 16777216;
  }

  lemma PowUnder32(k: nat)
    requires Pow2(k) < TWO_TO_THE_32
    ensures k < 32 && Pow2(32 - k) * Pow2(k) == TWO_TO_THE_32
  {
    Pow32();
    if k >= 32 {
      PowMonotone(32, k);
    } else {
      PowAdd(32 - k, k);
    }
  }

  lemma UsedGrows(r: uint32, w: uint32, size: nat)
    requires WrapSub(w, r) + size < TWO_TO_THE_32
    ensures WrapSub(WrapAdd(w, size), r) == WrapSub(w, r) + size
  {
  }

  lemma {:induction false} PowAdd(a: nat, b: nat)
    ensures Pow2(a) * Pow2(b) == Pow2(a + b)
  {
    if a > 0 {
      PowAdd(a - 1, b);
      TwiceProduct(Pow2(b), Pow2(a - 1));
    }
  }

  lemma NextMultiple(m: nat, n: nat)
    requires m > 0
    ensures (m - 1) * n + n == m * n
  {
  }

  lemma {:induction false} LapMultiple(x: nat, m: nat, n: nat)
    requires n > 0
    ensures Lap(x + m * n, n) == Lap(x, n)
    decreases m
  {
    if m > 0 {
      NextMultiple(m, n);
      LapMultiple(x, m - 1, n);
    }
  }

  /** A power of two that is a 32-bit number is at most 2^31. */
  lemma PotBound(size: uint32)
    requires size > 0 && PowerOfTwo(size)
    ensures size <= 0x8000_0000
  {
    var k: nat :| size == Pow2(k);
    PowUnder32(k);
    PowMonotone(k, 31);
    Pow32();
  }

  lemma {:induction false} PowMonotone(a: nat, b: nat)
    requires a <= b
    ensures Pow2(a) <= Pow2(b)
    decreases b - a
  {
    if a < b {
      PowMonotone(a, b - 1);
    }
  }

  // ----- When the capacity comparison is right -----

  /** The comparison made by `shared_control_block_write` on the wrapped counts. */
  predicate Accepts(readCount: uint32, writeCount: uint32, size: uint32, ringSize: uint32) {
    size <= ringSize && WrapAdd(writeCount, size) <= WrapAdd(readCount, ringSize)
  }

  /** Both compared counts, measured from the read count, lie on the same side of 2^32. */
  predicate SameLap(readCount: uint32, used: nat, size: nat, ringSize: nat) {
    readCount + used + size < TWO_TO_THE_32 <==> readCount + ringSize < TWO_TO_THE_32
  }

  /** A write of at most the ring's size is accepted exactly when it fits if and only if no
      32-bit wrap separates the two compared counts. */
  lemma AcceptanceIsExact(readCount: uint32, used: nat, size: nat, ringSize: nat)
    requires 0 < ringSize <= 0x8000_0000 && size <= ringSize && used <= ringSize
    ensures (Accepts(readCount, WrapAdd(readCount, used), size, ringSize) <==> used + size <= ringSize)
       <==> SameLap(readCount, used, size, ringSize)
  {
  }

  // ----- Whole runs of a producer and a polling consumer -----

  datatype Event = Send(message: seq<byte>) | Poll

  /** The FIFO as producer and consumer see it, with everything accepted and delivered so far. */
  datatype Channel = Channel(readCount: uint32, pending: seq<byte>,
                             accepted: seq<seq<byte>>, delivered: seq<seq<byte>>)

  predicate Fits(c: Channel, message: seq<byte>, ringSize: nat) {
    |c.pending| + |message| <= ringSize
  }

  /** One event, with the effects `Write` and `PollMessages` guarantee. */
  function React(c: Channel, e: Event, ringSize: nat): Channel
    requires 0 < ringSize <= 0x8000_0000 && |c.pending| <= ringSize
    requires e.Send? ==> |e.message| == MESSAGE_SIZE
  {
    match e
    case Send(m) =>
      if Accepts(c.readCount, WrapAdd(c.readCount, |c.pending|), |m|, ringSize)
      then c.(pending := c.pending + m, accepted := c.accepted + [m])
      else c
    case Poll =>
      c.(readCount := WrapAdd(c.readCount, |c.pending| - |Leftover(c.pending)|),
         pending := Leftover(c.pending), delivered := c.delivered + Messages(c.pending))
  }

  /** Every event finds the channel within capacity, and every send is accepted exactly when it
      fits at that moment. */
  ghost predicate ExactRun(c: Channel, events: seq<Event>, ringSize: nat)
    requires 0 < ringSize <= 0x8000_0000
    requires forall e :: e in events && e.Send? ==> |e.message| == MESSAGE_SIZE
    decreases |events|
  {
    |c.pending| <= ringSize &&
    (events == [] ||
     ((events[0].Send? ==>
        (React(c, events[0], ringSize) != c <==> Fits(c, events[0].message, ringSize)))
      && ExactRun(React(c, events[0], ringSize), events[1..], ringSize)))
  }

  function Final(c: Channel, events: seq<Event>, ringSize: nat): Channel
    requires 0 < ringSize <= 0x8000_0000
    requires forall e :: e in events && e.Send? ==> |e.message| == MESSAGE_SIZE
    requires ExactRun(c, events, ringSize)
    decreases |events|
  {
    if events == [] then c else Final(React(c, events[0], ringSize), events[1..], ringSize)
  }

  function Sent(events: seq<Event>): nat {
    if events == [] then 0 else (if events[0].Send? then MESSAGE_SIZE else 0) + Sent(events[1..])
  }

  lemma {:induction false} MessagesAppend(bytes: seq<byte>, m: seq<byte>)
    requires |Leftover(bytes)| == 0 && |m| == MESSAGE_SIZE
    ensures Messages(bytes + m) == Messages(bytes) + [m] && |Leftover(bytes + m)| == 0
    decreases |bytes|
  {
    if |bytes| < MESSAGE_SIZE {
      assert bytes + m == m && m[..MESSAGE_SIZE] == m;
    } else {
      assert (bytes + m)[..MESSAGE_SIZE] == bytes[..MESSAGE_SIZE];
      assert (bytes + m)[MESSAGE_SIZE..] == bytes[MESSAGE_SIZE..] + m;
      MessagesAppend(bytes[MESSAGE_SIZE..], m);
    }
  }

  /** Every run of sends and polls in which the acceptance test is exact delivers the accepted
      messages, in order and once; a poll leaves nothing behind. */
  lemma {:induction false} DeliveredInOrder(c: Channel, events: seq<Event>, ringSize: nat)
    requires 0 < ringSize <= 0x8000_0000
    requires forall e :: e in events && e.Send? ==> |e.message| == MESSAGE_SIZE
    requires ExactRun(c, events, ringSize) && |Leftover(c.pending)| == 0
    requires c.delivered + Messages(c.pending) == c.accepted
    ensures var f := Final(c, events, ringSize);
      && f.delivered + Messages(f.pending) == f.accepted && |Leftover(f.pending)| == 0
      && (events != [] && events[|events| - 1].Poll? ==> f.pending == [] && f.delivered == f.accepted)
    decreases |events|
  {
    if events != [] {
      var e, d := events[0], React(c, events[0], ringSize);
      if e.Send? {
        MessagesAppend(c.pending, e.message);
      }
      DeliveredInOrder(d, events[1..], ringSize);
      if |events| == 1 {
        assert d == Final(c, events, ringSize);
      } else {
        assert events[|events| - 1] == events[1..][|events| - 2];
      }
    }
  }

  /** While at most 2^32 - 1 - size bytes pass through a ring, the test is exact throughout. */
  lemma {:induction false} BoundedRunIsExact(c: Channel, events: seq<Event>, ringSize: nat)
    requires 0 < ringSize <= 0x8000_0000
    requires forall e :: e in events && e.Send? ==> |e.message| == MESSAGE_SIZE
    requires |c.pending| <= ringSize
    requires c.readCount + |c.pending| + Sent(events) <= TWO_TO_THE_32 - 1 - ringSize
    ensures ExactRun(c, events, ringSize)
    decreases |events|
  {
    if events != [] {
      if events[0].Send? && MESSAGE_SIZE <= ringSize {
        AcceptanceIsExact(c.readCount, |c.pending|, MESSAGE_SIZE, ringSize);
      }
      BoundedRunIsExact(React(c, events[0], ringSize), events[1..], ringSize);
    }
  }

  /** A full ring of 64 bytes just below the wrap takes another message: the test is not exact. */
  lemma AcceptsTooMuch()
    ensures var readCount, used, size, ringSize := 0xFFFF_FFC0 - 1, 64, 64, 64;
      && Accepts(readCount, WrapAdd(readCount, used), size, ringSize) && used + size > ringSize
      && !SameLap(readCount, used, size, ringSize)
  {
    AcceptanceIsExact(0xFFFF_FFC0 - 1, 64, 64, 64);
  }

  /** One event on the control block itself has the effect it has on the channel. */
  method DriveOne(b: SharedControlBlock, e: Event, ghost c: Channel)
    returns (accepted: seq<seq<byte>>, delivered: seq<seq<byte>>)
    requires b.Valid() && b.InStep() && c.readCount == b.readCount && c.pending == b.Contents()
    requires e.Send? ==> |e.message| == MESSAGE_SIZE
    requires e.Send? ==> (React(c, e, b.ring.Length) != c <==> Fits(c, e.message, b.ring.Length))
    modifies b, b.ring
    ensures b.Valid() && b.InStep()
    ensures Channel(b.readCount, b.Contents(), c.accepted + accepted, c.delivered + delivered)
         == React(c, e, b.ring.Length)
  {
    accepted, delivered := [], [];
    assert c.accepted + [] == c.accepted && c.delivered + [] == c.delivered;
    match e {
      case Send(m) =>
        var buffer := new byte[MESSAGE_SIZE](i requires 0 <= i < MESSAGE_SIZE => m[i]);
        assert buffer[..] == m && b.writeCount == WrapAdd(c.readCount, |c.pending|);
        var ok := b.Write(buffer);
        if ok {
          assert |c.accepted + [m]| != |c.accepted|;
          accepted := [m];
        }
      case Poll =>
        delivered := b.PollMessages();
        assert b.readCount == WrapAdd(c.readCount, |c.pending| - |Leftover(c.pending)|);
    }
  }

  /** The control block, driven through a run in which the test is exact, goes through the states of
      the channel: what was delivered and what is still waiting is what was accepted, in order. */
  method Drive(b: SharedControlBlock, events: seq<Event>) returns (accepted: seq<seq<byte>>, delivered: seq<seq<byte>>)
    requires b.Valid() && b.InStep() && b.Contents() == []
    requires forall e :: e in events && e.Send? ==> |e.message| == MESSAGE_SIZE
    requires ExactRun(Channel(b.readCount, [], [], []), events, b.ring.Length)
    modifies b, b.ring
    ensures b.Valid() && b.InStep()
    ensures Channel(b.readCount, b.Contents(), accepted, delivered)
         == Final(Channel(old(b.readCount), [], [], []), events, b.ring.Length)
    ensures delivered + Messages(b.Contents()) == accepted
  {
    ghost var size := b.ring.Length;
    ghost var start := Channel(b.readCount, [], [], []);
    ghost var now := start;
    accepted, delivered := [], [];
    assert events[0..] == events;
    for i := 0 to |events|
      invariant b.Valid() && b.InStep() && b.ring.Length == size
      invariant now == Channel(b.readCount, b.Contents(), accepted, delivered)
      invariant ExactRun(now, events[i..], size) && Final(now, events[i..], size) == Final(start, events, size)
    {
      assert events[i..][1..] == events[i + 1..] && events[i] in events;
      var more, taken := DriveOne(b, events[i], now);
      now := React(now, events[i], size);
      accepted, delivered := accepted + more, delivered + taken;
    }
    DeliveredInOrder(start, events, size);
  }
}
