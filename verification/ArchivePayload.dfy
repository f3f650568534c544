/** Payloads of a stream archive: what a write puts behind the name, and how a read decodes it. */
module ArchivePayload {
  import opened Words
  import opened Wrappers
  import opened ArchiveFormat
  import opened ArchiveRecovery

  datatype WriteFlags = WriteFlags(raw: bool, compress: bool, best: bool, checksum: bool)

  /** The zlib entry points the archive calls. */
  datatype Codec = Codec(
    compress: (bytes, bool) -> Option<bytes>,
    uncompress: bytes -> Option<bytes>,
    crc32: bytes -> uint32)

  /** What is used of them: success of compress bounds both sizes to 32 bits, and uncompress
      undoes it. */
  ghost predicate Sound(codec: Codec) {
    forall b, best :: codec.compress(b, best).Some? ==>
      && |b| < TWO_TO_THE_32 && |codec.compress(b, best).value| < TWO_TO_THE_32
      && codec.uncompress(codec.compress(b, best).value) == Some(b)
  }

  // ----- Payloads -----

  /** The bytes written behind a name: header and payload.  None if the write fails there. */
  function Framed(codec: Codec, blob: bytes, flags: WriteFlags): Option<bytes> {
    if flags.raw then
      if |blob| < HEADER_LENGTH then None else Some(blob)
    else if flags.compress then
      match codec.compress(blob, flags.best)
      case None => None
      case Some(z) =>
        var crc := if flags.checksum then codec.crc32(z) else 0;
        var size := |z| % TWO_TO_THE_32;
        Some(HeaderBytes(Header(size, COMPRESSION_DEFLATE, crc, |blob| % TWO_TO_THE_32)) + z[..size])
    else
      var crc := if flags.checksum then codec.crc32(blob) else 0;
      var size := |blob| % TWO_TO_THE_32;
      Some(HeaderBytes(Header(size, COMPRESSION_NONE, crc, size)) + blob)
  }

  /** Decoding a stored blob. */
  function Decode(codec: Codec, b: Blob): Option<bytes> {
    if b.header.crc != 0 && codec.crc32(b.payload) != b.header.crc then None
    else if b.header.format == COMPRESSION_NONE then
      if b.header.uncompressedSize == b.header.payloadSize then Some(b.payload) else None
    else if b.header.format == COMPRESSION_DEFLATE then
      match codec.uncompress(b.payload)
      case Some(out) => if |out| == b.header.uncompressedSize then Some(out) else None
      case None => None
    else None
  }

  /** Header and payload agree, so that name and frame are one well-formed record. */
  predicate Proper(frame: bytes) {
    |frame| >= HEADER_LENGTH && ParseHeader(frame[..HEADER_LENGTH]).payloadSize == |frame| - HEADER_LENGTH
  }

  function BlobOf(frame: bytes): Blob
    requires |frame| >= HEADER_LENGTH
  {
    Blob(ParseHeader(frame[..HEADER_LENGTH]), frame[HEADER_LENGTH..])
  }

  function RecordFor(k: Key, frame: bytes): (r: Record)
    requires Proper(frame)
    ensures WellFormed(r)
  {
    Record(Name(k), BlobOf(frame).header, BlobOf(frame).payload)
  }

  lemma EncodeRecordFor(k: Key, frame: bytes)
    requires Proper(frame)
    ensures Encode(RecordFor(k, frame)) == Name(k) + frame
  {
    HeaderRoundTrip(RecordFor(k, frame).header, frame[..HEADER_LENGTH]);
    assert frame == frame[..HEADER_LENGTH] + frame[HEADER_LENGTH..];
    Associative(Name(k), frame[..HEADER_LENGTH], frame[HEADER_LENGTH..]);
  }

  /** What was written, plain or compressed, with or without a checksum, decodes to the blob if
      and only if its length fits the 32-bit size field. */
  lemma FramedDecodes(codec: Codec, blob: bytes, flags: WriteFlags)
    requires Sound(codec) && !flags.raw && Framed(codec, blob, flags).Some?
    ensures var frame := Framed(codec, blob, flags).value;
      && |frame| >= HEADER_LENGTH
      && (Proper(frame) && Decode(codec, BlobOf(frame)) == Some(blob) <==> |blob| < TWO_TO_THE_32)
  {
    if flags.compress {
      CompressedDecodes(codec, blob, flags);
    } else {
      PlainDecodes(codec, blob, flags);
    }
  }

  lemma CompressedDecodes(codec: Codec, blob: bytes, flags: WriteFlags)
    requires Sound(codec) && !flags.raw && flags.compress && Framed(codec, blob, flags).Some?
    ensures var frame := Framed(codec, blob, flags).value;
      |blob| < TWO_TO_THE_32 && Proper(frame) && Decode(codec, BlobOf(frame)) == Some(blob)
  {
    var z := codec.compress(blob, flags.best).value;
    assert codec.uncompress(z) == Some(blob);
    var h := Header(|z|, COMPRESSION_DEFLATE, if flags.checksum then codec.crc32(z) else 0, |blob|);
    SmallRemainder(|z|);
    SmallRemainder(|blob|);
    assert z[..|z|] == z;
    FrameParts(h, z, HeaderBytes(h) + z);
  }

  lemma SmallRemainder(n: nat)
    requires n < TWO_TO_THE_32
    ensures n % TWO_TO_THE_32 == n
  {
  }

  lemma PlainDecodes(codec: Codec, blob: bytes, flags: WriteFlags)
    requires !flags.raw && !flags.compress
    ensures var frame := Framed(codec, blob, flags).value;
      && |frame| >= HEADER_LENGTH
      && (Proper(frame) <==> |blob| < TWO_TO_THE_32)
      && (Proper(frame) ==> Decode(codec, BlobOf(frame)) == Some(blob))
  {
    var crc, size := if flags.checksum then codec.crc32(blob) else 0, |blob| % TWO_TO_THE_32;
    FrameParts(Header(size, COMPRESSION_NONE, crc, size), blob, Framed(codec, blob, flags).value);
  }

  /** A write fails only if a raw blob is shorter than a header or the compression fails; a raw blob is
      stored as it is. */
  lemma FrameExists(codec: Codec, blob: bytes, flags: WriteFlags)
    ensures flags.raw ==> Framed(codec, blob, flags) == if |blob| >= HEADER_LENGTH then Some(blob) else None
    ensures !flags.raw ==> (Framed(codec, blob, flags) == None <==> flags.compress && codec.compress(blob, flags.best) == None)
  {
  }

  /** What the header of any other frame says of what is behind it: the format that was asked for, both
      sizes, and the checksum of the stored payload exactly if one was asked for. */
  lemma FrameHeader(codec: Codec, blob: bytes, flags: WriteFlags)
    requires Sound(codec) && !flags.raw && Framed(codec, blob, flags).Some?
    ensures |Framed(codec, blob, flags).value| >= HEADER_LENGTH
    ensures var b := BlobOf(Framed(codec, blob, flags).value);
      && b.payload == (if flags.compress then codec.compress(blob, flags.best).value else blob)
      && b.header.format == (if flags.compress then COMPRESSION_DEFLATE else COMPRESSION_NONE)
      && b.header.crc == (if flags.checksum then codec.crc32(b.payload) else 0)
      && (|blob| < TWO_TO_THE_32 ==> b.header.payloadSize == |b.payload| && b.header.uncompressedSize == |blob|)
  {
    var frame := Framed(codec, blob, flags).value;
    if flags.compress {
      var z := codec.compress(blob, flags.best).value;
      assert codec.uncompress(z) == Some(blob);
      SmallRemainder(|z|);
      SmallRemainder(|blob|);
      assert z[..|z|] == z;
      FrameParts(Header(|z|, COMPRESSION_DEFLATE, if flags.checksum then codec.crc32(z) else 0, |blob|), z, frame);
    } else {
      var size := |blob| % TWO_TO_THE_32;
      FrameParts(Header(size, COMPRESSION_NONE, if flags.checksum then codec.crc32(blob) else 0, size), blob, frame);
    }
  }

  /** What a stored blob decodes to: the payload must match its checksum if it has one, and what comes
      out must have the announced size. */
  lemma DecodeExactly(codec: Codec, b: Blob, out: bytes)
    requires |b.payload| == b.header.payloadSize
    ensures Decode(codec, b) == Some(out) <==>
      && (b.header.crc == 0 || codec.crc32(b.payload) == b.header.crc)
      && |out| == b.header.uncompressedSize
      && ((b.header.format == COMPRESSION_NONE && out == b.payload)
          || (b.header.format == COMPRESSION_DEFLATE && codec.uncompress(b.payload) == Some(out)))
  {
  }

  /** A payload that was written with a checksum and does not match it any more is not decoded, unless
      the checksum happens to be 0: then it is as good as none. */
  lemma DamageIsNoticed(codec: Codec, blob: bytes, flags: WriteFlags, damaged: bytes)
    requires Sound(codec) && !flags.raw && flags.checksum && Framed(codec, blob, flags).Some?
    requires |Framed(codec, blob, flags).value| >= HEADER_LENGTH && |blob| < TWO_TO_THE_32
    requires var payload := BlobOf(Framed(codec, blob, flags).value).payload;
      |damaged| == |payload| && codec.crc32(damaged) != codec.crc32(payload)
    ensures var b := BlobOf(Framed(codec, blob, flags).value);
      && (codec.crc32(b.payload) != 0 ==> Decode(codec, Blob(b.header, damaged)) == None)
      && (!flags.compress && codec.crc32(b.payload) == 0 ==> Decode(codec, Blob(b.header, damaged)) == Some(damaged))
  {
    FrameHeader(codec, blob, flags);
  }

  lemma FrameParts(h: Header, payload: bytes, frame: bytes)
    requires frame == HeaderBytes(h) + payload
    ensures |frame| >= HEADER_LENGTH && BlobOf(frame) == Blob(h, payload)
    ensures Proper(frame) <==> h.payloadSize == |payload|
  {
    HeaderRoundTrip(h, HeaderBytes(h));
    assert frame[..HEADER_LENGTH] == HeaderBytes(h);
    assert frame[HEADER_LENGTH..] == payload;
  }

  /** What reading a key of an archive yields: the raw bytes with their header, or the decoded
      blob, provided the caller announces the right size. */
  function ReadResult(codec: Codec, view: map<Key, Blob>, k: Key, size: nat, raw: bool): Option<bytes> {
    if k !in view then None
    else if raw then
      var frame := HeaderBytes(view[k].header) + view[k].payload;
      if size == |frame| < TWO_TO_THE_32 then Some(frame) else None
    else
      match Decode(codec, view[k])
      case Some(out) => if size == |out| then Some(out) else None
      case None => None
  }

  function SizeResult(view: map<Key, Blob>, k: Key, raw: bool): Option<uint32> {
    if k !in view then None
    else Some(if raw then WrapAdd(view[k].header.payloadSize, HEADER_LENGTH) else view[k].header.uncompressedSize)
  }

  /** Reading with the size just queried gives the decoded blob, whatever the checksum and
      compression were, and nothing if it does not decode. */
  lemma TwoCallRead(codec: Codec, view: map<Key, Blob>, k: Key)
    requires k in view && |view[k].payload| == view[k].header.payloadSize
    ensures ReadResult(codec, view, k, SizeResult(view, k, false).value, false) == Decode(codec, view[k])
  {
  }
}
