/** Damage to a stored payload, and what a read makes of it. */
module ArchiveDamage {
  import opened Words
  import opened Wrappers
  import opened ArchiveFormat
  import opened ArchiveRecovery
  import opened ArchivePayload
  import opened StreamArchives
  import opened ArchiveSession

  /** A record with other payload bytes of the same number. */
  function Damaged(r: Record, damaged: bytes): (d: Record)
    requires WellFormed(r) && |damaged| == |r.payload|
    ensures WellFormed(d)
  {
    r.(payload := damaged)
  }

  /** Overwriting the payload of a record in a file. */
  lemma PayloadOverwritten(front: bytes, r: Record, rest: bytes, damaged: bytes)
    requires WellFormed(r) && |damaged| == |r.payload|
    ensures Overwrite(front + (Encode(r) + rest), |front| + PREFIX_LENGTH, damaged)
         == front + (Encode(Damaged(r, damaged)) + rest)
  {
    var prefix := r.name + HeaderBytes(r.header);
    assert Encode(r) == prefix + r.payload && Encode(Damaged(r, damaged)) == prefix + damaged;
    assert front + (Encode(r) + rest) == (front + prefix) + (r.payload + rest);
    OverwriteAt(front + prefix, r.payload + rest, damaged);
    assert (r.payload + rest)[|damaged|..] == rest || (|rest| == 0 && |damaged| == 0);
  }

  /** In a file whose log goes on with a record behind others, the record is the only one that changes. */
  lemma DamagedFile(data: bytes, before: seq<Record>, r: Record, rest: bytes, damaged: bytes, names: Naming)
    requires HasMagic(data) && AllWellFormed(before) && WellFormed(r) && |damaged| == |r.payload|
    requires data[MAGIC_LENGTH..] == EncodeAll(before) + (Encode(r) + rest)
    ensures var d := Overwrite(data, MAGIC_LENGTH + |EncodeAll(before)| + PREFIX_LENGTH, damaged);
      && HasMagic(d) && ScannedRecords(d) == before + ([Damaged(r, damaged)] + Records(rest))
      && (names(r.name).Some? && names(r.name).value !in View(before, names) ==>
            names(r.name).value in ScanView(d, names) && ScanView(d, names)[names(r.name).value] == Blob(r.header, damaged))
  {
    DamagedLayout(data, EncodeAll(before), r, rest, damaged);
    ScanBehind(before, Damaged(r, damaged), rest);
    ViewBehindOthers(before, Damaged(r, damaged), Records(rest), names);
  }

  lemma DamagedLayout(data: bytes, front: bytes, r: Record, rest: bytes, damaged: bytes)
    requires HasMagic(data) && WellFormed(r) && |damaged| == |r.payload|
    requires data[MAGIC_LENGTH..] == front + (Encode(r) + rest)
    ensures var d := Overwrite(data, MAGIC_LENGTH + |front| + PREFIX_LENGTH, damaged);
      HasMagic(d) && d[MAGIC_LENGTH..] == front + (Encode(Damaged(r, damaged)) + rest)
  {
    var magic := data[..MAGIC_LENGTH];
    assert data == magic + data[MAGIC_LENGTH..];
    Associative(magic, front, Encode(r) + rest);
    PayloadOverwritten(magic + front, r, rest, damaged);
    DropMagic(magic, front, Encode(Damaged(r, damaged)) + rest);
    MagicKept(data, Overwrite(data, MAGIC_LENGTH + |front| + PREFIX_LENGTH, damaged));
  }

  lemma ScanBehind(before: seq<Record>, r: Record, rest: bytes)
    requires AllWellFormed(before) && WellFormed(r)
    ensures Records(EncodeAll(before) + (Encode(r) + rest)) == before + ([r] + Records(rest))
  {
    ScanOfEncode(before, Encode(r) + rest);
    ScanOfOne(r, rest);
  }

  lemma ViewBehindOthers(before: seq<Record>, r: Record, rest: seq<Record>, names: Naming)
    requires AllWellFormed(before) && WellFormed(r) && AllWellFormed(rest)
    ensures AllWellFormed(before + ([r] + rest))
    ensures names(r.name).Some? && names(r.name).value !in View(before, names) ==>
      && names(r.name).value in View(before + ([r] + rest), names)
      && View(before + ([r] + rest), names)[names(r.name).value] == Blob(r.header, r.payload)
  {
    ViewAppend(before, [r] + rest, names);
    if names(r.name).Some? {
      ViewOfCons(r, rest, names);
    }
  }

  /** A write that is stored with a checksum, in an archive that does not have its key, and other bytes
      of the same number and with another checksum. */
  ghost predicate Damages(disk: bytes, write: Write, codec: Codec, damaged: bytes) {
    && HasMagic(disk) && ScanTail(disk) == [] && Sound(codec)
    && write.key.tag < RESOURCE_COUNT && write.key !in ScanView(disk, Names(NO_FILTER))
    && !write.flags.raw && write.flags.checksum && |write.blob| < TWO_TO_THE_32
    && var frame := Framed(codec, write.blob, write.flags);
      && frame.Some? && |frame.value| >= HEADER_LENGTH && |damaged| == |frame.value| - HEADER_LENGTH
      && codec.crc32(damaged) != codec.crc32(frame.value[HEADER_LENGTH..])
  }

  /** A blob is written with a checksum, its stored bytes are then damaged so that the checksum differs,
      and the key is read: nothing is returned.  But a checksum of 0 protects nothing: then a plain blob is
      read back damaged. */
  method ReadDamaged(disk: bytes, write: Write, codec: Codec, damaged: bytes) returns (blob: Option<bytes>)
    requires Damages(disk, write, codec, damaged)
    ensures var payload := Framed(codec, write.blob, write.flags).value[HEADER_LENGTH..];
      && (codec.crc32(payload) != 0 ==> blob == None)
      && (codec.crc32(payload) == 0 && !write.flags.compress ==> blob == Some(damaged))
  {
    var file := AppendSession(disk, [write], codec);
    DamagedWrite(disk, write, codec, damaged, file);
    blob := ReadBack(Overwrite(file, |disk| + PREFIX_LENGTH, damaged), codec, write.key);
  }

  lemma DamagedWrite(disk: bytes, write: Write, codec: Codec, damaged: bytes, file: bytes)
    requires Damages(disk, write, codec, damaged)
    requires file == Overwrite(disk, AppendCursor(disk),
                               SessionBytes(Frames([write], codec), ScanView(disk, Names(NO_FILTER)).Keys))
    ensures |disk| + PREFIX_LENGTH <= |file|
    ensures var d := Overwrite(file, |disk| + PREFIX_LENGTH, damaged);
      && HasMagic(d) && write.key in ScanView(d, Names(NO_FILTER))
      && ScanView(d, Names(NO_FILTER))[write.key]
         == Blob(BlobOf(Framed(codec, write.blob, write.flags).value).header, damaged)
    ensures var b := BlobOf(Framed(codec, write.blob, write.flags).value);
      && (codec.crc32(b.payload) != 0 ==> Decode(codec, Blob(b.header, damaged)) == None)
      && (codec.crc32(b.payload) == 0 && !write.flags.compress ==> Decode(codec, Blob(b.header, damaged)) == Some(damaged))
  {
    var frame := Framed(codec, write.blob, write.flags).value;
    FramedDecodes(codec, write.blob, write.flags);
    DamageIsNoticed(codec, write.blob, write.flags, damaged);
    WrittenBehind(disk, write, codec, file);
    DamagedLast(disk, write.key, frame, file, damaged, ScannedRecords(disk));
  }

  lemma DamagedLast(disk: bytes, k: Key, frame: bytes, file: bytes, damaged: bytes, before: seq<Record>)
    requires Proper(frame) && |damaged| == |frame| - HEADER_LENGTH && HasMagic(file) && AllWellFormed(before)
    requires |disk| == MAGIC_LENGTH + |EncodeAll(before)|
    requires file[MAGIC_LENGTH..] == EncodeAll(before) + (Encode(RecordFor(k, frame)) + [])
    requires k.tag < RESOURCE_COUNT && k !in View(before, Names(NO_FILTER))
    ensures |disk| + PREFIX_LENGTH <= |file|
    ensures var d := Overwrite(file, |disk| + PREFIX_LENGTH, damaged);
      && HasMagic(d) && k in ScanView(d, Names(NO_FILTER))
      && ScanView(d, Names(NO_FILTER))[k] == Blob(BlobOf(frame).header, damaged)
  {
    UnfilteredNamesArePlain();
    DamagedFile(file, before, RecordFor(k, frame), [], damaged, Names(NO_FILTER));
  }

  /** One new write to a whole archive puts one record at its end. */
  lemma WrittenBehind(disk: bytes, write: Write, codec: Codec, file: bytes)
    requires HasMagic(disk) && ScanTail(disk) == [] && write.key !in ScanView(disk, Names(NO_FILTER))
    requires Framed(codec, write.blob, write.flags).Some? && Proper(Framed(codec, write.blob, write.flags).value)
    requires file == Overwrite(disk, AppendCursor(disk),
                               SessionBytes(Frames([write], codec), ScanView(disk, Names(NO_FILTER)).Keys))
    ensures var r := RecordFor(write.key, Framed(codec, write.blob, write.flags).value);
      && HasMagic(file) && file[MAGIC_LENGTH..] == EncodeAll(ScannedRecords(disk)) + (Encode(r) + [])
      && |disk| == MAGIC_LENGTH + |EncodeAll(ScannedRecords(disk))|
  {
    var frame := Framed(codec, write.blob, write.flags).value;
    var seen := ScanView(disk, Names(NO_FILTER)).Keys;
    var puts := Frames([write], codec);
    EncodeRecordFor(write.key, frame);
    assert puts[1..] == [] && SessionBytes(puts, seen) == (Name(write.key) + frame) + [];
    LogLength(disk);
    OverwriteCutTail(disk, SessionBytes(puts, seen));
  }
}
