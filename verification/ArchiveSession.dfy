/** Whole recording sessions on a fresh stream archive, and what a later rescan returns. */
module ArchiveSession {
  import opened Words
  import opened Wrappers
  import opened ArchiveFormat
  import opened ArchiveRecovery
  import opened ArchivePayload
  import opened StreamArchives

  /** One call of `write_entry`, and the same call with its frame computed. */
  datatype Write = Write(key: Key, blob: bytes, flags: WriteFlags)
  datatype Put = Put(key: Key, frame: Option<bytes>)

  predicate ValidPut(p: Put) {
    p.key.tag < RESOURCE_COUNT && (p.frame.Some? ==> Proper(p.frame.value))
  }

  predicate ValidPuts(puts: seq<Put>) {
    forall p :: p in puts ==> ValidPut(p)
  }

  function Frames(writes: seq<Write>, codec: Codec): (puts: seq<Put>)
    ensures |puts| == |writes|
    ensures forall i :: 0 <= i < |puts| ==>
      puts[i] == Put(writes[i].key, Framed(codec, writes[i].blob, writes[i].flags))
  {
    seq(|writes|, i requires 0 <= i < |writes| => Put(writes[i].key, Framed(codec, writes[i].blob, writes[i].flags)))
  }

  /** The bytes a session appends.  A key already seen writes nothing; a failed write leaves its
      name behind. */
  function SessionBytes(puts: seq<Put>, seen: set<Key>): bytes {
    if puts == [] then []
    else
      var p := puts[0];
      if p.key in seen then SessionBytes(puts[1..], seen)
      else match p.frame
        case None => Name(p.key) + SessionBytes(puts[1..], seen)
        case Some(frame) => (Name(p.key) + frame) + SessionBytes(puts[1..], seen + {p.key})
  }

  /** The first frame written for each key, up to the first write that fails. */
  function Survivors(puts: seq<Put>, seen: set<Key>): map<Key, bytes> {
    if puts == [] then map[]
    else
      var p := puts[0];
      if p.key in seen then Survivors(puts[1..], seen)
      else match p.frame
        case None => map[]
        case Some(frame) => Survivors(puts[1..], seen + {p.key})[p.key := frame]
  }

  /** The blob passed by the first write of each key, up to the first write that fails. */
  function FirstBlobs(writes: seq<Write>, seen: set<Key>, codec: Codec): map<Key, bytes> {
    if writes == [] then map[]
    else
      var w := writes[0];
      if w.key in seen then FirstBlobs(writes[1..], seen, codec)
      else if Framed(codec, w.blob, w.flags).None? then map[]
      else FirstBlobs(writes[1..], seen + {w.key}, codec)[w.key := w.blob]
  }

  /** The records of the writes before the first that fails. */
  function KeptRecords(puts: seq<Put>, seen: set<Key>): seq<Record>
    requires ValidPuts(puts)
  {
    if puts == [] then []
    else
      var p := puts[0];
      assert ValidPut(p);
      if p.key in seen then KeptRecords(puts[1..], seen)
      else match p.frame
        case None => []
        case Some(frame) => [RecordFor(p.key, frame)] + KeptRecords(puts[1..], seen + {p.key})
  }

  /** What a session writes from the first write that fails on: a dangling name and the rest. */
  function Dangling(puts: seq<Put>, seen: set<Key>): bytes {
    if puts == [] then []
    else
      var p := puts[0];
      if p.key in seen then Dangling(puts[1..], seen)
      else match p.frame
        case None => Name(p.key) + SessionBytes(puts[1..], seen)
        case Some(frame) => Dangling(puts[1..], seen + {p.key})
  }

  /** A session is the log of what it keeps, and then what dangles. */
  lemma {:induction false} SessionSplits(puts: seq<Put>, seen: set<Key>)
    requires ValidPuts(puts)
    ensures AllWellFormed(KeptRecords(puts, seen))
    ensures SessionBytes(puts, seen) == EncodeAll(KeptRecords(puts, seen)) + Dangling(puts, seen)
    decreases |puts|
  {
    if puts != [] {
      var p, rest := puts[0], puts[1..];
      assert ValidPut(p);
      if p.key in seen {
        SessionSplits(rest, seen);
      } else if p.frame.None? {
        assert [] + Dangling(puts, seen) == Dangling(puts, seen);
      } else {
        var more := seen + {p.key};
        var r, kept := RecordFor(p.key, p.frame.value), KeptRecords(rest, more);
        SessionSplits(rest, more);
        EncodeRecordFor(p.key, p.frame.value);
        assert ([r] + kept)[1..] == kept;
        Associative(Encode(r), EncodeAll(kept), Dangling(rest, more));
      }
    }
  }

  /** The kept records stand for the surviving frames. */
  lemma {:induction false} KeptView(puts: seq<Put>, seen: set<Key>, names: Naming)
    requires ValidPuts(puts) && PlainNames(names)
    ensures AllWellFormed(KeptRecords(puts, seen))
    ensures var view, kept := View(KeptRecords(puts, seen), names), Survivors(puts, seen);
      view.Keys == kept.Keys && forall k :: k in kept ==> k !in seen && Holds(view[k], kept[k])
    decreases |puts|
  {
    if puts != [] {
      var p, rest := puts[0], puts[1..];
      assert ValidPut(p);
      if p.key in seen {
        KeptView(rest, seen, names);
      } else if p.frame.Some? {
        KeptView(rest, seen + {p.key}, names);
        KeptFirst(p.key, p.frame.value, KeptRecords(rest, seen + {p.key}), names);
      }
    }
  }

  lemma KeptFirst(k: Key, frame: bytes, rest: seq<Record>, names: Naming)
    requires Proper(frame) && AllWellFormed(rest) && names(Name(k)) == Some(k)
    ensures AllWellFormed([RecordFor(k, frame)] + rest)
    ensures View([RecordFor(k, frame)] + rest, names) == View(rest, names)[k := BlobOf(frame)]
    ensures Holds(BlobOf(frame), frame)
  {
    EncodeRecordFor(k, frame);
    ViewOfCons(RecordFor(k, frame), rest, names);
  }

  /** What dangles starts with the name of a key that is neither seen nor kept, and behind it there
      is nothing or another name. */
  lemma {:induction false} DanglingStart(puts: seq<Put>, seen: set<Key>) returns (k: Key)
    requires ValidPuts(puts) && Dangling(puts, seen) != []
    ensures k.tag < RESOURCE_COUNT && k !in seen && k !in Survivors(puts, seen)
    ensures var d := Dangling(puts, seen);
      && |d| >= NAME_LENGTH && d[..NAME_LENGTH] == Name(k)
      && (|d| == NAME_LENGTH || (|d| >= PREFIX_LENGTH && HeaderIn(d).payloadSize == 0x3030_3030))
    decreases |puts|
  {
    var p, rest := puts[0], puts[1..];
    assert ValidPut(p);
    if p.key in seen {
      k := DanglingStart(rest, seen);
    } else if p.frame.Some? {
      k := DanglingStart(rest, seen + {p.key});
    } else {
      k := p.key;
      var behind := SessionBytes(rest, seen);
      if behind != [] {
        var next := SessionStartsWithName(rest, seen);
        assert Dangling(puts, seen)[NAME_LENGTH..PREFIX_LENGTH] == Name(next)[..HEADER_LENGTH];
        NameAsHeader(next);
      }
    }
  }

  lemma {:induction false} SessionStartsWithName(puts: seq<Put>, seen: set<Key>) returns (k: Key)
    requires ValidPuts(puts) && SessionBytes(puts, seen) != []
    ensures k.tag < RESOURCE_COUNT && NAME_LENGTH <= |SessionBytes(puts, seen)|
    ensures SessionBytes(puts, seen)[..NAME_LENGTH] == Name(k)
    decreases |puts|
  {
    k := puts[0].key;
    assert ValidPut(puts[0]);
    if k in seen {
      k := SessionStartsWithName(puts[1..], seen);
    }
  }

  /** Nothing that dangles makes a record: the name behind the dangling one is taken for a header,
      which announces 0x30303030 bytes. */
  predicate Contained(puts: seq<Put>, seen: set<Key>) {
    |Dangling(puts, seen)| < PREFIX_LENGTH + 0x3030_3030
  }

  lemma NothingBehindDanglingName(puts: seq<Put>, seen: set<Key>)
    requires ValidPuts(puts)
    ensures Records(Dangling(puts, seen)) == [] <==> Contained(puts, seen)
  {
    if Dangling(puts, seen) != [] {
      var k := DanglingStart(puts, seen);
    }
  }

  /** A rescan of a session finds every write that came before the first failed one, and it finds
      nothing else if and only if what dangles is too short to make a record. */
  lemma RescanFindsSurvivors(puts: seq<Put>, seen: set<Key>, names: Naming)
    requires ValidPuts(puts) && PlainNames(names)
    ensures var view, kept := View(Records(SessionBytes(puts, seen)), names), Survivors(puts, seen);
      && (forall k :: k in kept ==> k !in seen && k in view && Holds(view[k], kept[k]))
      && (view.Keys == kept.Keys <==> Contained(puts, seen))
  {
    var kept, d := KeptRecords(puts, seen), Dangling(puts, seen);
    SessionSplits(puts, seen);
    ScanOfEncode(kept, d);
    KeptView(puts, seen, names);
    ViewAppend(kept, Records(d), names);
    NothingBehindDanglingName(puts, seen);
    if !Contained(puts, seen) {
      var k := DanglingStart(puts, seen);
      FirstIsFound(d, k, names);
    }
  }

  /** The name of the first record of a log is found. */
  lemma FirstIsFound(d: bytes, k: Key, names: Naming)
    requires !Incomplete(d) && d[..NAME_LENGTH] == Name(k) && names(Name(k)) == Some(k)
    ensures k in View(Records(d), names)
  {
    RecordsStep(d);
  }

  /** The stored header and payload are those of the frame. */
  predicate Holds(b: Blob, frame: bytes) {
    Proper(frame) && b == BlobOf(frame)
  }

  lemma ViewOfCons(r: Record, rs: seq<Record>, names: Naming)
    requires AllWellFormed(rs) && WellFormed(r) && names(r.name).Some?
    ensures AllWellFormed([r] + rs)
    ensures View([r] + rs, names) == View(rs, names)[names(r.name).value := Blob(r.header, r.payload)]
  {
    assert ([r] + rs)[1..] == rs;
  }

  /** Each surviving frame decodes to the blob of the first write of its key, for any mix of
      compression and checksum flags. */
  lemma {:induction false} SurvivorsDecode(writes: seq<Write>, seen: set<Key>, codec: Codec, k: Key)
    requires Sound(codec)
    requires forall w :: w in writes ==> !w.flags.raw && |w.blob| < TWO_TO_THE_32
    ensures var kept, blobs := Survivors(Frames(writes, codec), seen), FirstBlobs(writes, seen, codec);
      && (k in kept <==> k in blobs)
      && (k in blobs ==> Proper(kept[k]) && Decode(codec, BlobOf(kept[k])) == Some(blobs[k]))
    decreases |writes|
  {
    if writes != [] {
      var w, rest := writes[0], writes[1..];
      assert Frames(writes, codec)[1..] == Frames(rest, codec);
      if w.key in seen {
        SurvivorsDecode(rest, seen, codec, k);
      } else if Framed(codec, w.blob, w.flags).Some? {
        FramedDecodes(codec, w.blob, w.flags);
        if k != w.key {
          SurvivorsDecode(rest, seen + {w.key}, codec, k);
        }
      }
    }
  }

  /** The calls of a session, one after the other, wherever the cursor is. */
  method WriteAll(archive: StreamArchive, writes: seq<Write>)
    requires archive.Valid() && archive.alive && archive.mode != ReadOnly
    requires forall w :: w in writes ==> w.key.tag < RESOURCE_COUNT
    modifies archive`data, archive`pos, archive`seen, archive`Log, archive`Clean
    ensures archive.Valid()
    ensures var session := SessionBytes(Frames(writes, archive.codec), old(archive.seen.Keys));
      archive.data == Overwrite(old(archive.data), old(archive.pos), session)
      && archive.pos == old(archive.pos) + |session|
  {
    ghost var puts := Frames(writes, archive.codec);
    ghost var d, p, seen, done := archive.data, archive.pos, archive.seen.Keys, [];
    SessionStart(d, p, puts, seen);
    for i := 0 to |writes|
      invariant archive.Valid() && archive.data == Overwrite(d, p, done) && archive.pos == p + |done|
      invariant done + SessionBytes(puts[i..], archive.seen.Keys) == SessionBytes(puts, seen)
    {
      ghost var before := archive.seen.Keys;
      WriteOne(archive, writes[i]);
      ghost var written := Written(puts[i], before);
      OverwriteTwice(d, p, done, written);
      SessionStep(done, puts, i, before);
      done := done + written;
    }
    assert done + [] == done;
  }

  lemma SessionStart(d: bytes, p: nat, puts: seq<Put>, seen: set<Key>)
    requires p <= |d|
    ensures Overwrite(d, p, []) == d
    ensures [] + SessionBytes(puts[0..], seen) == SessionBytes(puts, seen)
  {
    assert puts[0..] == puts;
  }

  /** One write. */
  method WriteOne(archive: StreamArchive, write: Write)
    requires archive.Valid() && archive.alive && archive.mode != ReadOnly && write.key.tag < RESOURCE_COUNT
    modifies archive`data, archive`pos, archive`seen, archive`Log, archive`Clean
    ensures archive.Valid()
    ensures var put := Put(write.key, Framed(archive.codec, write.blob, write.flags));
      var written := Written(put, old(archive.seen.Keys));
      && archive.data == Overwrite(old(archive.data), old(archive.pos), written)
      && archive.pos == old(archive.pos) + |written|
      && archive.seen.Keys == SeenAfter(put, old(archive.seen.Keys))
  {
    SessionStart(archive.data, archive.pos, [], {});
    ghost var seen := archive.seen.Keys;
    var ok := archive.WriteEntry(write.key, write.blob, write.flags);
    assert write.key in seen ==> seen + {write.key} == seen;
  }

  /** What one write puts into the file, and the keys afterwards. */
  function Written(p: Put, seen: set<Key>): bytes {
    if p.key in seen then [] else if p.frame.Some? then Name(p.key) + p.frame.value else Name(p.key)
  }

  function SeenAfter(p: Put, seen: set<Key>): set<Key> {
    if p.frame.Some? then seen + {p.key} else seen
  }

  /** One write moves the first put of the session from the future into the file. */
  lemma SessionStep(done: bytes, puts: seq<Put>, i: nat, seen: set<Key>)
    requires i < |puts|
    ensures done + Written(puts[i], seen) + SessionBytes(puts[i + 1..], SeenAfter(puts[i], seen))
         == done + SessionBytes(puts[i..], seen)
  {
    var p := puts[i];
    var rest := SessionBytes(puts[i + 1..], SeenAfter(p, seen));
    assert puts[i..][1..] == puts[i + 1..];
    if p.key in seen {
      assert SeenAfter(p, seen) == seen && done + [] == done;
    }
    Associative(done, Written(p, seen), rest);
    assert [] + rest == rest;
  }

  /** A session on a fresh archive. */
  method RecordSession(writes: seq<Write>, codec: Codec) returns (file: bytes)
    requires forall w :: w in writes ==> w.key.tag < RESOURCE_COUNT
    ensures file == MAGIC + [FORMAT_VERSION] + SessionBytes(Frames(writes, codec), {})
  {
    var writer := new StreamArchive(OverWrite, codec, NO_FILTER);
    var ok := writer.Prepare(None);
    assert writer.seen.Keys == {};
    ghost var magic := writer.data;
    WriteAll(writer, writes);
    file := writer.data;
    AtEnd(magic, SessionBytes(Frames(writes, codec), {}));
  }

  lemma AtEnd(d: bytes, b: bytes)
    ensures Overwrite(d, |d|, b) == d + b
  {
    assert d[..|d|] == d && d + b + [] == d + b;
  }

  /** The two-call read of one key of an archive. */
  method ReadBack(file: bytes, codec: Codec, k: Key) returns (blob: Option<bytes>)
    requires HasMagic(file)
    ensures var view := ScanView(file, Names(NO_FILTER));
      blob == if k in view then Decode(codec, view[k]) else None
  {
    var reader := new StreamArchive(ReadOnly, codec, NO_FILTER);
    var ok := reader.Prepare(Some(file));
    var size := reader.QuerySize(k, false);
    if size.None? {
      return None;
    }
    ViewSized(ScannedRecords(file), reader.names, k);
    TwoCallRead(codec, ScanView(file, reader.names), k);
    blob := reader.ReadEntry(k, size.value, false);
  }

  /** A session on a fresh archive, reopened read-only and read through the two-call interface,
      returns the first blob written per key, up to the first write that failed; and nothing for any
      other key, unless what that write left dangling is long enough to make a record. */
  method SessionRoundTrip(writes: seq<Write>, codec: Codec, k: Key) returns (blob: Option<bytes>)
    requires Sound(codec)
    requires forall w :: w in writes ==> w.key.tag < RESOURCE_COUNT && !w.flags.raw && |w.blob| < TWO_TO_THE_32
    ensures var blobs := FirstBlobs(writes, {}, codec);
      && (k in blobs ==> blob == Some(blobs[k]))
      && (k !in blobs && Contained(Frames(writes, codec), {}) ==> blob == None)
  {
    var file := RecordSession(writes, codec);
    FreshSessionScans(file, SessionBytes(Frames(writes, codec), {}));
    SessionView(writes, {}, codec, k, Names(NO_FILTER));
    blob := ReadBack(file, codec, k);
  }

  lemma FramesAreValid(writes: seq<Write>, codec: Codec)
    requires Sound(codec)
    requires forall w :: w in writes ==> w.key.tag < RESOURCE_COUNT && !w.flags.raw && |w.blob| < TWO_TO_THE_32
    ensures ValidPuts(Frames(writes, codec))
  {
    var puts := Frames(writes, codec);
    forall p | p in puts
      ensures ValidPut(p)
    {
      var i :| 0 <= i < |puts| && puts[i] == p;
      if p.frame.Some? {
        FramedDecodes(codec, writes[i].blob, writes[i].flags);
      }
    }
  }

  /** The view of a session, key by key. */
  lemma SessionView(writes: seq<Write>, seen: set<Key>, codec: Codec, k: Key, names: Naming)
    requires Sound(codec) && names == Names(NO_FILTER)
    requires forall w :: w in writes ==> w.key.tag < RESOURCE_COUNT && !w.flags.raw && |w.blob| < TWO_TO_THE_32
    ensures var view := View(Records(SessionBytes(Frames(writes, codec), seen)), names);
      var blobs := FirstBlobs(writes, seen, codec);
      && (k in blobs ==> k !in seen && k in view && Decode(codec, view[k]) == Some(blobs[k]))
      && (Contained(Frames(writes, codec), seen) ==> (k in view <==> k in blobs))
  {
    var puts := Frames(writes, codec);
    FramesAreValid(writes, codec);
    UnfilteredNamesArePlain();
    SurvivorView(puts, seen, names, k);
    SurvivorsDecode(writes, seen, codec, k);
  }

  lemma SurvivorView(puts: seq<Put>, seen: set<Key>, names: Naming, k: Key)
    requires ValidPuts(puts) && PlainNames(names)
    ensures var view, kept := View(Records(SessionBytes(puts, seen)), names), Survivors(puts, seen);
      && (k in kept ==> k !in seen && k in view && Holds(view[k], kept[k]))
      && (Contained(puts, seen) ==> (k in view <==> k in kept))
  {
    RescanFindsSurvivors(puts, seen, names);
  }

  lemma FreshSessionScans(data: bytes, session: bytes)
    requires data == MAGIC + [FORMAT_VERSION] + session
    ensures HasMagic(data) && ScannedRecords(data) == Records(session)
  {
    assert data[..MAGIC_LENGTH - 1] == MAGIC;
    assert data[MAGIC_LENGTH..] == session;
  }

  // ----- Sessions on an archive that was cut -----

  /** A session on an archive found on disk, cut or not. */
  method AppendSession(disk: bytes, writes: seq<Write>, codec: Codec) returns (file: bytes)
    requires HasMagic(disk) && forall w :: w in writes ==> w.key.tag < RESOURCE_COUNT
    ensures file == Overwrite(disk, AppendCursor(disk),
                              SessionBytes(Frames(writes, codec), ScanView(disk, Names(NO_FILTER)).Keys))
  {
    var writer := new StreamArchive(Append, codec, NO_FILTER);
    var ok := writer.Prepare(Some(disk));
    ScanIndexDenotesView(disk, writer.names);
    WriteAll(writer, writes);
    file := writer.data;
  }

  /** Reopening an archive, writing to it in a whole session and rescanning it: every complete old
      record keeps its meaning, and unless the archive was cut right behind a header every key that was
      new is found with the first blob written for it, up to the first write that failed.  If none
      failed and the new bytes cover the cut tail, there is nothing else. */
  lemma AppendedSession(disk: bytes, writes: seq<Write>, codec: Codec, names: Naming, k: Key)
    requires HasMagic(disk) && Sound(codec) && names == Names(NO_FILTER)
    requires forall w :: w in writes ==> w.key.tag < RESOURCE_COUNT && !w.flags.raw && |w.blob| < TWO_TO_THE_32
    ensures var old_ := ScanView(disk, names);
      var puts, blobs := Frames(writes, codec), FirstBlobs(writes, old_.Keys, codec);
      var session := SessionBytes(puts, old_.Keys);
      var file := Overwrite(disk, AppendCursor(disk), session);
      && HasMagic(file)
      && (k in old_ ==> k in ScanView(file, names) && ScanView(file, names)[k] == old_[k])
      && (|ScanTail(disk)| != PREFIX_LENGTH ==>
        && (k in blobs ==> k !in old_ && k in ScanView(file, names) && Decode(codec, ScanView(file, names)[k]) == Some(blobs[k]))
        && (Dangling(puts, old_.Keys) == [] && |session| >= |ScanTail(disk)| ==>
              (k in ScanView(file, names) <==> k in old_ || k in blobs)))
  {
    var seen := ScanView(disk, names).Keys;
    OldIsKept(disk, SessionBytes(Frames(writes, codec), seen), names);
    if |ScanTail(disk)| != PREFIX_LENGTH {
      NewIsFound(disk, writes, seen, codec, names, k);
    }
  }

  lemma NewIsFound(disk: bytes, writes: seq<Write>, seen: set<Key>, codec: Codec, names: Naming, k: Key)
    requires HasMagic(disk) && |ScanTail(disk)| != PREFIX_LENGTH && Sound(codec) && names == Names(NO_FILTER)
    requires forall w :: w in writes ==> w.key.tag < RESOURCE_COUNT && !w.flags.raw && |w.blob| < TWO_TO_THE_32
    requires seen == ScanView(disk, names).Keys
    ensures var puts, blobs := Frames(writes, codec), FirstBlobs(writes, seen, codec);
      var session := SessionBytes(puts, seen);
      var file := Overwrite(disk, AppendCursor(disk), session);
      && HasMagic(file)
      && (k in blobs ==> k !in seen && k in ScanView(file, names) && Decode(codec, ScanView(file, names)[k]) == Some(blobs[k]))
      && (Dangling(puts, seen) == [] && |session| >= |ScanTail(disk)| ==>
            (k in ScanView(file, names) <==> k in seen || k in blobs))
  {
    var puts := Frames(writes, codec);
    FramesAreValid(writes, codec);
    UnfilteredNamesArePlain();
    AppendedRecords(disk, puts, seen);
    KeptView(puts, seen, names);
    SurvivorsDecode(writes, seen, codec, k);
    var added, rest := KeptRecords(puts, seen), Records(Dangling(puts, seen) + Stale(disk, |SessionBytes(puts, seen)|));
    ViewAppend(added, rest, names);
    ViewAppend(ScannedRecords(disk), added + rest, names);
  }

  /** The records of such a file: the old ones, those of the session, and what is read behind them. */
  lemma AppendedRecords(disk: bytes, puts: seq<Put>, seen: set<Key>)
    requires HasMagic(disk) && |ScanTail(disk)| != PREFIX_LENGTH && ValidPuts(puts)
    ensures var session := SessionBytes(puts, seen);
      var file := Overwrite(disk, AppendCursor(disk), session);
      var rest := Dangling(puts, seen) + Stale(disk, |session|);
      && AllWellFormed(KeptRecords(puts, seen)) && HasMagic(file)
      && ScannedRecords(file) == ScannedRecords(disk) + (KeptRecords(puts, seen) + Records(rest))
      && (Dangling(puts, seen) == [] && |session| >= |ScanTail(disk)| ==> Records(rest) == [])
  {
    var session := SessionBytes(puts, seen);
    var kept, stale := KeptRecords(puts, seen), Stale(disk, |session|);
    SessionSplits(puts, seen);
    OverwriteCutTail(disk, session);
    Associative(EncodeAll(kept), Dangling(puts, seen), stale);
    ScanOfEncode(kept, Dangling(puts, seen) + stale);
    ScanOfEncode(ScannedRecords(disk), session + stale);
  }

  /** The same through the two-call read: an archive, cut or not, is appended to and read back. */
  method AppendRoundTrip(disk: bytes, writes: seq<Write>, codec: Codec, k: Key) returns (blob: Option<bytes>)
    requires HasMagic(disk) && Sound(codec)
    requires forall w :: w in writes ==> w.key.tag < RESOURCE_COUNT && !w.flags.raw && |w.blob| < TWO_TO_THE_32
    ensures var old_ := ScanView(disk, Names(NO_FILTER));
      var blobs := FirstBlobs(writes, old_.Keys, codec);
      && (k in old_ ==> blob == Decode(codec, old_[k]))
      && (k in blobs && |ScanTail(disk)| != PREFIX_LENGTH ==> blob == Some(blobs[k]))
  {
    var file := AppendSession(disk, writes, codec);
    AppendedSession(disk, writes, codec, Names(NO_FILTER), k);
    blob := ReadBack(file, codec, k);
  }
}
