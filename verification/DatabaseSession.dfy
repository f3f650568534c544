/** Recording sessions through a concurrent database, and what is read when all its archives are opened
    again. */
module DatabaseSessions {
  import opened Words
  import opened Wrappers
  import opened ArchiveFormat
  import opened ArchiveRecovery
  import opened ArchivePayload
  import opened StreamArchives
  import opened ArchiveSession
  import opened ConcurrentDatabases

  /** The calls of a session on a database that was just opened for appending. */
  method WriteThrough(db: ConcurrentDatabase, writes: seq<Write>, files: nat -> Option<bytes>)
    requires db.Valid() && db.hasPreparedReadOnly && db.mode == Append
    requires db.writeOnly == null && db.needWriteOnlyDatabase && exists i :: 1 <= i < 256 && files(i) == None
    requires forall w :: w in writes ==> w.key.tag < RESOURCE_COUNT
    modifies db`writeOnly, db`needWriteOnlyDatabase
    ensures db.Valid() && (db.writeOnly == null || fresh(db.writeOnly))
    ensures db.FileData() == MAGIC + [FORMAT_VERSION] + SessionBytes(Frames(writes, db.codec), old(db.Keys()))
  {
    ghost var puts, keys := Frames(writes, db.codec), db.Keys();
    ghost var done := db.FileData();
    assert puts[0..] == puts;
    for i := 0 to |writes|
      invariant db.Valid() && (db.writeOnly == null || fresh(db.writeOnly))
      invariant db.writeOnly != null || db.needWriteOnlyDatabase
      invariant db.FileData() + SessionBytes(puts[i..], db.Keys()) == done + SessionBytes(puts, keys)
    {
      WriteNext(db, writes, i, files);
    }
    assert db.FileData() + [] == db.FileData();
  }

  method WriteNext(db: ConcurrentDatabase, writes: seq<Write>, i: nat, files: nat -> Option<bytes>)
    requires db.Valid() && db.hasPreparedReadOnly && db.mode == Append && i < |writes|
    requires (db.writeOnly != null || db.needWriteOnlyDatabase) && exists i :: 1 <= i < 256 && files(i) == None
    requires writes[i].key.tag < RESOURCE_COUNT
    modifies db`writeOnly, db`needWriteOnlyDatabase, db.writeOnly
    ensures db.Valid() && (db.writeOnly == old(db.writeOnly) || (old(db.writeOnly) == null && fresh(db.writeOnly)))
    ensures db.writeOnly != null || db.needWriteOnlyDatabase
    ensures var puts := Frames(writes, db.codec);
      db.FileData() + SessionBytes(puts[i + 1..], db.Keys()) == old(db.FileData()) + SessionBytes(puts[i..], old(db.Keys()))
  {
    ghost var puts, data, keys := Frames(writes, db.codec), db.FileData(), db.Keys();
    assert data + [] == data;
    SessionStep(data, puts, i, keys);
    var ok := db.WriteEntry(writes[i].key, writes[i].blob, writes[i].flags, files);
    assert db.FileData() == data + Written(puts[i], keys) && db.Keys() == SeenAfter(puts[i], keys);
  }

  /** What a file on disk means to a reader: nothing if it does not open. */
  ghost function DiskView(disk: Option<bytes>): map<Key, Blob> {
    if Opens(disk) then ScanView(disk.value, Names(NO_FILTER)) else map[]
  }

  ghost function DiskSources(codec: Codec, disks: seq<Option<bytes>>): (sources: seq<Source>)
    ensures |sources| == |disks|
  {
    if disks == [] then []
    else DiskSources(codec, disks[..|disks| - 1]) + [Source(codec, DiskView(disks[|disks| - 1]))]
  }

  lemma {:induction false} SourceAt(codec: Codec, disks: seq<Option<bytes>>, i: nat)
    requires i < |disks|
    ensures DiskSources(codec, disks)[i] == Source(codec, DiskView(disks[i]))
  {
    if i < |disks| - 1 {
      SourceAt(codec, disks[..|disks| - 1], i);
    }
  }

  /** A database over archives on disk, opened for reading: it holds what they mean, and has a key exactly
      if one of them has. */
  method Open(disks: seq<Option<bytes>>, codec: Codec) returns (db: ConcurrentDatabase)
    ensures fresh(db) && fresh(db.archives) && db.Valid() && db.hasPreparedReadOnly && db.mode == ReadOnly
    ensures db.Sources() == DiskSources(codec, disks)
    ensures forall k :: db.Has(k) <==> FirstHolder(DiskSources(codec, disks), k) < |disks|
  {
    db := new ConcurrentDatabase(ReadOnly, codec, NO_FILTER, false, |disks|);
    var ok := db.Prepare(disks);
    SourcesAre(db.archives, disks, codec);
    assert db.Keys() == db.primed;
    forall k
      ensures db.Has(k) <==> FirstHolder(DiskSources(codec, disks), k) < |disks|
    {
      assert Allows(NO_FILTER, k);
      assert db.Has(k) <==> exists i :: 0 <= i < |disks| && IsIn(disks[i], k);
      HolderExists(disks, codec, k);
    }
  }

  lemma HolderExists(disks: seq<Option<bytes>>, codec: Codec, k: Key)
    ensures FirstHolder(DiskSources(codec, disks), k) < |disks| <==> exists i :: 0 <= i < |disks| && IsIn(disks[i], k)
  {
    var sources := DiskSources(codec, disks);
    var i := FirstHolder(sources, k);
    if i < |disks| {
      SourceAt(codec, disks, i);
      assert IsIn(disks[i], k);
    }
    if j: nat :| j < |disks| && IsIn(disks[j], k) {
      SourceAt(codec, disks, j);
      assert k in sources[j].view;
    }
  }

  /** What the database answers for a key: what the first archive that has it decodes it to, and nothing
      if none has it. */
  method OpenAndRead(disks: seq<Option<bytes>>, codec: Codec, k: Key) returns (blob: Option<bytes>)
    ensures var sources := DiskSources(codec, disks);
      blob == if FirstHolder(sources, k) < |sources| then FromFirstHolder(sources, k) else None
  {
    var db := Open(disks, codec);
    blob := ReadKey(db, k);
  }

  method ReadKey(db: ConcurrentDatabase, k: Key) returns (blob: Option<bytes>)
    requires db.Valid() && db.hasPreparedReadOnly && db.mode == ReadOnly
    requires db.Has(k) <==> FirstHolder(db.Sources(), k) < |db.Sources()|
    modifies db.archives`pos
    ensures var sources := old(db.Sources());
      blob == if FirstHolder(sources, k) < |sources| then FromFirstHolder(sources, k) else None
  {
    var has := db.HasEntry(k);
    if !has {
      return None;
    }
    blob := db.TwoCallRead(k);
  }

  lemma {:induction false} SourcesAre(list: seq<StreamArchive>, disks: seq<Option<bytes>>, codec: Codec)
    requires |list| == |disks| && AllOpened(list, disks)
    requires forall i :: 0 <= i < |list| ==>
      list[i].mode == ReadOnly && list[i].names == Names(NO_FILTER) && list[i].codec == codec
    ensures forall i :: 0 <= i < |list| ==> AllWellFormed(list[i].Log)
    ensures SourcesOf(list) == DiskSources(codec, disks)
  {
    OpenedAreValid(list, disks);
    if list != [] {
      var last := |list| - 1;
      SourcesAre(list[..last], disks[..last], codec);
      OpenedSource(list[last], disks[last]);
    }
  }

  lemma OpenedSource(a: StreamArchive, disk: Option<bytes>)
    requires Opened(a, disk) && a.mode == ReadOnly && a.names == Names(NO_FILTER)
    ensures SourceOf(a) == Source(a.codec, DiskView(disk))
  {
  }

  // ----- The round trip -----

  /** The keys that some archive on disk has. */
  ghost function KeysOn(disks: seq<Option<bytes>>): set<Key> {
    if disks == [] then {} else KeysOn(disks[..|disks| - 1]) + DiskView(disks[|disks| - 1]).Keys
  }

  lemma {:induction false} InKeysOn(disks: seq<Option<bytes>>, k: Key)
    ensures k in KeysOn(disks) <==> exists i :: 0 <= i < |disks| && IsIn(disks[i], k)
  {
    if disks != [] {
      InKeysOn(disks[..|disks| - 1], k);
      OneMoreIn(disks, k);
      assert IsIn(disks[|disks| - 1], k) <==> k in DiskView(disks[|disks| - 1]).Keys;
    }
  }

  /** A session through a database over archives on disk: the file it wrote, if any. */
  method Record(disks: seq<Option<bytes>>, writes: seq<Write>, files: nat -> Option<bytes>, codec: Codec)
    returns (file: Option<bytes>)
    requires exists i :: 1 <= i < 256 && files(i) == None
    requires forall w :: w in writes ==> w.key.tag < RESOURCE_COUNT
    ensures DiskView(file) == View(Records(SessionBytes(Frames(writes, codec), KeysOn(disks))), Names(NO_FILTER))
  {
    var db := OpenForAppend(disks, codec);
    WriteThrough(db, writes, files);
    ghost var session := SessionBytes(Frames(writes, codec), KeysOn(disks));
    FreshSessionScans(db.FileData(), session);
    if db.writeOnly == null {
      assert session == [];
      file := None;
    } else {
      file := Some(db.writeOnly.data);
    }
  }

  /** A database over archives on disk, opened for appending: it knows their keys. */
  method OpenForAppend(disks: seq<Option<bytes>>, codec: Codec) returns (db: ConcurrentDatabase)
    ensures fresh(db) && db.Valid() && db.hasPreparedReadOnly && db.mode == Append && db.codec == codec
    ensures db.writeOnly == null && db.needWriteOnlyDatabase && db.Keys() == KeysOn(disks)
  {
    db := new ConcurrentDatabase(Append, codec, NO_FILTER, false, |disks|);
    var ok := db.Prepare(disks);
    forall k
      ensures k in db.Keys() <==> k in KeysOn(disks)
    {
      assert Allows(NO_FILTER, k);
      InKeysOn(disks, k);
    }
    assert db.Keys() == KeysOn(disks);
  }

  /** Recording through a database over any archives on disk, then opening them all again together with the
      file that was written: every key that an archive had reads as before, and every new key reads the
      first blob passed for it, up to the first write that failed; other keys read as nothing, unless what
      that write left dangling is long enough to make a record. */
  method RecordAndRead(disks: seq<Option<bytes>>, writes: seq<Write>, files: nat -> Option<bytes>, codec: Codec, k: Key)
    returns (blob: Option<bytes>)
    requires Sound(codec) && exists i :: 1 <= i < 256 && files(i) == None
    requires forall w :: w in writes ==> w.key.tag < RESOURCE_COUNT && !w.flags.raw && |w.blob| < TWO_TO_THE_32
    ensures var seen, sources := KeysOn(disks), DiskSources(codec, disks);
      var blobs := FirstBlobs(writes, seen, codec);
      && (k in blobs ==> blob == Some(blobs[k]))
      && (k in seen ==> FirstHolder(sources, k) < |sources|)
      && (k in seen && FromHolder(sources, k).Some? ==> blob == FromHolder(sources, k))
      && (k !in seen && k !in blobs && Contained(Frames(writes, codec), seen) ==> blob == None)
  {
    var file := Record(disks, writes, files, codec);
    blob := OpenAndRead(disks + [file], codec, k);
    SessionView(writes, KeysOn(disks), codec, k, Names(NO_FILTER));
    HolderExists(disks, codec, k);
    InKeysOn(disks, k);
    ReadWithOneMore(DiskSources(codec, disks), Source(codec, DiskView(file)), k);
    assert (disks + [file])[..|disks|] == disks;
  }

  /** What is read when one archive is added behind the others. */
  lemma ReadWithOneMore(sources: seq<Source>, last: Source, k: Key)
    ensures var all := sources + [last];
      && (FirstHolder(sources, k) < |sources| ==>
            FirstHolder(all, k) < |all|
            && (FromHolder(sources, k).Some? ==> FromFirstHolder(all, k) == FromHolder(sources, k)))
      && (FirstHolder(sources, k) == |sources| && k in last.view ==>
            FirstHolder(all, k) < |all|
            && (Decode(last.codec, last.view[k]).Some? ==> FromFirstHolder(all, k) == Decode(last.codec, last.view[k])))
      && (FirstHolder(sources, k) == |sources| && k !in last.view ==> FirstHolder(all, k) == |all|)
  {
    HolderWithOneMore(sources, last, k);
  }

  /** The decoded blob of the first archive that has a key. */
  function FromHolder(sources: seq<Source>, k: Key): Option<bytes> {
    var i := FirstHolder(sources, k);
    if i < |sources| then Decode(sources[i].codec, sources[i].view[k]) else None
  }

  /** An archive behind the others is asked only for keys that none of them has. */
  lemma {:induction false} HolderWithOneMore(sources: seq<Source>, last: Source, k: Key)
    ensures FirstHolder(sources + [last], k) ==
      if FirstHolder(sources, k) < |sources| || k in last.view then FirstHolder(sources, k) else |sources| + 1
  {
    if sources == [] {
      assert [] + [last] == [last];
    } else {
      assert (sources + [last])[1..] == sources[1..] + [last];
      HolderWithOneMore(sources[1..], last, k);
    }
  }
}
