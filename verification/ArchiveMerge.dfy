/** Merging stream archives: `merge_concurrent_databases` of fossilize_db.cpp. */
module ArchiveMerge {
  import opened Words
  import opened Wrappers
  import opened ArchiveFormat
  import opened ArchiveRecovery
  import opened ArchivePayload
  import opened StreamArchives

  /** First-wins union: what the base has stays, then earlier sources before later ones. */
  function Union(base: map<Key, Blob>, sources: seq<map<Key, Blob>>): map<Key, Blob>
    decreases |sources|
  {
    if sources == [] then base else Union(sources[0] + base, sources[1..])
  }

  /** Source i is the first to hold a key that the base lacks. */
  ghost predicate DecidedBy(base: map<Key, Blob>, sources: seq<map<Key, Blob>>, k: Key, i: int) {
    && 0 <= i < |sources| && k in sources[i] && k !in base
    && forall j :: 0 <= j < i ==> k !in sources[j]
  }

  /** Which of the sources decides a key: the base, else the first source that has it. */
  lemma {:induction false} UnionIsFirstWins(base: map<Key, Blob>, sources: seq<map<Key, Blob>>, k: Key)
    ensures k in Union(base, sources) <==> k in base || exists i :: 0 <= i < |sources| && k in sources[i]
    ensures k in base ==> Union(base, sources)[k] == base[k]
    ensures forall i :: DecidedBy(base, sources, k, i) ==> Union(base, sources)[k] == sources[i][k]
    decreases |sources|
  {
    if sources != [] {
      UnionIsFirstWins(sources[0] + base, sources[1..], k);
      if exists i :: 0 <= i < |sources| && k in sources[i] {
        var i :| 0 <= i < |sources| && k in sources[i];
        assert i == 0 || sources[1..][i - 1] == sources[i];
      }
      forall i | DecidedBy(base, sources, k, i)
        ensures Union(base, sources)[k] == sources[i][k]
      {
        if i > 0 {
          assert k !in sources[0];
          assert sources[1..][i - 1] == sources[i];
          assert DecidedBy(sources[0] + base, sources[1..], k, i - 1);
        }
      }
    }
  }

  /** An archive that opens for appending: absent, empty, or with the magic. */
  predicate Opens(disk: Option<bytes>) {
    disk.None? || disk.value == [] || HasMagic(disk.value)
  }

  /** One in which appending goes on where the log ends; a cut behind a header does not allow that. */
  predicate Appendable(disk: Option<bytes>) {
    disk.Some? && HasMagic(disk.value) ==> |ScanTail(disk.value)| != PREFIX_LENGTH
  }

  predicate WholeArchive(disk: Option<bytes>) {
    disk.None? || disk.value == [] || (HasMagic(disk.value) && ScanTail(disk.value) == [])
  }

  /** What of a file lies behind a position. */
  function Behind(disk: bytes, pos: nat): bytes {
    if pos <= |disk| then disk[pos..] else []
  }

  ghost function Meaning(disk: Option<bytes>): map<Key, Blob> {
    if disk.Some? && HasMagic(disk.value) then ScanView(disk.value, Names(NO_FILTER)) else map[]
  }

  /** Every stored frame can be transferred: its size fits the 32-bit size of a raw read. */
  ghost predicate Transferable(view: map<Key, Blob>) {
    forall k :: k in view ==> Fits(view[k])
  }

  predicate Fits(b: Blob) {
    b.header.payloadSize + HEADER_LENGTH < TWO_TO_THE_32
  }

  ghost function Meanings(sources: seq<Option<bytes>>): (m: seq<map<Key, Blob>>)
    ensures |m| == |sources| && forall i :: 0 <= i < |m| ==> m[i] == Meaning(sources[i])
  {
    seq(|sources|, i requires 0 <= i < |sources| => Meaning(sources[i]))
  }

  /** A source that opens and whose entries can all be transferred. */
  ghost predicate Mergeable(disk: Option<bytes>) {
    disk.Some? && HasMagic(disk.value) && Transferable(Meaning(disk))
  }

  function OnDisk(disk: Option<bytes>): bytes {
    if disk.Some? then disk.value else []
  }

  /** Merging succeeds exactly if the archive opens and every source can be transferred.  Then each key
      decodes to what the archive had, else to what the earliest source holding it had.  No other keys
      appear, but those of records that a cut tail may hide, and these neither if the merged bytes cover
      the tail.  If the archive was cut right behind a header nothing new may be found,
      but what it had stays. */
  method MergeConcurrentDatabases(appendArchive: Option<bytes>, sources: seq<Option<bytes>>, codec: Codec)
    returns (ok: bool, merged: bytes, ghost end: nat)
    ensures ok <==> Opens(appendArchive) && forall i :: 0 <= i < |sources| ==> Mergeable(sources[i])
    ensures ok && Appendable(appendArchive) ==>
      var union := Union(Meaning(appendArchive), Meanings(sources));
      var hidden := View(Records(Behind(OnDisk(appendArchive), end)), Names(NO_FILTER));
      && HasMagic(merged) && Meaning(Some(merged)) == hidden + union
      && (end >= |OnDisk(appendArchive)| ==> WholeArchive(Some(merged)) && Meaning(Some(merged)) == union)
    ensures ok && OnDisk(appendArchive) != [] ==> end >= AppendCursor(appendArchive.value)
    ensures ok && WholeArchive(appendArchive) ==> end >= |OnDisk(appendArchive)|
    ensures ok && !Appendable(appendArchive) ==>
      && HasMagic(merged) && OnDisk(appendArchive) <= merged && Within(Meaning(appendArchive), Meaning(Some(merged)))
  {
    var appendDb := new StreamArchive(Append, codec, NO_FILTER);
    ok := appendDb.Prepare(appendArchive);
    merged, end := [], 0;
    if !ok {
      return;
    }
    OpenedMeaning(appendDb, appendArchive);
    ghost var clean := appendDb.Clean;
    MergeableEach(sources, |sources|);
    ok := MergeSources(sources, appendDb, OnDisk(appendArchive), Meaning(appendArchive));
    merged, end := appendDb.data, appendDb.pos;
    if ok && clean {
      ClosedMeaning(appendDb, OnDisk(appendArchive));
    } else if ok {
      FrontIsKept(OnDisk(appendArchive), merged);
    }
  }

  /** All that is in the one map is in the other. */
  ghost predicate Within(part: map<Key, Blob>, whole: map<Key, Blob>) {
    forall k :: k in part ==> k in whole && whole[k] == part[k]
  }

  /** A file whose last header swallows what follows keeps its entries. */
  lemma FrontIsKept(disk: bytes, data: bytes)
    requires HasMagic(disk) && !Appendable(Some(disk)) && |disk| <= |data| && data[..|disk|] == disk
    ensures HasMagic(data) && disk <= data && Within(Meaning(Some(disk)), Meaning(Some(data)))
  {
    var more := data[|disk|..];
    OldIsKept(disk, more, Names(NO_FILTER));
    assert Overwrite(disk, |disk|, more) == data;
  }

  /** The first n sources can be merged. */
  ghost predicate AllMergeable(sources: seq<Option<bytes>>, n: nat)
    requires n <= |sources|
  {
    n > 0 ==> AllMergeable(sources, n - 1) && Mergeable(sources[n - 1])
  }

  lemma {:induction false} MergeableEach(sources: seq<Option<bytes>>, n: nat)
    requires n <= |sources|
    ensures AllMergeable(sources, n) <==> forall i :: 0 <= i < n ==> Mergeable(sources[i])
  {
    if n > 0 {
      MergeableEach(sources, n - 1);
    }
  }

  lemma {:induction false} NotAllMergeable(sources: seq<Option<bytes>>, i: nat, n: nat)
    requires i < n <= |sources| && !Mergeable(sources[i])
    ensures !AllMergeable(sources, n)
  {
    if i < n - 1 {
      NotAllMergeable(sources, i, n - 1);
    }
  }

  /** The loop over the sources. */
  method MergeSources(sources: seq<Option<bytes>>, appendDb: StreamArchive, ghost disk: bytes, ghost base: map<Key, Blob>)
    returns (ok: bool)
    requires Growing(appendDb, disk) && View(appendDb.Log, appendDb.names) == base
    modifies appendDb`data, appendDb`pos, appendDb`seen, appendDb`Log, appendDb`Clean
    ensures ok <==> AllMergeable(sources, |sources|)
    ensures ok ==> Grew(appendDb, disk, old(appendDb.pos), old(appendDb.Clean), Union(base, Meanings(sources)))
  {
    ghost var views, view, pos, clean := Meanings(sources), base, appendDb.pos, appendDb.Clean;
    assert views[0..] == views;
    ok := true;
    for source := 0 to |sources|
      invariant ok && Grew(appendDb, disk, pos, clean, view)
      invariant Union(view, views[source..]) == Union(base, views)
      invariant AllMergeable(sources, source)
    {
      ok := MergeSource(sources[source], appendDb, disk, view, pos, clean);
      if !ok {
        NotAllMergeable(sources, source, |sources|);
        return;
      }
      UnionStep(view, views, source);
      view := views[source] + view;
    }
  }

  /** The body of that loop. */
  method MergeSource(source: Option<bytes>, appendDb: StreamArchive, ghost disk: bytes, ghost view: map<Key, Blob>,
                     ghost pos: nat, ghost clean: bool)
    returns (ok: bool)
    requires Grew(appendDb, disk, pos, clean, view)
    modifies appendDb`data, appendDb`pos, appendDb`seen, appendDb`Log, appendDb`Clean
    ensures ok <==> Mergeable(source)
    ensures ok ==> Grew(appendDb, disk, pos, clean, Meaning(source) + view)
  {
    var sourceDb := new StreamArchive(ReadOnly, appendDb.codec, NO_FILTER);
    ok := sourceDb.Prepare(source);
    if !ok {
      return;
    }
    UnfilteredNamesArePlain();
    ok := CopyAll(sourceDb, appendDb, disk);
  }

  lemma UnionStep(base: map<Key, Blob>, views: seq<map<Key, Blob>>, i: nat)
    requires i < |views|
    ensures Union(base, views[i..]) == Union(views[i] + base, views[i + 1..])
  {
    assert views[i..][1..] == views[i + 1..];
  }

  /** Of a file that was `disk` and is overwritten up to the cursor: behind the cursor lies what is
      left of it, and if the log in front is not whole then all of it lies in front. */
  predicate Placed(data: bytes, pos: nat, whole: bool, disk: bytes) {
    && MAGIC_LENGTH <= pos <= |data| && HasMagic(data)
    && data[pos..] == Behind(disk, pos)
    && (!whole ==> |disk| <= pos && data[..|disk|] == disk)
  }

  lemma PlacedStays(data: bytes, pos: nat, whole: bool, disk: bytes, b: bytes)
    requires Placed(data, pos, whole, disk)
    ensures Placed(Overwrite(data, pos, b), pos + |b|, whole, disk)
  {
    var d := Overwrite(data, pos, b);
    assert d[..pos] == data[..pos];
    MagicStays(data, pos, b);
    BehindStays(data, pos, b, disk);
    if !whole {
      assert data[..pos][..|disk|] == d[..pos][..|disk|];
    }
  }

  lemma PlacedAtFirst(disk: Option<bytes>)
    requires Opens(disk)
    ensures disk.Some? && disk.value != [] ==>
      Placed(disk.value, AppendCursor(disk.value), Appendable(disk), disk.value)
    ensures disk.None? || disk.value == [] ==> Placed(MAGIC + [FORMAT_VERSION], MAGIC_LENGTH, true, [])
  {
    if disk.Some? && disk.value != [] {
      assert disk.value[..|disk.value|] == disk.value;
    }
  }

  /** An archive open for appending. */
  ghost predicate Growing(db: StreamArchive, disk: bytes)
    reads db
  {
    db.Valid() && db.alive && db.mode == Append && Placed(db.data, db.pos, db.Clean, disk)
  }

  /** It has grown, and if the log was whole up to the cursor it is again, and means this. */
  ghost predicate Grew(db: StreamArchive, disk: bytes, pos: nat, clean: bool, view: map<Key, Blob>)
    reads db
  {
    && Growing(db, disk) && db.pos >= pos
    && db.Clean == clean && (clean ==> View(db.Log, db.names) == view)
  }

  lemma OpenedMeaning(db: StreamArchive, disk: Option<bytes>)
    requires Opens(disk) && db.Valid() && db.alive && db.mode == Append && db.names == Names(NO_FILTER)
    requires disk.Some? && disk.value != [] ==>
      && db.data == disk.value && db.Log == ScannedRecords(disk.value)
      && db.pos == AppendCursor(disk.value) && db.Clean == Appendable(disk)
    requires disk.None? || disk.value == [] ==>
      db.data == MAGIC + [FORMAT_VERSION] && db.pos == |db.data| && db.Log == [] && db.Clean
    ensures View(db.Log, db.names) == Meaning(disk)
    ensures Growing(db, OnDisk(disk))
    ensures WholeArchive(disk) ==> db.pos >= |OnDisk(disk)|
  {
    PlacedAtFirst(disk);
  }

  /** What the finished file means. */
  lemma ClosedMeaning(db: StreamArchive, disk: bytes)
    requires Growing(db, disk) && db.Clean && db.names == Names(NO_FILTER)
    ensures Meaning(Some(db.data)) == View(Records(Behind(disk, db.pos)), db.names) + View(db.Log, db.names)
    ensures db.pos >= |disk| ==>
      WholeArchive(Some(db.data)) && Meaning(Some(db.data)) == View(db.Log, db.names)
  {
    ClosedFile(db.data, db.pos, db.Log, Behind(disk, db.pos));
  }

  /** A file of a log and more bytes behind it. */
  lemma ClosedFile(data: bytes, pos: nat, log: seq<Record>, rest: bytes)
    requires HasMagic(data) && MAGIC_LENGTH <= pos <= |data| && AllWellFormed(log)
    requires data[MAGIC_LENGTH..pos] == EncodeAll(log) && data[pos..] == rest
    ensures Meaning(Some(data)) == View(Records(rest), Names(NO_FILTER)) + View(log, Names(NO_FILTER))
    ensures rest == [] ==> WholeArchive(Some(data)) && Meaning(Some(data)) == View(log, Names(NO_FILTER))
  {
    SplitAt(data[MAGIC_LENGTH..], pos - MAGIC_LENGTH, EncodeAll(log), rest);
    ScanOfEncode(log, rest);
    ViewAppend(log, Records(rest), Names(NO_FILTER));
    assert rest == [] ==> log + [] == log;
  }

  lemma SplitAt<T>(s: seq<T>, n: nat, a: seq<T>, b: seq<T>)
    requires n <= |s| && s[..n] == a && s[n..] == b
    ensures s == a + b
  {
  }

  /** One entry, as the raw bytes of its header and payload. */
  method CopyEntry(sourceDb: StreamArchive, appendDb: StreamArchive, k: Key, ghost disk: bytes) returns (ok: bool)
    requires sourceDb.Valid() && sourceDb.alive && sourceDb.mode == ReadOnly && sourceDb != appendDb
    requires Growing(appendDb, disk) && k.tag < RESOURCE_COUNT
    requires k in View(sourceDb.Log, sourceDb.names)
    modifies sourceDb`pos, appendDb`data, appendDb`pos, appendDb`seen, appendDb`Log, appendDb`Clean
    ensures sourceDb.Valid()
    ensures var b := View(sourceDb.Log, sourceDb.names)[k];
      && (ok <==> Fits(b))
      && (ok ==> Grew(appendDb, disk, old(appendDb.pos), old(appendDb.Clean),
                      map[k := b] + old(View(appendDb.Log, appendDb.names))))
  {
    ghost var b := View(sourceDb.Log, sourceDb.names)[k];
    ViewSized(sourceDb.Log, sourceDb.names, k);
    var size := sourceDb.QuerySize(k, true);
    var blob := sourceDb.ReadEntry(k, size.value, true);
    if blob.None? {
      return false;
    }
    FrameParts(b.header, b.payload, blob.value);
    ok := Transfer(appendDb, k, blob.value, b, disk);
  }

  method Transfer(appendDb: StreamArchive, k: Key, frame: bytes, ghost b: Blob, ghost disk: bytes) returns (ok: bool)
    requires Growing(appendDb, disk) && k.tag < RESOURCE_COUNT && Proper(frame) && BlobOf(frame) == b
    modifies appendDb`data, appendDb`pos, appendDb`seen, appendDb`Log, appendDb`Clean
    ensures ok
    ensures Grew(appendDb, disk, old(appendDb.pos), old(appendDb.Clean),
                 map[k := b] + old(View(appendDb.Log, appendDb.names)))
  {
    KeptOrNew(View(appendDb.Log, appendDb.names), k, b);
    PlacedStays(appendDb.data, appendDb.pos, appendDb.Clean, disk, Name(k) + frame);
    if k !in appendDb.seen && appendDb.Clean {
      ViewWithOne(appendDb.Log, RecordFor(k, frame), appendDb.names);
    }
    ok := appendDb.WriteEntry(k, frame, WriteFlags(true, false, false, false));
  }

  /** An entry that is there stays, another one is added. */
  lemma KeptOrNew(view: map<Key, Blob>, k: Key, b: Blob)
    ensures map[k := b] + view == if k in view then view else view[k := b]
  {
  }

  lemma BehindStays(d: bytes, pos: nat, b: bytes, disk: bytes)
    requires pos <= |d| && d[pos..] == Behind(disk, pos)
    ensures Overwrite(d, pos, b)[pos + |b|..] == Behind(disk, pos + |b|)
  {
    if pos + |b| <= |d| {
      assert d[pos..][|b|..] == d[pos + |b|..];
      assert pos <= |disk| ==> disk[pos..][|b|..] == disk[pos + |b|..];
    }
  }

  lemma MagicStays(d: bytes, pos: nat, b: bytes)
    requires HasMagic(d) && MAGIC_LENGTH <= pos <= |d|
    ensures HasMagic(Overwrite(d, pos, b))
  {
    assert Overwrite(d, pos, b)[..MAGIC_LENGTH] == d[..MAGIC_LENGTH];
    MagicKept(d, Overwrite(d, pos, b));
  }

  ghost function Tagged(view: map<Key, Blob>, low: nat, high: nat): map<Key, Blob> {
    map k | k in view && low <= k.tag < high :: view[k]
  }

  /** All entries of one resource tag, in the order of the hash list. */
  method CopyTag(sourceDb: StreamArchive, appendDb: StreamArchive, tag: nat, ghost disk: bytes) returns (ok: bool)
    requires sourceDb.Valid() && sourceDb.alive && sourceDb.mode == ReadOnly && sourceDb != appendDb
    requires Growing(appendDb, disk) && tag < RESOURCE_COUNT
    modifies sourceDb`pos, appendDb`data, appendDb`pos, appendDb`seen, appendDb`Log, appendDb`Clean
    ensures sourceDb.Valid()
    ensures var part := Tagged(View(sourceDb.Log, sourceDb.names), tag, tag + 1);
      && (ok <==> Transferable(part))
      && (ok ==> Grew(appendDb, disk, old(appendDb.pos), old(appendDb.Clean),
                      part + old(View(appendDb.Log, appendDb.names))))
  {
    ghost var view := View(sourceDb.Log, sourceDb.names);
    IndexDenotesView(sourceDb.data[..MAGIC_LENGTH], sourceDb.Log, sourceDb.Rest, sourceDb.names);
    var hashes := sourceDb.HashList(tag);
    ghost var base, pos, clean := View(appendDb.Log, appendDb.names), appendDb.pos, appendDb.Clean;
    for i := 0 to |hashes|
      invariant sourceDb.Valid() && Transferable(Restricted(view, tag, hashes[..i]))
      invariant Grew(appendDb, disk, pos, clean, Restricted(view, tag, hashes[..i]) + base)
    {
      var k := Key(tag, hashes[i]);
      assert hashes[i] in hashes;
      RestrictStep(view, tag, hashes, i, base);
      ok := CopyEntry(sourceDb, appendDb, k, disk);
      if !ok {
        return;
      }
    }
    assert hashes[..|hashes|] == hashes;
    AllRestricted(view, tag, hashes);
    ok := true;
  }

  ghost function Restricted(view: map<Key, Blob>, tag: nat, hashes: seq<uint64>): map<Key, Blob> {
    map k | k in view && k.tag == tag && k.hash in hashes :: view[k]
  }

  lemma RestrictStep(view: map<Key, Blob>, tag: nat, hashes: seq<uint64>, i: nat, base: map<Key, Blob>)
    requires i < |hashes| && Key(tag, hashes[i]) in view && Increasing(hashes)
    ensures var k := Key(tag, hashes[i]);
      var before, after := Restricted(view, tag, hashes[..i]), Restricted(view, tag, hashes[..i + 1]);
      && map[k := view[k]] + (before + base) == after + base
      && k in Tagged(view, tag, tag + 1)
      && (Transferable(before) && Fits(view[k]) ==> Transferable(after))
  {
    var k, before, after := Key(tag, hashes[i]), Restricted(view, tag, hashes[..i]), Restricted(view, tag, hashes[..i + 1]);
    FreshHash(hashes, i);
    assert after == before[k := view[k]];
    MergeOne(before, base, k, view[k]);
  }

  lemma FreshHash(hashes: seq<uint64>, i: nat)
    requires Increasing(hashes) && i < |hashes|
    ensures hashes[i] !in hashes[..i]
    ensures forall h :: h in hashes[..i + 1] <==> h in hashes[..i] || h == hashes[i]
  {
  }

  lemma MergeOne<K, V>(done: map<K, V>, base: map<K, V>, k: K, v: V)
    requires k !in done
    ensures map[k := v] + (done + base) == done[k := v] + base
  {
  }

  lemma AllRestricted(view: map<Key, Blob>, tag: nat, hashes: seq<uint64>)
    requires forall h: uint64 :: h in hashes <==> Key(tag, h) in view
    ensures Restricted(view, tag, hashes) == Tagged(view, tag, tag + 1)
  {
    forall k | k in Tagged(view, tag, tag + 1)
      ensures k.hash in hashes
    {
      assert k == Key(tag, k.hash);
    }
  }

  method CopyAll(sourceDb: StreamArchive, appendDb: StreamArchive, ghost disk: bytes) returns (ok: bool)
    requires sourceDb.Valid() && sourceDb.alive && sourceDb.mode == ReadOnly && sourceDb != appendDb
    requires Growing(appendDb, disk) && PlainNames(sourceDb.names)
    modifies sourceDb`pos, appendDb`data, appendDb`pos, appendDb`seen, appendDb`Log, appendDb`Clean
    ensures var view := View(sourceDb.Log, sourceDb.names);
      && (ok <==> Transferable(view))
      && (ok ==> Grew(appendDb, disk, old(appendDb.pos), old(appendDb.Clean),
                      view + old(View(appendDb.Log, appendDb.names))))
  {
    ghost var rs, pos, clean := sourceDb.Log, appendDb.pos, appendDb.Clean;
    ghost var view, base := View(rs, sourceDb.names), View(appendDb.Log, appendDb.names);
    NoTagYet(view, base);
    for tag := 0 to RESOURCE_COUNT
      invariant sourceDb.Valid() && sourceDb.Log == rs && Transferable(Tagged(view, 0, tag))
      invariant Grew(appendDb, disk, pos, clean, Tagged(view, 0, tag) + base)
    {
      ok := CopyNextTag(sourceDb, appendDb, tag, view, base, pos, clean, disk);
      if !ok {
        return;
      }
    }
    ok := true;
    AllTags(rs, sourceDb.names);
  }

  method CopyNextTag(sourceDb: StreamArchive, appendDb: StreamArchive, tag: nat, ghost view: map<Key, Blob>,
                     ghost base: map<Key, Blob>, ghost pos: nat, ghost clean: bool, ghost disk: bytes)
    returns (ok: bool)
    requires sourceDb.Valid() && sourceDb.alive && sourceDb.mode == ReadOnly && sourceDb != appendDb
    requires tag < RESOURCE_COUNT && view == View(sourceDb.Log, sourceDb.names) && Transferable(Tagged(view, 0, tag))
    requires Grew(appendDb, disk, pos, clean, Tagged(view, 0, tag) + base)
    modifies sourceDb`pos, appendDb`data, appendDb`pos, appendDb`seen, appendDb`Log, appendDb`Clean
    ensures sourceDb.Valid()
    ensures if ok then Transferable(Tagged(view, 0, tag + 1)) && Grew(appendDb, disk, pos, clean, Tagged(view, 0, tag + 1) + base)
      else !Transferable(view)
  {
    TagsJoin(view, base, tag);
    ok := CopyTag(sourceDb, appendDb, tag, disk);
  }

  lemma TagsJoin(view: map<Key, Blob>, base: map<Key, Blob>, tag: nat)
    ensures Tagged(view, tag, tag + 1) + (Tagged(view, 0, tag) + base) == Tagged(view, 0, tag + 1) + base
    ensures Transferable(Tagged(view, 0, tag)) && Transferable(Tagged(view, tag, tag + 1)) ==>
      Transferable(Tagged(view, 0, tag + 1))
    ensures Transferable(view) ==> Transferable(Tagged(view, tag, tag + 1))
  {
    TagsSplit(view, tag);
    MapsJoin(Tagged(view, tag, tag + 1), Tagged(view, 0, tag), base);
  }

  lemma TagsSplit(view: map<Key, Blob>, tag: nat)
    ensures Tagged(view, tag, tag + 1) + Tagged(view, 0, tag) == Tagged(view, 0, tag + 1)
  {
  }

  lemma MapsJoin<K, V>(m: map<K, V>, n: map<K, V>, base: map<K, V>)
    ensures m + (n + base) == (m + n) + base
  {
  }

  lemma NoTagYet(view: map<Key, Blob>, base: map<Key, Blob>)
    ensures Transferable(Tagged(view, 0, 0)) && Tagged(view, 0, 0) + base == base
  {
    assert Tagged(view, 0, 0) == map[];
  }

  lemma AllTags(rs: seq<Record>, names: Naming)
    requires AllWellFormed(rs) && PlainNames(names)
    ensures Tagged(View(rs, names), 0, RESOURCE_COUNT) == View(rs, names)
  {
    ViewTags(rs, names);
  }

  lemma {:induction false} ViewTags(rs: seq<Record>, names: Naming)
    requires AllWellFormed(rs) && PlainNames(names)
    ensures forall k :: k in View(rs, names) ==> k.tag < RESOURCE_COUNT
  {
    if rs != [] {
      ViewTags(rs[1..], names);
    }
  }
}
