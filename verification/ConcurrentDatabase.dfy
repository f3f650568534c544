/** The concurrent database of fossilize_db.cpp: a read-only archive and extra read-only
    archives, united with one write-only archive that is created on the first write. */
module ConcurrentDatabases {
  import opened Words
  import opened Wrappers
  import opened ArchiveFormat
  import opened ArchiveRecovery
  import opened ArchivePayload
  import opened StreamArchives

  class ConcurrentDatabase {
    const mode: Mode
    const codec: Codec
    const filter: Filter
    const hasBase: bool
    var archives: seq<StreamArchive>    // the base archive, if there is one, then the extra ones
    var writeOnly: StreamArchive?
    var primed: set<Key>
    var hasPreparedReadOnly: bool
    var needWriteOnlyDatabase: bool

    /** Every archive is consistent, primed and written keys never overlap, and what is primed
        is what the archives know and the filter allows. */
    ghost predicate Valid()
      reads this, archives, writeOnly
    {
      && (forall i :: 0 <= i < |archives| ==> archives[i].mode == ReadOnly && archives[i].Valid())
      && (writeOnly != null ==> WriterValid(writeOnly))
      && (mode == Append ==> filter == NO_FILTER)
      && (mode != Append ==> writeOnly == null)
      && (hasPreparedReadOnly ==> mode in {Append, ReadOnly})
      && (hasPreparedReadOnly && mode == Append ==> archives == [])
      && (hasPreparedReadOnly && mode == ReadOnly ==> primed == AllowedIn(archives))
      && (!hasPreparedReadOnly ==> primed == {} && Unopened(archives))
    }

    ghost predicate WriterValid(w: StreamArchive)
      reads this, w
    {
      && w !in archives && w.Valid() && w.alive && w.mode == ExclusiveOverWrite && w.codec == codec
      && w.pos == |w.data| && primed !! w.seen.Keys
    }

    /** Archives are opened without a filter of their own. */
    ghost predicate Plain(a: StreamArchive) {
      a.names == Names(NO_FILTER) && a.codec == codec
    }

    ghost predicate Unopened(list: seq<StreamArchive>)
      reads list
    {
      && (forall i :: 0 <= i < |list| ==>
            list[i].mode == ReadOnly && list[i].Valid() && !list[i].alive && Plain(list[i]))
      && (forall i, j :: 0 <= i < j < |list| ==> list[i] != list[j])
    }

    /** Keys that some archive knows and the filter allows. */
    ghost function AllowedIn(list: seq<StreamArchive>): set<Key>
      reads list`seen
    {
      if list == [] then {}
      else AllowedIn(list[..|list| - 1]) + set k | k in list[|list| - 1].seen && Allows(filter, k)
    }

    lemma AllowedInOneMore(list: seq<StreamArchive>, i: nat)
      requires i < |list|
      ensures AllowedIn(list[..i + 1]) == AllowedIn(list[..i]) + set k | k in list[i].seen && Allows(filter, k)
    {
      assert list[..i + 1][..i] == list[..i];
    }

    lemma {:induction false} InAllowedIn(list: seq<StreamArchive>, k: Key)
      ensures k in AllowedIn(list) <==> Allows(filter, k) && exists i :: 0 <= i < |list| && k in list[i].seen
    {
      if list != [] {
        InAllowedIn(list[..|list| - 1], k);
      }
    }

    /** Priming collects the allowed keys that some archive on disk has. */
    lemma {:induction false} PrimedFrom(list: seq<StreamArchive>, disks: seq<Option<bytes>>, k: Key)
      requires |list| == |disks| && AllOpened(list, disks)
      requires forall i :: 0 <= i < |list| ==> list[i].names == Names(NO_FILTER)
      ensures k in AllowedIn(list) <==> Allows(filter, k) && exists i :: 0 <= i < |disks| && IsIn(disks[i], k)
    {
      if list != [] {
        var last := |list| - 1;
        PrimedFrom(list[..last], disks[..last], k);
        OpenedHas(list[last], disks[last], k);
        OneMoreIn(disks, k);
      }
    }

    lemma PrimedKeys(list: seq<StreamArchive>, disks: seq<Option<bytes>>)
      requires |list| == |disks| && AllOpened(list, disks)
      requires forall i :: 0 <= i < |list| ==> list[i].names == Names(NO_FILTER)
      ensures KeysAreOn(AllowedIn(list), disks)
    {
      forall k
        ensures k in AllowedIn(list) <==> Allows(filter, k) && exists i :: 0 <= i < |disks| && IsIn(disks[i], k)
      {
        PrimedFrom(list, disks, k);
      }
    }

    /** Exactly the keys that some archive on disk has and the filter allows. */
    ghost predicate KeysAreOn(keys: set<Key>, disks: seq<Option<bytes>>) {
      forall k :: k in keys <==> Allows(filter, k) && exists i :: 0 <= i < |disks| && IsIn(disks[i], k)
    }

    /** Primed and written keys. */
    ghost function Keys(): set<Key>
      reads this, writeOnly
    {
      primed + if writeOnly != null then writeOnly.seen.Keys else {}
    }

    /** The file being written, as it is or as it would start, and its log while every write succeeded. */
    ghost function FileData(): bytes
      reads this, writeOnly
    {
      if writeOnly != null then writeOnly.data else MAGIC + [FORMAT_VERSION]
    }

    ghost function FileLog(): Option<seq<Record>>
      reads this, writeOnly
    {
      if writeOnly == null then Some([]) else if writeOnly.Clean then Some(writeOnly.Log) else None
    }

    /** The keys that `has_entry` confirms. */
    ghost predicate Has(k: Key)
      reads this, writeOnly
    {
      Allows(filter, k) && k in Keys()
    }

    constructor (mode: Mode, codec: Codec, filter: Filter, hasBase: bool, extras: nat)
      requires mode == Append ==> filter == NO_FILTER
      ensures Valid() && this.mode == mode && this.filter == filter && this.codec == codec && !hasPreparedReadOnly
      ensures fresh(archives) && writeOnly == null && needWriteOnlyDatabase
      ensures |archives| == extras + if hasBase then 1 else 0
    {
      this.mode, this.codec, this.filter, this.hasBase := mode, codec, filter, hasBase;
      writeOnly, primed, hasPreparedReadOnly, needWriteOnlyDatabase := null, {}, false, true;
      archives := [];
      new;
      var n := extras + if hasBase then 1 else 0;
      while |archives| < n
        invariant |archives| <= n && fresh(archives) && writeOnly == null && primed == {} && needWriteOnlyDatabase
        invariant !hasPreparedReadOnly && Unopened(archives)
      {
        var a := new StreamArchive(ReadOnly, codec, NO_FILTER);
        archives := archives + [a];
      }
    }

    /** Opens the archives found on disk and primes their hashes.  An archive that does not open
        is ignored.  When appending, the archives are dropped once they are primed. */
    method Prepare(disks: seq<Option<bytes>>) returns (ok: bool)
      requires Valid() && |disks| == |archives| && (!hasPreparedReadOnly ==> writeOnly == null)
      modifies this, archives
      ensures Valid() && ok == (mode in {Append, ReadOnly})
      ensures ok ==> hasPreparedReadOnly
      ensures needWriteOnlyDatabase == old(needWriteOnlyDatabase)
      ensures ok && !old(hasPreparedReadOnly) ==>
        AllOpened(old(archives), disks) && KeysAreOn(primed, disks)
      ensures old(hasPreparedReadOnly) ==> primed == old(primed)
      ensures writeOnly == old(writeOnly)
      ensures archives == if ok && mode == Append then [] else old(archives)
    {
      if mode != Append && mode != ReadOnly {
        return false;
      }
      if !hasPreparedReadOnly {
        PrimeArchives(disks);
        FinishPriming(disks);
      }
      ok := true;
    }

    /** Once primed, the archives are kept only for reading. */
    method FinishPriming(disks: seq<Option<bytes>>)
      requires |disks| == |archives| && AllOpened(archives, disks) && primed == AllowedIn(archives)
      requires forall i :: 0 <= i < |archives| ==> archives[i].mode == ReadOnly && archives[i].names == Names(NO_FILTER)
      requires writeOnly == null && mode in {Append, ReadOnly} && (mode == Append ==> filter == NO_FILTER)
      modifies this`archives, this`hasPreparedReadOnly
      ensures Valid() && hasPreparedReadOnly && KeysAreOn(primed, disks)
      ensures archives == if mode == Append then [] else old(archives)
    {
      PrimedKeys(archives, disks);
      OpenedAreValid(archives, disks);
      if mode != ReadOnly {
        archives := [];
      }
      hasPreparedReadOnly := true;
    }

    /** Opens every archive and primes its hashes. */
    method PrimeArchives(disks: seq<Option<bytes>>)
      requires Unopened(archives) && |disks| == |archives| && primed == {}
      modifies this`primed, archives
      ensures AllOpened(archives, disks) && primed == AllowedIn(archives)
    {
      WaitingAll(archives);
      assert archives[0..] == archives;
      for i := 0 to |archives|
        invariant AllOpened(archives[..i], disks[..i]) && Waiting(archives[i..])
        invariant primed == AllowedIn(archives[..i])
      {
        PrimeNext(i, disks);
      }
      assert archives[..|archives|] == archives && disks[..|disks|] == disks;
    }

    method PrimeNext(i: nat, disks: seq<Option<bytes>>)
      requires i < |archives| == |disks| && Waiting(archives[i..]) && Plain(archives[i]) && archives[i].mode == ReadOnly
      requires forall j, k :: 0 <= j < k < |archives| ==> archives[j] != archives[k]
      requires AllOpened(archives[..i], disks[..i]) && primed == AllowedIn(archives[..i])
      modifies this`primed, archives[i]
      ensures AllOpened(archives[..i + 1], disks[..i + 1]) && Waiting(archives[i + 1..])
      ensures primed == AllowedIn(archives[..i + 1])
    {
      ghost var before, disksBefore, behind, allowed := archives[..i], disks[..i], archives[i + 1..], AllowedIn(archives[..i]);
      assert archives[i] !in before && archives[i] !in behind && archives[i..][1..] == behind;
      PrimeReadOnlyHashes(archives[i], disks[i]);
      assert AllOpened(before, disksBefore) && Waiting(behind) && AllowedIn(before) == allowed;
      AllowedInOneMore(archives, i);
      assert archives[..i + 1][..i] == before && disks[..i + 1][..i] == disksBefore;
    }

    /** Opens one archive and primes its hashes; if it does not open, it has none. */
    method PrimeReadOnlyHashes(a: StreamArchive, disk: Option<bytes>)
      requires a.mode == ReadOnly && a.Valid() && !a.alive && Plain(a)
      modifies this`primed, a
      ensures a.Valid() && Opened(a, disk)
      ensures primed == old(primed) + set k | k in a.seen && Allows(filter, k)
    {
      var prepared := a.Prepare(disk);
      primed := primed + set k | k in a.seen && Allows(filter, k);
    }

    /** Membership: primed hashes first, then the base archive, then the archive being written. */
    method HasEntry(k: Key) returns (has: bool)
      requires Valid()
      ensures has <==> Has(k)
    {
      if !Allows(filter, k) {
        return false;
      }
      if k in primed {
        return true;
      }
      if hasBase && archives != [] {
        InAllowedIn(archives, k);
        var inBase := archives[0].HasEntry(k);
        if inBase {
          return true;
        }
      }
      if writeOnly == null {
        return false;
      }
      has := writeOnly.HasEntry(k);
    }

    /** Writes a key that is neither primed nor written yet.  The first write creates the archive
        at the first of 255 numbered paths that is free, and never tries again. */
    method WriteEntry(k: Key, blob: bytes, flags: WriteFlags, files: nat -> Option<bytes>) returns (ok: bool)
      requires Valid() && hasPreparedReadOnly && k.tag < RESOURCE_COUNT
      modifies this`writeOnly, this`needWriteOnlyDatabase, writeOnly
      ensures Valid() && (writeOnly == old(writeOnly) || (old(writeOnly) == null && fresh(writeOnly)))
      ensures mode != Append ==> !ok && writeOnly == old(writeOnly)
      ensures mode == Append && k in old(Keys()) ==> ok && writeOnly == old(writeOnly)
      ensures mode == Append && k !in old(Keys()) ==>
        (ok <==> writeOnly != null && Framed(codec, blob, flags).Some?)
      ensures mode == Append && k !in old(Keys()) && old(writeOnly) == null ==>
        (writeOnly != null <==> old(needWriteOnlyDatabase) && exists i :: 1 <= i < 256 && files(i) == None)
      ensures needWriteOnlyDatabase == (old(needWriteOnlyDatabase) && (mode != Append || k in old(Keys())))
      ensures Keys() == old(Keys()) + if ok then {k} else {}
      ensures FileData() == old(FileData()) + if mode == Append && k !in old(Keys()) && writeOnly != null
                                              then WrittenFor(k, Framed(codec, blob, flags)) else []
      ensures ok && k !in old(Keys()) && old(FileLog()).Some? && Proper(Framed(codec, blob, flags).value) ==>
        FileLog() == Some(old(FileLog()).value + [RecordFor(k, Framed(codec, blob, flags).value)])
    {
      assert FileData() + [] == FileData();
      if mode != Append {
        return false;
      }
      var known := IsKnown(k);
      if known {
        return true;
      }
      if needWriteOnlyDatabase {
        var taken := CreateWriteOnly(files);
        needWriteOnlyDatabase := false;
      }
      if writeOnly == null {
        return false;
      }
      ok := WriteNew(k, blob, flags);
    }

    /** Primed, or written already. */
    method IsKnown(k: Key) returns (known: bool)
      requires Valid() && mode == Append
      ensures known <==> k in Keys()
    {
      if k in primed {
        return true;
      }
      if writeOnly == null {
        return false;
      }
      known := writeOnly.HasEntry(k);
    }

    /** The write itself, once the archive is open. */
    method WriteNew(k: Key, blob: bytes, flags: WriteFlags) returns (ok: bool)
      requires writeOnly != null && WriterValid(writeOnly) && k !in Keys() && k.tag < RESOURCE_COUNT
      modifies writeOnly
      ensures WriterValid(writeOnly) && ok == Framed(codec, blob, flags).Some?
      ensures Keys() == old(Keys()) + if ok then {k} else {}
      ensures FileData() == old(FileData()) + WrittenFor(k, Framed(codec, blob, flags))
      ensures ok && old(FileLog()).Some? && Proper(Framed(codec, blob, flags).value) ==>
        FileLog() == Some(old(FileLog()).value + [RecordFor(k, Framed(codec, blob, flags).value)])
    {
      AtTheEnd(writeOnly.data, WrittenFor(k, Framed(codec, blob, flags)));
      ok := writeOnly.WriteEntry(k, blob, flags);
    }

    /** Exclusive creation at the least free index below 256, unless an archive is already open. */
    method CreateWriteOnly(files: nat -> Option<bytes>) returns (taken: nat)
      requires Valid() && hasPreparedReadOnly && mode == Append
      modifies this`writeOnly
      ensures Valid() && (old(writeOnly) != null ==> writeOnly == old(writeOnly))
      ensures old(writeOnly) == null ==>
        && (writeOnly != null ==> fresh(writeOnly)) && Keys() == old(Keys())
        && FileData() == old(FileData()) && FileLog() == old(FileLog())
        && (writeOnly != null <==> exists i :: 1 <= i < 256 && files(i) == None)
      ensures old(writeOnly) == null && writeOnly != null ==>
        1 <= taken < 256 && files(taken) == None && forall i :: 1 <= i < taken ==> files(i) != None
    {
      taken := 0;
      if writeOnly == null {
        var archive;
        archive, taken := CreateFirstFree(files);
        writeOnly := archive;
      }
    }

    method CreateFirstFree(files: nat -> Option<bytes>) returns (archive: StreamArchive?, taken: nat)
      ensures archive != null <==> exists i :: 1 <= i < 256 && files(i) == None
      ensures archive != null ==>
        && fresh(archive) && archive.Valid() && archive.alive && archive.mode == ExclusiveOverWrite
        && archive.codec == codec && archive.seen == map[] && archive.Clean && archive.Log == []
        && archive.data == MAGIC + [FORMAT_VERSION] && archive.pos == |archive.data|
        && 1 <= taken < 256 && files(taken) == None && forall i :: 1 <= i < taken ==> files(i) != None
    {
      archive, taken := null, 0;
      var index := 1;
      while index < 256 && archive == null
        invariant 1 <= index <= 256
        invariant archive == null ==> forall i :: 1 <= i < index ==> files(i) != None
        invariant archive != null ==>
          && fresh(archive) && archive.Valid() && archive.alive && archive.mode == ExclusiveOverWrite
          && archive.codec == codec && archive.seen == map[] && archive.Clean && archive.Log == []
          && archive.data == MAGIC + [FORMAT_VERSION] && archive.pos == |archive.data|
          && 1 <= taken < 256 && files(taken) == None && forall i :: 1 <= i < taken ==> files(i) != None
        decreases 256 - index
      {
        var next := new StreamArchive(ExclusiveOverWrite, codec, NO_FILTER);
        var prepared := next.Prepare(files(index));
        if prepared {
          archive, taken := next, index;
        }
        index := index + 1;
      }
    }

    /** What the archives hold, in order. */
    ghost function Sources(): (sources: seq<Source>)
      requires Valid()
      reads this, archives, writeOnly
      ensures |sources| == |archives|
      ensures forall i :: 0 <= i < |sources| ==> sources[i] == SourceOf(archives[i])
    {
      SourcesOf(archives)
    }

    /** The first archive, base before extras, that answers; none unless read-only. */
    method QuerySize(k: Key, raw: bool) returns (size: Option<uint32>)
      requires Valid()
      ensures mode != ReadOnly ==> size == None
      ensures mode == ReadOnly ==> size == FirstSize(Sources(), k, raw)
    {
      if mode != ReadOnly {
        return None;
      }
      ghost var sources := Sources();
      assert sources[0..] == sources;
      for i := 0 to |archives|
        invariant FirstSize(sources[i..], k, raw) == FirstSize(sources, k, raw)
      {
        assert sources[i..][1..] == sources[i + 1..];
        size := archives[i].QuerySize(k, raw);
        if size.Some? {
          return;
        }
      }
      size := None;
    }

    /** The second call: the first archive, base before extras, that returns a blob for the size that
        is passed; none unless read-only. */
    method ReadEntry(k: Key, size: nat, raw: bool) returns (blob: Option<bytes>)
      requires Valid()
      modifies archives`pos
      ensures Valid() && Sources() == old(Sources())
      ensures mode != ReadOnly ==> blob == None
      ensures mode == ReadOnly ==> blob == FirstRead(Sources(), k, size, raw)
    {
      if mode != ReadOnly {
        return None;
      }
      ghost var sources := Sources();
      assert sources[0..] == sources;
      for i := 0 to |archives|
        invariant Valid() && SourcesOf(archives) == sources
        invariant FirstRead(sources[i..], k, size, raw) == FirstRead(sources, k, size, raw)
      {
        assert sources[i..][1..] == sources[i + 1..];
        blob := ReadFrom(i, k, size, raw);
        if blob.Some? {
          return;
        }
      }
      blob := None;
    }

    /** What one archive returns. */
    method ReadFrom(i: nat, k: Key, size: nat, raw: bool) returns (blob: Option<bytes>)
      requires Valid() && i < |archives|
      modifies archives`pos
      ensures Valid() && SourcesOf(archives) == old(SourcesOf(archives))
      ensures blob == ReadResult(SourceOf(archives[i]).codec, SourceOf(archives[i]).view, k, size, raw)
    {
      blob := archives[i].ReadEntry(k, size, raw);
    }

    /** Both calls, the second with the size the first announced. */
    method TwoCallRead(k: Key) returns (blob: Option<bytes>)
      requires Valid() && hasPreparedReadOnly && mode == ReadOnly && Has(k)
      modifies archives`pos
      ensures Valid() && Sources() == old(Sources()) && FirstHolder(Sources(), k) < |Sources()|
      ensures blob == FromFirstHolder(Sources(), k)
    {
      ListedIsReadable(this, k);
      var size := QuerySize(k, false);
      blob := ReadEntry(k, size.value, false);
    }

    /** The hash list of a tag: primed and written hashes, strictly increasing, and exactly those
        that the database confirms having. */
    method HashList(tag: nat) returns (hashes: seq<uint64>)
      requires Valid() && hasPreparedReadOnly
      ensures Increasing(hashes)
      ensures forall h: uint64 :: h in hashes <==> Has(Key(tag, h))
    {
      forall k | k in primed
        ensures Allows(filter, k)
      {
        InAllowedIn(archives, k);
      }
      var readOnly := set k | k in primed && k.tag == tag :: k.hash;
      assert forall h: uint64 :: h in readOnly <==> Key(tag, h) in primed;
      var list := ListHashes(readOnly);
      if writeOnly != null {
        var written := writeOnly.HashList(tag);
        JoinDistinct(list, written);
        list := list + written;
      }
      hashes := SortHashes(list);
    }
  }

  /** An archive holds what was found on disk, or is closed if that does not open. */
  ghost predicate Opened(a: StreamArchive, disk: Option<bytes>)
    reads a
  {
    && a.Valid() && (a.alive <==> Opens(disk))
    && (a.alive ==> a.data == disk.value && a.Log == ScannedRecords(disk.value) && a.seen == ScanIndex(disk.value, a.names))
  }

  lemma OpenedHas(a: StreamArchive, disk: Option<bytes>, k: Key)
    requires Opened(a, disk) && a.names == Names(NO_FILTER)
    ensures k in a.seen <==> IsIn(disk, k)
  {
    if Opens(disk) {
      ScanIndexDenotesView(disk.value, Names(NO_FILTER));
    }
  }

  lemma OneMoreIn(disks: seq<Option<bytes>>, k: Key)
    requires disks != []
    ensures var front := disks[..|disks| - 1];
      (exists i :: 0 <= i < |disks| && IsIn(disks[i], k))
        <==> (exists i :: 0 <= i < |front| && IsIn(front[i], k)) || IsIn(disks[|disks| - 1], k)
  {
    var front := disks[..|disks| - 1];
    if i :| 0 <= i < |disks| && IsIn(disks[i], k) {
      assert i == |front| || front[i] == disks[i];
    }
    if i :| 0 <= i < |front| && IsIn(front[i], k) {
      assert disks[i] == front[i];
    }
  }

  ghost predicate AllOpened(list: seq<StreamArchive>, disks: seq<Option<bytes>>)
    requires |list| == |disks|
    reads list
  {
    list == [] ||
    (AllOpened(list[..|list| - 1], disks[..|list| - 1]) && Opened(list[|list| - 1], disks[|list| - 1]))
  }

  lemma {:induction false} OpenedAreValid(list: seq<StreamArchive>, disks: seq<Option<bytes>>)
    requires |list| == |disks| && AllOpened(list, disks)
    ensures forall i :: 0 <= i < |list| ==> list[i].Valid()
  {
    if list != [] {
      OpenedAreValid(list[..|list| - 1], disks[..|list| - 1]);
    }
  }

  /** Archives that are not open yet. */
  ghost predicate Waiting(list: seq<StreamArchive>)
    reads list
  {
    list == [] || (list[0].Valid() && !list[0].alive && Waiting(list[1..]))
  }

  lemma {:induction false} WaitingAll(list: seq<StreamArchive>)
    requires forall j :: 0 <= j < |list| ==> list[j].Valid() && !list[j].alive
    ensures Waiting(list)
  {
    if list != [] {
      WaitingAll(list[1..]);
    }
  }

  /** A file that opens for reading. */
  predicate Opens(disk: Option<bytes>) {
    disk.Some? && HasMagic(disk.value)
  }

  /** Some record of an archive on disk stands for the key. */
  ghost predicate IsIn(disk: Option<bytes>, k: Key) {
    Opens(disk) && k in ScanView(disk.value, Names(NO_FILTER))
  }

  /** What a write puts into the file: name and frame, or the name alone if the frame fails. */
  function WrittenFor(k: Key, frame: Option<bytes>): bytes {
    if frame.Some? then Name(k) + frame.value else Name(k)
  }

  lemma AtTheEnd(data: bytes, b: bytes)
    ensures Overwrite(data, |data|, b) == data + b
  {
    assert data[..|data|] == data && data + b + [] == data + b;
  }

  /** What an archive holds for reading: nothing if it is not open. */
  datatype Source = Source(codec: Codec, view: map<Key, Blob>)

  ghost function SourceOf(a: StreamArchive): Source
    requires AllWellFormed(a.Log)
    reads a`Log, a`alive
  {
    Source(a.codec, if a.alive && a.mode == ReadOnly then View(a.Log, a.names) else map[])
  }

  ghost function SourcesOf(list: seq<StreamArchive>): (sources: seq<Source>)
    requires forall i :: 0 <= i < |list| ==> AllWellFormed(list[i].Log)
    reads list`Log, list`alive
    ensures |sources| == |list|
    ensures forall i :: 0 <= i < |sources| ==> sources[i] == SourceOf(list[i])
  {
    if list == [] then [] else SourcesOf(list[..|list| - 1]) + [SourceOf(list[|list| - 1])]
  }

  function FirstSize(sources: seq<Source>, k: Key, raw: bool): Option<uint32> {
    if sources == [] then None
    else
      var size := SizeResult(sources[0].view, k, raw);
      if size.Some? then size else FirstSize(sources[1..], k, raw)
  }

  function FirstRead(sources: seq<Source>, k: Key, size: nat, raw: bool): Option<bytes> {
    if sources == [] then None
    else
      var blob := ReadResult(sources[0].codec, sources[0].view, k, size, raw);
      if blob.Some? then blob else FirstRead(sources[1..], k, size, raw)
  }

  /** The place of the first source that has a key, or the number of sources. */
  function FirstHolder(sources: seq<Source>, k: Key): (i: nat)
    ensures i <= |sources| && (i < |sources| ==> k in sources[i].view)
    ensures forall j :: 0 <= j < i ==> k !in sources[j].view
  {
    if sources == [] || k in sources[0].view then 0 else 1 + FirstHolder(sources[1..], k)
  }

  /** A source has a key, and its blob decodes to a number of bytes. */
  predicate Answers(source: Source, k: Key, size: nat) {
    && k in source.view
    && var out := Decode(source.codec, source.view[k]); out.Some? && |out.value| == size
  }

  /** What the first source that has a key decodes it to.  If that fails, the sources behind it are
      asked for a blob of the size it announces. */
  function FromFirstHolder(sources: seq<Source>, k: Key): Option<bytes>
    requires FirstHolder(sources, k) < |sources|
  {
    var i := FirstHolder(sources, k);
    var b := sources[i].view[k];
    var blob := Decode(sources[i].codec, b);
    if blob.Some? then blob else FirstRead(sources[i + 1..], k, b.header.uncompressedSize, false)
  }

  /** In read-only mode every key of the database can be read: some archive has it, the first such
      one announces its size, and reading with that size returns what it decodes to. */
  lemma ListedIsReadable(db: ConcurrentDatabase, k: Key)
    requires db.Valid() && db.hasPreparedReadOnly && db.mode == ReadOnly && db.Has(k)
    ensures var sources := db.Sources();
      var i := FirstHolder(sources, k);
      && i < |sources|
      && FirstSize(sources, k, false) == Some(sources[i].view[k].header.uncompressedSize)
      && FirstRead(sources, k, sources[i].view[k].header.uncompressedSize, false) == FromFirstHolder(sources, k)
  {
    var sources := db.Sources();
    db.InAllowedIn(db.archives, k);
    var h :| 0 <= h < |db.archives| && k in db.archives[h].seen;
    var a := db.archives[h];
    IndexDenotesView(a.data[..MAGIC_LENGTH], a.Log, a.Rest, a.names);
    assert k in sources[h].view;
    forall i | 0 <= i < |sources| && k in sources[i].view
      ensures |sources[i].view[k].payload| == sources[i].view[k].header.payloadSize
    {
      ViewSized(db.archives[i].Log, db.archives[i].names, k);
    }
    FirstHolderReads(sources, k);
  }

  /** The sources before the first holder answer neither call, and the holder answers both. */
  lemma {:induction false} FirstHolderReads(sources: seq<Source>, k: Key)
    requires FirstHolder(sources, k) < |sources|
    requires forall i :: 0 <= i < |sources| && k in sources[i].view ==>
      |sources[i].view[k].payload| == sources[i].view[k].header.payloadSize
    ensures var size := sources[FirstHolder(sources, k)].view[k].header.uncompressedSize;
      FirstSize(sources, k, false) == Some(size) && FirstRead(sources, k, size, false) == FromFirstHolder(sources, k)
  {
    if k in sources[0].view {
      TwoCallRead(sources[0].codec, sources[0].view, k);
    } else {
      FirstHolderReads(sources[1..], k);
      assert sources[1..][FirstHolder(sources[1..], k) + 1..] == sources[FirstHolder(sources, k) + 1..];
    }
  }

  /** A read returns the first blob of exactly the size asked for. */
  lemma {:induction false} FirstReadIs(sources: seq<Source>, k: Key, size: nat, i: nat)
    requires i < |sources| && Answers(sources[i], k, size)
    requires forall j :: 0 <= j < i ==> !Answers(sources[j], k, size)
    ensures FirstRead(sources, k, size, false) == Decode(sources[i].codec, sources[i].view[k])
    decreases |sources|
  {
    if i > 0 {
      assert !Answers(sources[0], k, size);
      FirstReadIs(sources[1..], k, size, i - 1);
    }
  }

  /** It returns nothing if there is none. */
  lemma {:induction false} FirstReadNone(sources: seq<Source>, k: Key, size: nat)
    requires forall j :: 0 <= j < |sources| ==> !Answers(sources[j], k, size)
    ensures FirstRead(sources, k, size, false) == None
  {
    if sources != [] {
      assert !Answers(sources[0], k, size);
      FirstReadNone(sources[1..], k, size);
    }
  }

  /** Concatenating two lists without common hashes makes no duplicates. */
  lemma JoinDistinct(a: seq<uint64>, b: seq<uint64>)
    requires Distinct(a) && Increasing(b) && forall h :: h in a ==> h !in b
    ensures Distinct(a + b) && forall h :: h in a + b <==> h in a || h in b
  {
    forall i, j | 0 <= i < j < |a + b|
      ensures (a + b)[i] != (a + b)[j]
    {
      if i < |a| <= j {
        assert (a + b)[i] == a[i] && a[i] in a && (a + b)[j] == b[j - |a|] && b[j - |a|] in b;
      }
    }
  }
}
