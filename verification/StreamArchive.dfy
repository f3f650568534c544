/** The stream archive of fossilize_db.cpp: opening, writing and reading one .foz file. */
module StreamArchives {
  import opened Words
  import opened Wrappers
  import opened ArchiveFormat
  import opened ArchiveRecovery
  import opened ArchivePayload

  datatype Mode = Append | ReadOnly | OverWrite | ExclusiveOverWrite

  /** The optional whitelist and blacklist archives of a read-only database. */
  datatype Filter = Filter(whitelist: Option<set<Key>>, blacklist: Option<set<Key>>)

  /** Only shader modules and pipelines are filtered. */
  predicate Allows(f: Filter, k: Key) {
    k.tag !in {SHADER_MODULE, GRAPHICS_PIPELINE, COMPUTE_PIPELINE}
    || ((f.whitelist.Some? ==> k in f.whitelist.value) && (f.blacklist.Some? ==> k !in f.blacklist.value))
  }

  function Names(f: Filter): Naming {
    name => if |name| != NAME_LENGTH then None else match KeyOf(name)
      case Some(k) => if Allows(f, k) then Some(k) else None
      case None => None
  }

  const NO_FILTER: Filter := Filter(None, None)

  /** The naming reads every printed name back as its key, and knows only keys with a known tag. */
  ghost predicate PlainNames(names: Naming) {
    && (forall k: Key :: k.tag < RESOURCE_COUNT ==> names(Name(k)) == Some(k))
    && (forall name :: names(name).Some? ==> names(name).value.tag < RESOURCE_COUNT)
  }

  lemma UnfilteredNamesArePlain()
    ensures PlainNames(Names(NO_FILTER))
  {
    forall k: Key | k.tag < RESOURCE_COUNT
      ensures Names(NO_FILTER)(Name(k)) == Some(k)
    {
      NameRoundTrip(k);
    }
  }

  const SHADER_MODULE: nat := 4
  const GRAPHICS_PIPELINE: nat := 6
  const COMPUTE_PIPELINE: nat := 7

  /** What a filter leaves of a log: everything that is no shader module or pipeline, and of these what is
      on the whitelist, if there is one, and not on the blacklist, if there is one. */
  lemma {:induction false} FilteredView(rs: seq<Record>, f: Filter, k: Key)
    requires AllWellFormed(rs)
    ensures k in View(rs, Names(f)) <==>
      && k in View(rs, Names(NO_FILTER))
      && (k.tag in {SHADER_MODULE, GRAPHICS_PIPELINE, COMPUTE_PIPELINE} ==>
            && (f.whitelist.None? || k in f.whitelist.value) && (f.blacklist.None? || k !in f.blacklist.value))
    ensures k in View(rs, Names(f)) ==> View(rs, Names(f))[k] == View(rs, Names(NO_FILTER))[k]
  {
    if rs != [] {
      FilteredView(rs[1..], f, k);
    }
  }

  class StreamArchive {
    const mode: Mode
    const codec: Codec
    const filter: Filter
    const names: Naming
    var alive: bool
    var data: bytes   // the bytes of the file
    var pos: nat      // its position
    var seen: map<Key, Entry>

    ghost var Log: seq<Record>  // the records of the file, or of its part before the position
    ghost var Rest: bytes       // what follows them in a file being read
    ghost var Clean: bool       // the part before the position is a whole log

    constructor (mode: Mode, codec: Codec, filter: Filter)
      requires mode != ReadOnly ==> filter == NO_FILTER
      ensures this.mode == mode && this.codec == codec && this.filter == filter && names == Names(filter)
      ensures !alive && seen == map[] && Valid()
    {
      UnfilteredNamesArePlain();
      this.mode, this.codec, this.filter, this.names := mode, codec, filter, Names(filter);
      alive, data, pos, seen := false, [], 0, map[];
      Log, Rest, Clean := [], [], false;
    }

    ghost predicate Valid()
      reads this
    {
      && pos <= |data| && AllWellFormed(Log)
      && (mode != ReadOnly ==> PlainNames(names) && filter == NO_FILTER)
      && (if alive then |data| >= MAGIC_LENGTH else seen == map[])
      && (alive && mode == ReadOnly ==>
            data[MAGIC_LENGTH..] == EncodeAll(Log) + Rest && seen == Index(Log, MAGIC_LENGTH, names))
      && (alive && mode != ReadOnly && Clean ==>
            && MAGIC_LENGTH <= pos && data[MAGIC_LENGTH..pos] == EncodeAll(Log)
            && seen.Keys == View(Log, names).Keys)
    }

    method Fread(n: nat) returns (b: bytes)
      requires pos <= |data|
      modifies this`pos
      ensures pos == old(pos) + |b| && pos <= |data|
      ensures b == data[old(pos)..pos] && (|b| == n || (|b| < n && pos == |data|))
    {
      var end := if pos + n <= |data| then pos + n else |data|;
      b := data[pos..end];
      pos := end;
    }

    method Fwrite(b: bytes) returns (ok: bool)
      requires pos <= |data|
      modifies this`data, this`pos
      ensures ok <==> mode != ReadOnly
      ensures ok ==> data == Overwrite(old(data), old(pos), b) && pos == old(pos) + |b|
      ensures !ok ==> data == old(data) && pos == old(pos)
      ensures pos <= |data|
    {
      if mode == ReadOnly {
        return false;
      }
      data := Overwrite(data, pos, b);
      pos := pos + |b|;
      ok := true;
    }

    /** Opens the file found on disk, if any, and scans it. */
    method Prepare(disk: Option<bytes>) returns (ok: bool)
      requires Valid() && !alive
      modifies this
      ensures alive == ok && Valid()
      ensures ok <==> match mode
        case ReadOnly => disk.Some? && HasMagic(disk.value)
        case Append => disk.None? || disk.value == [] || HasMagic(disk.value)
        case OverWrite => true
        case ExclusiveOverWrite => disk.None?
      ensures ok && (mode == ReadOnly || (mode == Append && disk.Some? && disk.value != [])) ==>
        data == disk.value && HasMagic(data) && Log == ScannedRecords(data) && seen == ScanIndex(data, names)
      ensures ok && mode == Append && disk.Some? && disk.value != [] ==>
        pos == AppendCursor(data) && (Clean <==> |ScanTail(data)| != PREFIX_LENGTH)
      ensures ok && (mode in {OverWrite, ExclusiveOverWrite} || (mode == Append && (disk.None? || disk.value == []))) ==>
        data == MAGIC + [FORMAT_VERSION] && pos == |data| && seen == map[] && Clean && Log == []
    {
      ok := Load(disk);
      if !ok {
        return;
      }
      if data != [] {
        ok := ReadMagic();
        if ok {
          Scan();
        }
      } else {
        ok := WriteMagic();
      }
      alive := ok;
    }

    /** What the mode takes over from the file: all of it, or nothing. */
    method Load(disk: Option<bytes>) returns (ok: bool)
      modifies this`data, this`pos
      ensures ok <==> (mode == ReadOnly ==> disk.Some?) && (mode == ExclusiveOverWrite ==> disk.None?)
      ensures pos == 0 && (ok ==> data == if mode in {ReadOnly, Append} && disk.Some? then disk.value else [])
    {
      data, pos := [], 0;
      match mode {
        case ReadOnly =>
          if disk.None? { return false; }
          data := disk.value;
        case Append =>
          data := if disk.Some? then disk.value else [];
        case OverWrite =>
        case ExclusiveOverWrite =>
          if disk.Some? { return false; }
      }
      ok := true;
    }

    method ReadMagic() returns (ok: bool)
      requires pos == 0
      modifies this`pos
      ensures ok <==> HasMagic(data)
      ensures ok ==> pos == MAGIC_LENGTH
      ensures pos <= |data|
    {
      var magic := Fread(MAGIC_LENGTH);
      if |magic| != MAGIC_LENGTH {
        return false;
      }
      assert magic[..MAGIC_LENGTH - 1] == data[..MAGIC_LENGTH - 1];
      var version := magic[MAGIC_LENGTH - 1];
      ok := magic[..MAGIC_LENGTH - 1] == MAGIC && FORMAT_MIN_COMPAT_VERSION <= version <= FORMAT_VERSION;
    }

    method WriteMagic() returns (ok: bool)
      requires data == [] && pos == 0 && seen == map[]
      modifies this`data, this`pos, this`Log, this`Clean
      ensures ok <==> mode != ReadOnly
      ensures ok ==> data == MAGIC + [FORMAT_VERSION] && pos == |data| == MAGIC_LENGTH && Clean && Log == []
      ensures !ok ==> data == [] && pos == 0 && Log == old(Log)
    {
      ok := Fwrite(MAGIC + [FORMAT_VERSION]);
      if ok {
        Log, Clean := [], true;
      }
    }

    /** Name and header in one read. */
    method ReadPrefix() returns (name: bytes, header: Header)
      requires pos + PREFIX_LENGTH <= |data|
      modifies this`pos
      ensures pos == old(pos) + PREFIX_LENGTH
      ensures name == data[old(pos)..][..NAME_LENGTH] && header == HeaderIn(data[old(pos)..])
    {
      ghost var rest := data[pos..];
      var prefix := Fread(PREFIX_LENGTH);
      assert prefix[..NAME_LENGTH] == rest[..NAME_LENGTH];
      assert prefix[NAME_LENGTH..] == rest[NAME_LENGTH..PREFIX_LENGTH];
      name, header := prefix[..NAME_LENGTH], ParseHeader(prefix[NAME_LENGTH..]);
    }

    /** One turn of the scan loop: stops at a record that the file does not hold entirely. */
    method ScanRecord(offset: nat, ghost todo: seq<Record>, ghost tail: bytes) returns (next: nat, sliced: bool)
      requires offset <= |data| && pos == offset
      requires todo == Records(data[offset..]) && tail == Tail(data[offset..])
      modifies this`pos, this`seen
      ensures pos == next <= |data|
      ensures sliced <==> todo == []
      ensures sliced ==> tail == data[offset..] && seen == old(seen)
      ensures sliced ==> next == if |data| - offset < PREFIX_LENGTH then offset else offset + PREFIX_LENGTH
      ensures !sliced ==>
        && next == offset + |Encode(todo[0])| && todo[1..] == Records(data[next..]) && tail == Tail(data[next..])
        && Inserted(todo[1..], next, names, seen) == Inserted(todo, offset, names, old(seen))
    {
      if offset + PREFIX_LENGTH > |data| {
        return offset, true;
      }
      var name, header := ReadPrefix();
      next := offset + PREFIX_LENGTH;
      if next + header.payloadSize > |data| {
        return next, true;
      }
      ghost var b := data[offset..];
      RecordsStep(b);
      var key := names(name);
      if key.Some? && key.value !in seen {
        seen := seen[key.value := Entry(next, header)];
      }
      pos := pos + header.payloadSize;
      next := next + header.payloadSize;
      InsertStep(todo, offset, names, old(seen), next, seen);
      assert data[next..] == ArchiveFormat.Rest(b);
      sliced := false;
    }

    /** The scan loop of `prepare`. */
    method ScanRecords() returns (offset: nat, beginAppendOffset: nat)
      requires HasMagic(data) && pos == MAGIC_LENGTH && seen == map[]
      modifies this`pos, this`seen
      ensures seen == ScanIndex(data, names) && pos == offset
      ensures var t := |ScanTail(data)|;
        && offset == |data| - t + (if t < PREFIX_LENGTH then 0 else PREFIX_LENGTH)
        && (t > 0 ==> beginAppendOffset == |data| - t)
    {
      offset, beginAppendOffset := MAGIC_LENGTH, |data|;
      ghost var todo, tail, index := ScannedRecords(data), ScanTail(data), ScanIndex(data, names);
      InsertedIsIndex(todo, offset, names, seen);
      while offset < |data|
        invariant MAGIC_LENGTH <= offset <= |data| && pos == offset
        invariant AllWellFormed(todo) && todo == Records(data[offset..]) && tail == Tail(data[offset..])
        invariant Inserted(todo, offset, names, seen) == index
        decreases |data| - offset
      {
        beginAppendOffset := offset;
        var next, sliced := ScanRecord(offset, todo, tail);
        if sliced {
          return next, offset;
        }
        offset, todo := next, todo[1..];
      }
    }

    method Scan()
      requires HasMagic(data) && pos == MAGIC_LENGTH && seen == map[]
      modifies this`pos, this`seen, this`Log, this`Rest, this`Clean
      ensures MAGIC_LENGTH <= pos <= |data| && Log == ScannedRecords(data) && seen == ScanIndex(data, names)
      ensures data[MAGIC_LENGTH..] == EncodeAll(Log) + Rest
      ensures mode == Append ==> pos == AppendCursor(data) && (Clean <==> |ScanTail(data)| != PREFIX_LENGTH)
      ensures Clean ==> data[MAGIC_LENGTH..pos] == EncodeAll(Log) && seen.Keys == View(Log, names).Keys
    {
      ScanAndRewind();
      KeepLog();
    }

    ghost method KeepLog()
      requires HasMagic(data) && MAGIC_LENGTH <= pos <= |data|
      requires mode == Append ==> pos == AppendCursor(data)
      modifies this`Log, this`Rest, this`Clean
      ensures Log == ScannedRecords(data) && data[MAGIC_LENGTH..] == EncodeAll(Log) + Rest
      ensures Clean <==> mode == Append && |ScanTail(data)| != PREFIX_LENGTH
      ensures Clean ==> data[MAGIC_LENGTH..pos] == EncodeAll(Log)
      ensures ScanIndex(data, names).Keys == View(Log, names).Keys
    {
      Log, Rest, Clean := ScannedRecords(data), ScanTail(data), mode == Append && |ScanTail(data)| != PREFIX_LENGTH;
      ScannedLog(data, names, Log, Rest);
    }

    /** The scan; appending goes on at the first record that is not whole. */
    method ScanAndRewind()
      requires HasMagic(data) && pos == MAGIC_LENGTH && seen == map[]
      modifies this`pos, this`seen
      ensures MAGIC_LENGTH <= pos <= |data| && seen == ScanIndex(data, names)
      ensures mode == Append ==> pos == AppendCursor(data)
    {
      var offset, beginAppendOffset := ScanRecords();
      if mode == Append && offset != |data| {
        pos := beginAppendOffset;
      }
    }

    /** Skips a key that is already there; otherwise the name is written first, and the write
        can still fail behind it. */
    method WriteEntry(k: Key, blob: bytes, flags: WriteFlags) returns (ok: bool)
      requires Valid() && k.tag < RESOURCE_COUNT
      modifies this`data, this`pos, this`seen, this`Log, this`Clean
      ensures Valid() && pos >= old(pos)
      ensures ok <==> alive && mode != ReadOnly && (k in old(seen) || Framed(codec, blob, flags).Some?)
      ensures !alive || mode == ReadOnly || k in old(seen) ==>
        data == old(data) && pos == old(pos) && seen == old(seen) && Log == old(Log) && Clean == old(Clean)
      ensures alive && mode != ReadOnly && k !in old(seen) ==>
        WriteEffect(old(data), old(pos), old(seen.Keys), k, Framed(codec, blob, flags), data, pos, seen.Keys)
      ensures ok && old(Clean) && k !in old(seen) && Proper(Framed(codec, blob, flags).value) ==>
        Clean && Log == old(Log) + [RecordFor(k, Framed(codec, blob, flags).value)]
      ensures !old(Clean) ==> !Clean
    {
      if !alive || mode == ReadOnly {
        return false;
      }
      if k in seen {
        return true;
      }
      ok := WriteFrame(k, Framed(codec, blob, flags));
    }

    /** The name, and behind it the frame, if there is one. */
    method WriteFrame(k: Key, frame: Option<bytes>) returns (ok: bool)
      requires Valid() && alive && mode != ReadOnly && k !in seen && k.tag < RESOURCE_COUNT
      modifies this`data, this`pos, this`seen, this`Log, this`Clean
      ensures Valid() && ok == frame.Some?
      ensures WriteEffect(old(data), old(pos), old(seen.Keys), k, frame, data, pos, seen.Keys)
      ensures ok && old(Clean) && Proper(frame.value) ==> Clean && Log == old(Log) + [RecordFor(k, frame.value)]
      ensures !old(Clean) ==> !Clean
    {
      ghost var d, p, clean, keys := data, pos, Clean, seen.Keys;
      ok := PutFrame(k, frame);
      Clean := false;
      if !ok {
        return;
      }
      seen := seen[k := Entry(0, Header(0, 0, 0, 0))];
      if clean && Proper(frame.value) {
        LogGrows(d, p, Log, names, k, frame.value);
        Log, Clean := Log + [RecordFor(k, frame.value)], true;
      }
    }

    /** The two writes. */
    method PutFrame(k: Key, frame: Option<bytes>) returns (ok: bool)
      requires pos <= |data| && mode != ReadOnly
      modifies this`data, this`pos
      ensures ok == frame.Some? && pos <= |data|
      ensures var written := if frame.Some? then Name(k) + frame.value else Name(k);
        data == Overwrite(old(data), old(pos), written) && pos == old(pos) + |written|
    {
      ghost var d, p := data, pos;
      ok := Fwrite(Name(k));
      if frame.None? {
        return false;
      }
      ok := Fwrite(frame.value);
      OverwriteTwice(d, p, Name(k), frame.value);
    }

    /** First half of the two-call read. */
    method QuerySize(k: Key, raw: bool) returns (size: Option<uint32>)
      requires Valid()
      ensures size == if alive && mode == ReadOnly then SizeResult(View(Log, names), k, raw) else None
    {
      if !alive || mode != ReadOnly {
        return None;
      }
      IndexDenotesView(data[..MAGIC_LENGTH], Log, Rest, names);
      if k !in seen {
        return None;
      }
      var h := seen[k].header;
      size := Some(if raw then WrapAdd(h.payloadSize, HEADER_LENGTH) else h.uncompressedSize);
    }

    /** Second half: the caller's buffer must have the announced size. */
    method ReadEntry(k: Key, size: nat, raw: bool) returns (blob: Option<bytes>)
      requires Valid()
      modifies this`pos
      ensures Valid()
      ensures blob == if alive && mode == ReadOnly then ReadResult(codec, View(Log, names), k, size, raw) else None
    {
      if !alive || mode != ReadOnly {
        return None;
      }
      IndexDenotesView(data[..MAGIC_LENGTH], Log, Rest, names);
      Reassemble(data, EncodeAll(Log), Rest);
      if k !in seen {
        return None;
      }
      ghost var b := View(Log, names)[k];
      var e := seen[k];
      assert Denotes(data, e, b);
      if raw {
        blob := ReadRaw(e, size, b);
      } else {
        blob := DecodePayload(e, size, b);
      }
    }

    method ReadRaw(e: Entry, size: nat, ghost b: Blob) returns (blob: Option<bytes>)
      requires Denotes(data, e, b)
      modifies this`pos
      ensures pos <= |data| || pos == old(pos)
      ensures blob == if size == |b.payload| + HEADER_LENGTH < TWO_TO_THE_32 then Some(HeaderBytes(b.header) + b.payload) else None
    {
      var readSize := e.header.payloadSize + HEADER_LENGTH;
      if size != readSize || readSize >= TWO_TO_THE_32 {
        return None;
      }
      pos := e.offset - HEADER_LENGTH;
      var bytesRead := Fread(readSize);
      assert bytesRead == data[e.offset - HEADER_LENGTH..e.offset] + data[e.offset..e.offset + e.header.payloadSize];
      blob := Some(bytesRead);
    }

    method DecodePayload(e: Entry, size: nat, ghost b: Blob) returns (blob: Option<bytes>)
      requires Denotes(data, e, b)
      modifies this`pos
      ensures pos <= |data| || pos == old(pos)
      ensures blob == match Decode(codec, b)
        case Some(out) => if size == |out| then Some(out) else None
        case None => None
    {
      if e.header.uncompressedSize != size
        || (e.header.format == COMPRESSION_NONE && e.header.payloadSize != size)
        || e.header.format !in {COMPRESSION_NONE, COMPRESSION_DEFLATE} {
        return None;
      }
      pos := e.offset;
      var payload := Fread(e.header.payloadSize);
      if e.header.crc != 0 && codec.crc32(payload) != e.header.crc {
        return None;
      }
      if e.header.format == COMPRESSION_NONE {
        return Some(payload);
      }
      var out := codec.uncompress(payload);
      if out.None? || |out.value| != size {
        return None;
      }
      blob := out;
    }

    /** In a file being read, exactly the keys some record of it stands for and the filter lets
        through; in one being written, exactly the keys of the log written so far. */
    method HasEntry(k: Key) returns (has: bool)
      requires Valid()
      ensures !alive ==> !has
      ensures alive && (mode == ReadOnly || Clean) ==> (has <==> Allows(filter, k) && k in View(Log, names))
      ensures has <==> Allows(filter, k) && k in seen
    {
      IndexDenotesView(data[..if |data| >= MAGIC_LENGTH then MAGIC_LENGTH else 0], Log, Rest, names);
      has := Allows(filter, k) && k in seen;
    }

    /** All hashes of a tag, in increasing order. */
    method HashList(tag: nat) returns (hashes: seq<uint64>)
      ensures Increasing(hashes)
      ensures forall h: uint64 :: h in hashes <==> Key(tag, h) in seen
    {
      var tagged := set k | k in seen && k.tag == tag :: k.hash;
      assert forall h: uint64 :: h in tagged <==> Key(tag, h) in seen;
      hashes := ListHashes(tagged);
      hashes := SortHashes(hashes);
    }
  }

  /** A new key extends file, position and key set by its name and frame; a write that fails
      leaves the name behind. */
  predicate WriteEffect(data: bytes, pos: nat, keys: set<Key>, k: Key, frame: Option<bytes>,
                        data': bytes, pos': nat, keys': set<Key>)
    requires pos <= |data|
  {
    var written := if frame.Some? then Name(k) + frame.value else Name(k);
    && data' == Overwrite(data, pos, written) && pos' == pos + |written|
    && keys' == if frame.Some? then keys + {k} else keys
  }

  predicate Increasing(hashes: seq<uint64>) {
    forall i, j :: 0 <= i < j < |hashes| ==> hashes[i] < hashes[j]
  }

  /** Copies out a set of hashes, in some order. */
  method ListHashes(hashes: set<uint64>) returns (list: seq<uint64>)
    ensures Distinct(list) && forall h :: h in list <==> h in hashes
  {
    list := [];
    var left := hashes;
    while left != {}
      invariant left <= hashes && Distinct(list)
      invariant forall h :: h in list <==> h in hashes && h !in left
      decreases left
    {
      var h :| h in left;
      list := list + [h];
      left := left - {h};
    }
  }

  predicate Distinct(list: seq<uint64>) {
    forall i, j :: 0 <= i < j < |list| ==> list[i] != list[j]
  }

  /** Sorting keeps the elements; a list without duplicates becomes strictly increasing. */
  method SortHashes(list: seq<uint64>) returns (sorted: seq<uint64>)
    requires Distinct(list)
    ensures Increasing(sorted) && |sorted| == |list|
    ensures forall h :: h in sorted <==> h in list
  {
    sorted := [];
    for i := 0 to |list|
      invariant Increasing(sorted) && |sorted| == i
      invariant forall h :: h in sorted <==> h in list[..i]
    {
      assert list[i] !in list[..i];
      assert list[..i + 1] == list[..i] + [list[i]];
      sorted := InsertedHash(sorted, list[i]);
    }
    assert list[..|list|] == list;
  }

  function InsertedHash(list: seq<uint64>, h: uint64): (r: seq<uint64>)
    requires Increasing(list) && h !in list
    ensures Increasing(r) && |r| == |list| + 1
    ensures forall x :: x in r <==> x in list || x == h
    ensures list != [] && list[0] < h ==> r[0] == list[0]
  {
    if list == [] || h < list[0] then [h] + list else [list[0]] + InsertedHash(list[1..], h)
  }

  lemma OverwriteTwice(d: bytes, p: nat, a: bytes, b: bytes)
    requires p <= |d|
    ensures Overwrite(Overwrite(d, p, a), p + |a|, b) == Overwrite(d, p, a + b)
  {
  }

  lemma LogAfterWrite(d: bytes, p: nat, b: bytes)
    requires MAGIC_LENGTH <= p <= |d|
    ensures Overwrite(d, p, b)[MAGIC_LENGTH..p + |b|] == d[MAGIC_LENGTH..p] + b
  {
  }

  /** A name and a proper frame behind a whole log make it one record longer. */
  lemma LogGrows(d: bytes, p: nat, log: seq<Record>, names: Naming, k: Key, frame: bytes)
    requires MAGIC_LENGTH <= p <= |d| && AllWellFormed(log) && d[MAGIC_LENGTH..p] == EncodeAll(log)
    requires PlainNames(names) && k.tag < RESOURCE_COUNT && k !in View(log, names) && Proper(frame)
    ensures var b, log' := Name(k) + frame, log + [RecordFor(k, frame)];
      && AllWellFormed(log') && Overwrite(d, p, b)[MAGIC_LENGTH..p + |b|] == EncodeAll(log')
      && View(log', names).Keys == View(log, names).Keys + {k}
  {
    var r := RecordFor(k, frame);
    EncodeRecordFor(k, frame);
    LogAfterWrite(d, p, Name(k) + frame);
    EncodeOne(r);
    ViewWithOne(log, r, names);
    EncodeAllAppend(log, [r]);
  }

  lemma EncodeOne(r: Record)
    ensures EncodeAll([r]) == Encode(r)
  {
    assert [r][1..] == [] && Encode(r) + [] == Encode(r);
  }

  lemma Reassemble(data: bytes, e: bytes, t: bytes)
    requires |data| >= MAGIC_LENGTH && data[MAGIC_LENGTH..] == e + t
    ensures data == (data[..MAGIC_LENGTH] + e) + t
  {
    assert data == data[..MAGIC_LENGTH] + data[MAGIC_LENGTH..];
  }

  /** What the scan leaves: the log, its index, and the log in front of the append cursor. */
  lemma ScannedLog(data: bytes, names: Naming, log: seq<Record>, tail: bytes)
    requires HasMagic(data) && log == ScannedRecords(data) && tail == ScanTail(data)
    ensures data[MAGIC_LENGTH..] == EncodeAll(log) + tail
    ensures |tail| != PREFIX_LENGTH ==> data[MAGIC_LENGTH..AppendCursor(data)] == EncodeAll(log)
    ensures ScanIndex(data, names).Keys == View(log, names).Keys
  {
    EncodeOfScan(data[MAGIC_LENGTH..]);
    ScanIndexDenotesView(data, names);
    if |tail| != PREFIX_LENGTH {
      CutTail(data, AppendCursor(data), EncodeAll(log), tail);
    }
  }

  lemma CutTail(data: bytes, pos: nat, e: bytes, t: bytes)
    requires |data| >= MAGIC_LENGTH && data[MAGIC_LENGTH..] == e + t && pos == |data| - |t|
    ensures data[MAGIC_LENGTH..pos] == e
  {
    assert data[MAGIC_LENGTH..pos] == data[MAGIC_LENGTH..][..|e|];
  }

  lemma ViewWithOne(rs: seq<Record>, r: Record, names: Naming)
    requires AllWellFormed(rs) && WellFormed(r) && names(r.name).Some? && names(r.name).value !in View(rs, names)
    ensures AllWellFormed(rs + [r])
    ensures View(rs + [r], names) == View(rs, names)[names(r.name).value := Blob(r.header, r.payload)]
  {
    assert [r][1..] == [];
    ViewAppend(rs, [r], names);
  }

  // ----- One step of the scan -----

  /** The map after a scanned record: the first insertion of a key wins. */
  function Stored(seen: map<Key, Entry>, key: Option<Key>, e: Entry): map<Key, Entry> {
    if key.Some? && key.value !in seen then seen[key.value := e] else seen
  }

  lemma RecordsStep(b: bytes)
    requires !Incomplete(b)
    ensures var r := First(b);
      && Records(b) != [] && Records(b)[0] == r && Records(b)[1..] == Records(Rest(b))
      && r.name == b[..NAME_LENGTH] && r.header == HeaderIn(b)
      && |Encode(r)| == PREFIX_LENGTH + HeaderIn(b).payloadSize
  {
  }

  /** The map after all records still to be scanned are inserted. */
  function Inserted(rs: seq<Record>, offset: nat, names: Naming, seen: map<Key, Entry>): map<Key, Entry>
    requires AllWellFormed(rs)
    decreases |rs|
  {
    if rs == [] then seen
    else Inserted(rs[1..], offset + |Encode(rs[0])|, names,
                  Stored(seen, names(rs[0].name), Entry(offset + PREFIX_LENGTH, rs[0].header)))
  }

  lemma InsertStep(rs: seq<Record>, offset: nat, names: Naming, seen: map<Key, Entry>, next: nat, seen': map<Key, Entry>)
    requires AllWellFormed(rs) && rs != [] && next == offset + |Encode(rs[0])|
    requires seen' == Stored(seen, names(rs[0].name), Entry(offset + PREFIX_LENGTH, rs[0].header))
    ensures Inserted(rs, offset, names, seen) == Inserted(rs[1..], next, names, seen')
  {
  }

  lemma {:induction false} InsertedIsIndex(rs: seq<Record>, offset: nat, names: Naming, seen: map<Key, Entry>)
    requires AllWellFormed(rs)
    ensures Inserted(rs, offset, names, seen) == Index(rs, offset, names) + seen
    decreases |rs|
  {
    if rs != [] {
      var r := rs[0];
      var key, e, next := names(r.name), Entry(offset + PREFIX_LENGTH, r.header), offset + |Encode(r)|;
      InsertedIsIndex(rs[1..], next, names, Stored(seen, key, e));
      if key.Some? {
        FirstInsertionWins(Index(rs[1..], next, names), seen, key.value, e);
      }
    }
  }

  lemma FirstInsertionWins<K, V>(rest: map<K, V>, seen: map<K, V>, k: K, v: V)
    ensures rest[k := v] + seen == rest + if k in seen then seen else seen[k := v]
  {
  }
}
