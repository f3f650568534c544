/** What a rescan of an archive finds: after a crash, after appending to a cut archive, and
    after a write that failed half-way. */
module ArchiveRecovery {
  import opened Words
  import opened Wrappers
  import opened ArchiveFormat

  datatype Entry = Entry(offset: nat, header: Header)
  datatype Blob = Blob(header: Header, payload: bytes)

  /** Under which key a database stores a record of a given name, if it stores it at all. */
  type Naming = bytes -> Option<Key>

  /** The map built by the scan: the first record of each key wins. */
  function Index(rs: seq<Record>, offset: nat, f: Naming): map<Key, Entry>
    requires AllWellFormed(rs)
  {
    if rs == [] then map[]
    else
      var m := Index(rs[1..], offset + |Encode(rs[0])|, f);
      match f(rs[0].name)
      case Some(k) => m[k := Entry(offset + PREFIX_LENGTH, rs[0].header)]
      case None => m
  }

  /** What the archive means: header and payload of the first record of each key. */
  function View(rs: seq<Record>, f: Naming): map<Key, Blob>
    requires AllWellFormed(rs)
  {
    if rs == [] then map[]
    else
      var m := View(rs[1..], f);
      match f(rs[0].name)
      case Some(k) => m[k := Blob(rs[0].header, rs[0].payload)]
      case None => m
  }

  function ScannedRecords(data: bytes): (rs: seq<Record>)
    requires HasMagic(data)
    ensures AllWellFormed(rs)
  {
    Records(data[MAGIC_LENGTH..])
  }

  function ScanIndex(data: bytes, f: Naming): map<Key, Entry>
    requires HasMagic(data)
  {
    Index(ScannedRecords(data), MAGIC_LENGTH, f)
  }

  function ScanView(data: bytes, f: Naming): map<Key, Blob>
    requires HasMagic(data)
  {
    View(ScannedRecords(data), f)
  }

  function ScanTail(data: bytes): (t: bytes)
    requires HasMagic(data)
    ensures |t| <= |data| - MAGIC_LENGTH
  {
    Tail(data[MAGIC_LENGTH..])
  }

  // ----- Index and view -----

  lemma {:induction false} IndexAppend(rs: seq<Record>, ss: seq<Record>, offset: nat, f: Naming)
    requires AllWellFormed(rs) && AllWellFormed(ss)
    ensures AllWellFormed(rs + ss)
    ensures Index(rs + ss, offset, f) == Index(ss, offset + |EncodeAll(rs)|, f) + Index(rs, offset, f)
    decreases |rs|
  {
    if rs == [] {
      assert rs + ss == ss;
    } else {
      var r, next := rs[0], offset + |Encode(rs[0])|;
      assert (rs + ss)[1..] == rs[1..] + ss;
      IndexAppend(rs[1..], ss, next, f);
      assert next + |EncodeAll(rs[1..])| == offset + |EncodeAll(rs)|;
      IndexOne(rs, offset, f);
      IndexOne(rs + ss, offset, f);
      PutRight(Index(ss, offset + |EncodeAll(rs)|, f), Index(rs[1..], next, f), f(r.name),
               Entry(offset + PREFIX_LENGTH, r.header));
    }
  }

  /** A map with one more entry, if it has a key. */
  function Put<V>(m: map<Key, V>, key: Option<Key>, v: V): map<Key, V> {
    if key.Some? then m[key.value := v] else m
  }

  lemma PutRight<V>(m: map<Key, V>, n: map<Key, V>, key: Option<Key>, v: V)
    ensures Put(m + n, key, v) == m + Put(n, key, v)
  {
  }

  lemma IndexOne(rs: seq<Record>, offset: nat, f: Naming)
    requires AllWellFormed(rs) && rs != []
    ensures Index(rs, offset, f) ==
      Put(Index(rs[1..], offset + |Encode(rs[0])|, f), f(rs[0].name), Entry(offset + PREFIX_LENGTH, rs[0].header))
  {
  }

  lemma {:induction false} ViewAppend(rs: seq<Record>, ss: seq<Record>, f: Naming)
    requires AllWellFormed(rs) && AllWellFormed(ss)
    ensures AllWellFormed(rs + ss)
    ensures View(rs + ss, f) == View(ss, f) + View(rs, f)
  {
    if rs == [] {
      assert rs + ss == ss;
    } else {
      assert (rs + ss)[1..] == rs[1..] + ss;
      ViewAppend(rs[1..], ss, f);
    }
  }

  /** A key is there exactly if a record stands for it, and means what the first such record holds. */
  lemma {:induction false} ViewIsFirst(rs: seq<Record>, f: Naming, k: Key)
    requires AllWellFormed(rs)
    ensures k in View(rs, f) <==> exists i :: 0 <= i < |rs| && f(rs[i].name) == Some(k)
    ensures forall i :: 0 <= i < |rs| && f(rs[i].name) == Some(k) && (forall j :: 0 <= j < i ==> f(rs[j].name) != Some(k)) ==>
      View(rs, f)[k] == Blob(rs[i].header, rs[i].payload)
  {
    if rs != [] {
      ViewIsFirst(rs[1..], f, k);
      if i :| 0 <= i < |rs| && f(rs[i].name) == Some(k) {
        assert i == 0 || rs[1..][i - 1] == rs[i];
      }
      forall i | 0 < i < |rs| && f(rs[i].name) == Some(k) && (forall j :: 0 <= j < i ==> f(rs[j].name) != Some(k))
        ensures View(rs, f)[k] == Blob(rs[i].header, rs[i].payload)
      {
        assert f(rs[0].name) != Some(k);
        assert rs[1..][i - 1] == rs[i] && forall j :: 0 <= j < i - 1 ==> rs[1..][j] == rs[j + 1];
      }
    }
  }

  lemma {:induction false} ViewSized(rs: seq<Record>, names: Naming, k: Key)
    requires AllWellFormed(rs) && k in View(rs, names)
    ensures |View(rs, names)[k].payload| == View(rs, names)[k].header.payloadSize
  {
    assert WellFormed(rs[0]);
    if names(rs[0].name) != Some(k) {
      ViewSized(rs[1..], names, k);
    }
  }

  /** The entry lies in the data and its payload there is the blob. */
  predicate Denotes(data: bytes, e: Entry, b: Blob) {
    && e.offset + e.header.payloadSize <= |data| && e.offset >= HEADER_LENGTH
    && b.header == e.header && b.payload == data[e.offset..e.offset + e.header.payloadSize]
    && data[e.offset - HEADER_LENGTH..e.offset] == HeaderBytes(e.header)
  }

  /** Every indexed entry points at the header and payload that the view has for its key. */
  lemma {:induction false} IndexDenotesView(before: bytes, rs: seq<Record>, t: bytes, f: Naming)
    requires AllWellFormed(rs)
    ensures var data := before + EncodeAll(rs) + t;
      var index, view := Index(rs, |before|, f), View(rs, f);
      index.Keys == view.Keys && forall k :: k in index ==> Denotes(data, index[k], view[k])
    decreases |rs|
  {
    if rs != [] {
      var r, data := rs[0], before + EncodeAll(rs) + t;
      IndexDenotesView(before + Encode(r), rs[1..], t, f);
      Associative(before, Encode(r), EncodeAll(rs[1..]));
      FirstDenoted(before, r, EncodeAll(rs[1..]) + t);
      Associative(before + Encode(r), EncodeAll(rs[1..]), t);
    }
  }

  lemma FirstDenoted(before: bytes, r: Record, t: bytes)
    requires WellFormed(r)
    ensures Denotes((before + Encode(r)) + t, Entry(|before| + PREFIX_LENGTH, r.header), Blob(r.header, r.payload))
  {
    var data, o := (before + Encode(r)) + t, |before| + PREFIX_LENGTH;
    assert data[o..o + |r.payload|] == r.payload;
    assert data[o - HEADER_LENGTH..o] == HeaderBytes(r.header);
  }

  lemma ScanIndexDenotesView(data: bytes, f: Naming)
    requires HasMagic(data)
    ensures ScanIndex(data, f).Keys == ScanView(data, f).Keys
    ensures forall k :: k in ScanIndex(data, f) ==> Denotes(data, ScanIndex(data, f)[k], ScanView(data, f)[k])
  {
    var magic, rs, t := data[..MAGIC_LENGTH], ScannedRecords(data), ScanTail(data);
    EncodeOfScan(data[MAGIC_LENGTH..]);
    IndexDenotesView(magic, rs, t, f);
    Associative(magic, EncodeAll(rs), t);
    assert data == magic + data[MAGIC_LENGTH..];
  }

  /** Every stored entry begins right behind the name and header of a record, and no entry lies
      outside the records. */
  lemma {:induction false} IndexOffsets(rs: seq<Record>, offset: nat, f: Naming, k: Key)
    requires AllWellFormed(rs) && k in Index(rs, offset, f)
    ensures offset + PREFIX_LENGTH <= Index(rs, offset, f)[k].offset <= offset + |EncodeAll(rs)|
    decreases |rs|
  {
    assert WellFormed(rs[0]);
    if f(rs[0].name) != Some(k) {
      IndexOffsets(rs[1..], offset + |Encode(rs[0])|, f, k);
    }
  }

  // ----- Recovery after a crash -----

  /** How many of the records lie wholly in the first c bytes of their encoding. */
  function Whole(rs: seq<Record>, c: nat): (n: nat)
    ensures n <= |rs|
  {
    if rs == [] || c < |Encode(rs[0])| then 0 else 1 + Whole(rs[1..], c - |Encode(rs[0])|)
  }

  /** Whole(rs, c) is the one n such that n records fit in c bytes and n + 1 do not. */
  lemma {:induction false} WholeIsMaximal(rs: seq<Record>, c: nat)
    requires c <= |EncodeAll(rs)|
    ensures |EncodeAll(rs[..Whole(rs, c)])| <= c
    ensures Whole(rs, c) < |rs| ==> c < |EncodeAll(rs[..Whole(rs, c) + 1])|
    decreases |rs|
  {
    if rs != [] && |Encode(rs[0])| <= c {
      var left := c - |Encode(rs[0])|;
      var n := Whole(rs[1..], left);
      WholeIsMaximal(rs[1..], left);
      LengthOfTake(rs, n + 1);
      if n + 1 < |rs| {
        LengthOfTake(rs, n + 2);
      }
    } else if rs != [] {
      LengthOfTake(rs, 1);
    }
  }

  lemma LengthOfTake(rs: seq<Record>, n: nat)
    requires 0 < n <= |rs|
    ensures |EncodeAll(rs[..n])| == |Encode(rs[0])| + |EncodeAll(rs[1..][..n - 1])|
  {
    assert rs[..n][1..] == rs[1..][..n - 1];
  }

  lemma PartOfRecordIncomplete(r: Record, t: bytes, c: nat)
    requires WellFormed(r) && c < |Encode(r)|
    ensures Incomplete((Encode(r) + t)[..c]) && Records((Encode(r) + t)[..c]) == []
  {
    var b := (Encode(r) + t)[..c];
    if c >= PREFIX_LENGTH {
      assert b[NAME_LENGTH..PREFIX_LENGTH] == HeaderBytes(r.header);
      HeaderRoundTrip(r.header, HeaderBytes(r.header));
    }
  }

  /** Cutting a log anywhere loses exactly the records that are not wholly before the cut. */
  lemma {:induction false} CrashPrefix(rs: seq<Record>, c: nat)
    requires AllWellFormed(rs) && c <= |EncodeAll(rs)|
    ensures Records(EncodeAll(rs)[..c]) == rs[..Whole(rs, c)]
    decreases |rs|
  {
    if rs != [] {
      var r, t := rs[0], EncodeAll(rs[1..]);
      if c < |Encode(r)| {
        PartOfRecordIncomplete(r, t, c);
      } else {
        var n := c - |Encode(r)|;
        TakeOfAppend(Encode(r), t, n);
        ScanOfOne(r, t[..n]);
        CrashPrefix(rs[1..], n);
        TakeOfCons(rs, Whole(rs[1..], n));
      }
    }
  }

  lemma ScanOfOne(r: Record, t: bytes)
    requires WellFormed(r)
    ensures Records(Encode(r) + t) == [r] + Records(t)
  {
    FirstOfEncode(r, t);
  }

  lemma TakeOfAppend<T>(a: seq<T>, b: seq<T>, n: nat)
    requires n <= |b|
    ensures (a + b)[..|a| + n] == a + b[..n]
  {
  }

  lemma TakeOfCons<T>(s: seq<T>, n: nat)
    requires n < |s|
    ensures s[..n + 1] == [s[0]] + s[1..][..n]
  {
  }

  lemma PrefixOfIncomplete(t: bytes, c: nat)
    requires Incomplete(t) && c <= |t|
    ensures Incomplete(t[..c])
  {
  }

  lemma ScanOfIncomplete(rs: seq<Record>, t: bytes)
    requires AllWellFormed(rs) && Incomplete(t)
    ensures Records(EncodeAll(rs) + t) == rs
  {
    ScanOfEncode(rs, t);
    assert rs + [] == rs;
  }

  lemma CutInTail(rs: seq<Record>, t: bytes, n: nat)
    requires AllWellFormed(rs) && Incomplete(t) && |EncodeAll(rs)| < n <= |EncodeAll(rs)| + |t|
    ensures Records((EncodeAll(rs) + t)[..n]) == rs && Whole(rs, n) == |rs|
  {
    var k := n - |EncodeAll(rs)|;
    var cut := t[..k];
    TakeOfAppend(EncodeAll(rs), t, k);
    PrefixOfIncomplete(t, k);
    WholeOfAll(rs, n);
    ScanOfIncomplete(rs, cut);
  }

  lemma CutLog(b: bytes, n: nat)
    requires n <= |b|
    ensures Records(b[..n]) == Records(b)[..Whole(Records(b), n)]
  {
    var rs, t := Records(b), Tail(b);
    EncodeOfScan(b);
    if n <= |EncodeAll(rs)| {
      assert b[..n] == EncodeAll(rs)[..n];
      CrashPrefix(rs, n);
    } else {
      CutInTail(rs, t, n);
      assert rs[..|rs|] == rs;
    }
  }

  /** Cutting any archive anywhere behind its magic: the rescan still opens, and finds exactly
      the records that lie wholly before the cut.  A shorter file that is not empty is refused. */
  lemma CrashAnywhere(data: bytes, c: nat)
    requires HasMagic(data) && c <= |data|
    ensures HasMagic(data[..c]) <==> c >= MAGIC_LENGTH
    ensures c >= MAGIC_LENGTH ==>
      var rs := ScannedRecords(data);
      ScannedRecords(data[..c]) == rs[..Whole(rs, c - MAGIC_LENGTH)]
  {
    if c >= MAGIC_LENGTH {
      CutLog(data[MAGIC_LENGTH..], c - MAGIC_LENGTH);
      CutMagic(data, c);
    }
  }

  lemma CutMagic(data: bytes, c: nat)
    requires MAGIC_LENGTH <= c <= |data|
    ensures data[..c][..MAGIC_LENGTH - 1] == data[..MAGIC_LENGTH - 1]
    ensures data[..c][MAGIC_LENGTH..] == data[MAGIC_LENGTH..][..c - MAGIC_LENGTH]
  {
  }

  lemma {:induction false} WholeOfAll(rs: seq<Record>, c: nat)
    requires c >= |EncodeAll(rs)|
    ensures Whole(rs, c) == |rs|
    decreases |rs|
  {
    if rs != [] {
      WholeOfAll(rs[1..], c - |Encode(rs[0])|);
    }
  }

  // ----- Appending to a cut archive -----

  /** The file position after an archive is opened for appending.  The rewind is skipped when
      the scan consumed the whole file, which includes a cut record of exactly name and header. */
  function AppendCursor(data: bytes): (p: nat)
    requires HasMagic(data)
    ensures MAGIC_LENGTH <= p <= |data|
  {
    if |ScanTail(data)| == PREFIX_LENGTH then |data| else |data| - |ScanTail(data)|
  }

  /** fwrite at a position inside the file. */
  function Overwrite(data: bytes, pos: nat, b: bytes): (d: bytes)
    requires pos <= |data|
    ensures |d| == if pos + |b| <= |data| then |data| else pos + |b|
  {
    data[..pos] + b + if pos + |b| <= |data| then data[pos + |b|..] else []
  }

  /** Old bytes that survive behind the appended ones. */
  function Stale(data: bytes, n: nat): bytes
    requires HasMagic(data)
  {
    var t := ScanTail(data);
    if n <= |t| then t[n..] else []
  }

  lemma MagicKept(data: bytes, d: bytes)
    requires HasMagic(data) && |d| >= MAGIC_LENGTH && d[..MAGIC_LENGTH] == data[..MAGIC_LENGTH]
    ensures HasMagic(d)
  {
    assert d[..MAGIC_LENGTH - 1] == d[..MAGIC_LENGTH][..MAGIC_LENGTH - 1];
    assert data[..MAGIC_LENGTH - 1] == data[..MAGIC_LENGTH][..MAGIC_LENGTH - 1];
  }

  lemma OverwriteAt(a: bytes, t: bytes, b: bytes)
    ensures Overwrite(a + t, |a|, b) == a + (b + if |b| <= |t| then t[|b|..] else [])
  {
    assert (a + t)[..|a|] == a;
  }

  /** An archive with a valid magic is its magic, its records and its tail. */
  lemma Decompose(data: bytes)
    requires HasMagic(data)
    ensures data == (data[..MAGIC_LENGTH] + EncodeAll(ScannedRecords(data))) + ScanTail(data)
  {
    EncodeOfScan(data[MAGIC_LENGTH..]);
    Associative(data[..MAGIC_LENGTH], EncodeAll(ScannedRecords(data)), ScanTail(data));
    assert data == data[..MAGIC_LENGTH] + data[MAGIC_LENGTH..];
  }

  lemma DropMagic(magic: bytes, e: bytes, u: bytes)
    requires |magic| == MAGIC_LENGTH
    ensures ((magic + e) + u)[MAGIC_LENGTH..] == e + u && ((magic + e) + u)[..MAGIC_LENGTH] == magic
  {
  }

  lemma OverwriteCutTail(data: bytes, b: bytes)
    requires HasMagic(data) && |ScanTail(data)| != PREFIX_LENGTH
    ensures var d := Overwrite(data, AppendCursor(data), b);
      HasMagic(d) && d[MAGIC_LENGTH..] == EncodeAll(ScannedRecords(data)) + (b + Stale(data, |b|))
  {
    var magic, e := data[..MAGIC_LENGTH], EncodeAll(ScannedRecords(data));
    Decompose(data);
    OverwriteAt(magic + e, ScanTail(data), b);
    DropMagic(magic, e, b + Stale(data, |b|));
    MagicKept(data, Overwrite(data, AppendCursor(data), b));
  }

  /** Appending whole records to a cut archive: the rescan finds every complete old record,
      then every new one, and only then what stale bytes may look like. */
  lemma AppendAfterCut(data: bytes, added: seq<Record>)
    requires HasMagic(data) && AllWellFormed(added) && |ScanTail(data)| != PREFIX_LENGTH
    ensures var b := EncodeAll(added);
      var d := Overwrite(data, AppendCursor(data), b);
      && HasMagic(d)
      && ScannedRecords(d) == ScannedRecords(data) + (added + Records(Stale(data, |b|)))
      && (|b| >= |ScanTail(data)| ==> ScannedRecords(d) == ScannedRecords(data) + added && ScanTail(d) == [])
  {
    var b, kept := EncodeAll(added), ScannedRecords(data);
    var stale := Stale(data, |b|);
    OverwriteCutTail(data, b);
    ScanOfEncode(kept, b + stale);
    ScanOfEncode(added, stale);
    if |b| >= |ScanTail(data)| {
      assert stale == [];
      assert added + Records(stale) == added;
    }
  }

  /** In terms of keys: nothing old is lost or changed, every new key reads its first new record,
      and stale bytes never shadow either because the first insertion wins. */
  lemma AppendKeepsOldAndNew(data: bytes, added: seq<Record>, f: Naming)
    requires HasMagic(data) && AllWellFormed(added) && |ScanTail(data)| != PREFIX_LENGTH
    ensures var d := Overwrite(data, AppendCursor(data), EncodeAll(added));
      && HasMagic(d)
      && (forall k :: k in ScanView(data, f) ==> k in ScanView(d, f) && ScanView(d, f)[k] == ScanView(data, f)[k])
      && (forall k :: k in View(added, f) && k !in ScanView(data, f) ==>
            k in ScanView(d, f) && ScanView(d, f)[k] == View(added, f)[k])
      && (|EncodeAll(added)| >= |ScanTail(data)| ==> ScanView(d, f) == View(added, f) + ScanView(data, f))
  {
    var kept, stale := ScannedRecords(data), Records(Stale(data, |EncodeAll(added)|));
    AppendAfterCut(data, added);
    ViewAppend(added, stale, f);
    ViewAppend(kept, added + stale, f);
    ViewAppend(kept, added, f);
  }

  /** The case that the source misses.  A record cut right behind its header leaves the cursor at
      the end of the file, and the dangling header swallows what is appended: the first new
      record is found at its own offset if and only if the cut tail is not exactly 56 bytes. */
  lemma AppendFoundIffNotCutAtHeader(data: bytes, added: seq<Record>, f: Naming, k: Key)
    requires HasMagic(data) && AllWellFormed(added) && added != []
    requires f(added[0].name) == Some(k) && k !in ScanIndex(data, f)
    ensures var p := AppendCursor(data);
      var d := Overwrite(data, p, EncodeAll(added));
      && HasMagic(d)
      && ((k in ScanIndex(d, f) && ScanIndex(d, f)[k].offset == p + PREFIX_LENGTH)
          <==> |ScanTail(data)| != PREFIX_LENGTH)
  {
    var b := EncodeAll(added);
    var d := Overwrite(data, AppendCursor(data), b);
    if |ScanTail(data)| != PREFIX_LENGTH {
      OverwriteCutTail(data, b);
      FoundBehindLog(data, d, added, Stale(data, |b|), f, k);
    } else {
      AppendAtEnd(data, b);
      if k in ScanIndex(d, f) {
        SwallowedByHeader(data, d, b, f, k);
      }
    }
  }

  /** It does happen: an archive of one record with a payload, cut right behind the header, loses
      whatever is appended first. */
  lemma CutAtHeaderLoses(r: Record, added: seq<Record>, f: Naming, k: Key)
    requires WellFormed(r) && r.payload != []
    requires AllWellFormed(added) && added != [] && f(added[0].name) == Some(k)
    ensures var whole := (MAGIC + [FORMAT_VERSION]) + Encode(r);
      var data := whole[..MAGIC_LENGTH + PREFIX_LENGTH];
      && HasMagic(data) && AppendCursor(data) == |data|
      && var d := Overwrite(data, |data|, EncodeAll(added));
        HasMagic(d) && (k in ScanIndex(d, f) ==> ScanIndex(d, f)[k].offset != |data| + PREFIX_LENGTH)
  {
    var magic := MAGIC + [FORMAT_VERSION];
    var data := (magic + Encode(r))[..MAGIC_LENGTH + PREFIX_LENGTH];
    TakeOfAppend(magic, Encode(r), PREFIX_LENGTH);
    DropMagic(magic, Encode(r)[..PREFIX_LENGTH], []);
    assert (magic + Encode(r)[..PREFIX_LENGTH]) + [] == data && Encode(r)[..PREFIX_LENGTH] + [] == Encode(r)[..PREFIX_LENGTH];
    assert data[..MAGIC_LENGTH - 1] == MAGIC;
    assert (Encode(r) + [])[..PREFIX_LENGTH] == Encode(r)[..PREFIX_LENGTH];
    PartOfRecordIncomplete(r, [], PREFIX_LENGTH);
    AppendFoundIffNotCutAtHeader(data, added, f, k);
  }

  lemma FoundBehindLog(data: bytes, d: bytes, added: seq<Record>, stale: bytes, f: Naming, k: Key)
    requires HasMagic(data) && HasMagic(d) && AllWellFormed(added) && added != []
    requires d[MAGIC_LENGTH..] == EncodeAll(ScannedRecords(data)) + (EncodeAll(added) + stale)
    requires f(added[0].name) == Some(k) && k !in ScanIndex(data, f)
    ensures k in ScanIndex(d, f) && ScanIndex(d, f)[k].offset == |data| - |ScanTail(data)| + PREFIX_LENGTH
  {
    var u, p := EncodeAll(added) + stale, |data| - |ScanTail(data)|;
    LogLength(data);
    IndexBehind(d, ScannedRecords(data), u, p, f);
    ScanOfEncode(added, stale);
    FirstIndexed(added, Records(stale), p, f, k);
  }

  /** A header at the end of the file is taken for the header of what is appended. */
  lemma SwallowedByHeader(data: bytes, d: bytes, b: bytes, f: Naming, k: Key)
    requires HasMagic(data) && HasMagic(d) && |ScanTail(data)| == PREFIX_LENGTH
    requires d[MAGIC_LENGTH..] == EncodeAll(ScannedRecords(data)) + (ScanTail(data) + b)
    requires k in ScanIndex(d, f) && k !in ScanIndex(data, f)
    ensures ScanIndex(d, f)[k].offset != |data| + PREFIX_LENGTH
  {
    var t := ScanTail(data);
    LogLength(data);
    IndexBehind(d, ScannedRecords(data), t + b, |data| - |t|, f);
    NoEntryThere(t, b, |data| - |t|, f, k);
  }

  /** Whatever lies behind a log is indexed behind what the log holds. */
  lemma IndexBehind(d: bytes, kept: seq<Record>, u: bytes, p: nat, f: Naming)
    requires HasMagic(d) && AllWellFormed(kept) && d[MAGIC_LENGTH..] == EncodeAll(kept) + u
    requires p == MAGIC_LENGTH + |EncodeAll(kept)|
    ensures ScanIndex(d, f) == Index(Records(u), p, f) + Index(kept, MAGIC_LENGTH, f)
  {
    ScanOfEncode(kept, u);
    IndexAppend(kept, Records(u), MAGIC_LENGTH, f);
  }

  lemma LogLength(data: bytes)
    requires HasMagic(data)
    ensures MAGIC_LENGTH + |EncodeAll(ScannedRecords(data))| == |data| - |ScanTail(data)|
  {
    EncodeOfScan(data[MAGIC_LENGTH..]);
  }

  lemma FirstIndexed(rs: seq<Record>, more: seq<Record>, offset: nat, f: Naming, k: Key)
    requires AllWellFormed(rs) && AllWellFormed(more) && rs != [] && f(rs[0].name) == Some(k)
    ensures AllWellFormed(rs + more)
    ensures k in Index(rs + more, offset, f) && Index(rs + more, offset, f)[k].offset == offset + PREFIX_LENGTH
  {
    IndexAppend(rs, more, offset, f);
  }

  /** Of the bytes behind a dangling header none begin a record right behind it. */
  lemma NoEntryThere(t: bytes, b: bytes, start: nat, f: Naming, k: Key)
    requires Incomplete(t) && |t| == PREFIX_LENGTH
    ensures var index := Index(Records(t + b), start, f);
      k in index ==> index[k].offset != start + |t| + PREFIX_LENGTH
  {
    var rs := Records(t + b);
    if k in Index(rs, start, f) {
      SecondRecordStarts(t, b);
      AfterFirst(rs, start, f, k);
    }
  }

  /** Writing at the end of the file prolongs its tail. */
  lemma AppendAtEnd(data: bytes, b: bytes)
    requires HasMagic(data)
    ensures var d := Overwrite(data, |data|, b);
      HasMagic(d) && d[MAGIC_LENGTH..] == EncodeAll(ScannedRecords(data)) + (ScanTail(data) + b)
  {
    var magic, e, t := data[..MAGIC_LENGTH], EncodeAll(ScannedRecords(data)), ScanTail(data);
    Decompose(data);
    OverwriteAt(data, [], b);
    assert data + [] == data && b + [] == b;
    Associative(magic + e, t, b);
    DropMagic(magic, e, t + b);
    MagicKept(data, Overwrite(data, |data|, b));
  }

  /** Whatever is appended to whatever archive, no entry that was there is lost or changed. */
  lemma OldIsKept(data: bytes, b: bytes, f: Naming)
    requires HasMagic(data)
    ensures var d := Overwrite(data, AppendCursor(data), b);
      HasMagic(d) && forall k :: k in ScanView(data, f) ==> k in ScanView(d, f) && ScanView(d, f)[k] == ScanView(data, f)[k]
  {
    if |ScanTail(data)| != PREFIX_LENGTH {
      OverwriteCutTail(data, b);
      ViewBehind(ScannedRecords(data), b + Stale(data, |b|), f);
    } else {
      AppendAtEnd(data, b);
      ViewBehind(ScannedRecords(data), ScanTail(data) + b, f);
    }
  }

  lemma ViewBehind(kept: seq<Record>, u: bytes, f: Naming)
    requires AllWellFormed(kept)
    ensures View(Records(EncodeAll(kept) + u), f) == View(Records(u), f) + View(kept, f)
  {
    ScanOfEncode(kept, u);
    ViewAppend(kept, Records(u), f);
  }

  lemma SecondRecordStarts(t: bytes, b: bytes)
    requires Incomplete(t) && |t| == PREFIX_LENGTH && !Incomplete(t + b)
    ensures |Encode(First(t + b))| > PREFIX_LENGTH && Records(t + b)[0] == First(t + b)
  {
    assert (t + b)[NAME_LENGTH..PREFIX_LENGTH] == t[NAME_LENGTH..PREFIX_LENGTH];
  }

  /** An entry belongs to the first record or lies behind it. */
  lemma AfterFirst(rs: seq<Record>, offset: nat, f: Naming, k: Key)
    requires AllWellFormed(rs) && k in Index(rs, offset, f)
    ensures rs != []
    ensures var e := Index(rs, offset, f)[k].offset;
      e == offset + PREFIX_LENGTH || e >= offset + |Encode(rs[0])| + PREFIX_LENGTH
  {
    if f(rs[0].name) != Some(k) {
      IndexOffsets(rs[1..], offset + |Encode(rs[0])|, f, k);
    }
  }
}
