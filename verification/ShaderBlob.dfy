/** Shader module blobs (fossilize.cpp): a JSON document, a NUL, and the code as varints. */
module ShaderBlob {
  import opened Words
  import opened Wrappers
  import Varint

  /** The JSON members that say where the code is: bytes of varint from an offset behind the NUL. */
  datatype Header = Header(hash: nat, varintOffset: nat, varintSize: nat, codeSize: nat)

  /** The JSON writer and reader, which are a library's. */
  datatype Json = Json(write: Header -> seq<byte>, read: seq<byte> -> Option<Header>)

  /** The reader undoes the writer, and the writer escapes NULs. */
  ghost predicate Sound(json: Json) {
    forall h :: json.read(json.write(h)) == Some(h) && 0 !in json.write(h)
  }

  /** Where the first NUL is, or the length if there is none. */
  function FirstNul(blob: seq<byte>): (i: nat)
    ensures i <= |blob| && (i < |blob| ==> blob[i] == 0) && forall j :: 0 <= j < i ==> blob[j] != 0
  {
    if blob == [] || blob[0] == 0 then 0 else 1 + FirstNul(blob[1..])
  }

  function Document(blob: seq<byte>): seq<byte> {
    blob[..FirstNul(blob)]
  }

  function Payload(blob: seq<byte>): seq<byte> {
    if FirstNul(blob) < |blob| then blob[FirstNul(blob) + 1..] else []
  }

  function Serialize(json: Json, hash: nat, codeSize: nat, words: seq<uint32>): seq<byte> {
    json.write(Header(hash, 0, Varint.Size(words), codeSize)) + ([0] + Varint.Encode(words))
  }

  function LoadCode(payload: seq<byte>, h: Header): Option<seq<uint32>> {
    if h.varintOffset + h.varintSize > |payload| then None
    else Varint.Decode(payload[h.varintOffset..h.varintOffset + h.varintSize], h.codeSize / 4)
  }

  function Parse(json: Json, blob: seq<byte>): Option<(Header, seq<uint32>)> {
    var h := json.read(Document(blob));
    if h.None? then None
    else
      var words := LoadCode(Payload(blob), h.value);
      if words.None? then None else Some((h.value, words.value))
  }

  /** A document and a payload joined by a NUL come apart again exactly if the document has none;
      the payload may. */
  lemma SplitExactly(document: seq<byte>, payload: seq<byte>)
    ensures var blob := document + ([0] + payload);
      (Document(blob) == document && Payload(blob) == payload) <==> 0 !in document
  {
    var blob := document + ([0] + payload);
    assert blob[|document|] == 0 && blob[|document| + 1..] == payload && blob[..|document|] == document;
    if 0 in document {
      var k :| 0 <= k < |document| && document[k] == 0;
      assert blob[k] == 0 && FirstNul(blob) <= k;
    }
  }

  lemma LoadsAll(payload: seq<byte>, h: Header)
    requires h.varintOffset == 0 && h.varintSize == |payload|
    ensures LoadCode(payload, h) == Varint.Decode(payload, h.codeSize / 4)
  {
    assert payload[0..|payload|] == payload;
  }

  /** Code is found at whatever offset the document says. */
  lemma LoadsAtOffset(before: seq<byte>, words: seq<uint32>, behind: seq<byte>, h: Header)
    requires h.varintOffset == |before| && h.varintSize == Varint.Size(words) && h.codeSize / 4 == |words|
    ensures LoadCode(before + (Varint.Encode(words) + behind), h) == Some(words)
  {
    Varint.RoundTrip(words);
    LoadedAt(before, Varint.Encode(words), behind, h, |words|);
  }

  lemma LoadedAt(before: seq<byte>, code: seq<byte>, behind: seq<byte>, h: Header, n: nat)
    requires h.varintOffset == |before| && h.varintSize == |code| && h.codeSize / 4 == n
    ensures LoadCode(before + (code + behind), h) == Varint.Decode(code, n)
  {
    Middle(before, code, behind);
  }

  lemma Middle<T>(a: seq<T>, b: seq<T>, c: seq<T>)
    ensures (a + (b + c))[|a|..|a| + |b|] == b
  {
  }

  lemma ModuleRoundTrip(json: Json, hash: nat, codeSize: nat, words: seq<uint32>)
    requires Sound(json) && |words| == codeSize / 4
    ensures Parse(json, Serialize(json, hash, codeSize, words))
         == Some((Header(hash, 0, Varint.Size(words), codeSize), words))
  {
    var h := Header(hash, 0, Varint.Size(words), codeSize);
    var document, payload := json.write(h), Varint.Encode(words);
    assert json.read(document) == Some(h) && 0 !in document;
    SplitExactly(document, payload);
    LoadsAll(payload, h);
    Varint.RoundTrip(words);
  }

  /** A blob that was cut behind its document does not load, unless all it lost is the NUL of a
      module without code. */
  lemma CutModuleFails(json: Json, hash: nat, codeSize: nat, words: seq<uint32>, n: nat)
    requires Sound(json) && |words| == codeSize / 4
    requires |json.write(Header(hash, 0, Varint.Size(words), codeSize))| <= n
    requires n < |Serialize(json, hash, codeSize, words)|
    ensures Parse(json, Serialize(json, hash, codeSize, words)[..n]).None? <==> words != []
  {
    var h := Header(hash, 0, Varint.Size(words), codeSize);
    var document, payload := json.write(h), Varint.Encode(words);
    var cut := Serialize(json, hash, codeSize, words)[..n];
    assert json.read(document) == Some(h);
    if n == |document| {
      assert cut == document;
      assert cut[..|cut|] == cut && Varint.Decode([], 0) == Some([]);
      assert words == [] ==> Payload(cut)[0..0] == [];
    } else {
      var rest := payload[..n - |document| - 1];
      assert cut == document + ([0] + rest);
      SplitExactly(document, rest);
    }
  }

  /** Finds the NUL, as the reader does. */
  method Split(blob: seq<byte>) returns (document: seq<byte>, payload: seq<byte>)
    ensures document == Document(blob) && payload == Payload(blob)
  {
    var itr := 0;
    while itr < |blob| && blob[itr] != 0
      invariant itr <= |blob| && forall j :: 0 <= j < itr ==> blob[j] != 0
    {
      itr := itr + 1;
    }
    document, payload := blob[..itr], [];
    if itr < |blob| {
      payload := blob[itr + 1..];
    }
    assert FirstNul(blob) == itr;
  }
}
