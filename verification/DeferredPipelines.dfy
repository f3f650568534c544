/** Splitting a parsed chunk into plain and derived pipelines, and enqueueing the derived ones
    whose parent exists (cli/fossilize_replay.cpp). */
module DeferredPipelines {
  import opened Wrappers

  /** What is used of a parsed create info. */
  datatype Info = Info(derivative: bool, basePipeline: nat)

  /** A slot of the deferred list; a slot without info failed to parse or was already replayed. */
  datatype Deferred = Deferred(info: Option<Info>, hash: nat, index: nat)

  /** The comparison counts an empty slot as derived. */
  predicate CountsAsDerived(d: Deferred) {
    d.info.None? || d.info.value.derivative
  }

  predicate Plain(d: Deferred) {
    d.info.Some? && !d.info.value.derivative
  }

  predicate Derived(d: Deferred) {
    d.info.Some? && d.info.value.derivative
  }

  predicate Less(a: Deferred, b: Deferred) {
    if CountsAsDerived(a) == CountsAsDerived(b) then a.index < b.index else CountsAsDerived(b)
  }

  predicate Ordered(s: seq<Deferred>) {
    forall i, j :: 0 <= i < j < |s| ==> !Less(s[j], s[i])
  }

  /** Exactly the elements of a list that have a property, with their multiplicity. */
  ghost predicate Exactly(part: seq<Deferred>, whole: seq<Deferred>, p: Deferred -> bool) {
    forall d :: multiset(part)[d] == if p(d) then multiset(whole)[d] else 0
  }

  /** Sorting by the comparison, in place in the original: plain slots come first, and slots of the same
      kind by increasing index. */
  method Sort(s: seq<Deferred>) returns (r: seq<Deferred>)
    ensures Ordered(r) && multiset(r) == multiset(s)
    ensures forall i, j :: 0 <= i < j < |r| ==>
      && (Plain(r[j]) ==> Plain(r[i])) && (Plain(r[i]) == Plain(r[j]) ==> r[i].index <= r[j].index)
  {
    r := [];
    for i := 0 to |s|
      invariant Ordered(r) && multiset(r) == multiset(s[..i])
    {
      assert s[..i + 1] == s[..i] + [s[i]];
      r := Inserted(r, s[i]);
    }
    assert s[..|s|] == s;
  }

  function Inserted(s: seq<Deferred>, d: Deferred): (r: seq<Deferred>)
    requires Ordered(s)
    ensures Ordered(r) && multiset(r) == multiset(s) + multiset{d}
  {
    if s == [] || Less(d, s[0]) then
      [d] + s
    else
      var t := Inserted(s[1..], d);
      InsertedFront(s, d, t);
      [s[0]] + t
  }

  lemma InsertedFront(s: seq<Deferred>, d: Deferred, t: seq<Deferred>)
    requires s != [] && Ordered(s) && !Less(d, s[0]) && Ordered(t) && multiset(t) == multiset(s[1..]) + multiset{d}
    ensures Ordered([s[0]] + t) && multiset([s[0]] + t) == multiset(s) + multiset{d}
  {
    assert s == [s[0]] + s[1..];
    forall j | 0 <= j < |t|
      ensures !Less(t[j], s[0])
    {
      assert t[j] in multiset(t);
      if t[j] != d {
        assert t[j] in multiset(s[1..]);
        assert t[j] in s[1..];
      }
    }
  }

  /** Sorts the slots, finds the end of the plain ones, and moves the rest without the empty
      slots to the derived list.  If there is no plain slot at all, the split point stays at the
      end of the list. */
  method SortDeferredDerivedPipelines(slots: seq<Deferred>) returns (deferred: seq<Deferred>, derived: seq<Deferred>)
    ensures forall i, j :: 0 <= i < j < |deferred| ==> deferred[i].index <= deferred[j].index
    ensures forall i, j :: 0 <= i < j < |derived| ==> derived[i].index <= derived[j].index
    ensures Exactly(deferred, slots, Plain) && Exactly(derived, slots, Derived)
       <==> slots == [] || exists d :: d in slots && Plain(d)
    ensures (forall d :: d in slots ==> !Plain(d)) ==> multiset(deferred) == multiset(slots) && derived == []
  {
    var sorted := Sort(slots);
    var endIndexNonDerived := FindSplit(sorted);
    SplitOutcome(slots, sorted, endIndexNonDerived);
    IndexOrder(sorted, endIndexNonDerived);
    deferred := sorted[..endIndexNonDerived];
    derived := WithoutEmpty(sorted[endIndexNonDerived..]);
  }

  method FindSplit(sorted: seq<Deferred>) returns (endIndexNonDerived: nat)
    ensures endIndexNonDerived <= |sorted| && SplitSoFar(sorted, endIndexNonDerived, |sorted|)
  {
    endIndexNonDerived := |sorted|;
    var index: nat := 0;
    for i := 0 to |sorted|
      invariant index == i && endIndexNonDerived <= |sorted| && SplitSoFar(sorted, endIndexNonDerived, i)
    {
      SplitSoFarStep(sorted, endIndexNonDerived, i);
      index := index + 1;
      if sorted[i].info.Some? && !sorted[i].info.value.derivative {
        endIndexNonDerived := index;
      }
    }
  }

  /** Both parts are by increasing index. */
  lemma IndexOrder(sorted: seq<Deferred>, end: nat)
    requires Ordered(sorted) && end <= |sorted| && SplitSoFar(sorted, end, |sorted|)
    ensures forall i, j :: 0 <= i < j < |sorted[..end]| ==> sorted[..end][i].index <= sorted[..end][j].index
    ensures var derived := WithoutEmpty(sorted[end..]);
      forall i, j :: 0 <= i < j < |derived| ==> derived[i].index <= derived[j].index
  {
    OrderedParts(sorted, end);
    PartsAreUniform(sorted, end);
    UniformByIndex(sorted[..end]);
    WithoutEmptyOrdered(sorted[end..]);
    UniformByIndex(WithoutEmpty(sorted[end..]));
  }

  lemma UniformByIndex(s: seq<Deferred>)
    requires Ordered(s) && forall i, j :: 0 <= i < j < |s| ==> Plain(s[i]) == Plain(s[j])
    ensures forall i, j :: 0 <= i < j < |s| ==> s[i].index <= s[j].index
  {
    forall i, j | 0 <= i < j < |s|
      ensures s[i].index <= s[j].index
    {
      assert !Less(s[j], s[i]);
    }
  }

  /** In front of the split all slots are plain, or none is; behind it none is. */
  lemma PartsAreUniform(sorted: seq<Deferred>, end: nat)
    requires Ordered(sorted) && end <= |sorted| && SplitSoFar(sorted, end, |sorted|)
    ensures forall i, j :: 0 <= i < j < end ==> Plain(sorted[i]) == Plain(sorted[j])
    ensures forall d :: d in sorted[end..] ==> !Plain(d)
  {
    if exists j :: 0 <= j < |sorted| && Plain(sorted[j]) {
      forall i | 0 <= i < end - 1
        ensures Plain(sorted[i])
      {
        assert !Less(sorted[end - 1], sorted[i]);
      }
    }
  }

  lemma OrderedParts(sorted: seq<Deferred>, end: nat)
    requires Ordered(sorted) && end <= |sorted|
    ensures Ordered(sorted[..end]) && Ordered(sorted[end..])
  {
  }

  /** The split point of the first i slots: behind their last plain one, or at the end of all if
      there is none. */
  predicate SplitSoFar(sorted: seq<Deferred>, end: nat, i: nat)
    requires i <= |sorted|
  {
    if exists j :: 0 <= j < i && Plain(sorted[j])
    then 0 < end <= i && Plain(sorted[end - 1]) && forall j :: end <= j < i ==> !Plain(sorted[j])
    else end == |sorted|
  }

  lemma SplitSoFarStep(sorted: seq<Deferred>, end: nat, i: nat)
    requires i < |sorted| && SplitSoFar(sorted, end, i)
    ensures SplitSoFar(sorted, if Plain(sorted[i]) then i + 1 else end, i + 1)
  {
    if !Plain(sorted[i]) && exists j :: 0 <= j < i && Plain(sorted[j]) {
      var j :| 0 <= j < i && Plain(sorted[j]);
      assert 0 <= j < i + 1 && Plain(sorted[j]);
    }
  }

  lemma SplitOutcome(slots: seq<Deferred>, sorted: seq<Deferred>, end: nat)
    requires Ordered(sorted) && multiset(sorted) == multiset(slots) && end <= |sorted| && SplitSoFar(sorted, end, |sorted|)
    ensures Exactly(sorted[..end], slots, Plain) && Exactly(WithoutEmpty(sorted[end..]), slots, Derived)
       <==> slots == [] || exists d :: d in slots && Plain(d)
    ensures (forall d :: d in slots ==> !Plain(d)) ==> sorted[..end] == sorted && sorted[end..] == []
  {
    SameElements(sorted, slots);
    if exists d :: d in slots && Plain(d) {
      var d :| d in slots && Plain(d);
      assert d in sorted;
      SplitIsExact(slots, sorted, end);
    } else {
      forall j | 0 <= j < |sorted|
        ensures !Plain(sorted[j])
      {
        assert sorted[j] in sorted;
      }
      assert sorted[..end] == sorted;
      if slots != [] {
        assert multiset(sorted)[slots[0]] > 0 && !Plain(slots[0]);
      }
    }
  }

  lemma SameElements(a: seq<Deferred>, b: seq<Deferred>)
    requires multiset(a) == multiset(b)
    ensures |a| == |b| && forall d :: d in a <==> d in b
  {
    assert |multiset(a)| == |a| && |multiset(b)| == |b|;
    forall d
      ensures d in a <==> d in b
    {
      assert d in a <==> d in multiset(a);
      assert d in b <==> d in multiset(b);
    }
  }

  /** remove_if of the slots without info, which keeps the order. */
  function WithoutEmpty(s: seq<Deferred>): (r: seq<Deferred>)
    ensures forall d :: d in r ==> d in s
  {
    if s == [] then []
    else if s[0].info.None? then WithoutEmpty(s[1..])
    else [s[0]] + WithoutEmpty(s[1..])
  }

  lemma {:induction false} WithoutEmptyCounts(s: seq<Deferred>, d: Deferred)
    ensures multiset(WithoutEmpty(s))[d] == if d.info.Some? then multiset(s)[d] else 0
  {
    if s != [] {
      assert s == [s[0]] + s[1..];
      WithoutEmptyCounts(s[1..], d);
    }
  }

  lemma {:induction false} WithoutEmptyOrdered(s: seq<Deferred>)
    requires Ordered(s)
    ensures Ordered(WithoutEmpty(s))
  {
    if s != [] {
      WithoutEmptyOrdered(s[1..]);
      forall d | d in s[1..]
        ensures !Less(d, s[0])
      {
        var j :| 0 <= j < |s[1..]| && s[1..][j] == d;
        assert s[j + 1] == d;
      }
    }
  }

  /** With a plain slot, the split point separates plain from derived exactly. */
  lemma SplitIsExact(slots: seq<Deferred>, sorted: seq<Deferred>, end: nat)
    requires Ordered(sorted) && multiset(sorted) == multiset(slots)
    requires 0 < end <= |sorted| && Plain(sorted[end - 1])
    requires forall j :: end <= j < |sorted| ==> !Plain(sorted[j])
    ensures Exactly(sorted[..end], slots, Plain)
    ensures Exactly(WithoutEmpty(sorted[end..]), slots, Derived)
  {
    assert sorted == sorted[..end] + sorted[end..];
    forall j | 0 <= j < end
      ensures Plain(sorted[j])
    {
      if j < end - 1 {
        assert !Less(sorted[end - 1], sorted[j]);
      }
    }
    forall d
      ensures multiset(sorted[..end])[d] == if Plain(d) then multiset(slots)[d] else 0
      ensures !Plain(d) ==> multiset(sorted[end..])[d] == multiset(slots)[d]
      ensures multiset(WithoutEmpty(sorted[end..]))[d] == if Derived(d) then multiset(slots)[d] else 0
    {
      if d in sorted[..end] {
        var j :| 0 <= j < end && sorted[j] == d;
      }
      if d in sorted[end..] {
        var j :| end <= j < |sorted| && sorted[j] == d;
      }
      WithoutEmptyCounts(sorted[end..], d);
    }
  }

  /** A partition in place: what does not match comes first, and nothing is lost. */
  method UnstableRemoveIf<T>(a: array<T>, p: T -> bool) returns (first: nat)
    modifies a
    ensures first <= a.Length
    ensures forall i :: 0 <= i < first ==> !p(a[i])
    ensures forall i :: first <= i < a.Length ==> p(a[i])
    ensures multiset(a[..]) == old(multiset(a[..]))
  {
    first := 0;
    var last := a.Length;
    while first != last
      invariant 0 <= first <= last <= a.Length
      invariant forall i :: 0 <= i < first ==> !p(a[i])
      invariant forall i :: last <= i < a.Length ==> p(a[i])
      invariant multiset(a[..]) == old(multiset(a[..]))
      decreases last - first
    {
      if p(a[first]) {
        last := last - 1;
        Swap(a, first, last);
      } else {
        first := first + 1;
      }
    }
  }

  method Swap<T>(a: array<T>, i: nat, j: nat)
    requires i < a.Length && j < a.Length
    modifies a
    ensures a[..] == old(a[..])[i := old(a[j])][j := old(a[i])]
    ensures multiset(a[..]) == old(multiset(a[..]))
  {
    a[i], a[j] := a[j], a[i];
  }

  predicate HasParent(d: Deferred, pipelines: set<nat>) {
    d.info.Some? && d.info.value.basePipeline in pipelines
  }

  /** The derived pass: derived pipelines whose parent is known are enqueued, each once; the
      others are counted as skipped. */
  method EnqueueDerived(derived: array<Deferred>, pipelines: set<nat>) returns (enqueued: seq<Deferred>, skipped: nat)
    modifies derived
    ensures skipped + |enqueued| == derived.Length
    ensures multiset(enqueued + derived[..skipped]) == old(multiset(derived[..]))
    ensures forall d :: d in enqueued ==> d.info.Some? && d.info.value.basePipeline in pipelines
    ensures forall i :: 0 <= i < skipped ==>
      derived[i].info.None? || derived[i].info.value.basePipeline !in pipelines
  {
    var hasParent := (d: Deferred) => HasParent(d, pipelines);
    skipped := UnstableRemoveIf(derived, hasParent);
    enqueued := [];
    var i := skipped;
    while i != derived.Length
      invariant skipped <= i <= derived.Length && enqueued == derived[skipped..i]
    {
      if derived[i].info.Some? {
        enqueued := enqueued + [derived[i]];
      }
      i := i + 1;
    }
    assert derived[..] == derived[..skipped] + enqueued;
  }
}
