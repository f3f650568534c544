/** Whole runs of the object cache of util/object_cache.hpp: its contents stay in the order of last
    use, so what pruning cuts off is what was used least recently. */
module CacheRecency {
  import opened IntrusiveLists
  import opened ObjectCaches

  datatype Use = Insert(item: Item) | Find(hash: nat) | Prune(target: nat) | Delete

  function Step(items: seq<Item>, use: Use): seq<Item> {
    match use
    case Insert(item) => [item] + items
    case Find(hash) => Used(items, hash)
    case Prune(target) => items[..KeptLength(items, target)]
    case Delete => []
  }

  function After(run: seq<Use>): seq<Item> {
    if run == [] then [] else Step(After(run[..|run| - 1]), run[|run| - 1])
  }

  /** Every insertion is of a hash that is not cached at that time. */
  predicate Legal(run: seq<Use>) {
    run != [] ==>
      var front, use := run[..|run| - 1], run[|run| - 1];
      Legal(front) && (use.Insert? ==> Position(After(front), use.item.hash) == |After(front)|)
  }

  predicate Mentions(use: Use, hash: nat) {
    (use.Insert? && use.item.hash == hash) || (use.Find? && use.hash == hash)
  }

  /** How many steps of the run had passed when a hash was last inserted or asked for. */
  function LastUse(run: seq<Use>, hash: nat): (t: nat)
    ensures t <= |run|
  {
    if run == [] then 0
    else if Mentions(run[|run| - 1], hash) then |run|
    else LastUse(run[..|run| - 1], hash)
  }

  predicate Recent(run: seq<Use>, items: seq<Item>) {
    forall i, j :: 0 <= i < j < |items| ==> LastUse(run, items[i].hash) > LastUse(run, items[j].hash)
  }

  lemma {:induction false} ContentsAreInOrderOfLastUse(run: seq<Use>)
    requires Legal(run)
    ensures Recent(run, After(run))
  {
    if run != [] {
      var front := run[..|run| - 1];
      ContentsAreInOrderOfLastUse(front);
      forall i, j | 0 <= i < j < |After(run)|
        ensures LastUse(run, After(run)[i].hash) > LastUse(run, After(run)[j].hash)
      {
        OrderStep(run, After(front), i, j);
      }
    }
  }

  /** The last step of a run leaves any two items in order. */
  lemma OrderStep(run: seq<Use>, items: seq<Item>, i: nat, j: nat)
    requires run != [] && Legal(run) && items == After(run[..|run| - 1]) && Recent(run[..|run| - 1], items)
    requires i < j < |Step(items, run[|run| - 1])|
    ensures var items' := Step(items, run[|run| - 1]);
      LastUse(run, items'[i].hash) > LastUse(run, items'[j].hash)
  {
    var front, use := run[..|run| - 1], run[|run| - 1];
    var a, b := Origin(items, use, i), Origin(items, use, j);
    StepPlaces(items, use, i);
    StepPlaces(items, use, j);
    NotMentioned(front, items, use, j);
    if !Mentions(use, Step(items, use)[i].hash) {
      assert a < b < |items|;
    }
  }

  /** A step mentions no item but the one it leaves in front. */
  lemma NotMentioned(front: seq<Use>, items: seq<Item>, use: Use, j: nat)
    requires Recent(front, items) && 0 < j < |Step(items, use)|
    requires use.Insert? ==> Position(items, use.item.hash) == |items|
    ensures !Mentions(use, Step(items, use)[j].hash)
  {
    StepPlaces(items, use, j);
    if use.Insert? {
      OnlyThere(front, items, use.item.hash, Origin(items, use, j));
    } else if use.Find? {
      OnlyThere(front, items, use.hash, Origin(items, use, j));
    }
  }

  /** Items in order of last use have different hashes. */
  lemma OnlyThere(front: seq<Use>, items: seq<Item>, hash: nat, b: nat)
    requires Recent(front, items) && b < |items| && b != Position(items, hash)
    ensures items[b].hash != hash
  {
    var at := Position(items, hash);
    if at < b {
      assert LastUse(front, items[at].hash) > LastUse(front, items[b].hash);
    }
  }

  /** Where the item at a place came from; past the end for a new one. */
  function Origin(items: seq<Item>, use: Use, i: nat): nat {
    match use
    case Insert(item) => if i == 0 then |items| else i - 1
    case Find(hash) =>
      var at := Position(items, hash);
      if at == |items| then i else if i == 0 then at else if i <= at then i - 1 else i
    case Prune(_) => i
    case Delete => i
  }

  lemma StepPlaces(items: seq<Item>, use: Use, i: nat)
    requires i < |Step(items, use)|
    ensures Origin(items, use, i) < |items| || (use.Insert? && i == 0)
    ensures Step(items, use)[i] == if use.Insert? && i == 0 then use.item else items[Origin(items, use, i)]
  {
  }

  lemma {:induction false} LegalPrefix(run: seq<Use>, i: nat)
    requires Legal(run) && i <= |run|
    ensures Legal(run[..i])
    decreases |run|
  {
    if i < |run| {
      LegalPrefix(run[..|run| - 1], i);
      assert run[..|run| - 1][..i] == run[..i];
    } else {
      assert run[..i] == run;
    }
  }

  /** One use of the cache itself has the effect it has on the contents. */
  method UseOnce(cache: ObjectCache, use: Use)
    requires cache.Valid()
    requires use.Insert? ==> Position(cache.Contents, use.item.hash) == |cache.Contents|
    modifies cache, cache.pool, cache.lruCache, cache.Repr()
    ensures cache.Valid() && cache.Contents == Step(old(cache.Contents), use)
    ensures forall e :: e in cache.Repr() ==> e in old(cache.Repr()) || fresh(e)
  {
    match use {
      case Insert(item) =>
        HashesFound(cache.Contents, item.hash);
        cache.InsertObject(item.hash, item.object_, item.size);
      case Find(hash) =>
        var object_, found := cache.FindObject(hash);
      case Prune(target) =>
        cache.SetTargetSize(target);
        var deleted := cache.PruneCache();
        KeptIsUnique(old(cache.Contents), target, |cache.Contents|);
        assert cache.Contents == old(cache.Contents)[..|cache.Contents|];
      case Delete =>
        var deleted := cache.DeleteCache();
    }
  }

  method UseNext(cache: ObjectCache, run: seq<Use>, i: nat)
    requires Legal(run) && i < |run| && cache.Valid() && cache.Contents == After(run[..i])
    modifies cache, cache.pool, cache.lruCache, cache.Repr()
    ensures cache.Valid() && cache.Contents == After(run[..i + 1])
    ensures forall e :: e in cache.Repr() ==> e in old(cache.Repr()) || fresh(e)
  {
    NextUse(run, i, cache.Contents);
    UseOnce(cache, run[i]);
  }

  lemma NextUse(run: seq<Use>, i: nat, items: seq<Item>)
    requires Legal(run) && i < |run| && items == After(run[..i])
    ensures After(run[..i + 1]) == Step(items, run[i])
    ensures run[i].Insert? ==> Position(items, run[i].item.hash) == |items|
  {
    assert run[..i + 1][..i] == run[..i];
    LegalPrefix(run, i + 1);
  }

  /** The cache itself, driven through any run in which insertions are of hashes not cached, holds
      exactly the items of the run, in the order of last use. */
  method Drive(run: seq<Use>) returns (cache: ObjectCache)
    requires Legal(run)
    ensures cache.Valid() && cache.Contents == After(run) && Recent(run, cache.Contents)
  {
    cache := new ObjectCache();
    for i := 0 to |run|
      invariant fresh(cache) && fresh(cache.pool) && fresh(cache.lruCache) && fresh(cache.Repr())
      invariant cache.Valid() && cache.Contents == After(run[..i])
    {
      UseNext(cache, run, i);
    }
    ContentsAreInOrderOfLastUse(run);
    assert run[..|run|] == run;
  }
}
