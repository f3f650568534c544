/** The least-recently-used object cache of util/object_cache.hpp: a linked list in recency
    order, a hash map into it, a running size total and a pool of entries. */
module ObjectCaches {
  import opened IntrusiveLists

  function Total(items: seq<Item>): nat {
    if items == [] then 0 else items[0].size + Total(items[1..])
  }

  /** Position of a hash, or the length if it is not there. */
  function Position(items: seq<Item>, hash: nat): (i: nat)
    ensures i <= |items|
    ensures i < |items| ==> items[i].hash == hash
    ensures forall j :: 0 <= j < i ==> items[j].hash != hash
  {
    if items == [] || items[0].hash == hash then 0 else 1 + Position(items[1..], hash)
  }

  /** The items after a hash has been used: it moves to the front. */
  function Used(items: seq<Item>, hash: nat): seq<Item> {
    var i := Position(items, hash);
    if i == |items| then items else Moved(items, i)
  }

  function Hashes(items: seq<Item>): set<nat> {
    if items == [] then {} else {items[0].hash} + Hashes(items[1..])
  }

  lemma {:induction false} HashesSplit(a: seq<Item>, b: seq<Item>)
    ensures Hashes(a + b) == Hashes(a) + Hashes(b)
  {
    if a == [] {
      assert a + b == b;
    } else {
      assert (a + b)[1..] == a[1..] + b;
      HashesSplit(a[1..], b);
    }
  }

  lemma {:induction false} HashesFound(items: seq<Item>, hash: nat)
    ensures hash in Hashes(items) <==> Position(items, hash) < |items|
  {
    if items != [] {
      HashesFound(items[1..], hash);
    }
  }

  /** How many of the most recent items stay when a total is enforced. */
  predicate Kept(items: seq<Item>, target: nat, n: nat) {
    n <= |items| && Total(items[..n]) <= target && TooLarge(items, target, n)
  }

  /** The longest prefix within a target. */
  function KeptLength(items: seq<Item>, target: nat): (n: nat)
    ensures n <= |items|
  {
    if Total(items) <= target then |items| else KeptLength(items[..|items| - 1], target)
  }

  /** What is kept is determined. */
  lemma {:induction false} KeptIsUnique(items: seq<Item>, target: nat, n: nat)
    requires Kept(items, target, n)
    ensures n == KeptLength(items, target)
    decreases |items|
  {
    assert items[..|items|] == items;
    if n < |items| {
      var front := items[..|items| - 1];
      assert forall m :: 0 <= m <= |front| ==> front[..m] == items[..m];
      KeptIsUnique(front, target, n);
    }
  }

  /** Every longer prefix is over the target. */
  predicate TooLarge(items: seq<Item>, target: nat, n: nat) {
    forall m :: n < m <= |items| ==> Total(items[..m]) > target
  }

  lemma TooLargeOne(items: seq<Item>, target: nat, n: nat)
    requires 0 < n <= |items| && TooLarge(items, target, n) && Total(items[..n]) > target
    ensures TooLarge(items, target, n - 1)
  {
  }

  /** The deleted items are those after the first n, the least recently used one first. */
  predicate DeletedFrom(items: seq<Item>, n: nat, deleted: seq<Item>) {
    && |deleted| + n == |items|
    && forall k :: 0 <= k < |deleted| ==> deleted[k] == items[|items| - 1 - k]
  }

  lemma DeletedOne(items: seq<Item>, n: nat, deleted: seq<Item>, item: Item)
    requires DeletedFrom(items, n, deleted) && n > 0 && item == items[n - 1]
    ensures DeletedFrom(items, n - 1, deleted + [item])
  {
  }

  /** The items behind the first n have been deleted, and not too early. */
  predicate Pruned(items: seq<Item>, target: nat, n: nat, deleted: seq<Item>) {
    DeletedFrom(items, n, deleted) && TooLarge(items, target, n)
  }

  lemma PrunedOne(items: seq<Item>, target: nat, n: nat, deleted: seq<Item>, item: Item)
    requires 0 < n <= |items| && Pruned(items, target, n, deleted)
    requires item == items[n - 1] && Total(items[..n]) > target
    ensures Pruned(items, target, n - 1, deleted + [item])
  {
    DeletedOne(items, n, deleted, item);
    TooLargeOne(items, target, n);
  }

  /** Nothing is deleted if all fits, and what is deleted last did not fit. */
  lemma LastDeleted(items: seq<Item>, target: nat, n: nat, deleted: seq<Item>)
    requires Pruned(items, target, n, deleted) && Total(items[..n]) <= target
    ensures deleted == [] <==> Total(items) <= target
    ensures deleted != [] ==> Total(items[..n]) + deleted[|deleted| - 1].size > target
  {
    assert items[..|items|] == items;
    if deleted != [] {
      assert items[..n + 1] == items[..n] + [items[n]];
      TotalSplit(items[..n], [items[n]]);
      TotalOne(items[n]);
    }
  }

  lemma WithoutLast<T>(s: seq<T>)
    requires s != []
    ensures Without(s, |s| - 1) == s[..|s| - 1]
  {
  }

  lemma Rest<T>(s: seq<T>, n: nat)
    requires n < |s|
    ensures Without(s[n..], 0) == s[n + 1..] && s[n..][0] == s[n] && s[..n] + [s[n]] == s[..n + 1]
    ensures forall x :: x in s[n..] ==> x in s
  {
  }

  lemma TakeTake<T>(s: seq<T>, n: nat)
    requires 0 < n <= |s|
    ensures s[..n][..n - 1] == s[..n - 1] && s[..n][n - 1] == s[n - 1]
    ensures forall x :: x in s[..n] ==> x in s
  {
  }

  lemma {:induction false} TotalSplit(a: seq<Item>, b: seq<Item>)
    ensures Total(a + b) == Total(a) + Total(b)
  {
    if a == [] {
      assert a + b == b;
    } else {
      assert (a + b)[1..] == a[1..] + b;
      TotalSplit(a[1..], b);
    }
  }

  lemma TotalOne(x: Item)
    ensures Total([x]) == x.size && Hashes([x]) == {x.hash}
  {
    assert [x][1..] == [];
  }

  /** Taking an item out of its place. */
  lemma {:induction false} TotalWithout(items: seq<Item>, i: nat)
    requires i < |items|
    ensures Total(items) == items[i].size + Total(Without(items, i))
    ensures Hashes(items) == {items[i].hash} + Hashes(Without(items, i))
  {
    var a, x, b := items[..i], [items[i]], items[i + 1..];
    assert items == a + (x + b) && Without(items, i) == a + b;
    TotalThree(a, x, b);
    TotalOne(items[i]);
  }

  lemma {:induction false} TotalThree(a: seq<Item>, x: seq<Item>, b: seq<Item>)
    ensures Total(a + (x + b)) == Total(x) + Total(a + b)
    ensures Hashes(a + (x + b)) == Hashes(x) + Hashes(a + b)
  {
    TotalSplit(a, x + b);
    TotalSplit(x, b);
    TotalSplit(a, b);
    HashesSplit(a, x + b);
    HashesSplit(x, b);
    HashesSplit(a, b);
  }

  lemma PositionIs(items: seq<Item>, hash: nat, at: nat)
    requires at < |items| && items[at].hash == hash
    requires forall j :: 0 <= j < at ==> items[j].hash != hash
    ensures Position(items, hash) == at
  {
  }

  /** Using an item keeps the total. */
  lemma TotalMoved(items: seq<Item>, at: nat, items': seq<Item>)
    requires at < |items| && items' == Moved(items, at)
    ensures Total(items') == Total(items) && Hashes(items') == Hashes(items)
  {
    TotalWithout(items, at);
    assert items'[1..] == Without(items, at);
  }

  /** One node per item, in order. */
  ghost predicate Mirrors(nodes: seq<Entry>, items: seq<Item>)
    reads nodes`item
  {
    |nodes| == |items| && MirrorsFrom(nodes, items, 0)
  }

  ghost predicate MirrorsFrom(nodes: seq<Entry>, items: seq<Item>, i: nat)
    requires i <= |nodes| == |items|
    reads nodes`item
    decreases |nodes| - i
  {
    i < |nodes| ==> items[i] == nodes[i].item && MirrorsFrom(nodes, items, i + 1)
  }

  lemma {:induction false} MirrorsEverywhere(nodes: seq<Entry>, items: seq<Item>, k: nat)
    requires k <= |nodes| == |items|
    ensures MirrorsFrom(nodes, items, k) <==> forall i :: k <= i < |nodes| ==> items[i] == nodes[i].item
    decreases |nodes| - k
  {
    if k < |nodes| {
      MirrorsEverywhere(nodes, items, k + 1);
    }
  }

  /** The map finds exactly the items, each at its own node. */
  ghost predicate Finds(index: map<nat, Entry>, nodes: seq<Entry>, items: seq<Item>)
    requires |nodes| == |items|
  {
    && (forall i :: 0 <= i < |items| ==> items[i].hash in index && index[items[i].hash] == nodes[i])
    && index.Keys == Hashes(items)
  }

  /** No two items share a hash, so a hash has one place. */
  lemma PlaceIsUnique(index: map<nat, Entry>, nodes: seq<Entry>, items: seq<Item>, at: nat)
    requires Distinct(nodes) && |nodes| == |items| && at < |items| && Finds(index, nodes, items)
    ensures Position(items, items[at].hash) == at
    ensures forall i :: 0 <= i < |items| && i != at ==> items[i].hash != items[at].hash
  {
    forall i | 0 <= i < |items| && i != at
      ensures items[i].hash != items[at].hash
    {
      assert nodes[i] != nodes[at];
    }
    PositionIs(items, items[at].hash, at);
  }

  /** Moving a node to the front of the list moves its item to the front of the contents. */
  lemma MirrorsMoved(nodes: seq<Entry>, items: seq<Item>, at: nat, nodes': seq<Entry>, items': seq<Item>)
    requires Mirrors(nodes, items) && at < |nodes|
    requires nodes' == Moved(nodes, at) && items' == Moved(items, at)
    ensures Mirrors(nodes', items')
  {
    MirrorsEverywhere(nodes, items, 0);
    MirrorsEverywhere(nodes', items', 0);
  }

  lemma MirrorsInserted(nodes: seq<Entry>, items: seq<Item>, e: Entry)
    requires Mirrors(nodes, items)
    ensures Mirrors([e] + nodes, [e.item] + items)
  {
    MirrorsEverywhere(nodes, items, 0);
    MirrorsEverywhere([e] + nodes, [e.item] + items, 0);
  }

  lemma MirrorsWithout(nodes: seq<Entry>, items: seq<Item>, at: nat)
    requires Mirrors(nodes, items) && at < |nodes|
    ensures Mirrors(Without(nodes, at), Without(items, at)) && nodes[at].item == items[at]
  {
    MirrorsEverywhere(nodes, items, 0);
    MirrorsEverywhere(Without(nodes, at), Without(items, at), 0);
  }

  /** A node that was taken out can be given back to the pool. */
  lemma ApartWithout(nodes: seq<Entry>, vacants: seq<Entry>, at: nat)
    requires Apart(nodes, vacants) && at < |nodes| && Distinct(nodes)
    ensures Apart(Without(nodes, at), vacants) && nodes[at] !in Without(nodes, at) && nodes[at] !in vacants
  {
  }

  lemma ApartFreed(nodes: seq<Entry>, vacants: seq<Entry>, e: Entry)
    requires Apart(nodes, vacants) && e !in nodes
    ensures Apart(nodes, vacants + [e])
  {
  }

  lemma FindsMoved(index: map<nat, Entry>, nodes: seq<Entry>, items: seq<Item>, at: nat,
                   nodes': seq<Entry>, items': seq<Item>)
    requires |nodes| == |items| && at < |nodes| && Finds(index, nodes, items)
    requires nodes' == Moved(nodes, at) && items' == Moved(items, at)
    ensures Finds(index, nodes', items')
  {
    TotalMoved(items, at, items');
  }

  /** A new node in front, under a hash the map does not have yet. */
  lemma FindsInserted(index: map<nat, Entry>, nodes: seq<Entry>, items: seq<Item>, e: Entry, item: Item)
    requires |nodes| == |items| && Finds(index, nodes, items) && item.hash !in index
    ensures Finds(index[item.hash := e], [e] + nodes, [item] + items)
    ensures Total([item] + items) == item.size + Total(items)
  {
    assert ([item] + items)[1..] == items;
  }

  /** Taking the last node away takes its hash out of the map and its size out of the total. */
  lemma FindsEvicted(index: map<nat, Entry>, nodes: seq<Entry>, items: seq<Item>)
    requires WellLinked(nodes, 0) && |nodes| == |items| > 0 && Finds(index, nodes, items)
    ensures Finds(index - {items[|items| - 1].hash}, nodes[..|nodes| - 1], items[..|items| - 1])
    ensures Total(items) == Total(items[..|items| - 1]) + items[|items| - 1].size
  {
    var last := |items| - 1;
    assert items == items[..last] + [items[last]];
    TotalSplit(items[..last], [items[last]]);
    HashesSplit(items[..last], [items[last]]);
    TotalOne(items[last]);
    LinkedEverywhere(nodes);
    PlaceIsUnique(index, nodes, items, last);
    if items[last].hash in Hashes(items[..last]) {
      HashesFound(items[..last], items[last].hash);
      assert false;
    }
  }

  ghost predicate Apart(nodes: seq<Entry>, vacants: seq<Entry>) {
    forall i :: 0 <= i < |nodes| ==> nodes[i] !in vacants
  }

  class ObjectCache {
    var targetSize: nat
    var totalSize: nat
    const pool: ObjectPool
    const lruCache: IntrusiveList
    var hashToObjects: map<nat, Entry>
    ghost var Contents: seq<Item>   // most recently used first

    /** The list, the size total and the pool agree with the contents. */
    ghost predicate Held()
      reads this, pool, lruCache, lruCache.Nodes
    {
      && pool.Valid() && lruCache.Valid()
      && Apart(lruCache.Nodes, pool.vacants)
      && totalSize == Total(Contents) && Mirrors(lruCache.Nodes, Contents)
    }

    /** The entries of the cache, listed and vacant. */
    ghost function Repr(): set<Entry>
      reads pool, lruCache
    {
      (set e | e in lruCache.Nodes) + set e | e in pool.vacants
    }

    ghost predicate Valid()
      reads this, pool, lruCache, lruCache.Nodes
    {
      Held() && Finds(hashToObjects, lruCache.Nodes, Contents)
    }

    constructor ()
      ensures Valid() && Contents == [] && targetSize == 0 && hashToObjects == map[]
      ensures fresh(pool) && fresh(lruCache) && Repr() == {}
    {
      targetSize, totalSize, hashToObjects, Contents := 0, 0, map[], [];
      pool := new ObjectPool();
      lruCache := new IntrusiveList();
    }

    method SetTargetSize(size: nat)
      requires Valid()
      modifies this`targetSize
      ensures Valid() && targetSize == size
    {
      targetSize := size;
    }

    /** Lists an entry in front that is listed already. */
    method Relist(e: Entry, ghost at: nat)
      requires Held() && at < |Contents| && lruCache.Nodes[at] == e
      modifies this`Contents, lruCache, lruCache.Nodes`prev, lruCache.Nodes`next
      ensures Held() && Contents == Moved(old(Contents), at) && lruCache.Nodes == Moved(old(lruCache.Nodes), at)
      ensures forall x :: x in lruCache.Nodes <==> x in old(lruCache.Nodes)
    {
      ghost var nodes, items := lruCache.Nodes, Contents;
      TotalMoved(items, at, Moved(items, at));
      MirrorsMoved(nodes, items, at, Moved(nodes, at), Moved(items, at));
      Contents := Moved(items, at);
      lruCache.MoveToFront(e, at);
    }

    method Promote(e: Entry, ghost at: nat)
      requires Valid() && at < |Contents| && lruCache.Nodes[at] == e
      modifies this`Contents, lruCache, lruCache.Nodes`prev, lruCache.Nodes`next
      ensures Valid() && Contents == Moved(old(Contents), at)
      ensures forall x :: x in lruCache.Nodes <==> x in old(lruCache.Nodes)
    {
      ghost var nodes, items := lruCache.Nodes, Contents;
      FindsMoved(hashToObjects, nodes, items, at, Moved(nodes, at), Moved(items, at));
      Relist(e, at);
    }

    method FindObject(hash: nat) returns (object_: nat, found: bool)
      requires Valid()
      modifies this`Contents, lruCache, lruCache.Nodes`prev, lruCache.Nodes`next
      ensures Valid() && Contents == Used(old(Contents), hash) && Repr() == old(Repr())
      ensures found <==> Position(old(Contents), hash) < |old(Contents)|
      ensures found ==> Contents[0].hash == hash && Contents[0].object_ == object_
    {
      HashesFound(Contents, hash);
      if hash !in hashToObjects {
        return 0, false;
      }
      var e := hashToObjects[hash];
      assert Contents[Position(Contents, hash)].hash == hash;
      object_, found := e.item.object_, true;
      Promote(e, Position(Contents, hash));
    }

    /** An entry from the pool, not one of those listed. */
    method TakeEntry(item: Item) returns (entry: Entry)
      requires Held()
      modifies pool, pool.vacants
      ensures Held() && entry !in lruCache.Nodes && entry !in pool.vacants && entry.item == item
      ensures entry in old(pool.vacants) || fresh(entry)
      ensures forall v :: v in pool.vacants ==> v in old(pool.vacants) || fresh(v)
    {
      ghost var nodes, items := lruCache.Nodes, Contents;
      entry := pool.Allocate();
      assert WellLinked(nodes, 0) && Mirrors(nodes, items);
      entry.item := item;
      assert WellLinked(nodes, 0) && Mirrors(nodes, items);
    }

    /** Lists an entry in front. */
    method Enlist(entry: Entry)
      requires Held() && entry !in lruCache.Nodes && entry !in pool.vacants
      modifies this`totalSize, this`Contents, lruCache, entry`prev, entry`next, lruCache.Nodes`prev
      ensures Held() && Contents == [entry.item] + old(Contents) && lruCache.Nodes == [entry] + old(lruCache.Nodes)
      ensures entry.item == old(entry.item)
    {
      ghost var nodes, items := lruCache.Nodes, Contents;
      assert ([entry.item] + items)[1..] == items;
      MirrorsInserted(nodes, items, entry);
      totalSize := totalSize + entry.item.size;
      Contents := [entry.item] + items;
      lruCache.InsertFront(entry);
    }

    method InsertObject(hash: nat, object_: nat, objectSize: nat)
      requires Valid() && hash !in hashToObjects
      modifies this`totalSize, this`Contents, this`hashToObjects, pool, pool.vacants, lruCache, lruCache.Nodes`prev
      ensures Valid() && Contents == [Item(hash, object_, objectSize)] + old(Contents)
      ensures forall e :: e in Repr() ==> e in old(Repr()) || fresh(e)
    {
      ghost var nodes, items := lruCache.Nodes, Contents;
      var entry := TakeEntry(Item(hash, object_, objectSize));
      FindsInserted(hashToObjects, nodes, items, entry, entry.item);
      Enlist(entry);
      hashToObjects := hashToObjects[hash := entry];
    }

    /** Takes an entry out of the list. */
    method Unlist(entry: Entry, ghost at: nat) returns (following: Entry?)
      requires Held() && at < |Contents| && lruCache.Nodes[at] == entry
      modifies this`totalSize, this`Contents, lruCache, lruCache.Nodes`prev, lruCache.Nodes`next
      ensures Held() && following == At(old(lruCache.Nodes), at + 1)
      ensures Contents == Without(old(Contents), at) && lruCache.Nodes == Without(old(lruCache.Nodes), at)
      ensures entry.item == old(Contents[at]) && entry !in lruCache.Nodes && entry !in pool.vacants
    {
      ghost var nodes, items := lruCache.Nodes, Contents;
      LinkedEverywhere(nodes);
      MirrorsWithout(nodes, items, at);
      ApartWithout(nodes, pool.vacants, at);
      TotalWithout(items, at);
      totalSize := totalSize - entry.item.size;
      Contents := Without(items, at);
      following := lruCache.Erase(entry, at);
    }

    /** Gives an entry that is not listed back to the pool. */
    method Recycle(entry: Entry)
      requires Held() && entry !in lruCache.Nodes && entry !in pool.vacants
      modifies pool
      ensures Held() && pool.vacants == old(pool.vacants) + [entry]
    {
      ApartFreed(lruCache.Nodes, pool.vacants, entry);
      pool.Free(entry);
    }

    /** Removes the least recently used entry: the deleter sees its item before the pool has it back. */
    method EvictLast() returns (item: Item)
      requires Valid() && Contents != []
      modifies this`totalSize, this`hashToObjects, this`Contents, pool, lruCache
      modifies lruCache.Nodes`prev, lruCache.Nodes`next
      ensures Valid() && Contents == old(Contents[..|Contents| - 1]) && item == old(Contents[|Contents| - 1])
      ensures lruCache.Nodes == old(lruCache.Nodes[..|lruCache.Nodes| - 1])
      ensures pool.vacants == old(pool.vacants + [lruCache.Nodes[|lruCache.Nodes| - 1]])
    {
      ghost var nodes, items := lruCache.Nodes, Contents;
      FindsEvicted(hashToObjects, nodes, items);
      WithoutLast(nodes);
      WithoutLast(items);
      var entry := lruCache.tail;
      var following := Unlist(entry, |items| - 1);
      item := entry.item;
      hashToObjects := hashToObjects - {item.hash};
      Recycle(entry);
    }

    /** Evicts until the target is met; the deleter sees the evicted items in the order of the result. */
    method PruneCache() returns (deleted: seq<Item>)
      requires Valid()
      modifies this`totalSize, this`hashToObjects, this`Contents, pool, lruCache
      modifies lruCache.Nodes`prev, lruCache.Nodes`next
      ensures Valid() && Contents <= old(Contents) && Kept(old(Contents), targetSize, |Contents|)
      ensures Repr() <= old(Repr())
      ensures DeletedFrom(old(Contents), |Contents|, deleted)
      ensures totalSize <= targetSize && (deleted == [] <==> old(totalSize) <= targetSize)
      ensures deleted != [] ==> totalSize + deleted[|deleted| - 1].size > targetSize
    {
      ghost var items, nodes := Contents, lruCache.Nodes;
      ghost var n: nat := |items|;
      deleted := [];
      while totalSize > targetSize
        invariant Valid() && n <= |items| == |nodes|
        invariant Contents == items[..n] && lruCache.Nodes == nodes[..n]
        invariant Pruned(items, targetSize, n, deleted) && forall v :: v in pool.vacants ==> v in old(Repr())
        decreases n
      {
        TakeTake(items, n);
        TakeTake(nodes, n);
        var item := EvictLast();
        PrunedOne(items, targetSize, n, deleted, item);
        deleted := deleted + [item];
        n := n - 1;
      }
      LastDeleted(items, targetSize, n, deleted);
    }

    method DeleteFirst(entry: Entry) returns (item: Item, following: Entry?)
      requires Held() && Contents != [] && lruCache.Nodes[0] == entry
      modifies this`totalSize, this`Contents, pool, lruCache, lruCache.Nodes`prev, lruCache.Nodes`next
      ensures Held() && following == lruCache.head && item == old(Contents[0])
      ensures Contents == Without(old(Contents), 0) && lruCache.Nodes == Without(old(lruCache.Nodes), 0)
      ensures pool.vacants == old(pool.vacants) + [entry]
    {
      following := Unlist(entry, 0);
      item := entry.item;
      Recycle(entry);
    }

    /** Empties the cache; the deleter sees every item, the most recently used one first. */
    method DeleteCache() returns (deleted: seq<Item>)
      requires Valid()
      modifies this`totalSize, this`hashToObjects, this`Contents, pool, lruCache
      modifies lruCache.Nodes`prev, lruCache.Nodes`next
      ensures Valid() && Contents == [] && totalSize == 0 && hashToObjects == map[]
      ensures deleted == old(Contents) && Repr() <= old(Repr())
    {
      ghost var items, nodes := Contents, lruCache.Nodes;
      ghost var n: nat := 0;
      deleted := [];
      var itr := lruCache.head;
      while itr != null
        invariant Held() && n <= |items| == |nodes| && itr == lruCache.head
        invariant Contents == items[n..] && lruCache.Nodes == nodes[n..]
        invariant deleted == items[..n] && forall v :: v in pool.vacants ==> v in old(Repr())
        decreases |items| - n
      {
        Rest(items, n);
        Rest(nodes, n);
        var item;
        item, itr := DeleteFirst(itr);
        deleted := deleted + [item];
        n := n + 1;
      }
      assert |lruCache.Nodes| == 0 && items[..n] == items;
      lruCache.Clear();
      hashToObjects := map[];
    }
  }
}
