/** The intrusive doubly linked list of util/intrusive_list.hpp and the pool of
    util/object_pool.hpp, over the entries of the object cache. */
module IntrusiveLists {

  /** What the cache remembers of an object. */
  datatype Item = Item(hash: nat, object_: nat, size: nat)

  class Entry {
    var prev: Entry?
    var next: Entry?
    var item: Item

    constructor ()
      ensures prev == null && next == null && item == Item(0, 0, 0)
    {
      prev, next, item := null, null, Item(0, 0, 0);
    }
  }

  predicate Distinct(nodes: seq<Entry>) {
    forall i, j :: 0 <= i < j < |nodes| ==> nodes[i] != nodes[j]
  }

  class IntrusiveList {
    var head: Entry?
    var tail: Entry?
    ghost var Nodes: seq<Entry>   // from head to tail

    ghost predicate Valid()
      reads this, Nodes
    {
      head == At(Nodes, 0) && tail == At(Nodes, |Nodes| - 1) && WellLinked(Nodes, 0)
    }

    constructor ()
      ensures Valid() && Nodes == []
    {
      head, tail, Nodes := null, null, [];
    }

    /** Unlinks the entry at a position; its own links stay as they are. */
    method Erase(node: Entry, ghost at: nat) returns (following: Entry?)
      requires Valid() && at < |Nodes| && Nodes[at] == node
      modifies this, Nodes`prev, Nodes`next
      ensures Valid() && Nodes == Without(old(Nodes), at)
      ensures following == At(Nodes, at)
      ensures node.prev == old(node.prev) && node.next == old(node.next)
    {
      ghost var nodes := Nodes;
      LinkedEverywhere(nodes);
      assert Linked(nodes, at);
      var next, prev := node.next, node.prev;
      if prev != null {
        prev.next := next;
      } else {
        head := next;
      }
      if next != null {
        next.prev := prev;
      } else {
        tail := prev;
      }
      forall i: nat | i < |nodes| && i != at
        ensures LinkedAround(nodes, i, at)
      {
        assert old(Linked(nodes, i));
      }
      SkippedIsOut(nodes, at);
      Nodes := Without(nodes, at);
      following := next;
    }

    method InsertFront(node: Entry)
      requires Valid() && node !in Nodes
      modifies this, node`prev, node`next, Nodes`prev
      ensures Valid() && Nodes == [node] + old(Nodes)
    {
      LinkedEverywhere(Nodes);
      if head != null {
        head.prev := node;
      } else {
        tail := node;
      }
      node.next := head;
      node.prev := null;
      head := node;
      Nodes := [node] + Nodes;
      forall i | 0 <= i < |Nodes|
        ensures Linked(Nodes, i)
      {
        if i > 0 {
          assert old(Linked(Nodes, i - 1));
        }
      }
      LinkedEverywhere(Nodes);
    }

    method Clear()
      modifies this
      ensures Valid() && Nodes == []
    {
      head, tail, Nodes := null, null, [];
    }

    method MoveToFront(node: Entry, ghost at: nat)
      requires Valid() && at < |Nodes| && Nodes[at] == node
      modifies this, Nodes`prev, Nodes`next
      ensures Valid() && Nodes == Moved(old(Nodes), at)
      ensures forall e :: e in Nodes <==> e in old(Nodes)
    {
      LinkedEverywhere(Nodes);
      assert Nodes == Nodes[..at] + ([node] + Nodes[at + 1..]);
      var following := Erase(node, at);
      InsertFront(node);
    }
  }

  function Without<T>(s: seq<T>, at: nat): seq<T>
    requires at < |s|
  {
    s[..at] + s[at + 1..]
  }

  /** A sequence with one element brought to the front. */
  function Moved<T>(s: seq<T>, at: nat): seq<T>
    requires at < |s|
  {
    [s[at]] + Without(s, at)
  }

  function At(nodes: seq<Entry>, i: int): Entry? {
    if 0 <= i < |nodes| then nodes[i] else null
  }

  ghost predicate Linked(nodes: seq<Entry>, i: nat)
    requires i < |nodes|
    reads nodes[i]
  {
    nodes[i].prev == At(nodes, i - 1) && nodes[i].next == At(nodes, i + 1)
  }

  /** Linked to its neighbours as if the one at a position were not there. */
  ghost predicate LinkedAround(nodes: seq<Entry>, i: nat, at: nat)
    requires i < |nodes|
    reads nodes[i]
  {
    && nodes[i].prev == At(nodes, if i == at + 1 then i - 2 else i - 1)
    && nodes[i].next == At(nodes, if i + 1 == at then i + 2 else i + 1)
  }

  lemma SkippedIsOut(nodes: seq<Entry>, at: nat)
    requires Distinct(nodes) && at < |nodes|
    requires forall i: nat :: i < |nodes| && i != at ==> LinkedAround(nodes, i, at)
    ensures WellLinked(Without(nodes, at), 0)
  {
    var rest := Without(nodes, at);
    forall i | 0 <= i < |rest|
      ensures Linked(rest, i)
    {
      assert LinkedAround(nodes, if i < at then i else i + 1, at);
    }
    LinkedEverywhere(rest);
  }

  /** From a position on, no node comes twice and each is linked to its neighbours. */
  ghost predicate WellLinked(nodes: seq<Entry>, i: nat)
    requires i <= |nodes|
    reads nodes
    decreases |nodes| - i
  {
    i < |nodes| ==> nodes[i] !in nodes[..i] && Linked(nodes, i) && WellLinked(nodes, i + 1)
  }

  lemma {:induction false} LinkedFrom(nodes: seq<Entry>, k: nat)
    requires k <= |nodes|
    ensures WellLinked(nodes, k)
       <==> forall i :: k <= i < |nodes| ==> nodes[i] !in nodes[..i] && Linked(nodes, i)
    decreases |nodes| - k
  {
    if k < |nodes| {
      LinkedFrom(nodes, k + 1);
    }
  }

  lemma LinkedEverywhere(nodes: seq<Entry>)
    ensures WellLinked(nodes, 0) <==> Distinct(nodes) && forall i :: 0 <= i < |nodes| ==> Linked(nodes, i)
  {
    LinkedFrom(nodes, 0);
    if WellLinked(nodes, 0) {
      forall i, j | 0 <= i < j < |nodes|
        ensures nodes[i] != nodes[j]
      {
        assert nodes[j] !in nodes[..j] && nodes[..j][i] == nodes[i];
      }
    }
  }

  class ObjectPool {
    var vacants: seq<Entry>
    var blocks: nat

    ghost predicate Valid()
      reads this
    {
      Distinct(vacants)
    }

    constructor ()
      ensures Valid() && vacants == [] && blocks == 0
    {
      vacants, blocks := [], 0;
    }

    /** Takes a vacant entry, after growing the pool by a block of doubled size if none is left. */
    method Allocate() returns (e: Entry)
      requires Valid()
      modifies this, vacants
      ensures Valid() && e !in vacants
      ensures old(vacants) != [] ==>
        e == old(vacants[|vacants| - 1]) && vacants == old(vacants[..|vacants| - 1]) && blocks == old(blocks)
      ensures old(vacants) == [] ==>
        fresh(e) && |vacants| + 1 == 64 * Shifted(old(blocks)) && blocks == old(blocks) + 1
      ensures e in old(vacants) || fresh(e)
      ensures forall v :: v in vacants ==> v in old(vacants) || fresh(v)
      ensures e.prev == null && e.next == null && e.item == Item(0, 0, 0)
      ensures forall v :: v in old(vacants) && v != e ==> unchanged(v)
    {
      if vacants == [] {
        var numObjects := 64 * Shifted(blocks);
        for i := 0 to numObjects
          invariant Valid() && (forall v :: v in vacants ==> fresh(v)) && old(vacants) == []
          invariant |vacants| == i && blocks == old(blocks)
        {
          var v := new Entry();
          vacants := vacants + [v];
        }
        blocks := blocks + 1;
      }
      ghost var before := vacants;
      e := vacants[|vacants| - 1];
      vacants := vacants[..|vacants| - 1];
      assert e in before && forall v :: v in vacants ==> v in before;
      e.prev, e.next, e.item := null, null, Item(0, 0, 0);
    }

    method Free(e: Entry)
      requires Valid() && e !in vacants
      modifies this`vacants
      ensures Valid() && vacants == old(vacants) + [e]
    {
      vacants := vacants + [e];
    }
  }

  function Shifted(n: nat): (r: nat)
    ensures r >= 1
  {
    if n == 0 then 1 else 2 * Shifted(n - 1)
  }
}
