/** Parsing pipelines that derive from others (fossilize.cpp): a base is created first, wherever it is. */
module Derivatives {

  type Hash = nat

  /** The base each pipeline names, 0 for none, and a rank that shows no pipeline is its own base. */
  ghost predicate Acyclic(baseOf: Hash -> Hash, rank: Hash -> nat) {
    forall h :: baseOf(h) > 0 ==> rank(baseOf(h)) < rank(h)
  }

  /** A pipeline and the bases below it. */
  ghost function Chain(baseOf: Hash -> Hash, rank: Hash -> nat, h: Hash): set<Hash>
    requires Acyclic(baseOf, rank)
    decreases rank(h)
  {
    if baseOf(h) == 0 then {h} else {h} + Chain(baseOf, rank, baseOf(h))
  }

  /** Every base below that is not replayed is at hand: in the document as long as the chain stays
      in it, and in the database from where it leaves it. */
  ghost predicate Resolvable(w: World, document: set<Hash>, replayed: set<Hash>, h: Hash)
    requires w.Valid()
    decreases w.rank(h)
  {
    var base := w.baseOf(h);
    || h in replayed || base == 0 || base in replayed
    || if base in document then Resolvable(w, document, replayed, base)
       else base in w.database && Resolvable(w, {base}, replayed, base)
  }

  /** The pipelines of a document are resolvable one after another. */
  ghost predicate AllResolvable(w: World, document: set<Hash>, replayed: set<Hash>, pipelines: seq<Hash>)
    requires w.Valid()
    decreases |pipelines|
  {
    pipelines != [] ==>
      && Resolvable(w, document, replayed, pipelines[0])
      && AllResolvable(w, document, replayed + Chain(w.baseOf, w.rank, pipelines[0]), pipelines[1..])
  }

  /** The pipelines there are: their bases, and which are in the database, one a blob. */
  datatype World = World(baseOf: Hash -> Hash, rank: Hash -> nat, database: set<Hash>) {
    ghost predicate Valid() {
      Acyclic(baseOf, rank)
    }
  }

  lemma {:induction false} ResolvableGrows(w: World, document: set<Hash>, some: set<Hash>, more: set<Hash>, h: Hash)
    requires w.Valid() && some <= more && Resolvable(w, document, some, h)
    ensures Resolvable(w, document, more, h)
    decreases w.rank(h)
  {
    var base := w.baseOf(h);
    if base > 0 {
      if base in document && Resolvable(w, document, some, base) {
        ResolvableGrows(w, document, some, more, base);
      } else if base in w.database && Resolvable(w, {base}, some, base) {
        ResolvableGrows(w, {base}, some, more, base);
      }
    }
  }

  /** In a document that has the bases of all its pipelines everything resolves, whatever the database has. */
  lemma {:induction false} ClosedDocumentResolves(w: World, document: set<Hash>, replayed: set<Hash>, h: Hash)
    requires w.Valid() && h in document && forall x :: x in document ==> w.baseOf(x) == 0 || w.baseOf(x) in document
    ensures Resolvable(w, document, replayed, h)
    decreases w.rank(h)
  {
    if w.baseOf(h) != 0 {
      ClosedDocumentResolves(w, document, replayed, w.baseOf(h));
    }
  }

  /** A pipeline that is alone in its document resolves exactly if the database has all the bases below. */
  lemma {:induction false} AloneExactly(w: World, h: Hash)
    requires w.Valid() && h != 0
    ensures Resolvable(w, {h}, {}, h) <==> forall x :: x in Chain(w.baseOf, w.rank, h) && x != h ==> x in w.database
    decreases w.rank(h)
  {
    var base := w.baseOf(h);
    if base != 0 {
      AloneExactly(w, base);
      ChainIsBelow(w.baseOf, w.rank, base);
      ChainIsBelow(w.baseOf, w.rank, h);
    }
  }

  /** A document whose pipelines each resolve by themselves parses, whatever is replayed before. */
  lemma {:induction false} EveryOrderWorks(w: World, document: set<Hash>, replayed: set<Hash>, pipelines: seq<Hash>)
    requires w.Valid() && forall h :: h in pipelines ==> Resolvable(w, document, {}, h)
    ensures AllResolvable(w, document, replayed, pipelines)
    decreases |pipelines|
  {
    if pipelines != [] {
      ResolvableGrows(w, document, {}, replayed, pipelines[0]);
      EveryOrderWorks(w, document, replayed + Chain(w.baseOf, w.rank, pipelines[0]), pipelines[1..]);
    }
  }

  /** The same pipelines in some order. */
  ghost predicate Reorders(p: seq<Hash>, document: seq<Hash>) {
    multiset(p) == multiset(document)
  }

  /** A document parses in every order if and only if each of its pipelines resolves by itself. */
  lemma EveryOrderExactly(w: World, document: seq<Hash>)
    requires w.Valid()
    ensures (forall p :: Reorders(p, document) ==> AllResolvable(w, Names(document), {}, p))
       <==> forall h :: h in document ==> Resolvable(w, Names(document), {}, h)
  {
    if forall p :: Reorders(p, document) ==> AllResolvable(w, Names(document), {}, p) {
      forall i | 0 <= i < |document|
        ensures Resolvable(w, Names(document), {}, document[i])
      {
        var first := [document[i]] + (document[..i] + document[i + 1..]);
        assert document == document[..i] + ([document[i]] + document[i + 1..]);
        assert Reorders(first, document);
      }
    }
    if forall h :: h in document ==> Resolvable(w, Names(document), {}, h) {
      forall p | Reorders(p, document)
        ensures AllResolvable(w, Names(document), {}, p)
      {
        forall h | h in p
          ensures h in document
        {
          assert h in multiset(p);
        }
        EveryOrderWorks(w, Names(document), {}, p);
      }
    }
  }

  /** A base in the database whose own base is only in the document is found or not by the order. */
  lemma OrderCanMatter(w: World)
    requires w.Valid() && w.baseOf(3) == 2 && w.baseOf(2) == 1 && w.baseOf(1) == 0 && w.database == {2}
    ensures AllResolvable(w, {1, 3}, {}, [1, 3]) && !AllResolvable(w, {1, 3}, {}, [3, 1])
  {
    var done := {} + Chain(w.baseOf, w.rank, 1);
    assert 1 in done && [1, 3][1..] == [3] && [3][1..] == [];
    assert Resolvable(w, {2}, done, 2) && Resolvable(w, {1, 3}, done, 3);
    assert AllResolvable(w, {1, 3}, done + Chain(w.baseOf, w.rank, 3), []);
    assert AllResolvable(w, {1, 3}, done, [3]);
    assert !Resolvable(w, {2}, {}, 2) && !Resolvable(w, {1, 3}, {}, 3);
  }

  /** A creation call, with the handle passed as its base. */
  datatype Create = Create(hash: Hash, base: Hash, baseHandle: nat)

  /** What the create interface answers. */
  datatype Answer = Answer(ok: bool, handle: nat)

  function Names(document: seq<Hash>): set<Hash> {
    set h | h in document
  }

  /** What the calls have replayed. */
  function Handles(calls: seq<Create>, answer: Hash -> Answer): map<Hash, nat> {
    if calls == [] then map[]
    else
      var last := calls[|calls| - 1];
      Handles(calls[..|calls| - 1], answer)[last.hash := answer(last.hash).handle]
  }

  /** No pipeline is created twice, and each one after its base, whose handle it is given. */
  ghost predicate Ordered(calls: seq<Create>, baseOf: Hash -> Hash, answer: Hash -> Answer) {
    calls != [] ==>
      var front, last := calls[..|calls| - 1], calls[|calls| - 1];
      var before := Handles(front, answer);
      && Ordered(front, baseOf, answer)
      && last.hash !in before && last.base == baseOf(last.hash)
      && (last.base > 0 ==> last.base in before && last.baseHandle == before[last.base])
  }

  /** Nothing is created whose create info does not parse. */
  ghost predicate AllParse(calls: seq<Create>, parses: Hash -> bool) {
    calls != [] ==> AllParse(calls[..|calls| - 1], parses) && parses(calls[|calls| - 1].hash)
  }

  lemma {:induction false} ReplayedParses(calls: seq<Create>, answer: Hash -> Answer, parses: Hash -> bool, h: Hash)
    requires AllParse(calls, parses) && h in Handles(calls, answer)
    ensures parses(h)
  {
    if calls[|calls| - 1].hash != h {
      ReplayedParses(calls[..|calls| - 1], answer, parses, h);
    }
  }

  lemma {:induction false} HandlesAre(calls: seq<Create>, answer: Hash -> Answer)
    ensures forall h :: h in Handles(calls, answer) <==> exists i :: 0 <= i < |calls| && calls[i].hash == h
    ensures forall h :: h in Handles(calls, answer) ==> Handles(calls, answer)[h] == answer(h).handle
  {
    if calls != [] {
      var front := calls[..|calls| - 1];
      HandlesAre(front, answer);
      assert forall i :: 0 <= i < |calls| ==> i == |front| || calls[i] == front[i];
      assert forall i :: 0 <= i < |front| ==> calls[i] == front[i];
    }
  }

  /** The same, call by call. */
  lemma {:induction false} OrderedAt(calls: seq<Create>, baseOf: Hash -> Hash, answer: Hash -> Answer, j: nat)
    requires Ordered(calls, baseOf, answer) && j < |calls|
    ensures forall i :: 0 <= i < j ==> calls[i].hash != calls[j].hash
    ensures calls[j].base == baseOf(calls[j].hash)
    ensures calls[j].base > 0 ==>
      exists i :: 0 <= i < j && calls[i].hash == calls[j].base && calls[j].baseHandle == answer(calls[i].hash).handle
    decreases |calls|
  {
    var front := calls[..|calls| - 1];
    if j < |front| {
      OrderedAt(front, baseOf, answer, j);
      assert front[j] == calls[j] && forall i :: 0 <= i < j ==> front[i] == calls[i];
    } else {
      HandlesAre(front, answer);
      assert forall i :: 0 <= i < j ==> front[i] == calls[i];
    }
  }

  /** The bases below a created pipeline were created too. */
  lemma {:induction false} ChainReplayed(calls: seq<Create>, baseOf: Hash -> Hash, rank: Hash -> nat,
                                         answer: Hash -> Answer, h: Hash)
    requires Acyclic(baseOf, rank) && Ordered(calls, baseOf, answer) && h in Handles(calls, answer)
    ensures Chain(baseOf, rank, h) <= Handles(calls, answer).Keys
    decreases |calls|
  {
    var front, last := calls[..|calls| - 1], calls[|calls| - 1];
    if h != last.hash {
      ChainReplayed(front, baseOf, rank, answer, h);
    } else if last.base > 0 {
      ChainReplayed(front, baseOf, rank, answer, last.base);
    }
  }

  lemma {:induction false} ChainIsBelow(baseOf: Hash -> Hash, rank: Hash -> nat, h: Hash)
    requires Acyclic(baseOf, rank)
    ensures h in Chain(baseOf, rank, h)
    ensures forall x :: x in Chain(baseOf, rank, h) ==> rank(x) <= rank(h)
    decreases rank(h)
  {
    if baseOf(h) > 0 {
      ChainIsBelow(baseOf, rank, baseOf(h));
    }
  }

  ghost function Chains(baseOf: Hash -> Hash, rank: Hash -> nat, pipelines: seq<Hash>): set<Hash>
    requires Acyclic(baseOf, rank)
  {
    if pipelines == [] then {}
    else Chains(baseOf, rank, pipelines[..|pipelines| - 1]) + Chain(baseOf, rank, pipelines[|pipelines| - 1])
  }

  lemma ChainsOneMore(baseOf: Hash -> Hash, rank: Hash -> nat, pipelines: seq<Hash>, i: nat)
    requires Acyclic(baseOf, rank) && i < |pipelines|
    ensures Chains(baseOf, rank, pipelines[..i + 1])
         == Chains(baseOf, rank, pipelines[..i]) + Chain(baseOf, rank, pipelines[i])
  {
    assert pipelines[..i + 1][..i] == pipelines[..i];
  }

  lemma OnlyOne(w: World, document: set<Hash>, replayed: set<Hash>, h: Hash)
    requires w.Valid()
    ensures Chains(w.baseOf, w.rank, [h]) == Chain(w.baseOf, w.rank, h)
    ensures AllResolvable(w, document, replayed, [h]) <==> Resolvable(w, document, replayed, h)
  {
    assert [h][..0] == [] && [h][1..] == [];
    assert AllResolvable(w, document, replayed + Chain(w.baseOf, w.rank, h), []);
  }

  class StateReplayer {
    const graphics: bool
    const database: set<Hash>
    const baseOf: Hash -> Hash
    ghost const rank: Hash -> nat
    const parses: Hash -> bool           // whether everything else in the create info parses
    const answer: Hash -> Answer
    var replayed: map<Hash, nat>
    ghost var Calls: seq<Create>

    ghost predicate Valid()
      reads this
    {
      && Acyclic(baseOf, rank) && Ordered(Calls, baseOf, answer) && replayed == Handles(Calls, answer)
      && AllParse(Calls, parses)
    }

    ghost function Here(): World {
      World(baseOf, rank, database)
    }

    /** Nothing but the bases can make a pipeline fail. */
    ghost predicate Willing() {
      forall h :: parses(h) && answer(h).ok && answer(h).handle != 0
    }

    constructor (graphics: bool, database: set<Hash>, baseOf: Hash -> Hash, ghost rank: Hash -> nat,
                 parses: Hash -> bool, answer: Hash -> Answer)
      requires Acyclic(baseOf, rank)
      ensures Valid() && replayed == map[] && Calls == []
      ensures this.graphics == graphics && this.database == database && this.baseOf == baseOf
      ensures this.rank == rank && this.parses == parses && this.answer == answer
    {
      this.graphics, this.database, this.baseOf, this.rank := graphics, database, baseOf, rank;
      this.parses, this.answer := parses, answer;
      replayed, Calls := map[], [];
    }

    method EnqueueCreate(hash: Hash, base: Hash, baseHandle: nat) returns (ok: bool)
      requires Valid() && hash !in replayed && base == baseOf(hash) && parses(hash)
      requires base > 0 ==> base in replayed && replayed[base] == baseHandle
      modifies this
      ensures Valid() && ok == answer(hash).ok
      ensures Calls == old(Calls) + [Create(hash, base, baseHandle)]
      ensures replayed == old(replayed)[hash := answer(hash).handle]
    {
      Calls := Calls + [Create(hash, base, baseHandle)];
      assert Calls[..|Calls| - 1] == old(Calls);
      replayed := replayed[hash := answer(hash).handle];
      ok := answer(hash).ok;
    }

    /** Parses the blob of a base. */
    method ParseFromDatabase(base: Hash) returns (ok: bool)
      requires Valid() && base !in replayed
      modifies this
      ensures Valid() && old(Calls) <= Calls
      ensures ok ==> base in replayed && replayed.Keys == old(replayed.Keys) + Chain(baseOf, rank, base)
      ensures ok ==> base in database && Resolvable(Here(), {base}, old(replayed.Keys), base)
      ensures ok && graphics ==> replayed[base] != 0
      ensures Willing() && base in database && Resolvable(Here(), {base}, old(replayed.Keys), base) ==> ok
      decreases 3 * rank(base) + 3, 1
    {
      if base !in database {
        return false;
      }
      ChainIsBelow(baseOf, rank, base);
      OnlyOne(Here(), {base}, replayed.Keys, base);
      assert Names([base]) == {base};
      ok := ParsePipelines([base], rank(base) + 1);
      if !ok {
        return;
      }
      HandlesAre(Calls, answer);
      if base !in replayed {
        ok := false;
      } else if graphics && replayed[base] == 0 {
        ok := false;
      }
    }

    /** Sees to it that a base is replayed. */
    method ResolveBase(pipelines: seq<Hash>, hash: Hash) returns (ok: bool, baseHandle: nat)
      requires Valid() && baseOf(hash) > 0 && hash !in replayed
      modifies this
      ensures Valid() && old(Calls) <= Calls
      ensures ok ==> baseOf(hash) in replayed && replayed[baseOf(hash)] == baseHandle
      ensures ok ==> replayed.Keys == old(replayed.Keys) + Chain(baseOf, rank, baseOf(hash))
      ensures ok ==> Resolvable(Here(), Names(pipelines), old(replayed.Keys), hash)
      ensures Willing() && Resolvable(Here(), Names(pipelines), old(replayed.Keys), hash) ==> ok
      decreases 3 * rank(hash) + 1
    {
      var base := baseOf(hash);
      ok, baseHandle := false, 0;
      ChainIsBelow(baseOf, rank, base);
      if base !in replayed && base in pipelines {
        var parsed := ParsePipeline(pipelines, base);
        if !parsed {
          return;
        }
      }
      if base !in replayed {
        ok := ParseFromDatabase(base);
        if !ok {
          return;
        }
      } else {
        ChainReplayed(Calls, baseOf, rank, answer, base);
      }
      ok, baseHandle := true, replayed[base];
    }

    method ParsePipeline(pipelines: seq<Hash>, hash: Hash) returns (ok: bool)
      requires Valid()
      modifies this
      ensures Valid() && old(Calls) <= Calls
      ensures ok ==> replayed.Keys == old(replayed.Keys) + Chain(baseOf, rank, hash)
      ensures ok ==> Resolvable(Here(), Names(pipelines), old(replayed.Keys), hash)
      ensures ok && hash !in old(replayed) ==> answer(hash).ok
      ensures Willing() && Resolvable(Here(), Names(pipelines), old(replayed.Keys), hash) ==> ok
      decreases 3 * rank(hash) + 2
    {
      if hash in replayed {
        ChainReplayed(Calls, baseOf, rank, answer, hash);
        return true;
      }
      var base := baseOf(hash);
      var baseHandle := 0;
      if base > 0 {
        ChainIsBelow(baseOf, rank, base);
        var resolved;
        resolved, baseHandle := ResolveBase(pipelines, hash);
        if !resolved {
          return false;
        }
      }
      if !parses(hash) {
        return false;
      }
      ok := EnqueueCreate(hash, base, baseHandle);
    }

    method ParsePipelines(pipelines: seq<Hash>, ghost bound: nat) returns (ok: bool)
      requires Valid() && forall h :: h in pipelines ==> rank(h) < bound
      modifies this
      ensures Valid() && old(Calls) <= Calls
      ensures ok ==> replayed.Keys == old(replayed.Keys) + Chains(baseOf, rank, pipelines)
      ensures ok ==> AllResolvable(Here(), Names(pipelines), old(replayed.Keys), pipelines)
      ensures Willing() && AllResolvable(Here(), Names(pipelines), old(replayed.Keys), pipelines) ==> ok
      decreases 3 * bound, 0
    {
      ok := true;
      ghost var names, start := Names(pipelines), replayed.Keys;
      for i := 0 to |pipelines|
        invariant Valid() && old(Calls) <= Calls && ok
        invariant replayed.Keys == start + Chains(baseOf, rank, pipelines[..i])
        invariant AllResolvable(Here(), names, replayed.Keys, pipelines[i..])
             <==> AllResolvable(Here(), names, start, pipelines)
      {
        ghost var rest, done := pipelines[i..], replayed.Keys;
        ChainsOneMore(baseOf, rank, pipelines, i);
        assert rest[1..] == pipelines[i + 1..];
        ok := ParsePipeline(pipelines, pipelines[i]);
        if !ok {
          return;
        }
        assert replayed.Keys == done + Chain(baseOf, rank, rest[0]);
        assert replayed.Keys == start + Chains(baseOf, rank, pipelines[..i + 1]);
      }
      assert pipelines[..|pipelines|] == pipelines;
    }
  }
}
