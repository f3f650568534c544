/** The work list of `enqueue_deferred_pipelines` in cli/fossilize_replay.cpp: which passes are
    queued for which chunk, and in which order they run once sorted by order index. */
module Schedule {

  const NUM_PIPELINES_PER_CONTEXT: nat := 1024
  const NUM_PIPELINE_MEMORY_CONTEXTS: nat := 2
  const PASS_COUNT: nat := 7

  const PARSE_ENQUEUE: nat := 0
  const MAINTAIN_SHADER_MODULE_LRU_CACHE: nat := 1
  const ENQUEUE_SHADER_MODULES_PRIMARY: nat := 2
  const RESOLVE_AND_ENQUEUE_PIPELINES_PRIMARY: nat := 3
  const ENQUEUE_OUT_OF_RANGE_PARENTS: nat := 4
  const ENQUEUE_SHADER_MODULE_SECONDARY: nat := 5
  const ENQUEUE_DERIVED_PIPELINES: nat := 6

  /** One entry of the work list: a pass over the chunk that uses a memory context. */
  datatype Work = Work(group: nat, pass: nat, memory: MemoryIndex)

  type MemoryIndex = m: nat | m < 2

  function OrderIndex(iteration: nat, pass: nat, memory: nat): nat {
    (iteration / NUM_PIPELINE_MEMORY_CONTEXTS) * PASS_COUNT * NUM_PIPELINE_MEMORY_CONTEXTS
    + pass * NUM_PIPELINE_MEMORY_CONTEXTS + memory
  }

  function Order(w: Work): nat {
    w.group * 14 + w.pass * 2 + w.memory
  }

  predicate IsWork(w: Work) {
    w.pass < PASS_COUNT
  }

  /** The passes queued for a run of n chunks; the cache maintenance and the join are queued only
      with memory context 0. */
  predicate Queued(w: Work, n: nat) {
    && IsWork(w) && 2 * w.group + w.memory < n
    && (w.pass in {MAINTAIN_SHADER_MODULE_LRU_CACHE, ENQUEUE_SHADER_MODULE_SECONDARY} ==> w.memory == 0)
  }

  predicate Lexicographic(a: Work, b: Work) {
    a.group < b.group || (a.group == b.group && (a.pass < b.pass || (a.pass == b.pass && a.memory < b.memory)))
  }

  /** Sorting by order index finishes every pass of a group before the next pass and every group
      before the next one. */
  lemma OrderIsLexicographic(a: Work, b: Work)
    requires IsWork(a) && IsWork(b)
    ensures Order(a) < Order(b) <==> Lexicographic(a, b)
  {
  }

  predicate Sorted(works: seq<Work>) {
    forall i, j :: 0 <= i < j < |works| ==> Order(works[i]) < Order(works[j])
  }

  /** The loop that fills the work list for a number of pipeline hashes. */
  method EnqueueDeferredPipelines(hashCount: nat) returns (work: seq<Work>, orders: seq<nat>)
    ensures |orders| == |work| && forall i :: 0 <= i < |work| ==> orders[i] == Order(work[i])
    ensures forall w :: w in work <==> Queued(w, Chunks(hashCount))
    ensures forall i, j :: 0 <= i < j < |work| ==> work[i] != work[j]
  {
    work, orders := [], [];
    var memoryIndex, iteration, hashOffset := 0, 0, 0;
    while hashOffset < hashCount
      invariant hashOffset == NUM_PIPELINES_PER_CONTEXT * iteration && iteration <= Chunks(hashCount)
      invariant memoryIndex == iteration % 2
      invariant |orders| == |work| && forall i :: 0 <= i < |work| ==> orders[i] == Order(work[i])
      invariant forall w :: w in work <==> Queued(w, iteration)
      invariant forall i, j :: 0 <= i < j < |work| ==> work[i] != work[j]
      decreases hashCount - hashOffset
    {
      var passes := [PARSE_ENQUEUE];
      if memoryIndex == 0 {
        passes := passes + [MAINTAIN_SHADER_MODULE_LRU_CACHE];
      }
      passes := passes + [ENQUEUE_SHADER_MODULES_PRIMARY, RESOLVE_AND_ENQUEUE_PIPELINES_PRIMARY, ENQUEUE_OUT_OF_RANGE_PARENTS];
      if memoryIndex == 0 {
        passes := passes + [ENQUEUE_SHADER_MODULE_SECONDARY];
      }
      passes := passes + [ENQUEUE_DERIVED_PIPELINES];
      assert passes == Passes(memoryIndex);
      var chunk, chunkOrders := ChunkWork(iteration, memoryIndex, passes);
      ChunkIsNew(work, chunk, iteration);
      work, orders := work + chunk, orders + chunkOrders;
      memoryIndex := (memoryIndex + 1) % NUM_PIPELINE_MEMORY_CONTEXTS;
      hashOffset, iteration := hashOffset + NUM_PIPELINES_PER_CONTEXT, iteration + 1;
    }
  }

  function Chunks(hashCount: nat): nat {
    (hashCount + NUM_PIPELINES_PER_CONTEXT - 1) / NUM_PIPELINES_PER_CONTEXT
  }

  /** The passes pushed for a chunk. */
  function Passes(memory: nat): seq<nat> {
    if memory == 0 then [0, 1, 2, 3, 4, 5, 6] else [0, 2, 3, 4, 6]
  }

  /** The pushes for one chunk. */
  method ChunkWork(iteration: nat, memoryIndex: nat, passes: seq<nat>) returns (work: seq<Work>, orders: seq<nat>)
    requires memoryIndex == iteration % 2
    ensures |orders| == |work| == |passes|
    ensures forall i :: 0 <= i < |work| ==> work[i] == Work(iteration / 2, passes[i], memoryIndex) && orders[i] == Order(work[i])
  {
    work, orders := [], [];
    for i := 0 to |passes|
      invariant |orders| == |work| == i
      invariant forall j :: 0 <= j < i ==> work[j] == Work(iteration / 2, passes[j], memoryIndex) && orders[j] == Order(work[j])
    {
      work := work + [Work(iteration / 2, passes[i], memoryIndex)];
      orders := orders + [OrderIndex(iteration, passes[i], memoryIndex)];
    }
  }

  lemma ChunkIsNew(work: seq<Work>, chunk: seq<Work>, iteration: nat)
    requires forall w :: w in work <==> Queued(w, iteration)
    requires forall i, j :: 0 <= i < j < |work| ==> work[i] != work[j]
    requires var passes := Passes(iteration % 2);
      |chunk| == |passes| && forall i :: 0 <= i < |chunk| ==> chunk[i] == Work(iteration / 2, passes[i], iteration % 2)
    ensures forall i, j :: 0 <= i < j < |work + chunk| ==> (work + chunk)[i] != (work + chunk)[j]
    ensures forall w :: w in work + chunk <==> Queued(w, iteration + 1)
  {
    var passes := Passes(iteration % 2);
    forall w
      ensures w in chunk <==> Queued(w, iteration + 1) && !Queued(w, iteration)
    {
      if Queued(w, iteration + 1) && !Queued(w, iteration) {
        assert 2 * w.group + w.memory == iteration && w.pass in passes;
        var i :| 0 <= i < |passes| && passes[i] == w.pass;
        assert chunk[i] == w;
      }
    }
    forall i, j | 0 <= i < j < |work + chunk|
      ensures (work + chunk)[i] != (work + chunk)[j]
    {
      if i < |work| <= j {
        assert work[i] in work && chunk[j - |work|] in chunk;
      }
    }
  }

  // ----- The sorted order -----

  /** One pass over a group with both chunks, or with a trailing one. */
  function PassWorks(g: nat, both: bool, pass: nat): seq<Work> {
    if both && pass !in {MAINTAIN_SHADER_MODULE_LRU_CACHE, ENQUEUE_SHADER_MODULE_SECONDARY}
    then [Work(g, pass, 0), Work(g, pass, 1)]
    else [Work(g, pass, 0)]
  }

  /** The passes of one group from a given pass on. */
  function GroupFrom(g: nat, both: bool, pass: nat): seq<Work>
    decreases PASS_COUNT - pass, g
  {
    if pass >= PASS_COUNT then [] else PassWorks(g, both, pass) + GroupFrom(g, both, pass + 1)
  }

  /** What runs for n more chunks from group g on. */
  function ScheduleFrom(g: nat, n: nat): seq<Work>
    decreases n, g
  {
    if n == 0 then []
    else if n == 1 then GroupFrom(g, false, PARSE_ENQUEUE)
    else GroupFrom(g, true, PARSE_ENQUEUE) + ScheduleFrom(g + 1, n - 2)
  }

  /** The list holds exactly the passes queued for the chunks from group g up to a chunk. */
  ghost predicate Holds(works: seq<Work>, g: nat, high: nat) {
    forall w :: w in works <==> w.group >= g && Queued(w, high)
  }

  /** Joining two sorted lists of which the first runs before the second. */
  lemma JoinSorted(first: seq<Work>, rest: seq<Work>)
    requires Sorted(first) && Sorted(rest)
    requires forall a, b :: a in first && b in rest ==> Order(a) < Order(b)
    ensures Sorted(first + rest)
    ensures forall w :: w in first + rest <==> w in first || w in rest
  {
    forall i, j | 0 <= i < j < |first + rest|
      ensures Order((first + rest)[i]) < Order((first + rest)[j])
    {
      if i < |first| <= j {
        assert first[i] in first && rest[j - |first|] in rest;
      }
    }
  }

  /** Membership in the rest of a group. */
  predicate InGroup(w: Work, g: nat, both: bool, pass: nat) {
    w.group == g && w.pass >= pass && Queued(w, 2 * g + if both then 2 else 1)
  }

  lemma PassIsSorted(g: nat, both: bool, pass: nat)
    requires pass < PASS_COUNT
    ensures var works := PassWorks(g, both, pass);
      Sorted(works) && forall w :: w in works <==> InGroup(w, g, both, pass) && w.pass == pass
  {
  }

  lemma {:induction false} GroupIsSorted(g: nat, both: bool, pass: nat)
    ensures Sorted(GroupFrom(g, both, pass))
    ensures forall w :: w in GroupFrom(g, both, pass) <==> InGroup(w, g, both, pass)
    decreases PASS_COUNT - pass, g
  {
    if pass < PASS_COUNT {
      GroupIsSorted(g, both, pass + 1);
      PassIsSorted(g, both, pass);
      var first, rest := PassWorks(g, both, pass), GroupFrom(g, both, pass + 1);
      forall a, b | a in first && b in rest
        ensures Order(a) < Order(b)
      {
        OrderIsLexicographic(a, b);
      }
      JoinSorted(first, rest);
    }
  }

  lemma {:induction false} ScheduleIsSorted(works: seq<Work>, g: nat, n: nat)
    requires works == ScheduleFrom(g, n)
    ensures Sorted(works) && Holds(works, g, 2 * g + n)
    decreases n
  {
    if n == 1 {
      TrailingGroup(works, g);
    } else if n >= 2 {
      var rest := ScheduleFrom(g + 1, n - 2);
      ScheduleIsSorted(rest, g + 1, n - 2);
      NextGroup(works, rest, g, n);
    }
  }

  lemma TrailingGroup(works: seq<Work>, g: nat)
    requires works == ScheduleFrom(g, 1)
    ensures Sorted(works) && Holds(works, g, 2 * g + 1)
  {
    GroupIsSorted(g, false, PARSE_ENQUEUE);
    LastGroup(works, g);
  }

  lemma NextGroup(works: seq<Work>, rest: seq<Work>, g: nat, n: nat)
    requires n >= 2 && works == ScheduleFrom(g, n) && rest == ScheduleFrom(g + 1, n - 2)
    requires Sorted(rest) && Holds(rest, g + 1, 2 * g + n)
    ensures Sorted(works) && Holds(works, g, 2 * g + n)
  {
    GroupIsSorted(g, true, PARSE_ENQUEUE);
    GroupThenRest(GroupFrom(g, true, PARSE_ENQUEUE), rest, g, n);
  }

  lemma LastGroup(works: seq<Work>, g: nat)
    requires forall w :: w in works <==> InGroup(w, g, false, PARSE_ENQUEUE)
    ensures Holds(works, g, 2 * g + 1)
  {
  }

  lemma GroupThenRest(first: seq<Work>, rest: seq<Work>, g: nat, n: nat)
    requires n >= 2 && Sorted(first) && Sorted(rest)
    requires forall w :: w in first <==> InGroup(w, g, true, PARSE_ENQUEUE)
    requires Holds(rest, g + 1, 2 * g + n)
    ensures Sorted(first + rest) && Holds(first + rest, g, 2 * g + n)
  {
    forall a, b | a in first && b in rest
      ensures Order(a) < Order(b)
    {
      OrderIsLexicographic(a, b);
    }
    JoinSorted(first, rest);
  }

  /** Two sorted lists of the same entries are the same list. */
  lemma {:induction false} SortedIsUnique(a: seq<Work>, b: seq<Work>)
    requires Sorted(a) && Sorted(b) && forall w :: w in a <==> w in b
    ensures a == b
    decreases |a|
  {
    assert b != [] ==> b[0] in b;
    if a != [] {
      assert a[0] in b && b[0] in a;
      assert a[0] == b[0] by {
        var i :| 0 <= i < |b| && b[i] == a[0];
        var j :| 0 <= j < |a| && a[j] == b[0];
      }
      TailSameEntries(a, b);
      TailSameEntries(b, a);
      SortedIsUnique(a[1..], b[1..]);
    }
  }

  lemma TailSameEntries(a: seq<Work>, b: seq<Work>)
    requires a != [] && b != [] && Sorted(a) && a[0] == b[0] && forall w :: w in a ==> w in b
    ensures forall w :: w in a[1..] ==> w in b[1..]
  {
    forall w | w in a[1..]
      ensures w in b[1..]
    {
      var i :| 0 <= i < |a[1..]| && a[1..][i] == w;
      assert a[i + 1] == w && w in b && w != b[0];
      var j :| 0 <= j < |b| && b[j] == w;
      assert b[1..][j - 1] == w;
    }
  }

  /** Whatever sorting algorithm is used, the sorted work list is the schedule. */
  lemma SortedWorkIsSchedule(work: seq<Work>, sorted: seq<Work>, hashCount: nat)
    requires forall w :: w in work <==> Queued(w, Chunks(hashCount))
    requires Sorted(sorted) && forall w :: w in sorted <==> w in work
    ensures sorted == ScheduleFrom(0, Chunks(hashCount))
  {
    ScheduleIsSorted(ScheduleFrom(0, Chunks(hashCount)), 0, Chunks(hashCount));
    SortedIsUnique(sorted, ScheduleFrom(0, Chunks(hashCount)));
  }
}
