/** The replay scheduler: no arena is recycled while work refers to it, for any number of chunks
    and workers; and exactly when the shader module cache is pruned with creations in flight. */
module SchedulerSafety {
  import opened Schedule
  import opened Wrappers
  import opened Scheduler

  // ----- Lists of calls -----

  lemma {:induction false} CallsAppend(a: seq<Work>, b: seq<Work>, chunkBase: nat, groupBase: nat)
    ensures Calls(a + b, chunkBase, groupBase) == Calls(a, chunkBase, groupBase) + Calls(b, chunkBase, groupBase)
    decreases |a|
  {
    if a == [] {
      assert a + b == b;
    } else {
      assert (a + b)[1..] == a[1..] + b;
      CallsAppend(a[1..], b, chunkBase, groupBase);
    }
  }

  lemma {:induction false} LearnAppend(k: Knowledge, a: seq<Op>, b: seq<Op>)
    ensures LearnAll(k, a + b) == LearnAll(LearnAll(k, a), b)
    ensures AllSafe(k, a + b) <==> AllSafe(k, a) && AllSafe(LearnAll(k, a), b)
    ensures AllQuiet(k, a + b) <==> AllQuiet(k, a) && AllQuiet(LearnAll(k, a), b)
    decreases |a|
  {
    if a == [] {
      assert a + b == b;
    } else {
      assert (a + b)[1..] == a[1..] + b;
      LearnAppend(Learn(k, a[0]), a[1..], b);
    }
  }

  lemma LearnOne(k: Knowledge, a: Op)
    ensures LearnAll(k, [a]) == Learn(k, a)
    ensures AllSafe(k, [a]) <==> Safe(k, a)
    ensures AllQuiet(k, [a]) <==> (a.MaintainCache? ==> Quiet(k))
  {
    assert [a][1..] == [];
  }

  lemma LearnCons(k: Knowledge, a: Op, rest: seq<Op>)
    ensures LearnAll(k, [a] + rest) == LearnAll(Learn(k, a), rest)
    ensures AllSafe(k, [a] + rest) <==> Safe(k, a) && AllSafe(Learn(k, a), rest)
    ensures AllQuiet(k, [a] + rest) <==> (a.MaintainCache? ==> Quiet(k)) && AllQuiet(Learn(k, a), rest)
  {
    LearnOne(k, a);
    LearnAppend(k, [a], rest);
  }

  lemma LearnTwo(k: Knowledge, a: Op, b: Op)
    requires !a.MaintainCache? && !b.MaintainCache?
    ensures LearnAll(k, [a, b]) == Learn(Learn(k, a), b) && AllQuiet(k, [a, b])
    ensures AllSafe(k, [a, b]) <==> Safe(k, a) && Safe(Learn(k, a), b)
  {
    assert [a, b] == [a] + [b];
    LearnCons(k, a, [b]);
    LearnOne(Learn(k, a), b);
  }

  lemma LearnThree(k: Knowledge, a: Op, b: Op, c: Op)
    requires !a.MaintainCache? && !b.MaintainCache? && !c.MaintainCache?
    ensures LearnAll(k, [a, b, c]) == Learn(Learn(Learn(k, a), b), c) && AllQuiet(k, [a, b, c])
    ensures AllSafe(k, [a, b, c]) <==> Safe(k, a) && Safe(Learn(k, a), b) && Safe(Learn(Learn(k, a), b), c)
  {
    assert [a, b, c] == [a] + [b, c];
    LearnCons(k, a, [b, c]);
    LearnTwo(Learn(k, a), b, c);
  }

  // ----- One pass of a group -----

  /** What the dispatcher knows before each pass of a group whose first chunk is c0 and whose
      number is grp; l1 is what may be outstanding in context 1 when a trailing chunk starts. */
  predicate Before(k: Knowledge, pass: nat, both: bool, c0: nat, grp: nat, l1: Level) {
    && k.level.c3 == (if pass == 3 then OnlyParsing else Nothing)
    && k.level.c2 == (if pass == 5 then OnlyParsing else if pass == 6 then OnlyCreating else Nothing)
    && k.owner.c2 == (if pass == 7 then grp + 1 else grp)
    && (pass >= 1 ==> k.owner.c0 == c0 && k.level.c0 == Busy(pass))
    && (pass >= 1 && both ==> k.owner.c1 == c0 + 1 && k.level.c1 == Busy(pass))
    && (!both ==> k.level.c1 == if pass >= 6 then Nothing else l1)
  }

  function Busy(pass: nat): Level {
    if pass in {1, 2} then OnlyParsing else if pass in {3, 6} then Nothing else OnlyCreating
  }

  ghost function PassCalls(g: nat, both: bool, pass: nat, chunkBase: nat, groupBase: nat): seq<Op> {
    Calls(PassWorks(g, both, pass), chunkBase, groupBase)
  }

  lemma CallsOfPass(g: nat, both: bool, pass: nat, chunkBase: nat, groupBase: nat)
    ensures PassCalls(g, both, pass, chunkBase, groupBase) ==
      if both && pass !in {1, 5}
      then OpsOf(Work(g, pass, 0), chunkBase, groupBase) + OpsOf(Work(g, pass, 1), chunkBase, groupBase)
      else OpsOf(Work(g, pass, 0), chunkBase, groupBase)
  {
    CallsOne(Work(g, pass, 0), chunkBase, groupBase);
    if both && pass !in {1, 5} {
      CallsOne(Work(g, pass, 1), chunkBase, groupBase);
      CallsAppend([Work(g, pass, 0)], [Work(g, pass, 1)], chunkBase, groupBase);
      assert PassWorks(g, both, pass) == [Work(g, pass, 0)] + [Work(g, pass, 1)];
    } else {
      assert PassWorks(g, both, pass) == [Work(g, pass, 0)];
    }
  }

  lemma CallsOne(w: Work, chunkBase: nat, groupBase: nat)
    ensures Calls([w], chunkBase, groupBase) == OpsOf(w, chunkBase, groupBase)
  {
    var ops := OpsOf(w, chunkBase, groupBase);
    assert [w][1..] == [] && ops + [] == ops;
  }

  /** The calls of one work entry. */
  lemma EntryStep(k: Knowledge, w: Work, chunkBase: nat, groupBase: nat) returns (k': Knowledge)
    requires w.pass < PASS_COUNT && (w.pass == 5 ==> w.memory == 0)
    requires var m, chunk, grp := w.memory, chunkBase + 2 * w.group + w.memory, groupBase + w.group;
      && (w.pass in {3, 6} ==> k.owner.At(m) == chunk && k.level.At(m) == Nothing)
      && (w.pass == 6 ==> k.level.c3 == Nothing)
      && (w.pass in {4, 5} ==> k.owner.c2 == grp)
    ensures var ops := OpsOf(w, chunkBase, groupBase);
      k' == LearnAll(k, ops) && AllSafe(k, ops) && (AllQuiet(k, ops) <==> (w.pass == 1 ==> Quiet(k)))
    ensures var m, chunk, grp := w.memory, chunkBase + 2 * w.group + w.memory, groupBase + w.group;
      k' == match w.pass
        case 0 => Knowledge(k.level.With(m, OnlyParsing), k.owner.With(m, chunk))
        case 1 => k
        case 2 => k.(level := k.level.With(m, Nothing).With(3, Raised(k.level.c3, Parse)))
        case 3 => k.(level := k.level.With(3, Nothing).With(m, OnlyCreating))
        case 4 => k.(level := k.level.With(2, Raised(k.level.c2, Parse)))
        case 5 => k.(level := PerContext(Nothing, Nothing, OnlyCreating, Nothing))
        case _ =>
          if m == 0 then Knowledge(k.level.With(2, Nothing).With(0, OnlyCreating), k.owner.With(2, grp + 1))
          else k.(level := k.level.With(m, OnlyCreating))
  {
    var m, chunk, grp := w.memory, chunkBase + 2 * w.group + w.memory, groupBase + w.group;
    var ops := OpsOf(w, chunkBase, groupBase);
    k' := LearnAll(k, ops);
    if w.pass == 5 {
      assert ops == [ops[0], ops[1], ops[2]] + [ops[3], ops[4], ops[5]];
      LearnAppend(k, [ops[0], ops[1], ops[2]], [ops[3], ops[4], ops[5]]);
      LearnThree(k, ops[0], ops[1], ops[2]);
      LearnThree(LearnAll(k, [ops[0], ops[1], ops[2]]), ops[3], ops[4], ops[5]);
    } else if |ops| == 1 {
      assert ops == [ops[0]];
      LearnOne(k, ops[0]);
    } else if |ops| == 2 {
      assert ops == [ops[0], ops[1]];
      LearnTwo(k, ops[0], ops[1]);
    } else {
      assert ops == [ops[0], ops[1], ops[2]];
      LearnThree(k, ops[0], ops[1], ops[2]);
    }
  }

  /** One pass moves the dispatcher's knowledge to that before the next pass; it is safe, and the
      cache maintenance is quiet unless a trailing chunk meets leftovers in context 1. */
  lemma PassStep(k: Knowledge, g: nat, both: bool, pass: nat, chunkBase: nat, groupBase: nat, l1: Level)
    requires pass < PASS_COUNT && Before(k, pass, both, chunkBase + 2 * g, groupBase + g, l1)
    ensures var ops := PassCalls(g, both, pass, chunkBase, groupBase);
      && AllSafe(k, ops)
      && Before(LearnAll(k, ops), pass + 1, both, chunkBase + 2 * g, groupBase + g, l1)
      && (AllQuiet(k, ops) <==> (pass == 1 && !both ==> l1 in {Nothing, OnlyParsing}))
  {
    CallsOfPass(g, both, pass, chunkBase, groupBase);
    var w0, w1 := Work(g, pass, 0), Work(g, pass, 1);
    var k0 := EntryStep(k, w0, chunkBase, groupBase);
    if both && pass !in {1, 5} {
      var k1 := EntryStep(k0, w1, chunkBase, groupBase);
      LearnAppend(k, OpsOf(w0, chunkBase, groupBase), OpsOf(w1, chunkBase, groupBase));
    }
  }

  lemma {:induction false} GroupStep(k: Knowledge, g: nat, both: bool, pass: nat, chunkBase: nat, groupBase: nat, l1: Level)
    requires pass <= PASS_COUNT && Before(k, pass, both, chunkBase + 2 * g, groupBase + g, l1)
    ensures var ops := Calls(GroupFrom(g, both, pass), chunkBase, groupBase);
      && AllSafe(k, ops)
      && Before(LearnAll(k, ops), PASS_COUNT, both, chunkBase + 2 * g, groupBase + g, l1)
      && (AllQuiet(k, ops) <==> (pass <= 1 && !both ==> l1 in {Nothing, OnlyParsing}))
    decreases PASS_COUNT - pass
  {
    if pass < PASS_COUNT {
      var ops, rest := GroupCalls(g, both, pass, chunkBase, groupBase);
      var k1 := LearnAll(k, ops);
      PassStep(k, g, both, pass, chunkBase, groupBase, l1);
      GroupStep(k1, g, both, pass + 1, chunkBase, groupBase, l1);
      LearnAppend(k, ops, rest);
    } else {
      assert Calls(GroupFrom(g, both, pass), chunkBase, groupBase) == [];
    }
  }

  lemma GroupCalls(g: nat, both: bool, pass: nat, chunkBase: nat, groupBase: nat) returns (ops: seq<Op>, rest: seq<Op>)
    requires pass < PASS_COUNT
    ensures ops == PassCalls(g, both, pass, chunkBase, groupBase)
    ensures rest == Calls(GroupFrom(g, both, pass + 1), chunkBase, groupBase)
    ensures Calls(GroupFrom(g, both, pass), chunkBase, groupBase) == ops + rest
  {
    CallsAppend(PassWorks(g, both, pass), GroupFrom(g, both, pass + 1), chunkBase, groupBase);
    ops := PassCalls(g, both, pass, chunkBase, groupBase);
    rest := Calls(GroupFrom(g, both, pass + 1), chunkBase, groupBase);
  }

  // ----- Whole workloads -----

  /** What may be left in context 1 after n chunks. */
  function Leftover(n: nat, l1: Level): Level {
    if n == 0 then l1 else if n % 2 == 1 then Nothing else OnlyCreating
  }

  predicate Open(k: Knowledge, grp: nat, l1: Level) {
    k.level.c3 == Nothing && k.level.c2 == Nothing && k.owner.c2 == grp && k.level.c1 == l1
  }

  /** A workload is safe however many chunks it has.  Its cache maintenance is always quiet when
      the chunks pair up; a trailing chunk is quiet only if it is alone and nothing was left. */
  lemma {:induction false} WorkloadStep(k: Knowledge, g: nat, n: nat, chunkBase: nat, groupBase: nat, l1: Level)
    requires Open(k, groupBase + g, l1)
    ensures var ops := Calls(ScheduleFrom(g, n), chunkBase, groupBase);
      && AllSafe(k, ops)
      && Open(LearnAll(k, ops), groupBase + g + Groups(n), Leftover(n, l1))
      && (AllQuiet(k, ops) <==> n % 2 == 0 || (n == 1 && l1 in {Nothing, OnlyParsing}))
    decreases n
  {
    if n == 1 {
      GroupStep(k, g, false, PARSE_ENQUEUE, chunkBase, groupBase, l1);
    } else if n >= 2 {
      NextGroupStep(k, g, n, chunkBase, groupBase, l1);
      var k' := LearnAll(k, Calls(GroupFrom(g, true, PARSE_ENQUEUE), chunkBase, groupBase));
      WorkloadStep(k', g + 1, n - 2, chunkBase, groupBase, OnlyCreating);
    }
  }

  lemma NextGroupStep(k: Knowledge, g: nat, n: nat, chunkBase: nat, groupBase: nat, l1: Level)
    requires Open(k, groupBase + g, l1) && n >= 2
    ensures var first := Calls(GroupFrom(g, true, PARSE_ENQUEUE), chunkBase, groupBase);
      var rest := Calls(ScheduleFrom(g + 1, n - 2), chunkBase, groupBase);
      && Open(LearnAll(k, first), groupBase + g + 1, OnlyCreating) && AllSafe(k, first) && AllQuiet(k, first)
      && Calls(ScheduleFrom(g, n), chunkBase, groupBase) == first + rest
      && LearnAll(k, first + rest) == LearnAll(LearnAll(k, first), rest)
      && (AllSafe(k, first + rest) <==> AllSafe(LearnAll(k, first), rest))
      && (AllQuiet(k, first + rest) <==> AllQuiet(LearnAll(k, first), rest))
  {
    GroupStep(k, g, true, PARSE_ENQUEUE, chunkBase, groupBase, l1);
    CallsAppend(GroupFrom(g, true, PARSE_ENQUEUE), ScheduleFrom(g + 1, n - 2), chunkBase, groupBase);
    LearnAppend(k, Calls(GroupFrom(g, true, PARSE_ENQUEUE), chunkBase, groupBase),
                Calls(ScheduleFrom(g + 1, n - 2), chunkBase, groupBase));
  }

  const FRESH: Knowledge :=
    Knowledge(PerContext(Nothing, Nothing, Nothing, Nothing), PerContext(0, 0, 0, 0))

  /** No group with a trailing chunk runs right behind a group with two chunks. */
  predicate NoStraggler(graphics: nat, compute: nat) {
    && (graphics % 2 == 0 || graphics == 1)
    && (compute % 2 == 0 || (compute == 1 && graphics < 2))
  }

  lemma ReplayIsSafe(graphics: nat, compute: nat)
    ensures AllSafe(FRESH, Replay(graphics, compute))
    ensures AllQuiet(FRESH, Replay(graphics, compute)) <==> NoStraggler(graphics, compute)
    ensures LearnAll(FRESH, Replay(graphics, compute)).level == PerContext(Nothing, Nothing, Nothing, Nothing)
  {
    var first, second := Calls(ScheduleFrom(0, graphics), 0, 0), Calls(ScheduleFrom(0, compute), graphics, Groups(graphics));
    var drain := [Sync(0), Sync(1), Sync(PARENT_CONTEXT), Sync(MODULE_CONTEXT)];
    var k1 := LearnAll(FRESH, first);
    var k2 := LearnAll(k1, second);
    WorkloadStep(FRESH, 0, graphics, 0, 0, Nothing);
    WorkloadStep(k1, 0, compute, graphics, Groups(graphics), Leftover(graphics, Nothing));
    DrainStep(k2, drain);
    LearnAppend(k1, second, drain);
    LearnAppend(FRESH, first, second + drain);
  }

  lemma DrainStep(k: Knowledge, drain: seq<Op>)
    requires drain == [Sync(0), Sync(1), Sync(PARENT_CONTEXT), Sync(MODULE_CONTEXT)]
    ensures AllSafe(k, drain) && AllQuiet(k, drain)
    ensures LearnAll(k, drain).level == PerContext(Nothing, Nothing, Nothing, Nothing)
  {
    var a, b := [Sync(0), Sync(1)], [Sync(PARENT_CONTEXT), Sync(MODULE_CONTEXT)];
    assert drain == a + b;
    LearnTwo(k, Sync(0), Sync(1));
    LearnTwo(LearnAll(k, a), Sync(PARENT_CONTEXT), Sync(MODULE_CONTEXT));
    LearnAppend(k, a, b);
  }

  // ----- The theorems about runs -----

  lemma StartInv(todo: seq<Op>, workers: nat)
    requires AllSafe(FRESH, todo)
    ensures Inv(Start(todo, workers), FRESH)
  {
    var s := Start(todo, workers);
    NothingRuns(s.running);
  }

  lemma {:induction false} NothingRuns(r: seq<Option<Item>>)
    requires forall i :: 0 <= i < |r| ==> r[i] == None
    ensures forall c: Ctx :: CountRunning(r, c) == 0
    decreases |r|
  {
    if r != [] {
      NothingRuns(r[1..]);
    }
  }

  /** For any number of chunks and workers and any interleaving: queued minus completed is what is
      outstanding, per context; an item always belongs to the chunk its arena is set up for;
      when the dispatcher recycles an arena nothing of its context is queued or running; and once
      the replay is over nothing is. */
  lemma ArenasAreSafe(graphics: nat, compute: nat, workers: nat, run: seq<Action>)
    requires Run(Start(Replay(graphics, compute), workers), run)
    ensures var s := After(Start(Replay(graphics, compute), workers), run);
      && Counted(s)
      && (forall i :: Outstanding(s, i) && i.ctx != MODULE_CONTEXT ==> i.owner == s.owner.At(i.ctx))
      && (s.todo != [] && s.todo[0].Reset? ==> forall i :: Outstanding(s, i) ==> i.ctx != s.todo[0].ctx)
      && (s.todo == [] ==> forall i :: !Outstanding(s, i))
  {
    ReplayIsSafe(graphics, compute);
    StartInv(Replay(graphics, compute), workers);
    var start := Start(Replay(graphics, compute), workers);
    var k := Safety(start, FRESH, run);
    SafeState(After(start, run), k);
  }

  /** What the invariant says of one state. */
  lemma SafeState(s: State, k: Knowledge)
    requires Inv(s, k) && LearnAll(k, s.todo).level == PerContext(Nothing, Nothing, Nothing, Nothing)
    ensures forall i :: Outstanding(s, i) && i.ctx != MODULE_CONTEXT ==> i.owner == s.owner.At(i.ctx)
    ensures s.todo != [] && s.todo[0].Reset? ==> forall i :: Outstanding(s, i) ==> i.ctx != s.todo[0].ctx
    ensures s.todo == [] ==> forall i :: !Outstanding(s, i)
  {
  }

  /** In every run, while the dispatcher enqueues creations, no shader module is outstanding, and of the
      context of these pipelines only creations of the same chunk are: its parsing is over. */
  lemma CreationsWait(graphics: nat, compute: nat, workers: nat, run: seq<Action>)
    requires Run(Start(Replay(graphics, compute), workers), run)
    ensures var s := After(Start(Replay(graphics, compute), workers), run);
      s.todo != [] && s.todo[0].Emit? && s.todo[0].kind == Create ==>
        forall i :: Outstanding(s, i) ==>
          i.ctx != MODULE_CONTEXT && (i.ctx == s.todo[0].ctx ==> i.kind == Create && i.owner == s.todo[0].owner)
  {
    ReplayIsSafe(graphics, compute);
    StartInv(Replay(graphics, compute), workers);
    var k := Safety(Start(Replay(graphics, compute), workers), FRESH, run);
    OnlyCreations(After(Start(Replay(graphics, compute), workers), run), k);
  }

  lemma OnlyCreations(s: State, k: Knowledge)
    requires Inv(s, k)
    ensures s.todo != [] && s.todo[0].Emit? && s.todo[0].kind == Create ==>
      forall i :: Outstanding(s, i) ==>
        i.ctx != MODULE_CONTEXT && (i.ctx == s.todo[0].ctx ==> i.kind == Create && i.owner == s.todo[0].owner)
  {
  }

  /** When the chunks pair up, the shader module cache is pruned only while no pipeline creation
      and no shader module work is queued or running. */
  lemma PruneSeesNoCreation(graphics: nat, compute: nat, workers: nat, run: seq<Action>)
    requires NoStraggler(graphics, compute)
    requires Run(Start(Replay(graphics, compute), workers), run)
    ensures var s := After(Start(Replay(graphics, compute), workers), run);
      s.todo != [] && s.todo[0].MaintainCache? ==>
        forall i :: Outstanding(s, i) ==> i.kind == Parse && i.ctx != MODULE_CONTEXT
  {
    ReplayIsSafe(graphics, compute);
    StartInv(Replay(graphics, compute), workers);
    var k := Safety(Start(Replay(graphics, compute), workers), FRESH, run);
    QuietAtPrune(After(Start(Replay(graphics, compute), workers), run), k);
  }

  lemma QuietAtPrune(s: State, k: Knowledge)
    requires Inv(s, k) && AllQuiet(k, s.todo)
    ensures s.todo != [] && s.todo[0].MaintainCache? ==>
      forall i :: Outstanding(s, i) ==> i.kind == Parse && i.ctx != MODULE_CONTEXT
  {
  }

  /** The replay never gets stuck: while the dispatcher has calls left and there is a worker,
      some step is possible. */
  lemma NeverStuck(graphics: nat, compute: nat, workers: nat, run: seq<Action>) returns (a: Action)
    requires workers > 0 && Run(Start(Replay(graphics, compute), workers), run)
    requires After(Start(Replay(graphics, compute), workers), run).todo != []
    ensures Enabled(After(Start(Replay(graphics, compute), workers), run), a)
  {
    var s := After(Start(Replay(graphics, compute), workers), run);
    ArenasAreSafe(graphics, compute, workers, run);
    WorkersStay(Start(Replay(graphics, compute), workers), run);
    if Enabled(s, Advance) {
      return Advance;
    }
    if s.running[0].Some? {
      return Complete(0);
    }
    if s.queue != [] {
      return Pop(0);
    }
    var c := s.todo[0].ctx;
    assert CountRunning(s.running, c) > 0;
    var w := BusyWorker(s.running, c);
    a := Complete(w);
  }

  lemma {:induction false} WorkersStay(s: State, run: seq<Action>)
    requires Run(s, run)
    ensures |After(s, run).running| == |s.running|
    decreases |run|
  {
    if run != [] {
      WorkersStay(Step(s, run[0]), run[1..]);
    }
  }

  lemma {:induction false} BusyWorker(r: seq<Option<Item>>, c: Ctx) returns (w: nat)
    requires CountRunning(r, c) > 0
    ensures w < |r| && r[w].Some?
    decreases |r|
  {
    if r[0].Some? {
      w := 0;
    } else {
      w := BusyWorker(r[1..], c);
      w := w + 1;
    }
  }

  // ----- The straggler: a prune with a creation in flight -----

  /** The dispatcher can walk over calls without emitting anything, as long as it never waits for
      the context of an outstanding item. */
  lemma {:induction false} WalkOver(s: State, skip: seq<Op>, rest: seq<Op>) returns (run: seq<Action>)
    requires s.todo == skip + rest
    requires forall op :: op in skip && op.Sync? ==> s.queued.At(op.ctx) == s.completed.At(op.ctx)
    ensures Run(s, run) && After(s, run).todo == rest
    ensures After(s, run).queue == s.queue && After(s, run).queued == s.queued && After(s, run).completed == s.completed
    decreases |skip|
  {
    if skip == [] {
      run := [];
    } else {
      assert s.todo[0] == skip[0] && s.todo[1..] == skip[1..] + rest;
      var tail := WalkOver(Step(s, Advance), skip[1..], rest);
      run := [Advance] + tail;
      assert run[1..] == tail;
    }
  }

  lemma {:induction false} RunAppend(s: State, a: seq<Action>, b: seq<Action>)
    requires Run(s, a) && Run(After(s, a), b)
    ensures Run(s, a + b) && After(s, a + b) == After(After(s, a), b)
    decreases |a|
  {
    if a == [] {
      assert a + b == b;
    } else {
      assert (a + b)[0] == a[0] && (a + b)[1..] == a[1..] + b;
      RunAppend(Step(s, a[0]), a[1..], b);
    }
  }

  /** A creation emitted in context 1 is still queued at a later prune if nothing in between waits
      for context 1. */
  lemma CreationMeetsPrune(before: seq<Op>, owner: nat, between: seq<Op>, after: seq<Op>, workers: nat)
    returns (run: seq<Action>)
    requires forall op :: op in between ==> op != Sync(1)
    ensures var todo := before + ([Emit(Create, 1, owner)] + (between + ([MaintainCache] + after)));
      && Run(Start(todo, workers), run)
      && After(Start(todo, workers), run).todo == [MaintainCache] + after
      && Outstanding(After(Start(todo, workers), run), Item(Create, 1, owner))
  {
    var emit := [Emit(Create, 1, owner)];
    var tail := [MaintainCache] + after;
    var s0 := Start(before + (emit + (between + tail)), workers);
    var run1 := WalkOver(s0, before, emit + (between + tail));
    var s1 := After(s0, run1);
    assert s1.todo[0] == Emit(Create, 1, owner);
    var s2 := Step(s1, Enqueue);
    assert s2.queue == [Item(Create, 1, owner)];
    assert s2.todo == emit + (between + tail);
    Associative(emit, between, tail);
    var run2 := WalkOver(s2, emit + between, tail);
    run := run1 + ([Enqueue] + run2);
    assert ([Enqueue] + run2)[1..] == run2;
    RunAppend(s0, run1, [Enqueue] + run2);
  }

  /** A group of two chunks ends with the derived creations of context 1. */
  lemma {:induction false} GroupEndsCreating(g: nat, pass: nat, chunkBase: nat, groupBase: nat) returns (before: seq<Op>, owner: nat)
    requires pass < PASS_COUNT
    ensures Calls(GroupFrom(g, true, pass), chunkBase, groupBase) == before + [Emit(Create, 1, owner)]
    decreases PASS_COUNT - pass
  {
    var ops, rest := PassCalls(g, true, pass, chunkBase, groupBase), GroupFrom(g, true, pass + 1);
    CallsAppend(PassWorks(g, true, pass), rest, chunkBase, groupBase);
    CallsOfPass(g, true, pass, chunkBase, groupBase);
    if pass == 6 {
      before, owner := OpsOf(Work(g, 6, 0), chunkBase, groupBase), chunkBase + 2 * g + 1;
      assert Calls(rest, chunkBase, groupBase) == [] && ops + [] == ops;
    } else {
      var tail;
      tail, owner := GroupEndsCreating(g, pass + 1, chunkBase, groupBase);
      before := ops + tail;
      Associative(ops, tail, [Emit(Create, 1, owner)]);
    }
  }

  lemma {:induction false} PairsEndCreating(g: nat, n: nat, chunkBase: nat, groupBase: nat) returns (before: seq<Op>, owner: nat)
    requires n >= 2 && n % 2 == 0
    ensures Calls(ScheduleFrom(g, n), chunkBase, groupBase) == before + [Emit(Create, 1, owner)]
    decreases n
  {
    var first, rest := GroupFrom(g, true, PARSE_ENQUEUE), ScheduleFrom(g + 1, n - 2);
    CallsAppend(first, rest, chunkBase, groupBase);
    if n == 2 {
      before, owner := GroupEndsCreating(g, PARSE_ENQUEUE, chunkBase, groupBase);
      assert first + [] == first;
    } else {
      var tail;
      tail, owner := PairsEndCreating(g + 1, n - 2, chunkBase, groupBase);
      before := Calls(first, chunkBase, groupBase) + tail;
      Associative(Calls(first, chunkBase, groupBase), tail, [Emit(Create, 1, owner)]);
    }
  }

  /** A trailing group prunes the cache after waiting for context 0 only. */
  lemma TrailingGroupPrunes(g: nat, chunkBase: nat, groupBase: nat) returns (between: seq<Op>, after: seq<Op>)
    ensures Calls(ScheduleFrom(g, 1), chunkBase, groupBase) == between + ([MaintainCache] + after)
    ensures forall op :: op in between ==> op != Sync(1)
  {
    var rest := GroupFrom(g, false, 2);
    between, after := OpsOf(Work(g, 0, 0), chunkBase, groupBase), Calls(rest, chunkBase, groupBase);
    CallsOfPass(g, false, 0, chunkBase, groupBase);
    CallsOfPass(g, false, 1, chunkBase, groupBase);
    CallsAppend(PassWorks(g, false, 1), rest, chunkBase, groupBase);
    CallsAppend(PassWorks(g, false, 0), GroupFrom(g, false, 1), chunkBase, groupBase);
  }

  lemma {:induction false} SplitTrailing(g: nat, n: nat, even: nat, pairs: nat)
    requires even == 2 * pairs && n == even + 1
    ensures ScheduleFrom(g, n) == ScheduleFrom(g, even) + ScheduleFrom(g + pairs, 1)
    decreases pairs
  {
    if pairs == 0 {
      assert [] + ScheduleFrom(g, 1) == ScheduleFrom(g, 1);
    } else {
      var first := GroupFrom(g, true, PARSE_ENQUEUE);
      SplitTrailing(g + 1, n - 2, even - 2, pairs - 1);
      assert g + 1 + (pairs - 1) == g + pairs;
      Associative(first, ScheduleFrom(g + 1, even - 2), ScheduleFrom(g + pairs, 1));
    }
  }

  /** Pairs of chunks, then a trailing one, anywhere in a list of calls. */
  lemma PairsThenTrailing(p: seq<Op>, pairs: seq<Op>, trailing: seq<Op>, q: seq<Op>,
                          before: seq<Op>, owner: nat, between: seq<Op>, after: seq<Op>, workers: nat)
    returns (run: seq<Action>)
    requires pairs == before + [Emit(Create, 1, owner)] && trailing == between + ([MaintainCache] + after)
    requires forall op :: op in between ==> op != Sync(1)
    ensures var s := Start(p + (pairs + (trailing + q)), workers);
      Run(s, run) && PrunesUnderCreation(After(s, run))
  {
    var emit := [Emit(Create, 1, owner)];
    run := CreationMeetsPrune(p + before, owner, between, after + q, workers);
    Associative([MaintainCache], after, q);
    Associative(between, [MaintainCache] + after, q);
    Associative(before, emit, trailing + q);
    Associative(p, before, emit + (trailing + q));
  }

  /** The dispatcher is about to prune the cache while a creation is outstanding. */
  ghost predicate PrunesUnderCreation(s: State) {
    s.todo != [] && s.todo[0].MaintainCache? && exists i :: Outstanding(s, i) && i.kind == Create
  }

  /** Whenever a trailing chunk runs right behind a pair, there is a run that prunes the cache
      with a creation outstanding: with PruneSeesNoCreation, the condition is exact. */
  lemma StragglerPrunesUnderCreation(graphics: nat, compute: nat, workers: nat) returns (run: seq<Action>)
    requires !NoStraggler(graphics, compute)
    ensures var s := Start(Replay(graphics, compute), workers);
      Run(s, run) && PrunesUnderCreation(After(s, run))
  {
    if graphics % 2 == 1 && graphics != 1 {
      run := OddGraphics(graphics, compute, workers);
    } else if compute == 1 {
      run := LoneCompute(graphics, workers);
    } else {
      var drain := [Sync(0), Sync(1), Sync(PARENT_CONTEXT), Sync(MODULE_CONTEXT)];
      run := OddWorkload(Calls(ScheduleFrom(0, graphics), 0, 0), compute, graphics, Groups(graphics), drain, workers);
    }
  }

  lemma OddGraphics(graphics: nat, compute: nat, workers: nat) returns (run: seq<Action>)
    requires graphics >= 3 && graphics % 2 == 1
    ensures var s := Start(Replay(graphics, compute), workers);
      Run(s, run) && PrunesUnderCreation(After(s, run))
  {
    var second := Calls(ScheduleFrom(0, compute), graphics, Groups(graphics));
    var drain := [Sync(0), Sync(1), Sync(PARENT_CONTEXT), Sync(MODULE_CONTEXT)];
    run := OddWorkload([], graphics, 0, 0, second + drain, workers);
    NothingFirst(Replay(graphics, compute));
  }

  lemma LoneCompute(graphics: nat, workers: nat) returns (run: seq<Action>)
    requires graphics >= 2 && graphics % 2 == 0
    ensures var s := Start(Replay(graphics, 1), workers);
      Run(s, run) && PrunesUnderCreation(After(s, run))
  {
    var drain := [Sync(0), Sync(1), Sync(PARENT_CONTEXT), Sync(MODULE_CONTEXT)];
    var before, owner := PairsEndCreating(0, graphics, 0, 0);
    var between, after := TrailingGroupPrunes(0, graphics, Groups(graphics));
    run := PairsThenTrailing([], Calls(ScheduleFrom(0, graphics), 0, 0), Calls(ScheduleFrom(0, 1), graphics, Groups(graphics)),
                             drain, before, owner, between, after, workers);
    NothingFirst(Replay(graphics, 1));
  }

  lemma NothingFirst(ops: seq<Op>)
    ensures [] + ops == ops
  {
  }

  /** A workload of three or more chunks, oddly many, anywhere in the replay. */
  lemma OddWorkload(p: seq<Op>, n: nat, chunkBase: nat, groupBase: nat, q: seq<Op>, workers: nat) returns (run: seq<Action>)
    requires n >= 3 && n % 2 == 1
    ensures var s := Start(p + (Calls(ScheduleFrom(0, n), chunkBase, groupBase) + q), workers);
      Run(s, run) && PrunesUnderCreation(After(s, run))
  {
    var works := ScheduleFrom(0, n);
    var pairs, trailing := OddSchedule(works, n);
    var before, owner, between, after := OddCalls(works, pairs, trailing, n, chunkBase, groupBase);
    var a, b := Calls(pairs, chunkBase, groupBase), Calls(trailing, chunkBase, groupBase);
    run := PairsThenTrailing(p, a, b, q, before, owner, between, after, workers);
    Associative(a, b, q);
  }

  lemma OddSchedule(works: seq<Work>, n: nat) returns (pairs: seq<Work>, trailing: seq<Work>)
    requires n >= 3 && n % 2 == 1 && works == ScheduleFrom(0, n)
    ensures works == pairs + trailing && pairs == ScheduleFrom(0, n - 1) && trailing == ScheduleFrom(n / 2, 1)
  {
    pairs, trailing := ScheduleFrom(0, n - 1), ScheduleFrom(n / 2, 1);
    SplitTrailing(0, n, n - 1, n / 2);
  }

  lemma OddCalls(works: seq<Work>, pairs: seq<Work>, trailing: seq<Work>, n: nat, chunkBase: nat, groupBase: nat)
    returns (before: seq<Op>, owner: nat, between: seq<Op>, after: seq<Op>)
    requires n >= 3 && n % 2 == 1 && works == pairs + trailing
    requires pairs == ScheduleFrom(0, n - 1) && trailing == ScheduleFrom(n / 2, 1)
    ensures Calls(works, chunkBase, groupBase) == Calls(pairs, chunkBase, groupBase) + Calls(trailing, chunkBase, groupBase)
    ensures Calls(pairs, chunkBase, groupBase) == before + [Emit(Create, 1, owner)]
    ensures Calls(trailing, chunkBase, groupBase) == between + ([MaintainCache] + after)
    ensures forall op :: op in between ==> op != Sync(1)
  {
    before, owner := PairsEndCreating(0, n - 1, chunkBase, groupBase);
    between, after := TrailingGroupPrunes(n / 2, chunkBase, groupBase);
    CallsAppend(pairs, trailing, chunkBase, groupBase);
  }
}
