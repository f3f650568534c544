/** The replay scheduler of cli/fossilize_replay.cpp: a dispatcher that runs the sorted passes, a
    shared work queue, any number of worker threads, and four memory contexts whose arenas the
    dispatcher recycles. */
module Scheduler {
  import opened Schedule
  import opened Wrappers

  type Ctx = c: nat | c < 4

  const PARENT_CONTEXT: Ctx := 2
  const MODULE_CONTEXT: Ctx := 3

  /** One value per memory context. */
  datatype PerContext<T> = PerContext(c0: T, c1: T, c2: T, c3: T) {
    function At(c: Ctx): T {
      if c == 0 then c0 else if c == 1 then c1 else if c == 2 then c2 else c3
    }

    function With(c: Ctx, v: T): PerContext<T> {
      if c == 0 then this.(c0 := v) else if c == 1 then this.(c1 := v) else if c == 2 then this.(c2 := v) else this.(c3 := v)
    }
  }

  datatype Kind = Parse | Create

  /** A work item.  Its owner says for which chunk (or, for parent pipelines, for which group)
      the arena of its context was set up when the item was made. */
  datatype Item = Item(kind: Kind, ctx: Ctx, owner: nat)

  /** What the dispatcher does.  `Emit` enqueues any number of items of one kind. */
  datatype Op =
    | Sync(ctx: Ctx)
    | Reset(ctx: Ctx, owner: nat)
    | Emit(kind: Kind, ctx: Ctx, owner: nat)
    | MaintainCache

  /** The calls made by one pass, for chunk and group numbers counted over the whole replay. */
  function OpsOf(w: Work, chunkBase: nat, groupBase: nat): seq<Op> {
    var m, chunk, group := w.memory, chunkBase + 2 * w.group + w.memory, groupBase + w.group;
    if w.pass == PARSE_ENQUEUE then [Sync(m), Reset(m, chunk), Emit(Parse, m, chunk)]
    else if w.pass == MAINTAIN_SHADER_MODULE_LRU_CACHE then [MaintainCache]
    else if w.pass == ENQUEUE_SHADER_MODULES_PRIMARY then [Sync(m), Emit(Parse, MODULE_CONTEXT, 0)]
    else if w.pass == RESOLVE_AND_ENQUEUE_PIPELINES_PRIMARY then [Sync(MODULE_CONTEXT), Emit(Create, m, chunk)]
    else if w.pass == ENQUEUE_OUT_OF_RANGE_PARENTS then [Emit(Parse, PARENT_CONTEXT, group)]
    else if w.pass == ENQUEUE_SHADER_MODULE_SECONDARY then
      [Sync(PARENT_CONTEXT), Emit(Parse, MODULE_CONTEXT, 0), Sync(MODULE_CONTEXT),
       Emit(Create, PARENT_CONTEXT, group), Sync(0), Sync(1)]
    else if m == 0 then [Sync(PARENT_CONTEXT), Reset(PARENT_CONTEXT, group + 1), Emit(Create, m, chunk)]
    else [Emit(Create, m, chunk)]
  }

  function Calls(works: seq<Work>, chunkBase: nat, groupBase: nat): seq<Op> {
    if works == [] then [] else OpsOf(works[0], chunkBase, groupBase) + Calls(works[1..], chunkBase, groupBase)
  }

  function Groups(chunks: nat): nat {
    (chunks + 1) / 2
  }

  /** The whole replay: graphics chunks, then compute chunks, then the final drain. */
  function Replay(graphics: nat, compute: nat): seq<Op> {
    Calls(ScheduleFrom(0, graphics), 0, 0)
    + (Calls(ScheduleFrom(0, compute), graphics, Groups(graphics))
       + [Sync(0), Sync(1), Sync(PARENT_CONTEXT), Sync(MODULE_CONTEXT)])
  }

  // ----- The running system -----

  datatype State = State(
    queue: seq<Item>, running: seq<Option<Item>>,
    queued: PerContext<nat>, completed: PerContext<nat>,
    owner: PerContext<nat>, todo: seq<Op>)

  datatype Action =
    | Enqueue            // enqueue_work_item, under the queue mutex
    | Advance            // the dispatcher finishes its current call
    | Pop(w: nat)        // a worker takes the front item
    | Complete(w: nat)   // a worker counts its item as completed

  predicate Enabled(s: State, a: Action) {
    match a
    case Enqueue => s.todo != [] && s.todo[0].Emit?
    case Advance => s.todo != [] && (s.todo[0].Sync? ==> s.queued.At(s.todo[0].ctx) == s.completed.At(s.todo[0].ctx))
    case Pop(w) => w < |s.running| && s.running[w] == None && s.queue != []
    case Complete(w) => w < |s.running| && s.running[w].Some?
  }

  function Step(s: State, a: Action): State
    requires Enabled(s, a)
  {
    match a
    case Enqueue =>
      var op := s.todo[0];
      s.(queue := s.queue + [Item(op.kind, op.ctx, op.owner)], queued := s.queued.With(op.ctx, s.queued.At(op.ctx) + 1))
    case Advance =>
      var op := s.todo[0];
      s.(todo := s.todo[1..], owner := if op.Reset? then s.owner.With(op.ctx, op.owner) else s.owner)
    case Pop(w) =>
      s.(queue := s.queue[1..], running := s.running[w := Some(s.queue[0])])
    case Complete(w) =>
      var c := s.running[w].value.ctx;
      s.(running := s.running[w := None], completed := s.completed.With(c, s.completed.At(c) + 1))
  }

  predicate Run(s: State, run: seq<Action>)
    decreases |run|
  {
    run == [] || (Enabled(s, run[0]) && Run(Step(s, run[0]), run[1..]))
  }

  function After(s: State, run: seq<Action>): State
    requires Run(s, run)
    decreases |run|
  {
    if run == [] then s else After(Step(s, run[0]), run[1..])
  }

  function Start(todo: seq<Op>, workers: nat): State {
    var zero := PerContext(0, 0, 0, 0);
    State([], seq(workers, _ => None), zero, zero, zero, todo)
  }

  /** An item that is queued or being worked on. */
  predicate Outstanding(s: State, i: Item) {
    i in s.queue || Some(i) in s.running
  }

  /** What a run enqueues and what workers take, in order. */
  function Enqueued(s: State, run: seq<Action>): seq<Item>
    requires Run(s, run)
    decreases |run|
  {
    if run == [] then []
    else (if run[0].Enqueue? then [Item(s.todo[0].kind, s.todo[0].ctx, s.todo[0].owner)] else [])
         + Enqueued(Step(s, run[0]), run[1..])
  }

  function Taken(s: State, run: seq<Action>): seq<Item>
    requires Run(s, run)
    decreases |run|
  {
    if run == [] then []
    else (if run[0].Pop? then [s.queue[0]] else []) + Taken(Step(s, run[0]), run[1..])
  }

  /** Work is taken in the order in which it is enqueued. */
  lemma {:induction false} WorkIsTakenInOrder(s: State, run: seq<Action>)
    requires Run(s, run)
    ensures s.queue + Enqueued(s, run) == Taken(s, run) + After(s, run).queue
    decreases |run|
  {
    if run == [] {
      assert s.queue + [] == s.queue && [] + s.queue == s.queue;
    } else {
      WorkIsTakenInOrder(Step(s, run[0]), run[1..]);
      OrderStep(s, run[0], Enqueued(Step(s, run[0]), run[1..]), Taken(Step(s, run[0]), run[1..]), After(s, run).queue);
    }
  }

  lemma OrderStep(s: State, a: Action, enqueued: seq<Item>, taken: seq<Item>, rest: seq<Item>)
    requires Enabled(s, a) && Step(s, a).queue + enqueued == taken + rest
    ensures s.queue + ((if a.Enqueue? then [Item(s.todo[0].kind, s.todo[0].ctx, s.todo[0].owner)] else []) + enqueued)
         == ((if a.Pop? then [s.queue[0]] else []) + taken) + rest
  {
    if a.Enqueue? {
      var i := [Item(s.todo[0].kind, s.todo[0].ctx, s.todo[0].owner)];
      assert s.queue + (i + enqueued) == (s.queue + i) + enqueued;
      assert [] + taken == taken;
    } else if a.Pop? {
      assert s.queue + enqueued == [s.queue[0]] + (s.queue[1..] + enqueued);
      assert [] + enqueued == enqueued && [s.queue[0]] + (taken + rest) == ([s.queue[0]] + taken) + rest;
    } else {
      assert [] + enqueued == enqueued && [] + taken == taken;
    }
  }

  // ----- What the dispatcher can know -----

  /** A bound on the outstanding items of a context. */
  datatype Level = Nothing | OnlyParsing | OnlyCreating | Anything

  /** The bound after more items of a kind. */
  function Raised(l: Level, kind: Kind): Level {
    var only := if kind == Parse then OnlyParsing else OnlyCreating;
    if l == Nothing || l == only then only else Anything
  }

  datatype Knowledge = Knowledge(level: PerContext<Level>, owner: PerContext<nat>)

  function Learn(k: Knowledge, op: Op): Knowledge {
    match op
    case Sync(c) => k.(level := k.level.With(c, Nothing))
    case Reset(c, o) => k.(owner := k.owner.With(c, o))
    case Emit(kind, c, o) => k.(level := k.level.With(c, Raised(k.level.At(c), kind)))
    case MaintainCache => k
  }

  /** An arena is recycled only when nothing of its context can be outstanding, items are made only for
      the arena's owner, and pipelines are created only when their context is drained and no shader
      module can be outstanding. */
  predicate Safe(k: Knowledge, op: Op) {
    && (op.Reset? ==> k.level.At(op.ctx) == Nothing)
    && (op.Emit? && op.ctx != MODULE_CONTEXT ==> k.owner.At(op.ctx) == op.owner)
    && (op.Emit? && op.kind == Create ==>
          op.ctx != MODULE_CONTEXT && k.level.At(op.ctx) == Nothing && k.level.c3 == Nothing)
  }

  /** The cache may be pruned: no creation can be outstanding, and no shader module work at all. */
  predicate Quiet(k: Knowledge) {
    && k.level.c0 in {Nothing, OnlyParsing} && k.level.c1 in {Nothing, OnlyParsing}
    && k.level.c2 in {Nothing, OnlyParsing} && k.level.c3 == Nothing
  }

  predicate AllSafe(k: Knowledge, ops: seq<Op>)
    decreases |ops|
  {
    ops == [] || (Safe(k, ops[0]) && AllSafe(Learn(k, ops[0]), ops[1..]))
  }

  predicate AllQuiet(k: Knowledge, ops: seq<Op>)
    decreases |ops|
  {
    ops == [] || ((ops[0].MaintainCache? ==> Quiet(k)) && AllQuiet(Learn(k, ops[0]), ops[1..]))
  }

  function LearnAll(k: Knowledge, ops: seq<Op>): Knowledge
    decreases |ops|
  {
    if ops == [] then k else LearnAll(Learn(k, ops[0]), ops[1..])
  }

  // ----- Soundness: what is safe on paper is safe in every run -----

  predicate Within(k: Knowledge, i: Item) {
    match k.level.At(i.ctx)
    case Nothing => false
    case OnlyParsing => i.kind == Parse
    case OnlyCreating => i.kind == Create
    case Anything => true
  }

  /** The knowledge that holds while the dispatcher is at its current call: an emitting call may
      have emitted already. */
  function Current(k: Knowledge, todo: seq<Op>): Knowledge {
    if todo != [] && todo[0].Emit? then Learn(k, todo[0]) else k
  }

  function CountQueue(q: seq<Item>, c: Ctx): nat {
    if q == [] then 0 else (if q[0].ctx == c then 1 else 0) + CountQueue(q[1..], c)
  }

  function CountRunning(r: seq<Option<Item>>, c: Ctx): nat {
    if r == [] then 0 else (if r[0].Some? && r[0].value.ctx == c then 1 else 0) + CountRunning(r[1..], c)
  }

  /** Queued minus completed is exactly what is in the queue or in flight, for every context. */
  ghost predicate Counted(s: State) {
    forall c: Ctx :: s.queued.At(c) == s.completed.At(c) + CountQueue(s.queue, c) + CountRunning(s.running, c)
  }

  /** Every outstanding item is one the dispatcher reckons with, and belongs to the chunk that the
      arena of its context is set up for: no arena is recycled under it. */
  ghost predicate ItemsValid(s: State, k: Knowledge) {
    forall i :: Outstanding(s, i) ==>
      Within(k, i) && (i.ctx != MODULE_CONTEXT ==> i.owner == s.owner.At(i.ctx))
  }

  ghost predicate Inv(s: State, k: Knowledge) {
    k.owner == s.owner && Counted(s) && ItemsValid(s, Current(k, s.todo)) && AllSafe(k, s.todo)
  }

  function KnowledgeAfter(s: State, k: Knowledge, a: Action): Knowledge
    requires Enabled(s, a)
  {
    if a.Advance? then Learn(k, s.todo[0]) else k
  }

  lemma InvStep(s: State, k: Knowledge, a: Action)
    requires Inv(s, k) && Enabled(s, a)
    ensures Inv(Step(s, a), KnowledgeAfter(s, k, a))
  {
    CountStep(s, a);
    match a {
      case Enqueue =>
      case Advance => AdvanceItems(s, k);
      case Pop(w) =>
        assert forall i :: Outstanding(Step(s, a), i) ==> Outstanding(s, i);
      case Complete(w) =>
        assert forall i :: Outstanding(Step(s, a), i) ==> Outstanding(s, i);
    }
  }

  lemma AdvanceItems(s: State, k: Knowledge)
    requires Inv(s, k) && Enabled(s, Advance)
    ensures var s' := Step(s, Advance);
      ItemsValid(s', Current(Learn(k, s.todo[0]), s'.todo))
  {
    var op, s' := s.todo[0], Step(s, Advance);
    forall i | Outstanding(s', i)
      ensures Within(Learn(k, op), i) && (i.ctx != MODULE_CONTEXT ==> i.owner == s'.owner.At(i.ctx))
    {
      AdvanceOne(s, k, i);
    }
  }

  lemma AdvanceOne(s: State, k: Knowledge, i: Item)
    requires Inv(s, k) && Enabled(s, Advance) && Outstanding(Step(s, Advance), i)
    ensures Within(Learn(k, s.todo[0]), i) && (i.ctx != MODULE_CONTEXT ==> i.owner == Step(s, Advance).owner.At(i.ctx))
  {
    var op := s.todo[0];
    assert Outstanding(s, i);
    if op.Sync? && i.ctx == op.ctx {
      OutstandingCounts(s, i);
    }
  }

  lemma {:induction false} CountQueueAppend(q: seq<Item>, i: Item, c: Ctx)
    ensures CountQueue(q + [i], c) == CountQueue(q, c) + if i.ctx == c then 1 else 0
    decreases |q|
  {
    if q == [] {
      assert [i][1..] == [];
    } else {
      assert (q + [i])[1..] == q[1..] + [i];
      CountQueueAppend(q[1..], i, c);
    }
  }

  lemma {:induction false} CountRunningUpdate(r: seq<Option<Item>>, w: nat, o: Option<Item>, c: Ctx)
    requires w < |r|
    ensures CountRunning(r[w := o], c) + (if r[w].Some? && r[w].value.ctx == c then 1 else 0)
      == CountRunning(r, c) + if o.Some? && o.value.ctx == c then 1 else 0
    decreases w
  {
    if w == 0 {
      assert r[w := o][1..] == r[1..];
    } else {
      assert r[w := o][1..] == r[1..][w - 1 := o];
      CountRunningUpdate(r[1..], w - 1, o, c);
    }
  }

  lemma CountStep(s: State, a: Action)
    requires Counted(s) && Enabled(s, a)
    ensures Counted(Step(s, a))
  {
    var s' := Step(s, a);
    forall c: Ctx
      ensures s'.queued.At(c) == s'.completed.At(c) + CountQueue(s'.queue, c) + CountRunning(s'.running, c)
    {
      match a
      case Enqueue => CountQueueAppend(s.queue, Item(s.todo[0].kind, s.todo[0].ctx, s.todo[0].owner), c);
      case Advance =>
      case Pop(w) => CountRunningUpdate(s.running, w, Some(s.queue[0]), c);
      case Complete(w) => CountRunningUpdate(s.running, w, None, c);
    }
  }

  lemma {:induction false} InQueueCounts(q: seq<Item>, i: Item)
    requires i in q
    ensures CountQueue(q, i.ctx) > 0
    decreases |q|
  {
    if q[0] != i {
      InQueueCounts(q[1..], i);
    }
  }

  lemma {:induction false} RunningCounts(r: seq<Option<Item>>, i: Item)
    requires Some(i) in r
    ensures CountRunning(r, i.ctx) > 0
    decreases |r|
  {
    if r[0] != Some(i) {
      RunningCounts(r[1..], i);
    }
  }

  lemma OutstandingCounts(s: State, i: Item)
    requires Counted(s) && Outstanding(s, i)
    ensures s.queued.At(i.ctx) > s.completed.At(i.ctx)
  {
    if i in s.queue {
      InQueueCounts(s.queue, i);
    } else {
      RunningCounts(s.running, i);
    }
  }

  /** From every state the invariant holds in, every run keeps it. */
  lemma {:induction false} Safety(s: State, k: Knowledge, run: seq<Action>) returns (k': Knowledge)
    requires Inv(s, k) && Run(s, run)
    ensures Inv(After(s, run), k')
    ensures AllQuiet(k, s.todo) ==> AllQuiet(k', After(s, run).todo)
    ensures LearnAll(k', After(s, run).todo) == LearnAll(k, s.todo)
    decreases |run|
  {
    k' := k;
    if run != [] {
      InvStep(s, k, run[0]);
      k' := Safety(Step(s, run[0]), KnowledgeAfter(s, k, run[0]), run[1..]);
    }
  }
}
