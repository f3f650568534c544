/** The order of the calls of a replay: every chunk is parsed, gets its shader modules, is created, waits
    for its parents, and has its derived pipelines created, each once and in this order. */
module ReplayOrder {
  import opened Schedule
  import opened Scheduler
  import opened SchedulerSafety

  /** A chunk of pipelines, or the parents of a group: where its items go and to what they belong. */
  datatype Chunk = Chunk(ctx: Ctx, owner: nat, group: nat)

  /** The call that takes a chunk from stage n to the next. */
  predicate Takes(op: Op, c: Chunk, n: nat) {
    if n == 0 then op == Emit(Parse, c.ctx, c.owner)
    else if n == 1 then op == Sync(c.ctx)
    else if n == 2 then op.Emit? && op.kind == Parse && op.ctx == MODULE_CONTEXT
    else if n == 3 then op == Sync(MODULE_CONTEXT)
    else if n == 4 then op == Emit(Create, c.ctx, c.owner)
    else if n == 5 then op == Emit(Create, PARENT_CONTEXT, c.group)
    else if n == 6 then op == Sync(0)
    else if n == 7 then op == Sync(1)
    else if n == 8 then op == Sync(PARENT_CONTEXT)
    else n == 9 && op == Emit(Create, c.ctx, c.owner)
  }

  function StageAfter(n: nat, op: Op, c: Chunk): nat {
    if Takes(op, c, n) then n + 1 else n
  }

  function Stage(n: nat, ops: seq<Op>, c: Chunk): nat
    decreases |ops|
  {
    if ops == [] then n else Stage(StageAfter(n, ops[0], c), ops[1..], c)
  }

  /** The chunk is parsed only at first, and created only when it is its turn.  The parents of a group
      may be parsed from both of its chunks. */
  predicate InTurn(n: nat, op: Op, c: Chunk) {
    && (op == Emit(Parse, c.ctx, c.owner) ==> n == 0 || (n == 1 && c.ctx == PARENT_CONTEXT))
    && (op == Emit(Create, c.ctx, c.owner) ==> n == 4 || (n == 9 && c.ctx != PARENT_CONTEXT))
  }

  predicate AllInTurn(n: nat, ops: seq<Op>, c: Chunk)
    decreases |ops|
  {
    ops == [] || (InTurn(n, ops[0], c) && AllInTurn(StageAfter(n, ops[0], c), ops[1..], c))
  }

  /** The calls are in turn, and take the chunk from one stage to another. */
  predicate Moves(n: nat, ops: seq<Op>, c: Chunk, n': nat) {
    AllInTurn(n, ops, c) && Stage(n, ops, c) == n'
  }

  lemma {:induction false} MovesAppend(n: nat, a: seq<Op>, b: seq<Op>, c: Chunk, n': nat, n'': nat)
    requires Moves(n, a, c, n') && Moves(n', b, c, n'')
    ensures Moves(n, a + b, c, n'')
    decreases |a|
  {
    if a == [] {
      assert a + b == b;
    } else {
      assert (a + b)[1..] == a[1..] + b;
      MovesAppend(StageAfter(n, a[0], c), a[1..], b, c, n', n'');
    }
  }

  lemma MovesOne(n: nat, a: Op, c: Chunk)
    requires InTurn(n, a, c)
    ensures Moves(n, [a], c, StageAfter(n, a, c))
  {
    assert [a][1..] == [];
  }

  lemma MovesTwo(n: nat, a: Op, b: Op, c: Chunk)
    requires InTurn(n, a, c) && InTurn(StageAfter(n, a, c), b, c)
    ensures Moves(n, [a, b], c, StageAfter(StageAfter(n, a, c), b, c))
  {
    var n1 := StageAfter(n, a, c);
    MovesOne(n, a, c);
    MovesOne(n1, b, c);
    assert [a, b] == [a] + [b];
    MovesAppend(n, [a], [b], c, n1, StageAfter(n1, b, c));
  }

  lemma MovesThree(n: nat, x: Op, y: Op, z: Op, c: Chunk)
    requires InTurn(n, x, c) && InTurn(StageAfter(n, x, c), y, c)
    requires InTurn(StageAfter(StageAfter(n, x, c), y, c), z, c)
    ensures Moves(n, [x, y, z], c, StageAfter(StageAfter(StageAfter(n, x, c), y, c), z, c))
  {
    var n1 := StageAfter(n, x, c);
    MovesOne(n, x, c);
    MovesTwo(n1, y, z, c);
    assert [x, y, z] == [x] + [y, z];
    MovesAppend(n, [x], [y, z], c, n1, StageAfter(StageAfter(n1, y, c), z, c));
  }

  // ----- One group -----

  /** The chunk is one of a group, or stands for the parents of the group. */
  predicate Own(c: Chunk, g: nat, both: bool, chunkBase: nat, groupBase: nat) {
    if c.ctx == PARENT_CONTEXT then c.owner == groupBase + g && c.group == c.owner
    else c.ctx < 2 && c.owner == chunkBase + 2 * g + c.ctx && (c.ctx == 1 ==> both) && c.group == groupBase + g
  }

  /** The stage of a chunk of the group before a pass, and of the parents. */
  function StageBefore(pass: nat, ctx: Ctx): nat {
    if ctx == PARENT_CONTEXT then (if pass <= 4 then 0 else if pass == 5 then 1 else 5)
    else if pass == 0 then 0 else if pass <= 2 then 1 else if pass == 3 then 3 else if pass <= 5 then 5
    else if pass == 6 then 8 else 10
  }

  /** The stage after the entry of the first context. */
  function StageBetween(pass: nat, ctx: Ctx): nat {
    if ctx != 1 || pass in {1, 5} then StageBefore(pass + 1, ctx)
    else if pass == 0 then 0 else if pass == 2 then 1 else if pass == 3 then 4 else if pass == 4 then 5 else 9
  }

  lemma EntryMoves(n: nat, ops: seq<Op>, c: Chunk) returns (n': nat)
    requires 1 <= |ops| <= 3 && InTurn(n, ops[0], c)
    requires |ops| >= 2 ==> InTurn(StageAfter(n, ops[0], c), ops[1], c)
    requires |ops| == 3 ==> InTurn(StageAfter(StageAfter(n, ops[0], c), ops[1], c), ops[2], c)
    ensures Moves(n, ops, c, n')
    ensures var n1 := StageAfter(n, ops[0], c);
      n' == if |ops| == 1 then n1 else if |ops| == 2 then StageAfter(n1, ops[1], c)
            else StageAfter(StageAfter(n1, ops[1], c), ops[2], c)
  {
    if |ops| == 1 {
      assert ops == [ops[0]];
      MovesOne(n, ops[0], c);
    } else if |ops| == 2 {
      assert ops == [ops[0], ops[1]];
      MovesTwo(n, ops[0], ops[1], c);
    } else {
      assert ops == [ops[0], ops[1], ops[2]];
      MovesThree(n, ops[0], ops[1], ops[2], c);
    }
    n' := Stage(n, ops, c);
  }

  /** The entry of the first context. */
  lemma FirstEntry(g: nat, both: bool, pass: nat, chunkBase: nat, groupBase: nat, c: Chunk)
    requires pass < PASS_COUNT && Own(c, g, both, chunkBase, groupBase)
    ensures Moves(StageBefore(pass, c.ctx), OpsOf(Work(g, pass, 0), chunkBase, groupBase), c, StageBetween(pass, c.ctx))
  {
    if pass == ENQUEUE_SHADER_MODULE_SECONDARY {
      JoinEntry(g, both, chunkBase, groupBase, c);
    } else {
      var n := EntryMoves(StageBefore(pass, c.ctx), OpsOf(Work(g, pass, 0), chunkBase, groupBase), c);
    }
  }

  /** The pass that waits for the parents, loads their modules, creates them, and drains the chunks. */
  lemma JoinEntry(g: nat, both: bool, chunkBase: nat, groupBase: nat, c: Chunk)
    requires Own(c, g, both, chunkBase, groupBase)
    ensures var pass := ENQUEUE_SHADER_MODULE_SECONDARY;
      Moves(StageBefore(pass, c.ctx), OpsOf(Work(g, pass, 0), chunkBase, groupBase), c, StageBefore(pass + 1, c.ctx))
  {
    var pass := ENQUEUE_SHADER_MODULE_SECONDARY;
    var ops, n := OpsOf(Work(g, pass, 0), chunkBase, groupBase), StageBefore(pass, c.ctx);
    var a, b := [ops[0], ops[1], ops[2]], [ops[3], ops[4], ops[5]];
    var n1 := EntryMoves(n, a, c);
    var n2 := EntryMoves(n1, b, c);
    MovesAppend(n, a, b, c, n1, n2);
    assert ops == a + b;
  }

  /** The entry of the second context, if the group has two chunks and the pass an entry for each. */
  lemma SecondEntry(g: nat, pass: nat, chunkBase: nat, groupBase: nat, c: Chunk)
    requires pass < PASS_COUNT && pass !in {1, 5} && Own(c, g, true, chunkBase, groupBase)
    ensures Moves(StageBetween(pass, c.ctx), OpsOf(Work(g, pass, 1), chunkBase, groupBase), c, StageBefore(pass + 1, c.ctx))
  {
    var n1 := EntryMoves(StageBetween(pass, c.ctx), OpsOf(Work(g, pass, 1), chunkBase, groupBase), c);
  }

  lemma PassMoves(g: nat, both: bool, pass: nat, chunkBase: nat, groupBase: nat, c: Chunk)
    requires pass < PASS_COUNT && Own(c, g, both, chunkBase, groupBase)
    ensures Moves(StageBefore(pass, c.ctx), PassCalls(g, both, pass, chunkBase, groupBase), c, StageBefore(pass + 1, c.ctx))
  {
    CallsOfPass(g, both, pass, chunkBase, groupBase);
    FirstEntry(g, both, pass, chunkBase, groupBase, c);
    if both && pass !in {1, 5} {
      SecondEntry(g, pass, chunkBase, groupBase, c);
      MovesAppend(StageBefore(pass, c.ctx), OpsOf(Work(g, pass, 0), chunkBase, groupBase),
                  OpsOf(Work(g, pass, 1), chunkBase, groupBase), c,
                  StageBetween(pass, c.ctx), StageBefore(pass + 1, c.ctx));
    }
  }

  /** The last stage: a chunk has had its derived pipelines created, parents have been created. */
  function LastStage(ctx: Ctx): nat {
    if ctx == PARENT_CONTEXT then 5 else 10
  }

  lemma {:induction false} GroupMoves(g: nat, both: bool, pass: nat, chunkBase: nat, groupBase: nat, c: Chunk)
    requires pass <= PASS_COUNT && Own(c, g, both, chunkBase, groupBase)
    ensures Moves(StageBefore(pass, c.ctx), Calls(GroupFrom(g, both, pass), chunkBase, groupBase), c, LastStage(c.ctx))
    decreases PASS_COUNT - pass
  {
    if pass < PASS_COUNT {
      var ops, rest := GroupCalls(g, both, pass, chunkBase, groupBase);
      PassMoves(g, both, pass, chunkBase, groupBase, c);
      GroupMoves(g, both, pass + 1, chunkBase, groupBase, c);
      MovesAppend(StageBefore(pass, c.ctx), ops, rest, c, StageBefore(pass + 1, c.ctx), LastStage(c.ctx));
    } else {
      assert Calls(GroupFrom(g, both, pass), chunkBase, groupBase) == [];
    }
  }

  // ----- Calls that are about other chunks -----

  /** No call makes items of the chunk. */
  predicate Foreign(ops: seq<Op>, c: Chunk) {
    forall op :: op in ops && op.Emit? && op.ctx == c.ctx ==> op.owner != c.owner
  }

  /** Such calls move nothing that is not on its way. */
  lemma {:induction false} ForeignMoves(n: nat, ops: seq<Op>, c: Chunk)
    requires Foreign(ops, c) && c.ctx != MODULE_CONTEXT && n in {0, LastStage(c.ctx)}
    requires c.ctx == PARENT_CONTEXT ==> c.group == c.owner
    ensures Moves(n, ops, c, n)
    decreases |ops|
  {
    if ops != [] {
      assert ops[0] in ops;
      assert StageAfter(n, ops[0], c) == n && InTurn(n, ops[0], c);
      ForeignMoves(n, ops[1..], c);
    }
  }

  /** All entries of a list are of a group, and none of the second context if it has one chunk. */
  predicate OfGroup(works: seq<Work>, g: nat, both: bool) {
    forall w :: w in works ==> w.group == g && (w.memory == 1 ==> both)
  }

  lemma {:induction false} GroupIsOfGroup(g: nat, both: bool, pass: nat)
    ensures OfGroup(GroupFrom(g, both, pass), g, both)
    decreases PASS_COUNT - pass
  {
    if pass < PASS_COUNT {
      GroupIsOfGroup(g, both, pass + 1);
    }
  }

  lemma {:induction false} GroupIsForeign(works: seq<Work>, g: nat, both: bool, chunkBase: nat, groupBase: nat, c: Chunk)
    requires OfGroup(works, g, both) && c.ctx != MODULE_CONTEXT
    requires if c.ctx == PARENT_CONTEXT then c.owner != groupBase + g
             else c.owner != chunkBase + 2 * g + c.ctx || (c.ctx == 1 && !both)
    ensures Foreign(Calls(works, chunkBase, groupBase), c)
    decreases |works|
  {
    if works != [] {
      assert works[0] in works;
      GroupIsForeign(works[1..], g, both, chunkBase, groupBase, c);
    }
  }

  // ----- Whole workloads -----

  /** A workload of n chunks from group g on has this owner in this context. */
  predicate Owns(c: Chunk, g: nat, n: nat, chunkBase: nat, groupBase: nat) {
    (c.ctx == PARENT_CONTEXT && groupBase + g <= c.owner < groupBase + g + Groups(n))
    || (c.ctx < 2 && chunkBase + 2 * g <= c.owner < chunkBase + 2 * g + n && (c.owner - chunkBase) % 2 == c.ctx)
  }

  /** The group of a chunk; parents stand for a group. */
  function GroupOf(c: Chunk, chunkBase: nat, groupBase: nat): nat {
    if c.ctx == PARENT_CONTEXT then c.owner
    else if c.owner >= chunkBase then groupBase + (c.owner - chunkBase) / 2 else 0
  }

  lemma FirstOrRest(c: Chunk, g: nat, n: nat, chunkBase: nat, groupBase: nat)
    requires n >= 2 && c.ctx != MODULE_CONTEXT && c.group == GroupOf(c, chunkBase, groupBase)
    ensures Owns(c, g, n, chunkBase, groupBase) <==>
      Own(c, g, true, chunkBase, groupBase) || Owns(c, g + 1, n - 2, chunkBase, groupBase)
    ensures Own(c, g, true, chunkBase, groupBase) ==> !Owns(c, g + 1, n - 2, chunkBase, groupBase)
  {
  }

  lemma {:induction false} WorkloadMoves(g: nat, n: nat, chunkBase: nat, groupBase: nat, c: Chunk)
    requires c.ctx != MODULE_CONTEXT && c.group == GroupOf(c, chunkBase, groupBase)
    ensures var ops := Calls(ScheduleFrom(g, n), chunkBase, groupBase);
      if Owns(c, g, n, chunkBase, groupBase) then Moves(0, ops, c, LastStage(c.ctx)) else Foreign(ops, c)
    decreases n
  {
    if n == 1 {
      OneGroup(g, false, chunkBase, groupBase, c);
    } else if n >= 2 {
      WorkloadMoves(g + 1, n - 2, chunkBase, groupBase, c);
      NextGroup(g, n, chunkBase, groupBase, c, Calls(ScheduleFrom(g + 1, n - 2), chunkBase, groupBase));
      CallsAppend(GroupFrom(g, true, PARSE_ENQUEUE), ScheduleFrom(g + 1, n - 2), chunkBase, groupBase);
    }
  }

  lemma NextGroup(g: nat, n: nat, chunkBase: nat, groupBase: nat, c: Chunk, rest: seq<Op>)
    requires n >= 2 && c.ctx != MODULE_CONTEXT && c.group == GroupOf(c, chunkBase, groupBase)
    requires if Owns(c, g + 1, n - 2, chunkBase, groupBase) then Moves(0, rest, c, LastStage(c.ctx)) else Foreign(rest, c)
    ensures var ops := Calls(GroupFrom(g, true, PARSE_ENQUEUE), chunkBase, groupBase) + rest;
      if Owns(c, g, n, chunkBase, groupBase) then Moves(0, ops, c, LastStage(c.ctx)) else Foreign(ops, c)
  {
    FirstOrRest(c, g, n, chunkBase, groupBase);
    OneGroup(g, true, chunkBase, groupBase, c);
    OneOfTwo(Calls(GroupFrom(g, true, PARSE_ENQUEUE), chunkBase, groupBase), rest, c,
             Own(c, g, true, chunkBase, groupBase), Owns(c, g + 1, n - 2, chunkBase, groupBase));
  }

  lemma OneGroup(g: nat, both: bool, chunkBase: nat, groupBase: nat, c: Chunk)
    requires c.ctx != MODULE_CONTEXT && c.group == GroupOf(c, chunkBase, groupBase)
    ensures var ops := Calls(GroupFrom(g, both, PARSE_ENQUEUE), chunkBase, groupBase);
      if Own(c, g, both, chunkBase, groupBase) then Moves(0, ops, c, LastStage(c.ctx)) else Foreign(ops, c)
  {
    if Own(c, g, both, chunkBase, groupBase) {
      GroupMoves(g, both, PARSE_ENQUEUE, chunkBase, groupBase, c);
    } else {
      GroupIsOfGroup(g, both, PARSE_ENQUEUE);
      GroupIsForeign(GroupFrom(g, both, PARSE_ENQUEUE), g, both, chunkBase, groupBase, c);
    }
  }

  /** Of two lists at most one is about the chunk. */
  lemma OneOfTwo(a: seq<Op>, b: seq<Op>, c: Chunk, inA: bool, inB: bool)
    requires c.ctx != MODULE_CONTEXT && (c.ctx == PARENT_CONTEXT ==> c.group == c.owner) && !(inA && inB)
    requires if inA then Moves(0, a, c, LastStage(c.ctx)) else Foreign(a, c)
    requires if inB then Moves(0, b, c, LastStage(c.ctx)) else Foreign(b, c)
    ensures if inA || inB then Moves(0, a + b, c, LastStage(c.ctx)) else Foreign(a + b, c)
  {
    if inA {
      ForeignMoves(LastStage(c.ctx), b, c);
      MovesAppend(0, a, b, c, LastStage(c.ctx), LastStage(c.ctx));
    } else if inB {
      ForeignMoves(0, a, c);
      MovesAppend(0, a, b, c, 0, LastStage(c.ctx));
    }
  }

  // ----- The replay -----

  /** The chunks of a replay and the parents of its groups: graphics before compute. */
  predicate IsChunk(c: Chunk, graphics: nat, compute: nat) {
    || (c.ctx < 2 && c.owner < graphics && c.ctx == c.owner % 2 && c.group == c.owner / 2)
    || (c.ctx < 2 && graphics <= c.owner < graphics + compute && c.ctx == (c.owner - graphics) % 2
        && c.group == Groups(graphics) + (c.owner - graphics) / 2)
    || (c.ctx == PARENT_CONTEXT && c.owner < Groups(graphics) + Groups(compute) && c.group == c.owner)
  }

  lemma ReplayMoves(graphics: nat, compute: nat, c: Chunk)
    requires IsChunk(c, graphics, compute)
    ensures Moves(0, Replay(graphics, compute), c, LastStage(c.ctx))
  {
    var first := Calls(ScheduleFrom(0, graphics), 0, 0);
    var second := Calls(ScheduleFrom(0, compute), graphics, Groups(graphics));
    var drain := [Sync(0), Sync(1), Sync(PARENT_CONTEXT), Sync(MODULE_CONTEXT)];
    var inFirst, inSecond := Owns(c, 0, graphics, 0, 0), Owns(c, 0, compute, graphics, Groups(graphics));
    if inFirst {
      WorkloadMoves(0, graphics, 0, 0, c);
      OtherWorkload(compute, graphics, Groups(graphics), c);
    } else {
      WorkloadMoves(0, compute, graphics, Groups(graphics), c);
      OtherWorkload(graphics, 0, 0, c);
    }
    assert Foreign(drain, c);
    OneOfTwo(second, drain, c, inSecond, false);
    OneOfTwo(first, second + drain, c, inFirst, inSecond);
  }

  /** A workload that the chunk does not belong to. */
  lemma OtherWorkload(n: nat, chunkBase: nat, groupBase: nat, c: Chunk)
    requires c.ctx != MODULE_CONTEXT && !Owns(c, 0, n, chunkBase, groupBase)
    ensures Foreign(Calls(ScheduleFrom(0, n), chunkBase, groupBase), c)
  {
    WorkloadMoves(0, n, chunkBase, groupBase, c.(group := GroupOf(c, chunkBase, groupBase)));
  }

  /** Where the calls are that move a chunk: one for each stage. */
  predicate MovedAt(at: seq<nat>, n: nat, ops: seq<Op>, c: Chunk)
    decreases |at|
  {
    at == [] || (at[0] < |ops| && Takes(ops[at[0]], c, n) && MovedAt(at[1..], n + 1, ops, c))
  }

  lemma {:induction false} MovedEach(at: seq<nat>, n: nat, ops: seq<Op>, c: Chunk, j: nat)
    requires MovedAt(at, n, ops, c) && j < |at|
    ensures at[j] < |ops| && Takes(ops[at[j]], c, n + j)
    decreases |at|
  {
    if j > 0 {
      MovedEach(at[1..], n + 1, ops, c, j - 1);
    }
  }

  lemma {:induction false} MovedLater(rest: seq<nat>, n: nat, ops: seq<Op>, c: Chunk)
    requires ops != [] && MovedAt(rest, n, ops[1..], c)
    ensures MovedAt(Later(rest), n, ops, c)
    decreases |rest|
  {
    if rest != [] {
      MovedLater(rest[1..], n + 1, ops, c);
    }
  }

  predicate Rising(at: seq<nat>) {
    forall j, k :: 0 <= j < k < |at| ==> at[j] < at[k]
  }

  /** A place is that of a stage. */
  predicate IsAt(at: seq<nat>, n: nat, stage: nat, i: nat) {
    n <= stage < n + |at| && at[stage - n] == i
  }

  /** Nothing else creates the chunk, and nothing else parses it. */
  ghost predicate OnlyAt(at: seq<nat>, n: nat, ops: seq<Op>, c: Chunk) {
    forall i :: 0 <= i < |ops| ==> OnlyThere(at, n, ops[i], c, i)
  }

  predicate OnlyThere(at: seq<nat>, n: nat, op: Op, c: Chunk, i: nat) {
    && (op == Emit(Create, c.ctx, c.owner) ==> IsAt(at, n, 4, i) || (IsAt(at, n, 9, i) && c.ctx != PARENT_CONTEXT))
    && (op == Emit(Parse, c.ctx, c.owner) && c.ctx != PARENT_CONTEXT ==> IsAt(at, n, 0, i))
  }

  lemma {:induction false} Positions(n: nat, ops: seq<Op>, c: Chunk, n': nat) returns (at: seq<nat>)
    requires Moves(n, ops, c, n')
    ensures n' == n + |at| && MovedAt(at, n, ops, c) && Rising(at) && OnlyAt(at, n, ops, c)
    decreases |ops|
  {
    if ops == [] {
      at := [];
    } else {
      var rest := Positions(StageAfter(n, ops[0], c), ops[1..], c, n');
      at := if Takes(ops[0], c, n) then [0] + Later(rest) else Later(rest);
      MovedLater(rest, StageAfter(n, ops[0], c), ops, c);
      OnlyLater(rest, n, ops, c, at);
    }
  }

  lemma OnlyLater(rest: seq<nat>, n: nat, ops: seq<Op>, c: Chunk, at: seq<nat>)
    requires ops != [] && InTurn(n, ops[0], c) && OnlyAt(rest, StageAfter(n, ops[0], c), ops[1..], c)
    requires at == if Takes(ops[0], c, n) then [0] + Later(rest) else Later(rest)
    ensures OnlyAt(at, n, ops, c)
  {
    forall i | 0 <= i < |ops|
      ensures OnlyThere(at, n, ops[i], c, i)
    {
      if i > 0 {
        assert ops[1..][i - 1] == ops[i];
        ThereLater(rest, n, ops[0], ops[i], c, i, at);
      }
    }
  }

  lemma ThereLater(rest: seq<nat>, n: nat, first: Op, op: Op, c: Chunk, i: nat, at: seq<nat>)
    requires i > 0 && InTurn(n, first, c) && OnlyThere(rest, StageAfter(n, first, c), op, c, i - 1)
    requires at == if Takes(first, c, n) then [0] + Later(rest) else Later(rest)
    ensures OnlyThere(at, n, op, c, i)
  {
    var moved := Takes(first, c, n);
    AtLater(rest, n, moved, 4, i, at);
    AtLater(rest, n, moved, 9, i, at);
    AtLater(rest, n, moved, 0, i, at);
  }

  lemma AtLater(rest: seq<nat>, n: nat, moved: bool, stage: nat, i: nat, at: seq<nat>)
    requires i > 0 && at == if moved then [0] + Later(rest) else Later(rest)
    ensures IsAt(rest, if moved then n + 1 else n, stage, i - 1) ==> IsAt(at, n, stage, i)
  {
  }

  function Later(at: seq<nat>): (r: seq<nat>)
    ensures |r| == |at| && forall j :: 0 <= j < |r| ==> r[j] == at[j] + 1
  {
    if at == [] then [] else [at[0] + 1] + Later(at[1..])
  }

  /** Every chunk is parsed once; then its context is drained, shader modules are loaded and waited for,
      and it is created; then the parents of its group are created, both chunks and the parents are waited
      for, and its derived pipelines are created.  It is created at no other place. */
  lemma ChunkIsReplayed(graphics: nat, compute: nat, c: Chunk) returns (at: seq<nat>)
    requires IsChunk(c, graphics, compute) && c.ctx != PARENT_CONTEXT
    ensures |at| == 10 && at[9] < |Replay(graphics, compute)| && forall j, k :: 0 <= j < k < 10 ==> at[j] < at[k]
    ensures var calls := Replay(graphics, compute);
      && calls[at[0]] == Emit(Parse, c.ctx, c.owner) && calls[at[1]] == Sync(c.ctx)
      && calls[at[2]].Emit? && calls[at[2]].kind == Parse && calls[at[2]].ctx == MODULE_CONTEXT
      && calls[at[3]] == Sync(MODULE_CONTEXT) && calls[at[4]] == Emit(Create, c.ctx, c.owner)
      && calls[at[5]] == Emit(Create, PARENT_CONTEXT, c.group)
      && calls[at[6]] == Sync(0) && calls[at[7]] == Sync(1) && calls[at[8]] == Sync(PARENT_CONTEXT)
      && calls[at[9]] == Emit(Create, c.ctx, c.owner)
    ensures forall i :: 0 <= i < |Replay(graphics, compute)| ==>
      && (Replay(graphics, compute)[i] == Emit(Parse, c.ctx, c.owner) ==> i == at[0])
      && (Replay(graphics, compute)[i] == Emit(Create, c.ctx, c.owner) ==> i == at[4] || i == at[9])
  {
    var calls := Replay(graphics, compute);
    ReplayMoves(graphics, compute, c);
    at := Positions(0, calls, c, 10);
    forall j: nat | j < 10
      ensures at[j] < |calls| && Takes(calls[at[j]], c, j)
    {
      MovedEach(at, 0, calls, c, j);
    }
  }

  /** The parents of every group are created once, after they were parsed and their shader modules were
      loaded. */
  lemma ParentsAreReplayed(graphics: nat, compute: nat, group: nat) returns (at: seq<nat>)
    requires group < Groups(graphics) + Groups(compute)
    ensures |at| == 5 && at[4] < |Replay(graphics, compute)| && forall j, k :: 0 <= j < k < 5 ==> at[j] < at[k]
    ensures var calls := Replay(graphics, compute);
      && calls[at[0]] == Emit(Parse, PARENT_CONTEXT, group) && calls[at[1]] == Sync(PARENT_CONTEXT)
      && calls[at[2]].Emit? && calls[at[2]].kind == Parse && calls[at[2]].ctx == MODULE_CONTEXT
      && calls[at[3]] == Sync(MODULE_CONTEXT)
    ensures forall i :: 0 <= i < |Replay(graphics, compute)| ==>
      (Replay(graphics, compute)[i] == Emit(Create, PARENT_CONTEXT, group) <==> i == at[4])
  {
    var c := Chunk(PARENT_CONTEXT, group, group);
    ReplayMoves(graphics, compute, c);
    var calls := Replay(graphics, compute);
    at := Positions(0, calls, c, 5);
    forall j: nat | j < 5
      ensures at[j] < |calls| && Takes(calls[at[j]], c, j)
    {
      MovedEach(at, 0, calls, c, j);
    }
  }

  /** All that is parsed or created is a chunk of the replay or the parents of one of its groups. */
  lemma EveryItemIsOfAChunk(graphics: nat, compute: nat, op: Op) returns (c: Chunk)
    requires op.Emit? && op.ctx != MODULE_CONTEXT && op in Replay(graphics, compute)
    ensures IsChunk(c, graphics, compute) && c.ctx == op.ctx && c.owner == op.owner
  {
    ItemIsOwned(graphics, compute, op);
    c := ChunkOf(graphics, compute, op);
  }

  lemma ChunkOf(graphics: nat, compute: nat, op: Op) returns (c: Chunk)
    requires op.Emit? && op.ctx != MODULE_CONTEXT
    requires OwnsItem(op, 0, graphics, 0, 0) || OwnsItem(op, 0, compute, graphics, Groups(graphics))
    ensures IsChunk(c, graphics, compute) && c.ctx == op.ctx && c.owner == op.owner
  {
    var here := Chunk(op.ctx, op.owner, 0);
    c := if OwnsItem(op, 0, graphics, 0, 0) then here.(group := GroupOf(here, 0, 0))
         else here.(group := GroupOf(here, graphics, Groups(graphics)));
  }

  predicate OwnsItem(op: Op, g: nat, n: nat, chunkBase: nat, groupBase: nat)
    requires op.Emit?
  {
    Owns(Chunk(op.ctx, op.owner, 0), g, n, chunkBase, groupBase)
  }

  lemma ItemIsOwned(graphics: nat, compute: nat, op: Op)
    requires op.Emit? && op.ctx != MODULE_CONTEXT && op in Replay(graphics, compute)
    ensures OwnsItem(op, 0, graphics, 0, 0) || OwnsItem(op, 0, compute, graphics, Groups(graphics))
  {
    var c := Chunk(op.ctx, op.owner, 0);
    if !Owns(c, 0, graphics, 0, 0) && !Owns(c, 0, compute, graphics, Groups(graphics)) {
      ForeignReplay(graphics, compute, c);
      assert false;
    }
  }

  lemma ForeignReplay(graphics: nat, compute: nat, c: Chunk)
    requires c.ctx != MODULE_CONTEXT && !Owns(c, 0, graphics, 0, 0)
    requires !Owns(c, 0, compute, graphics, Groups(graphics))
    ensures Foreign(Replay(graphics, compute), c)
  {
    OtherWorkload(graphics, 0, 0, c);
    OtherWorkload(compute, graphics, Groups(graphics), c);
  }

  /** Whenever pipelines are created, they were parsed and their context was drained, and then shader
      modules were loaded and waited for. */
  lemma CreationsArePrepared(graphics: nat, compute: nat, i: nat) returns (p: nat, q: nat, r: nat, s: nat)
    requires i < |Replay(graphics, compute)| && Replay(graphics, compute)[i].Emit?
    requires Replay(graphics, compute)[i].kind == Create
    ensures p < q < r < s < i
    ensures var calls, ctx, owner := Replay(graphics, compute), Replay(graphics, compute)[i].ctx, Replay(graphics, compute)[i].owner;
      && ctx != MODULE_CONTEXT && calls[p] == Emit(Parse, ctx, owner) && calls[q] == Sync(ctx)
      && calls[r].Emit? && calls[r].kind == Parse && calls[r].ctx == MODULE_CONTEXT && calls[s] == Sync(MODULE_CONTEXT)
  {
    ReplayIsSafe(graphics, compute);
    SafeAt(FRESH, Replay(graphics, compute), i);
    assert Replay(graphics, compute)[i] in Replay(graphics, compute);
    var c := EveryItemIsOfAChunk(graphics, compute, Replay(graphics, compute)[i]);
    var at;
    if c.ctx == PARENT_CONTEXT {
      at := ParentsAreReplayed(graphics, compute, c.owner);
    } else {
      at := ChunkIsReplayed(graphics, compute, c);
    }
    p, q, r, s := at[0], at[1], at[2], at[3];
  }

  lemma {:induction false} SafeAt(k: Knowledge, ops: seq<Op>, i: nat)
    requires AllSafe(k, ops) && i < |ops|
    ensures ops[i].Emit? && ops[i].kind == Create ==> ops[i].ctx != MODULE_CONTEXT
    decreases |ops|
  {
    if i > 0 {
      SafeAt(Learn(k, ops[0]), ops[1..], i - 1);
    }
  }
}
