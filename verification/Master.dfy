/** The master process of cli/fossilize_replay_linux.hpp: it splits the pipelines over child
    processes and restarts a child that crashed behind the pipeline it crashed on. */
module Master {
  import opened Words

  /** Unsigned 32-bit multiplication. */
  function WrapMul(a: uint32, b: uint32): uint32 {
    (a * b) % TWO_TO_THE_32
  }

  /** What part of the pipelines is replayed: all, unless fewer are asked for than there are.  A
      request whose end is before its start asks for as many as its wrapped difference. */
  function Requested(first: uint32, last: uint32, total: uint32): (r: (uint32, uint32))
    ensures first <= last && last - first < total ==> r == (first, last - first)
    ensures first <= last && last - first >= total ==> r == (0, total)
    ensures first > last && first - last <= TWO_TO_THE_32 - total ==> r == (0, total)
    ensures first > last && first - last > TWO_TO_THE_32 - total ==> r == (first, TWO_TO_THE_32 - (first - last))
    ensures first <= last ==> r.0 + r.1 < TWO_TO_THE_32
  {
    var requested := WrapSub(last, first);
    if requested < total then (first, requested) else (0, total)
  }

  /** Where the range of child i starts, and where that of child i - 1 ends. */
  function Bound(offset: uint32, n: uint32, processes: uint32, i: uint32): uint32
    requires processes > 0
  {
    QuotientSmaller(WrapMul(i, n), processes);
    WrapAdd(offset, Quotient(WrapMul(i, n), processes))
  }

  lemma BoundDivides(offset: uint32, n: uint32, processes: uint32, i: uint32)
    requires processes > 0
    ensures WrapMul(i, n) / processes < TWO_TO_THE_32
    ensures Bound(offset, n, processes, i) == WrapAdd(offset, WrapMul(i, n) / processes)
  {
    QuotientSmaller(WrapMul(i, n), processes);
    QuotientIsDivision(WrapMul(i, n), processes);
  }

  lemma NoWrap(a: uint32, b: uint32, x: nat)
    requires x == a * b && x < TWO_TO_THE_32
    ensures WrapMul(a, b) == x
  {
  }

  lemma BoundIs(offset: uint32, n: uint32, processes: uint32, i: uint32, x: nat)
    requires 0 < processes && i <= processes && x == i * n
    requires processes * n < TWO_TO_THE_32 && offset + n < TWO_TO_THE_32
    ensures Bound(offset, n, processes, i) == offset + Quotient(x, processes)
    ensures Quotient(x, processes) <= n
  {
    var all := processes * n;
    MultiplesGrow(i, processes, n);
    NoWrap(i, n, x);
    ShareFits(x, all, n, processes);
  }

  lemma ShareFits(x: nat, all: nat, n: nat, p: nat)
    requires p > 0 && x <= all == p * n
    ensures Quotient(x, p) <= n
  {
    QuotientMonotone(x, all, p);
    assert p * n == n * p + 0;
    QuotientIs(p, n, 0);
  }

  lemma {:induction false} MultiplesGrow(i: nat, j: nat, n: nat)
    requires i <= j
    ensures i * n <= j * n
    decreases j
  {
    if i < j {
      MultiplesGrow(i, j - 1, n);
      NextMultiple(j - 1, n);
    }
  }

  lemma NextMultiple(i: nat, n: nat)
    ensures (i + 1) * n == i * n + n
  {
  }

  lemma FirstAndLast(offset: uint32, n: uint32, processes: uint32)
    requires 0 < processes && processes * n < TWO_TO_THE_32 && offset + n < TWO_TO_THE_32
    ensures Bound(offset, n, processes, 0) == offset
    ensures Bound(offset, n, processes, processes) == offset + n
  {
    BoundIs(offset, n, processes, 0, 0);
    BoundIs(offset, n, processes, processes, processes * n);
    QuotientIs(processes, n, 0);
  }

  /** Without overflow the ranges start at the offset, follow one another, end at its end and are
      of the same size up to one. */
  lemma RangesTile(offset: uint32, n: uint32, processes: uint32, i: uint32)
    requires i < processes && processes * n < TWO_TO_THE_32 && offset + n < TWO_TO_THE_32
    ensures Bound(offset, n, processes, 0) == offset
    ensures Bound(offset, n, processes, processes) == offset + n
    ensures Quotient(n, processes) <= Bound(offset, n, processes, i + 1) - Bound(offset, n, processes, i)
         <= Quotient(n, processes) + 1
  {
    FirstAndLast(offset, n, processes);
    var x := i * n;
    NextMultiple(i, n);
    BoundIs(offset, n, processes, i, x);
    BoundIs(offset, n, processes, i + 1, x + n);
    QuotientAdd(x, n, processes);
  }

  /** The last range ends where the pipelines end exactly if the product does not overflow. */
  lemma LastEndsRightExactly(offset: uint32, n: uint32, processes: uint32)
    requires processes > 0 && offset + n < TWO_TO_THE_32
    ensures Bound(offset, n, processes, processes) == offset + n <==> processes * n < TWO_TO_THE_32
  {
    if processes * n < TWO_TO_THE_32 {
      FirstAndLast(offset, n, processes);
    } else {
      var x := WrapMul(processes, n);
      SmallerQuotient(x, n, processes);
    }
  }

  lemma SmallerQuotient(x: nat, n: nat, p: nat)
    requires p > 0 && x < p * n
    ensures Quotient(x, p) < n
  {
    var q := Quotient(x, p);
    QuotientRest(x, p);
    assert n <= q ==> n * p <= q * p by {
      if n <= q {
        MultiplesGrow(n, q, p);
      }
    }
    assert n * p == p * n;
  }

  /** The bounds start at the offset, never fall, and end at the end of the pipelines. */
  ghost predicate Tile(offset: uint32, n: uint32, processes: uint32)
    requires processes > 0 && offset + n < TWO_TO_THE_32
  {
    && Bound(offset, n, processes, 0) == offset && Bound(offset, n, processes, processes) == offset + n
    && forall i: uint32 :: i < processes ==> Bound(offset, n, processes, i) <= Bound(offset, n, processes, i + 1)
  }

  /** The ranges tile what is requested if and only if the product does not overflow. */
  lemma RangesTileExactly(offset: uint32, n: uint32, processes: uint32)
    requires processes > 0 && offset + n < TWO_TO_THE_32
    ensures Tile(offset, n, processes) <==> processes * n < TWO_TO_THE_32
  {
    LastEndsRightExactly(offset, n, processes);
    if processes * n < TWO_TO_THE_32 {
      FirstAndLast(offset, n, processes);
      forall i: uint32 | i < processes
        ensures Bound(offset, n, processes, i) <= Bound(offset, n, processes, i + 1)
      {
        QuotientSmaller(n, processes);
        RangesTile(offset, n, processes, i);
      }
    }
  }

  /** Every requested pipeline is in the range of exactly one child. */
  lemma {:induction false} EveryIndexHasOneChild(offset: uint32, n: uint32, processes: uint32, x: uint32)
    requires processes > 0 && processes * n < TWO_TO_THE_32 && offset + n < TWO_TO_THE_32
    requires offset <= x < offset + n
    ensures exists i: uint32 :: i < processes && InRange(offset, n, processes, i, x)
    ensures forall i: uint32, j: uint32 | i < processes && j < processes ::
      InRange(offset, n, processes, i, x) && InRange(offset, n, processes, j, x) ==> i == j
  {
    RangesTile(offset, n, processes, 0);
    var i := FindRange(offset, n, processes, x, processes);
    forall i: uint32, j: uint32 |
        i < processes && j < processes && InRange(offset, n, processes, i, x) && InRange(offset, n, processes, j, x)
      ensures i == j
    {
      if i < j {
        BoundsGrow(offset, n, processes, i + 1, j);
      } else if j < i {
        BoundsGrow(offset, n, processes, j + 1, i);
      }
    }
  }

  ghost predicate InRange(offset: uint32, n: uint32, processes: uint32, i: uint32, x: uint32)
    requires i < processes
  {
    Bound(offset, n, processes, i) <= x < Bound(offset, n, processes, i + 1)
  }

  lemma {:induction false} FindRange(offset: uint32, n: uint32, processes: uint32, x: uint32, k: uint32)
    returns (i: uint32)
    requires 0 < processes && k <= processes && processes * n < TWO_TO_THE_32 && offset + n < TWO_TO_THE_32
    requires offset <= x < Bound(offset, n, processes, k)
    ensures i < processes && InRange(offset, n, processes, i, x)
    decreases k
  {
    RangesTile(offset, n, processes, 0);
    if x < Bound(offset, n, processes, k - 1) {
      i := FindRange(offset, n, processes, x, k - 1);
    } else {
      i := k - 1;
    }
  }

  lemma {:induction false} BoundsGrow(offset: uint32, n: uint32, processes: uint32, i: uint32, j: uint32)
    requires i <= j < processes && processes * n < TWO_TO_THE_32 && offset + n < TWO_TO_THE_32
    ensures Bound(offset, n, processes, i) <= Bound(offset, n, processes, j)
    decreases j
  {
    if i < j {
      RangesTile(offset, n, processes, j - 1);
      BoundsGrow(offset, n, processes, i, j - 1);
    }
  }

  datatype Range = Range(startGraphics: uint32, endGraphics: uint32, startCompute: uint32, endCompute: uint32)

  function Length(first: uint32, last: uint32): nat {
    if first < last then last - first else 0
  }

  /** The range of child i. */
  function RangeOf(graphicsOffset: uint32, graphics: uint32, computeOffset: uint32, compute: uint32,
                   processes: uint32, i: uint32): Range
    requires i < processes
  {
    Range(Bound(graphicsOffset, graphics, processes, i), Bound(graphicsOffset, graphics, processes, i + 1),
          Bound(computeOffset, compute, processes, i), Bound(computeOffset, compute, processes, i + 1))
  }

  method SplitRanges(graphicsOffset: uint32, graphics: uint32, computeOffset: uint32, compute: uint32,
                     processes: uint32)
    returns (ranges: seq<Range>)
    ensures |ranges| == processes
    ensures forall i :: 0 <= i < processes ==>
      ranges[i] == RangeOf(graphicsOffset, graphics, computeOffset, compute, processes, i)
    ensures forall i :: 0 <= i < processes ==>
      && ranges[i].startGraphics == Bound(graphicsOffset, graphics, processes, i)
      && ranges[i].endGraphics == Bound(graphicsOffset, graphics, processes, i + 1)
      && ranges[i].startCompute == Bound(computeOffset, compute, processes, i)
      && ranges[i].endCompute == Bound(computeOffset, compute, processes, i + 1)
  {
    ranges := [];
    for i := 0 to processes
      invariant |ranges| == i
      invariant forall k :: 0 <= k < i ==>
        ranges[k] == RangeOf(graphicsOffset, graphics, computeOffset, compute, processes, k)
    {
      var startGraphics := Bound(graphicsOffset, graphics, processes, i);
      var endGraphics := Bound(graphicsOffset, graphics, processes, i + 1);
      var startCompute := Bound(computeOffset, compute, processes, i);
      var endCompute := Bound(computeOffset, compute, processes, i + 1);
      ranges := ranges + [Range(startGraphics, endGraphics, startCompute, endCompute)];
    }
  }

  /** Together the children have exactly the requested pipelines left to do. */
  lemma {:induction false} NothingIsLost(offset: uint32, n: uint32, processes: uint32, k: uint32)
    requires 0 < processes && k <= processes && processes * n < TWO_TO_THE_32 && offset + n < TWO_TO_THE_32
    ensures Lengths(offset, n, processes, k) == Bound(offset, n, processes, k) - offset
    decreases k
  {
    RangesTile(offset, n, processes, 0);
    if k > 0 {
      NothingIsLost(offset, n, processes, k - 1);
      RangesTile(offset, n, processes, k - 1);
      assert Quotient(n, processes) >= 0;
    }
  }

  /** The sizes of the first k ranges. */
  function Lengths(offset: uint32, n: uint32, processes: uint32, k: uint32): nat
    requires 0 < processes && k <= processes
    decreases k
  {
    if k == 0 then 0
    else Lengths(offset, n, processes, k - 1) + Length(Bound(offset, n, processes, k - 1), Bound(offset, n, processes, k))
  }

  /** How many pipelines are left to a child. */
  function Remaining(r: Range): nat {
    Length(r.startGraphics, r.endGraphics) + Length(r.startCompute, r.endCompute)
  }

  /** What a child tells before it dies. */
  datatype Message =
    | Crash
    | GraphicsVerr(hash: nat)
    | ComputeVerr(hash: nat)
    | Graphics(progress: int, pipeline: nat)
    | Compute(progress: int, pipeline: nat)
    | Module(hash: nat)
    | Unexpected

  /** What is passed on to the shared ring: the index of the pipeline that crashed is one below the
      progress, and nothing is passed on for a thread that was not in a pipeline. */
  function Forwarded(m: Message): seq<Message> {
    match m
    case GraphicsVerr(_) => [m]
    case ComputeVerr(_) => [m]
    case Module(_) => [m]
    case Graphics(progress, pipeline) => if progress > 0 && pipeline != 0 then [Graphics(progress - 1, pipeline)] else []
    case Compute(progress, pipeline) => if progress > 0 && pipeline != 0 then [Compute(progress - 1, pipeline)] else []
    case _ => []
  }

  datatype Status = Exited(code: int) | Killed | Signaled

  class ProcessProgress {
    var range: Range
    var running: bool
    var graphicsProgress: int
    var computeProgress: int
    var faultyModules: set<nat>     // shared by all children
    const hasControlBlock: bool
    var bannedModules: nat
    var sent: seq<Message>          // what was passed on to the shared ring

    constructor (r: Range, hasControlBlock: bool)
      ensures range == r && !running && graphicsProgress == -1 && computeProgress == -1
      ensures faultyModules == {} && bannedModules == 0 && sent == [] && this.hasControlBlock == hasControlBlock
    {
      range, running, graphicsProgress, computeProgress, faultyModules := r, false, -1, -1, {};
      this.hasControlBlock, bannedModules, sent := hasControlBlock, 0, [];
    }

    /** Starts a child, unless there is nothing left. */
    method StartChildProcess()
      requires !running
      modifies this`running, this`graphicsProgress, this`computeProgress
      ensures graphicsProgress == -1 && computeProgress == -1
      ensures running <==> Remaining(range) > 0
    {
      graphicsProgress, computeProgress := -1, -1;
      if range.startGraphics >= range.endGraphics && range.startCompute >= range.endCompute {
        return;
      }
      running := true;
    }

    method Parse(m: Message)
      modifies this`graphicsProgress, this`computeProgress, this`faultyModules, this`bannedModules, this`sent
      ensures graphicsProgress == if m.Graphics? then m.progress else old(graphicsProgress)
      ensures computeProgress == if m.Compute? then m.progress else old(computeProgress)
      ensures faultyModules == if m.Module? then old(faultyModules) + {m.hash} else old(faultyModules)
      ensures bannedModules == old(bannedModules) + if m.Module? && hasControlBlock then 1 else 0
      ensures sent == old(sent) + if hasControlBlock then Forwarded(m) else []
      ensures !hasControlBlock || m.Crash? || m.Unexpected? ==> sent == old(sent)
      ensures hasControlBlock && (m.GraphicsVerr? || m.ComputeVerr? || m.Module?) ==> sent == old(sent) + [m]
      ensures hasControlBlock && m.Graphics? && m.progress > 0 && m.pipeline != 0 ==>
        sent == old(sent) + [Graphics(m.progress - 1, m.pipeline)]
      ensures hasControlBlock && m.Compute? && m.progress > 0 && m.pipeline != 0 ==>
        sent == old(sent) + [Compute(m.progress - 1, m.pipeline)]
      ensures (m.Graphics? || m.Compute?) && (m.progress <= 0 || m.pipeline == 0) ==> sent == old(sent)
    {
      match m {
        case Crash =>
        case GraphicsVerr(_) =>
          Forward(m);
        case ComputeVerr(_) =>
          Forward(m);
        case Graphics(progress, pipeline) =>
          graphicsProgress := progress;
          if graphicsProgress > 0 && pipeline != 0 {
            Forward(Graphics(graphicsProgress - 1, pipeline));
          }
        case Compute(progress, pipeline) =>
          computeProgress := progress;
          if computeProgress > 0 && pipeline != 0 {
            Forward(Compute(computeProgress - 1, pipeline));
          }
        case Module(hash) =>
          faultyModules := faultyModules + {hash};
          if hasControlBlock {
            bannedModules := bannedModules + 1;
          }
          Forward(m);
        case Unexpected =>
      }
    }

    method Forward(m: Message)
      modifies this`sent
      ensures sent == old(sent) + if hasControlBlock then [m] else []
    {
      if hasControlBlock {
        sent := sent + [m];
      }
    }

    /** The messages that are left. */
    method ProcessMessages(messages: seq<Message>)
      modifies this`graphicsProgress, this`computeProgress, this`faultyModules, this`bannedModules, this`sent
      ensures sent == old(sent) + if hasControlBlock then AllForwarded(messages) else []
      ensures graphicsProgress == LastGraphics(messages, old(graphicsProgress))
      ensures computeProgress == LastCompute(messages, old(computeProgress))
    {
      assert messages[..0] == [];
      for i := 0 to |messages|
        invariant sent == old(sent) + if hasControlBlock then AllForwarded(messages[..i]) else []
        invariant graphicsProgress == LastGraphics(messages[..i], old(graphicsProgress))
        invariant computeProgress == LastCompute(messages[..i], old(computeProgress))
      {
        assert messages[..i + 1][..i] == messages[..i];
        Parse(messages[i]);
      }
      assert messages[..|messages|] == messages;
    }

    /** Reaps the child, after the messages it left; tells whether to start it again. A retry goes on
        exactly where the child said, and has something left. */
    method ProcessShutdown(messages: seq<Message>, status: Status) returns (retry: bool)
      requires running
      modifies this
      ensures !running
      ensures sent == old(sent) + if hasControlBlock then AllForwarded(messages) else []
      ensures retry <==>
        && status != Exited(0) && status != Signaled
        && LastGraphics(messages, old(graphicsProgress)) >= 0 && LastCompute(messages, old(computeProgress)) >= 0
        && Remaining(Restarted(old(range), LastGraphics(messages, old(graphicsProgress)),
                               LastCompute(messages, old(computeProgress)))) > 0
      ensures range == (
        var graphics, compute := LastGraphics(messages, old(graphicsProgress)), LastCompute(messages, old(computeProgress));
        if status == Exited(0) || status == Signaled || graphics < 0 || compute < 0 then old(range)
        else Restarted(old(range), graphics, compute))
    {
      ProcessMessages(messages);
      running := false;
      if status == Exited(0) || status == Signaled {
        return false;
      }
      if graphicsProgress < 0 || computeProgress < 0 {
        return false;
      }
      range := Restarted(range, graphicsProgress, computeProgress);
      retry := !(range.startGraphics >= range.endGraphics && range.startCompute >= range.endCompute);
    }
  }

  function AllForwarded(messages: seq<Message>): seq<Message> {
    if messages == [] then []
    else AllForwarded(messages[..|messages| - 1]) + Forwarded(messages[|messages| - 1])
  }

  function LastGraphics(messages: seq<Message>, otherwise: int): int {
    if messages == [] then otherwise
    else if messages[|messages| - 1].Graphics? then messages[|messages| - 1].progress
    else LastGraphics(messages[..|messages| - 1], otherwise)
  }

  function LastCompute(messages: seq<Message>, otherwise: int): int {
    if messages == [] then otherwise
    else if messages[|messages| - 1].Compute? then messages[|messages| - 1].progress
    else LastCompute(messages[..|messages| - 1], otherwise)
  }

  /** The progress that counts is that of the last message of the kind; what is passed on keeps its order. */
  lemma {:induction false} LastCounts(messages: seq<Message>, otherwise: int, i: nat)
    requires i < |messages|
    ensures messages[i].Graphics? && (forall j :: i < j < |messages| ==> !messages[j].Graphics?) ==>
      LastGraphics(messages, otherwise) == messages[i].progress
    ensures messages[i].Compute? && (forall j :: i < j < |messages| ==> !messages[j].Compute?) ==>
      LastCompute(messages, otherwise) == messages[i].progress
  {
    if i < |messages| - 1 {
      LastCounts(messages[..|messages| - 1], otherwise, i);
    }
  }

  lemma {:induction false} NoneCounts(messages: seq<Message>, otherwise: int)
    ensures (forall m :: m in messages ==> !m.Graphics?) ==> LastGraphics(messages, otherwise) == otherwise
    ensures (forall m :: m in messages ==> !m.Compute?) ==> LastCompute(messages, otherwise) == otherwise
  {
    if messages != [] {
      NoneCounts(messages[..|messages| - 1], otherwise);
    }
  }

  lemma {:induction false} ForwardedInOrder(a: seq<Message>, b: seq<Message>)
    ensures AllForwarded(a + b) == AllForwarded(a) + AllForwarded(b)
    decreases |b|
  {
    if b == [] {
      assert a + b == a && AllForwarded(a) + [] == AllForwarded(a);
    } else {
      var front, last := b[..|b| - 1], b[|b| - 1];
      assert (a + b)[..|a + b| - 1] == a + front;
      ForwardedInOrder(a, front);
      assert AllForwarded(a) + (AllForwarded(front) + Forwarded(last)) == (AllForwarded(a) + AllForwarded(front)) + Forwarded(last);
    }
  }

  function Restarted(r: Range, graphics: int, compute: int): Range
    requires graphics >= 0 && compute >= 0
  {
    r.(startGraphics := graphics % TWO_TO_THE_32, startCompute := compute % TWO_TO_THE_32)
  }

  /** What the thread that crashed can have reported: for each kind the start of the range, or one
      past the index of a creation it began. */
  ghost predicate Reports(r: Range, graphics: uint32, compute: uint32) {
    && (graphics == r.startGraphics || r.startGraphics < graphics <= r.endGraphics)
    && (compute == r.startCompute || r.startCompute < compute <= r.endCompute)
  }

  predicate BeganCreation(r: Range, graphics: uint32, compute: uint32) {
    graphics != r.startGraphics || compute != r.startCompute
  }

  /** A restart leaves less to do exactly if a creation had begun, and never more. */
  lemma RestartShrinksExactly(r: Range, graphics: uint32, compute: uint32)
    requires Reports(r, graphics, compute)
    ensures Remaining(Restarted(r, graphics, compute)) < Remaining(r) <==> BeganCreation(r, graphics, compute)
    ensures Remaining(Restarted(r, graphics, compute)) <= Remaining(r)
  {
  }

  /** The range after a number of crashes, each with its report. */
  function AfterCrashes(r: Range, reports: seq<(uint32, uint32)>): Range {
    if reports == [] then r
    else
      var (graphics, compute) := reports[|reports| - 1];
      Restarted(AfterCrashes(r, reports[..|reports| - 1]), graphics, compute)
  }

  /** A child that crashes again and again, each time behind a creation it had begun. */
  ghost predicate CrashLoop(r: Range, reports: seq<(uint32, uint32)>) {
    reports != [] ==>
      var front := reports[..|reports| - 1];
      var (graphics, compute) := reports[|reports| - 1];
      var before := AfterCrashes(r, front);
      && CrashLoop(r, front)
      && Reports(before, graphics, compute) && BeganCreation(before, graphics, compute)
  }

  /** There are at most as many crashes as there were pipelines. */
  lemma {:induction false} RestartsAreBounded(r: Range, reports: seq<(uint32, uint32)>)
    requires CrashLoop(r, reports)
    ensures |reports| + Remaining(AfterCrashes(r, reports)) <= Remaining(r)
  {
    if reports != [] {
      var front := reports[..|reports| - 1];
      var (graphics, compute) := reports[|reports| - 1];
      RestartsAreBounded(r, front);
      RestartShrinksExactly(AfterCrashes(r, front), graphics, compute);
    }
  }
}
