/** The shared-memory mutex of platform/futex_wrapper_linux.hpp, as a state machine over
    the atomic steps of any number of threads.

    One `Step` is one atomic memory operation or one kernel call.  The kernel's wait queue is
    the set of threads whose program counter is `Asleep`; FUTEX_WAIT compares the word and
    enqueues the caller in one step, as the kernel does, and FUTEX_WAKE may pick any sleeper. */
module Futex {

  /** Where a thread is.  `Contend(c)` is the head of the retry loop of
      `futex_wrapper_lock` with its local `c`; `Window` is between the decrement and the
      store of 0 in `futex_wrapper_unlock`; `Waking` is between that store and FUTEX_WAKE. */
  datatype PC = Idle | Contend(c: int) | WaitCall | Asleep | Retry | Critical | Window | Waking

  /** The futex word and the program counter of every thread. */
  datatype State = State(word: int, threads: seq<PC>)

  datatype Action =
    | Enter(t: nat)            // first compare-and-swap 0 -> 1
    | Contention(t: nat)       // loop head, with the compare-and-swap 1 -> 2 unless c == 2
    | Sleep(t: nat)            // FUTEX_WAIT with expected value 2
    | Acquire(t: nat)          // compare-and-swap 0 -> 2 closing the loop
    | Decrement(t: nat)        // __sync_sub_and_fetch
    | StoreZero(t: nat)        // __sync_fetch_and_and(lock, 0)
    | Wake(t: nat, s: nat)     // FUTEX_WAKE that finds the sleeper s
    | WakeNobody(t: nat)       // FUTEX_WAKE with an empty wait queue
    | Spurious(t: nat)         // FUTEX_WAIT returns without a wake-up (signal)

  predicate Init(s: State) {
    s.word == 0 && forall t :: 0 <= t < |s.threads| ==> s.threads[t] == Idle
  }

  predicate At(s: State, t: nat, pc: PC) {
    t < |s.threads| && s.threads[t] == pc
  }

  predicate Enabled(s: State, a: Action) {
    match a
    case Enter(t) => At(s, t, Idle)
    case Contention(t) => t < |s.threads| && s.threads[t].Contend?
    case Sleep(t) => At(s, t, WaitCall)
    case Acquire(t) => At(s, t, Retry)
    case Decrement(t) => At(s, t, Critical)
    case StoreZero(t) => At(s, t, Window)
    case Wake(t, u) => At(s, t, Waking) && At(s, u, Asleep)
    case WakeNobody(t) => At(s, t, Waking) && forall u :: 0 <= u < |s.threads| ==> s.threads[u] != Asleep
    case Spurious(t) => At(s, t, Asleep)
  }

  function Move(s: State, word: int, t: nat, pc: PC): State
    requires t < |s.threads|
  {
    State(word, s.threads[t := pc])
  }

  function Step(s: State, a: Action): State
    requires Enabled(s, a)
  {
    match a
    case Enter(t) =>
      if s.word == 0 then Move(s, 1, t, Critical) else Move(s, s.word, t, Contend(s.word))
    case Contention(t) =>
      if s.threads[t].c == 2 then Move(s, s.word, t, WaitCall)
      else Move(s, if s.word == 1 then 2 else s.word, t, if s.word != 0 then WaitCall else Retry)
    case Sleep(t) =>
      Move(s, s.word, t, if s.word == 2 then Asleep else Retry)
    case Acquire(t) =>
      if s.word == 0 then Move(s, 2, t, Critical) else Move(s, s.word, t, Contend(s.word))
    case Decrement(t) =>
      Move(s, s.word - 1, t, if s.word - 1 == 1 then Window else Idle)
    case StoreZero(t) => Move(s, 0, t, Waking)
    case Wake(t, u) => Move(Move(s, s.word, t, Idle), s.word, u, Retry)
    case WakeNobody(t) => Move(s, s.word, t, Idle)
    case Spurious(t) => Move(s, s.word, t, Retry)
  }

  /** A run: every action is enabled where it is taken. */
  predicate Run(s: State, run: seq<Action>)
    decreases |run|
  {
    run == [] || (Enabled(s, run[0]) && Run(Step(s, run[0]), run[1..]))
  }

  function After(s: State, run: seq<Action>): State
    requires Run(s, run)
    decreases |run|
  {
    if run == [] then s else After(Step(s, run[0]), run[1..])
  }

  /** Without contention locking and unlocking is one atomic operation each, and no call of the kernel. */
  lemma UncontendedIsFast(s: State, t: nat)
    requires Init(s) && t < |s.threads|
    ensures At(Step(s, Enter(t)), t, Critical) && Step(Step(s, Enter(t)), Decrement(t)) == s
  {
    assert s.threads[t := Critical][t := Idle] == s.threads;
  }

  // ----- What every run keeps -----

  /** A thread that owns the mutex: in the critical section, or in the unlock window. */
  predicate Holds(pc: PC) {
    pc == Critical || pc == Window
  }

  predicate Holder(s: State, t: int) {
    0 <= t < |s.threads| && Holds(s.threads[t])
  }

  ghost predicate MutualExclusion(s: State) {
    forall t, u :: Holder(s, t) && Holder(s, u) ==> t == u
  }

  /** A thread inside the slow path: it can leave only by making the word 2 or by seeing it 2. */
  predicate SlowPath(pc: PC) {
    pc.Contend? || pc == WaitCall || pc == Retry
  }

  /** A thread which guarantees that a sleeper will still be woken. */
  predicate WillWake(s: State, t: int) {
    0 <= t < |s.threads| && (s.threads[t] == Window || s.threads[t] == Waking || SlowPath(s.threads[t]))
  }

  ghost predicate SleepersCovered(s: State) {
    (exists t :: 0 <= t < |s.threads| && s.threads[t] == Asleep)
    ==> s.word == 2 || exists t :: WillWake(s, t)
  }

  ghost predicate Inv(s: State) {
    && s.word in {0, 1, 2}
    && (forall t :: 0 <= t < |s.threads| && s.threads[t].Contend? ==> s.threads[t].c in {1, 2})
    && MutualExclusion(s)
    && (s.word == 0 <==> forall t :: !Holder(s, t))
    && SleepersCovered(s)
  }

  lemma InvStep(s: State, a: Action)
    requires Inv(s) && Enabled(s, a)
    ensures Inv(Step(s, a))
  {
    var s' := Step(s, a);
    var t := a.t;
    assert forall u :: u != t && 0 <= u < |s.threads| && !a.Wake? ==> s'.threads[u] == s.threads[u];
    assert a.Decrement? ==> Holder(s, t);
    HoldersStep(s, a);
    CoverStep(s, a);
  }

  lemma HoldersStep(s: State, a: Action)
    requires Inv(s) && Enabled(s, a)
    ensures MutualExclusion(Step(s, a))
    ensures Step(s, a).word == 0 <==> forall t :: !Holder(Step(s, a), t)
  {
    var s' := Step(s, a);
    var t := a.t;
    assert forall u :: u != t ==> (Holder(s', u) <==> Holder(s, u));
    if a.Decrement? || a.StoreZero? {
      assert Holder(s, t);
    }
    if s'.word != 0 {
      if s.word != 0 {
        var h :| Holder(s, h);
        assert Holder(s', h);
      } else {
        assert Holder(s', t);
      }
    }
  }

  lemma CoverStep(s: State, a: Action)
    requires Inv(s) && Enabled(s, a)
    ensures SleepersCovered(Step(s, a))
  {
    var s' := Step(s, a);
    var t := a.t;
    if s'.word != 2 && exists u :: 0 <= u < |s'.threads| && s'.threads[u] == Asleep {
      var u :| 0 <= u < |s'.threads| && s'.threads[u] == Asleep;
      assert s.threads[u] == Asleep;
      if a.Wake? {
        assert WillWake(s', a.s);
      } else if s.word == 2 || a.Spurious? {
        assert WillWake(s', t);
      } else {
        var w :| WillWake(s, w);
        assert WillWake(s', w) || WillWake(s', t);
      }
    }
  }

  /** Safety over whole runs, for any number of threads and any interleaving: at most one
      thread is in the critical section or in the unlock window, the word is 0 exactly when
      there is none, and a sleeper always faces a word of 2, an unlocker still to wake
      somebody, or an awake contender in the slow path. */
  lemma {:induction false} Safety(s: State, run: seq<Action>)
    requires Inv(s) && Run(s, run)
    ensures Inv(After(s, run))
    decreases |run|
  {
    if run != [] {
      InvStep(s, run[0]);
      Safety(Step(s, run[0]), run[1..]);
    }
  }

  lemma SafetyFromInit(s: State, run: seq<Action>)
    requires Init(s) && Run(s, run)
    ensures Inv(After(s, run))
  {
    Safety(s, run);
  }

  // ----- No wake-up is lost: every drain ends with nobody waiting -----

  /** The actions that finish calls already made: no new `futex_wrapper_lock`, no signal. */
  predicate Finishing(a: Action) {
    !a.Enter? && !a.Spurious?
  }

  function Phase(pc: PC): nat {
    match pc
    case Idle => 0
    case Contend(_) => 6
    case WaitCall => 6
    case Asleep => 6
    case Retry => 6
    case Critical => 4
    case Window => 2
    case Waking => 1
  }

  /** How far a thread of the slow path is from its next change of the word or from sleep,
      while the word stays w. */
  function Rank(w: int, pc: PC): nat {
    match pc
    case Contend(c) => if w == 1 then (if c == 2 then 4 else 1) else 3
    case WaitCall => if w == 1 then 3 else 2
    case Retry => if w == 2 then 4 else if w == 1 then 2 else 1
    case _ => 0
  }

  function PhaseSum(ts: seq<PC>): nat {
    if ts == [] then 0 else Phase(ts[0]) + PhaseSum(ts[1..])
  }

  function RankSum(w: int, ts: seq<PC>): nat {
    if ts == [] then 0 else Rank(w, ts[0]) + RankSum(w, ts[1..])
  }

  function Work(s: State): nat {
    PhaseSum(s.threads) + if s.word == 1 then 1 else 0
  }

  lemma {:induction false} PhaseUpdate(ts: seq<PC>, t: nat, pc: PC)
    requires t < |ts|
    ensures PhaseSum(ts[t := pc]) == PhaseSum(ts) - Phase(ts[t]) + Phase(pc)
    decreases t
  {
    if t == 0 {
      assert ts[t := pc][1..] == ts[1..];
    } else {
      assert ts[t := pc][1..] == ts[1..][t - 1 := pc];
      PhaseUpdate(ts[1..], t - 1, pc);
    }
  }

  lemma {:induction false} RankUpdate(w: int, ts: seq<PC>, t: nat, pc: PC)
    requires t < |ts|
    ensures RankSum(w, ts[t := pc]) == RankSum(w, ts) - Rank(w, ts[t]) + Rank(w, pc)
    decreases t
  {
    if t == 0 {
      assert ts[t := pc][1..] == ts[1..];
    } else {
      assert ts[t := pc][1..] == ts[1..][t - 1 := pc];
      RankUpdate(w, ts[1..], t - 1, pc);
    }
  }

  /** Every finishing action lowers the lexicographic measure (work left, rank under the
      current word), so no schedule of them goes on for ever: the retry loop cannot spin
      without some other thread making progress. */
  lemma FinishingDecreases(s: State, a: Action)
    requires Inv(s) && Enabled(s, a) && Finishing(a)
    ensures var s' := Step(s, a);
      Work(s') < Work(s)
      || (Work(s') == Work(s) && s'.word == s.word && RankSum(s.word, s'.threads) < RankSum(s.word, s.threads))
  {
    var s' := Step(s, a);
    var t := a.t;
    if a.Decrement? {
      assert Holder(s, t);
    }
    PhaseUpdate(s.threads, t, s'.threads[t]);
    RankUpdate(s.word, s.threads, t, s'.threads[t]);
    if a.Wake? {
      PhaseUpdate(s.threads[t := Idle], a.s, Retry);
    }
  }

  predicate Quiescent(s: State) {
    s.word == 0 && forall t :: 0 <= t < |s.threads| ==> s.threads[t] == Idle
  }

  /** No deadlock: while any call is unfinished, some finishing action is enabled.  A state in
      which all unfinished threads sleep is unreachable, because a sleeper is always covered. */
  lemma FinishingEnabled(s: State) returns (a: Action)
    requires Inv(s) && !Quiescent(s)
    ensures Finishing(a) && Enabled(s, a)
  {
    if forall u :: 0 <= u < |s.threads| ==> s.threads[u] == Asleep || s.threads[u] == Idle {
      assert false;
    }
    var t: nat :| 0 <= t < |s.threads| && s.threads[t] != Asleep && s.threads[t] != Idle;
    match s.threads[t]
    case Contend(_) => a := Contention(t);
    case WaitCall => a := Sleep(t);
    case Retry => a := Acquire(t);
    case Critical => a := Decrement(t);
    case Window => a := StoreZero(t);
    case Waking =>
      if exists u :: 0 <= u < |s.threads| && s.threads[u] == Asleep {
        var u: nat :| 0 <= u < |s.threads| && s.threads[u] == Asleep;
        a := Wake(t, u);
      } else {
        a := WakeNobody(t);
      }
  }

  /** Whoever schedules the finishing actions, the mutex drains: from every reachable state
      any way of choosing them reaches, after finitely many, the state where the word is 0 and
      every caller has returned from its lock and unlock calls. */
  ghost predicate Drains(s: State)
    requires Inv(s)
    decreases Work(s), RankSum(s.word, s.threads)
  {
    && (Quiescent(s) || exists a :: Finishing(a) && Enabled(s, a))
    && forall a :: Finishing(a) && Enabled(s, a) ==>
         (InvStep(s, a); FinishingDecreases(s, a); Drains(Step(s, a)))
  }

  lemma {:induction false} EveryDrainCompletes(s: State)
    requires Inv(s)
    ensures Drains(s)
    decreases Work(s), RankSum(s.word, s.threads)
  {
    if !Quiescent(s) {
      var a := FinishingEnabled(s);
    }
    forall a | Finishing(a) && Enabled(s, a)
      ensures Inv(Step(s, a)) && Drains(Step(s, a))
    {
      InvStep(s, a);
      FinishingDecreases(s, a);
      EveryDrainCompletes(Step(s, a));
    }
  }
}
