/** The close/reopen protocol of reference-ril.c: `s_closed` is written without the lock, `sState` under
    `s_state_mutex`, and `mainLoop` sleeps on `s_state_cond`.  Any number of worker threads (request, reader,
    timeout) run `setRadioState` and the two close handlers; one main thread runs open / `waitForClose`.
    Every shared read or write is one step, and a run interleaves the steps arbitrarily. */
module RadioProtocol {

  type Tid = nat

  datatype RadioState = Unavailable | Off | SimNotReady | SimLockedOrAbsent | SimReady | On

  datatype Owner = Free | HeldBy(t: Tid) | HeldByMain

  /** Program counter of a worker thread.  `closer` marks a call made by a close handler; `before` is `oldState`. */
  datatype PC =
    | Idle
    | Closing                                                                    // about to write s_closed = 1
    | Acquire(target: RadioState, closer: bool)                                  // about to lock the mutex
    | ReadOld(target: RadioState, closer: bool)                                  // about to read oldState
    | TestClosed(target: RadioState, closer: bool, before: RadioState)           // first read of s_closed
    | TestState(target: RadioState, closer: bool, before: RadioState)            // sState != newState ?
    | TestClosedAgain(target: RadioState, closer: bool, before: RadioState)      // || s_closed > 0 ?
    | Store(target: RadioState, closer: bool, before: RadioState)                // sState = newState
    | Broadcast(target: RadioState, closer: bool, before: RadioState)
    | Release(target: RadioState, closer: bool, before: RadioState)              // about to unlock the mutex
    | Notify(before: RadioState)                                                 // sState != oldState, unlocked

  datatype MainPC =
    | Opening        // about to write s_closed = 0
    | Starting       // at_open, timed callback, sleep
    | WaitAcquire    // about to (re)lock the mutex in waitForClose
    | WaitTest       // about to read s_closed in the loop guard
    | WaitEnter      // read 0, about to enter pthread_cond_wait
    | Blocked        // inside pthread_cond_wait
    | WaitRelease    // loop left, about to unlock
    | Gone           // at_open failed, mainLoop returned

  /** `notices` counts the state-change notifications sent outside the mutex. */
  datatype State = State(closed: int, radio: RadioState, owner: Owner, workers: map<Tid, PC>, main: MainPC,
      notices: nat)

  datatype Action =
    | Request(t: Tid, target: RadioState)  // an idle thread calls setRadioState(target)
    | Close(t: Tid)                        // an idle thread enters onATReaderClosed or onATTimeout
    | Work(t: Tid)                         // a busy thread takes its next step
    | Main                                 // the main thread takes its next step
    | OpenFails                            // at_open returns an error
    | Spurious                             // pthread_cond_wait returns unprovoked

  predicate Enabled(s: State, a: Action) {
    match a
    case Request(t, _) => t in s.workers && s.workers[t].Idle?
    case Close(t) => t in s.workers && s.workers[t].Idle?
    case Work(t) => t in s.workers && !s.workers[t].Idle? && (s.workers[t].Acquire? ==> s.owner.Free?)
    case Main => !s.main.Blocked? && !s.main.Gone? && (s.main.WaitAcquire? ==> s.owner.Free?)
    case OpenFails => s.main.Starting?
    case Spurious => s.main.Blocked?
  }

  /** The step of a worker; `always` is the clause `|| s_closed > 0` of the broadcast guard (true in the code). */
  function WorkStep(s: State, t: Tid, always: bool): State
    requires Enabled(s, Work(t))
  {
    match s.workers[t]
    case Closing => s.(closed := 1, workers := s.workers[t := Acquire(Unavailable, true)])
    case Acquire(n, c) => s.(owner := HeldBy(t), workers := s.workers[t := ReadOld(n, c)])
    case ReadOld(n, c) => s.(workers := s.workers[t := TestClosed(n, c, s.radio)])
    case TestClosed(n, c, b) =>
      s.(workers := s.workers[t := TestState(if s.closed > 0 then Unavailable else n, c, b)])
    case TestState(n, c, b) =>
      s.(workers := s.workers[t := if s.radio != n then Store(n, c, b)
                                   else if always then TestClosedAgain(n, c, b) else Release(n, c, b)])
    case TestClosedAgain(n, c, b) =>
      s.(workers := s.workers[t := if s.closed > 0 then Store(n, c, b) else Release(n, c, b)])
    case Store(n, c, b) => s.(radio := n, workers := s.workers[t := Broadcast(n, c, b)])
    case Broadcast(n, c, b) =>
      s.(main := if s.main.Blocked? then WaitAcquire else s.main, workers := s.workers[t := Release(n, c, b)])
    case Release(_, _, b) => s.(owner := Free, workers := s.workers[t := Notify(b)])
    case Notify(b) => s.(notices := if s.radio != b then s.notices + 1 else s.notices, workers := s.workers[t := Idle])
  }

  function MainStep(s: State): State
    requires Enabled(s, Main)
  {
    match s.main
    case Opening => s.(closed := 0, main := Starting)
    case Starting => s.(main := WaitAcquire)
    case WaitAcquire => s.(owner := HeldByMain, main := WaitTest)
    case WaitTest => s.(main := if s.closed == 0 then WaitEnter else WaitRelease)
    case WaitEnter => s.(owner := Free, main := Blocked)
    case WaitRelease => s.(owner := Free, main := Opening)
  }

  function Step(s: State, a: Action, always: bool): State
    requires Enabled(s, a)
  {
    match a
    case Request(t, n) => s.(workers := s.workers[t := Acquire(n, false)])
    case Close(t) => s.(workers := s.workers[t := Closing])
    case Work(t) => WorkStep(s, t, always)
    case Main => MainStep(s)
    case OpenFails => s.(main := Gone)
    case Spurious => s.(main := WaitAcquire)
  }

  predicate Init(s: State) {
    s.closed == 0 && s.radio.Unavailable? && s.owner.Free? && s.main.Opening? &&
    forall t <- s.workers :: s.workers[t].Idle?
  }

  /** Where a list of actions leads; `Refused` when one of them is not enabled. */
  datatype Execution = Refused | At(state: State)

  function Exec(s: State, run: seq<Action>, always: bool): Execution
    decreases |run|
  {
    if run == [] then At(s)
    else if !Enabled(s, run[0]) then Refused
    else Exec(Step(s, run[0], always), run[1..], always)
  }

  ghost predicate Reachable(s: State, always: bool) {
    exists s0: State, run: seq<Action> :: Init(s0) && Exec(s0, run, always) == At(s)
  }

  // ---------------------------------------------------------------- the two properties

  /** Between `s_closed = 1` and the end of the handler's locked section. */
  predicate Pending(pc: PC) {
    (pc.Acquire? || pc.ReadOld? || pc.TestClosed? || pc.TestState? || pc.TestClosedAgain? || pc.Store? ||
     pc.Broadcast? || pc.Release?) && pc.closer
  }

  /** A close handler that has not yet made its broadcast. */
  predicate WillBroadcast(pc: PC) {
    Pending(pc) && !pc.Release?
  }

  /** Closed, with no handler under way, means unavailable. */
  ghost predicate ClosedMeansUnavailable(s: State) {
    s.closed > 0 && (forall t <- s.workers :: !Pending(s.workers[t])) ==> s.radio.Unavailable?
  }

  ghost predicate WakeupPending(s: State) {
    s.main.Blocked? && s.closed == 1 ==> exists t <- s.workers :: WillBroadcast(s.workers[t])
  }

  // ---------------------------------------------------------------- the inductive invariant

  /** The steps a worker takes while it holds the mutex. */
  predicate Holding(pc: PC) {
    pc.ReadOld? || pc.TestClosed? || pc.TestState? || pc.TestClosedAgain? || pc.Store? || pc.Broadcast? || pc.Release?
  }

  ghost predicate SomePending(s: State) {
    exists t <- s.workers :: Pending(s.workers[t])
  }

  ghost predicate SomeBroadcastDue(s: State) {
    exists t <- s.workers :: WillBroadcast(s.workers[t])
  }

  ghost predicate MutexOk(s: State) {
    && (forall t <- s.workers :: Holding(s.workers[t]) <==> s.owner == HeldBy(t))
    && (s.owner.HeldBy? ==> s.owner.t in s.workers)
    && (s.owner.HeldByMain? <==> s.main.WaitTest? || s.main.WaitEnter? || s.main.WaitRelease?)
  }

  /** What one worker's program counter says about the shared variables. */
  ghost predicate WorkerOk(s: State, pc: PC) {
    && (Pending(pc) ==> pc.target.Unavailable?)
    && ((pc.TestClosedAgain? || pc.Broadcast?) ==> s.radio == pc.target)
    && (pc.Release? && pc.closer ==> s.radio.Unavailable?)
    // a live target chosen before the close is still to be overwritten by a handler
    && ((pc.TestState? || pc.TestClosedAgain? || pc.Store?) && !pc.target.Unavailable? && s.closed == 1 ==> SomePending(s))
  }

  ghost predicate Inv(s: State) {
    && (s.closed == 0 || s.closed == 1)
    && MutexOk(s)
    && (forall t <- s.workers :: WorkerOk(s, s.workers[t]))
    && (s.closed == 1 && !s.radio.Unavailable? ==> SomePending(s))
    && ((s.main.WaitEnter? || s.main.Blocked?) && s.closed == 1 ==> SomeBroadcastDue(s))
  }

  lemma WorkKeepsMutexOk(s: State, t: Tid)
    requires MutexOk(s) && Enabled(s, Work(t))
    ensures MutexOk(WorkStep(s, t, true))
  {
    var s' := WorkStep(s, t, true);
    forall u <- s'.workers
      ensures Holding(s'.workers[u]) <==> s'.owner == HeldBy(u)
    {
      assert Holding(s.workers[u]) <==> s.owner == HeldBy(u);
    }
  }

  /** A pending handler stays pending, unless this very step releases the mutex with the radio unavailable. */
  lemma WorkKeepsPending(s: State, t: Tid)
    requires Inv(s) && Enabled(s, Work(t))
    ensures var s' := WorkStep(s, t, true);
            SomePending(s) ==> SomePending(s') || (s.workers[t].Release? && s'.radio.Unavailable?)
    ensures s.workers[t].Closing? ==> SomePending(WorkStep(s, t, true)) && SomeBroadcastDue(WorkStep(s, t, true))
  {
    var s' := WorkStep(s, t, true);
    if SomePending(s) {
      var u :| u in s.workers && Pending(s.workers[u]);
      assert WorkerOk(s, s.workers[u]);
      if !(u == t && s.workers[t].Release?) {
        assert Pending(s'.workers[u]);
      }
    }
    if s.workers[t].Closing? {
      assert WillBroadcast(s'.workers[t]) && Pending(s'.workers[t]);
    }
  }

  /** While main sleeps on a closed channel a due broadcast stays due until it is made. */
  lemma WorkKeepsBroadcastDue(s: State, t: Tid)
    requires Inv(s) && Enabled(s, Work(t)) && s.closed == 1 && SomeBroadcastDue(s)
    ensures var s' := WorkStep(s, t, true);
            SomeBroadcastDue(s') || s.workers[t].Broadcast?
  {
    var s' := WorkStep(s, t, true);
    var u :| u in s.workers && WillBroadcast(s.workers[u]);
    if !s.workers[t].Broadcast? {
      assert WillBroadcast(s'.workers[u]);
    }
  }

  lemma WorkKeepsWorkerOk(s: State, t: Tid, u: Tid)
    requires Inv(s) && Enabled(s, Work(t)) && u in s.workers
    ensures var s' := WorkStep(s, t, true); WorkerOk(s', s'.workers[u])
  {
    var s' := WorkStep(s, t, true);
    WorkKeepsPending(s, t);
    assert WorkerOk(s, s.workers[u]) && WorkerOk(s, s.workers[t]);
    assert Holding(s.workers[u]) <==> s.owner == HeldBy(u);
    assert Holding(s.workers[t]) <==> s.owner == HeldBy(t);
  }

  lemma WorkKeepsInv(s: State, t: Tid)
    requires Inv(s) && Enabled(s, Work(t))
    ensures Inv(WorkStep(s, t, true))
  {
    var s' := WorkStep(s, t, true);
    WorkKeepsMutexOk(s, t);
    WorkKeepsPending(s, t);
    if s.closed == 1 && SomeBroadcastDue(s) {
      WorkKeepsBroadcastDue(s, t);
    }
    forall u <- s'.workers
      ensures WorkerOk(s', s'.workers[u])
    {
      WorkKeepsWorkerOk(s, t, u);
    }
    assert WorkerOk(s, s.workers[t]);
    assert Holding(s.workers[t]) <==> s.owner == HeldBy(t);
  }

  lemma StepKeepsInv(s: State, a: Action)
    requires Inv(s) && Enabled(s, a)
    ensures Inv(Step(s, a, true))
  {
    var s' := Step(s, a, true);
    match a
    case Work(t) => WorkKeepsInv(s, t);
    case Request(t, _) =>
      assert forall u <- s.workers | u != t :: s'.workers[u] == s.workers[u];
    case Close(t) =>
      assert forall u <- s.workers | u != t :: s'.workers[u] == s.workers[u];
    case _ => assert s'.workers == s.workers;
  }

  lemma {:induction false} ExecKeepsInv(s: State, run: seq<Action>)
    requires Inv(s) && Exec(s, run, true).At?
    ensures Inv(Exec(s, run, true).state)
    decreases |run|
  {
    if run != [] {
      StepKeepsInv(s, run[0]);
      ExecKeepsInv(Step(s, run[0], true), run[1..]);
    }
  }

  lemma ReachableInv(s: State)
    requires Reachable(s, true)
    ensures Inv(s)
  {
    var s0: State, run :| Init(s0) && Exec(s0, run, true) == At(s);
    ExecKeepsInv(s0, run);
  }

  // ---------------------------------------------------------------- main results

  /** In every state of every interleaving, a closed channel without a handler under way is unavailable. */
  lemma ClosedIsUnavailable(s: State)
    requires Reachable(s, true)
    ensures ClosedMeansUnavailable(s)
  {
    ReachableInv(s);
  }

  /** No wakeup is lost. */
  lemma NoLostWakeup(s: State)
    requires Reachable(s, true)
    ensures WakeupPending(s)
  {
    ReachableInv(s);
  }

  // ---------------------------------------------------------------- the wakeup really comes

  function StepsToRelease(pc: PC): nat {
    match pc
    case ReadOld(_, _) => 7
    case TestClosed(_, _, _) => 6
    case TestState(_, _, _) => 5
    case TestClosedAgain(_, _, _) => 4
    case Store(_, _, _) => 3
    case Broadcast(_, _, _) => 2
    case Release(_, _, _) => 1
    case _ => 0
  }

  /** Worker steps still needed until a close handler broadcasts. */
  function StepsToWake(s: State): nat
    requires s.owner.HeldBy? ==> s.owner.t in s.workers
  {
    if !s.owner.HeldBy? then 7
    else
      var pc := s.workers[s.owner.t];
      if WillBroadcast(pc) && StepsToRelease(pc) > 0 then StepsToRelease(pc) - 1
      else StepsToRelease(pc) + 7
  }

  /** One step on the way: either it wakes main, or it brings the broadcast nearer. */
  lemma NextStepTowardsWake(s: State) returns (t: Tid)
    requires Inv(s) && s.main.Blocked? && s.closed == 1
    ensures Enabled(s, Work(t))
    ensures var s' := Step(s, Work(t), true);
            Inv(s') && (s'.main.Blocked? ==> s'.closed == 1 && StepsToWake(s') < StepsToWake(s))
  {
    if s.owner.HeldBy? {
      t := s.owner.t;
      assert Holding(s.workers[t]);
    } else {
      t :| t in s.workers && WillBroadcast(s.workers[t]);
      assert !Holding(s.workers[t]);
    }
    WorkKeepsInv(s, t);
  }

  /** From every reachable state in which main sleeps on a closed channel, at most 14 worker steps wake it:
      the sleeper never needs a spurious wakeup or a further close. */
  lemma {:induction false} WakeupIsReached(s: State) returns (run: seq<Action>)
    requires Inv(s) && s.main.Blocked? && s.closed == 1
    ensures forall a <- run :: a.Work?
    ensures |run| <= StepsToWake(s) <= 14
    ensures Exec(s, run, true).At? && Exec(s, run, true).state.main.WaitAcquire?
    decreases StepsToWake(s)
  {
    var t := NextStepTowardsWake(s);
    var s' := Step(s, Work(t), true);
    if s'.main.Blocked? {
      var rest := WakeupIsReached(s');
      run := [Work(t)] + rest;
      assert run[1..] == rest;
    } else {
      run := [Work(t)];
      assert Exec(s', run[1..], true) == At(s');
    }
  }

  lemma SleeperCanAlwaysWake(s: State)
    requires Reachable(s, true) && s.main.Blocked? && s.closed == 1
    ensures exists run: seq<Action> :: |run| <= 14 && (forall a <- run :: a.Work?) &&
              Exec(s, run, true).At? && !Exec(s, run, true).state.main.Blocked?
  {
    ReachableInv(s);
    var run := WakeupIsReached(s);
  }

  // ---------------------------------------------------------------- under every schedule

  /** Steps a worker still takes before it is idle again, at most. */
  function StepsLeft(pc: PC): (n: nat)
    ensures n <= 10 && (n == 0 <==> pc.Idle?)
  {
    match pc
    case Idle => 0
    case Closing => 10
    case Acquire(_, _) => 9
    case ReadOld(_, _) => 8
    case TestClosed(_, _, _) => 7
    case TestState(_, _, _) => 6
    case TestClosedAgain(_, _, _) => 5
    case Store(_, _, _) => 4
    case Broadcast(_, _, _) => 3
    case Release(_, _, _) => 2
    case Notify(_) => 1
  }

  ghost function AnyOf(ws: map<Tid, PC>): (t: Tid)
    requires ws != map[]
    ensures t in ws
  {
    var t :| t in ws; t
  }

  lemma Smaller(ws: map<Tid, PC>, t: Tid)
    requires t in ws
    ensures |ws - {t}| == |ws| - 1
  {
    assert (ws - {t}).Keys == ws.Keys - {t};
  }

  /** Steps left to all workers together. */
  ghost function Total(ws: map<Tid, PC>): nat
    decreases |ws|
  {
    if ws == map[] then 0
    else
      var t := AnyOf(ws);
      Smaller(ws, t);
      StepsLeft(ws[t]) + Total(ws - {t})
  }

  lemma {:induction false} TotalAt(ws: map<Tid, PC>, t: Tid)
    requires t in ws
    ensures Total(ws) == StepsLeft(ws[t]) + Total(ws - {t})
    decreases |ws|
  {
    var u := AnyOf(ws);
    if u != t {
      Smaller(ws, u);
      Smaller(ws, t);
      TotalAt(ws - {u}, t);
      TotalAt(ws - {t}, u);
      assert ws - {u} - {t} == ws - {t} - {u};
    }
  }

  lemma {:induction false} TotalAtMost(ws: map<Tid, PC>)
    ensures Total(ws) <= 10 * |ws|
    decreases |ws|
  {
    if ws != map[] {
      Smaller(ws, AnyOf(ws));
      TotalAtMost(ws - {AnyOf(ws)});
    }
  }

  lemma WorkShortens(s: State, t: Tid)
    requires Enabled(s, Work(t))
    ensures var ws := WorkStep(s, t, true).workers; |ws| == |s.workers| && Total(ws) < Total(s.workers)
  {
    var ws := WorkStep(s, t, true).workers;
    assert ws.Keys == s.workers.Keys && ws - {t} == s.workers - {t};
    assert StepsLeft(ws[t]) < StepsLeft(s.workers[t]);
    TotalAt(ws, t);
    TotalAt(s.workers, t);
  }

  /** A closed channel whose main thread sleeps or is about to wake. */
  ghost predicate SleepsClosed(s: State) {
    Inv(s) && s.closed == 1 && (s.main.Blocked? || s.main.WaitAcquire?)
  }

  predicate OnlyWork(run: seq<Action>) {
    forall i :: 0 <= i < |run| ==> run[i].Work?
  }

  ghost predicate CanWork(s: State) {
    exists t <- s.workers :: Enabled(s, Work(t))
  }

  lemma {:induction false} WorkRunsEnd(s: State, run: seq<Action>)
    requires SleepsClosed(s) && OnlyWork(run) && Exec(s, run, true).At?
    ensures |run| <= Total(s.workers) && SleepsClosed(Exec(s, run, true).state)
    decreases |run|
  {
    if run != [] {
      var t := run[0].t;
      WorkKeepsInv(s, t);
      WorkShortens(s, t);
      WorkRunsEnd(Step(s, run[0], true), run[1..]);
    }
  }

  /** Whatever order the workers are scheduled in, from a reachable state in which main sleeps on a closed channel they
      take at most ten steps each, and once none of them can step any more main is awake. */
  lemma EveryScheduleWakes(s: State, run: seq<Action>)
    requires Reachable(s, true) && s.main.Blocked? && s.closed == 1
    requires OnlyWork(run) && Exec(s, run, true).At?
    ensures |run| <= 10 * |s.workers|
    ensures var end := Exec(s, run, true).state; !CanWork(end) ==> end.main.WaitAcquire?
  {
    ReachableInv(s);
    WorkRunsEnd(s, run);
    TotalAtMost(s.workers);
    var end := Exec(s, run, true).state;
    if end.main.Blocked? {
      var t := NextStepTowardsWake(end);
      assert Enabled(end, Work(t));
    }
  }

  /** Steps of its own that worker `t` takes in a run. */
  function OwnSteps(run: seq<Action>, t: Tid): nat {
    if run == [] then 0 else (if run[0] == Work(t) then 1 else 0) + OwnSteps(run[1..], t)
  }

  lemma ExecSuffix(s: State, run: seq<Action>, i: nat)
    requires 1 <= i <= |run| && Enabled(s, run[0])
    ensures Exec(s, run[..i], true) == Exec(Step(s, run[0], true), run[1..][..i - 1], true)
  {
    assert run[..i][1..] == run[1..][..i - 1];
  }

  /** One step of any kind while main sleeps: it wakes main, or the handler is no further from its broadcast, and nearer by
      a step of its own. */
  lemma HandlerStep(s: State, a: Action, t: Tid)
    requires Inv(s) && s.closed == 1 && s.main.Blocked? && t in s.workers && WillBroadcast(s.workers[t]) && Enabled(s, a)
    ensures var s' := Step(s, a, true);
            s'.main.Blocked? ==>
              && s'.closed == 1 && t in s'.workers && WillBroadcast(s'.workers[t])
              && StepsLeft(s'.workers[t]) <= StepsLeft(s.workers[t]) - if a == Work(t) then 1 else 0
  {
    if a.Work? && a.t != t {
      assert WorkStep(s, a.t, true).workers[t] == s.workers[t];
    }
  }

  /** Whatever else happens in a run, requests, closes and steps of any thread: once a close handler that has yet to
      broadcast has taken its steps up to the broadcast, main has been awake at some point of the run. */
  lemma {:induction false} HandlerWakes(s: State, run: seq<Action>, t: Tid) returns (i: nat)
    requires Inv(s) && s.closed == 1 && t in s.workers && WillBroadcast(s.workers[t])
    requires Exec(s, run, true).At? && OwnSteps(run, t) >= StepsLeft(s.workers[t]) - 2
    ensures i <= |run| && Exec(s, run[..i], true).At? && !Exec(s, run[..i], true).state.main.Blocked?
    decreases |run|
  {
    if !s.main.Blocked? {
      i := 0;
      assert run[..0] == [];
    } else {
      var s' := Step(s, run[0], true);
      StepKeepsInv(s, run[0]);
      HandlerStep(s, run[0], t);
      if s'.main.Blocked? {
        i := HandlerWakes(s', run[1..], t);
        i := i + 1;
      } else {
        i := 1;
        assert run[1..][..0] == [];
      }
      ExecSuffix(s, run, i);
    }
  }

  /** So from every reachable state in which main sleeps on a closed channel there is a worker such that every run, of any
      kind, in which it takes seven steps gets main out of its sleep. */
  lemma EveryRunWakes(s: State) returns (t: Tid)
    requires Reachable(s, true) && s.main.Blocked? && s.closed == 1
    ensures t in s.workers && WillBroadcast(s.workers[t])
    ensures forall run: seq<Action> :: Exec(s, run, true).At? && OwnSteps(run, t) >= 7 ==>
              exists i: nat :: i <= |run| && Exec(s, run[..i], true).At? && !Exec(s, run[..i], true).state.main.Blocked?
  {
    ReachableInv(s);
    t :| t in s.workers && WillBroadcast(s.workers[t]);
    forall run: seq<Action> | Exec(s, run, true).At? && OwnSteps(run, t) >= 7
      ensures exists i: nat :: i <= |run| && Exec(s, run[..i], true).At? && !Exec(s, run[..i], true).state.main.Blocked?
    {
      var i := HandlerWakes(s, run, t);
    }
  }

  // ---------------------------------------------------------------- what a call does when nothing interferes

  /** The state after setRadioState(n) by `t` alone: unavailable on a closed channel, else `n`; main is woken when the
      state changes or the channel is closed, and a change is notified. */
  function AfterCall(s: State, t: Tid, n: RadioState): State {
    var goal := if s.closed > 0 then Unavailable else n;
    State(s.closed, goal, Free, s.workers[t := Idle],
          if s.main.Blocked? && (s.radio != goal || s.closed > 0) then WaitAcquire else s.main,
          if s.radio != goal then s.notices + 1 else s.notices)
  }

  lemma {:induction false} ExecAppend(s: State, xs: seq<Action>, a: Action, always: bool)
    requires Exec(s, xs, always).At? && Enabled(Exec(s, xs, always).state, a)
    ensures Exec(s, xs + [a], always) == At(Step(Exec(s, xs, always).state, a, always))
    decreases |xs|
  {
    if xs == [] {
      assert Exec(Step(s, a, always), (xs + [a])[1..], always) == At(Step(s, a, always));
    } else {
      assert (xs + [a])[1..] == xs[1..] + [a];
      ExecAppend(Step(s, xs[0], always), xs[1..], a, always);
    }
  }

  /** One more step of `t` behind a run. */
  lemma OneMore(s: State, run: seq<Action>, t: Tid) returns (more: seq<Action>)
    requires Exec(s, run, true).At? && Enabled(Exec(s, run, true).state, Work(t))
    ensures more == run + [Work(t)] && Exec(s, more, true) == At(WorkStep(Exec(s, run, true).state, t, true))
  {
    more := run + [Work(t)];
    ExecAppend(s, run, Work(t), true);
  }

  predicate OnlyOwn(run: seq<Action>, t: Tid) {
    forall i :: 0 <= i < |run| ==> run[i] == Work(t)
  }

  /** Lock, both tests, and the program counter that they lead to. */
  lemma CallDecides(s: State, t: Tid, n: RadioState, closer: bool) returns (run: seq<Action>)
    requires t in s.workers && s.workers[t] == Acquire(n, closer) && s.owner.Free?
    ensures OnlyOwn(run, t) && Exec(s, run, true).At?
    ensures var goal := if s.closed > 0 then Unavailable else n;
            Exec(s, run, true).state ==
            s.(owner := HeldBy(t),
               workers := s.workers[t := if s.radio != goal || s.closed > 0 then Store(goal, closer, s.radio)
                                         else Release(goal, closer, s.radio)])
  {
    run := [];
    run := OneMore(s, run, t);
    run := OneMore(s, run, t);
    run := OneMore(s, run, t);
    run := OneMore(s, run, t);
    if s.radio == (if s.closed > 0 then Unavailable else n) {
      run := OneMore(s, run, t);
    }
  }

  /** Store and broadcast. */
  lemma CallStores(s: State, t: Tid, n: RadioState, closer: bool, before: RadioState) returns (run: seq<Action>)
    requires t in s.workers && s.workers[t] == Store(n, closer, before)
    ensures OnlyOwn(run, t) && Exec(s, run, true).At?
    ensures Exec(s, run, true).state ==
            s.(radio := n, main := if s.main.Blocked? then WaitAcquire else s.main,
               workers := s.workers[t := Release(n, closer, before)])
  {
    run := OneMore(s, [], t);
    run := OneMore(s, run, t);
  }

  /** Unlock and notify. */
  lemma CallReturns(s: State, t: Tid, n: RadioState, closer: bool, before: RadioState) returns (run: seq<Action>)
    requires t in s.workers && s.workers[t] == Release(n, closer, before)
    ensures OnlyOwn(run, t) && Exec(s, run, true).At?
    ensures Exec(s, run, true).state ==
            s.(owner := Free, notices := if s.radio != before then s.notices + 1 else s.notices,
               workers := s.workers[t := Idle])
  {
    run := OneMore(s, [], t);
    run := OneMore(s, run, t);
  }

  lemma {:induction false} ExecConcat(s: State, a: seq<Action>, b: seq<Action>)
    requires Exec(s, a, true).At?
    ensures Exec(s, a + b, true) == Exec(Exec(s, a, true).state, b, true)
    decreases |a|
  {
    if a == [] {
      assert a + b == b;
    } else {
      assert (a + b)[1..] == a[1..] + b;
      ExecConcat(Step(s, a[0], true), a[1..], b);
    }
  }

  lemma CallCompletes(s: State, t: Tid, n: RadioState, closer: bool) returns (run: seq<Action>)
    requires t in s.workers && s.workers[t] == Acquire(n, closer) && s.owner.Free?
    ensures OnlyOwn(run, t) && Exec(s, run, true) == At(AfterCall(s, t, n))
  {
    run := CallDecides(s, t, n, closer);
    var x := Exec(s, run, true).state;
    if x.workers[t].Store? {
      var stores := CallStores(x, t, x.workers[t].target, closer, s.radio);
      ExecConcat(s, run, stores);
      run := run + stores;
      x := Exec(s, run, true).state;
    }
    var returns' := CallReturns(x, t, x.workers[t].target, closer, s.radio);
    ExecConcat(s, run, returns');
    run := run + returns';
    assert Exec(s, run, true).state.workers == s.workers[t := Idle];
  }

  /** A request on an open channel with a free mutex, and the steps of its thread alone: the state asked for, the thread
      idle, and one notice exactly when the state has changed.  On a closed channel the state is unavailable. */
  lemma RequestCompletes(s: State, t: Tid, n: RadioState) returns (run: seq<Action>)
    requires t in s.workers && s.workers[t].Idle? && s.owner.Free?
    ensures OnlyOwn(run, t) && Exec(s, [Request(t, n)] + run, true).At?
    ensures var end := Exec(s, [Request(t, n)] + run, true).state;
            && end.workers == s.workers && end.owner.Free? && end.closed == s.closed
            && end.radio == (if s.closed > 0 then Unavailable else n)
            && end.notices == s.notices + (if end.radio != s.radio then 1 else 0)
            && (s.main.Blocked? && end.radio != s.radio ==> end.main.WaitAcquire?)
            && (!s.main.Blocked? ==> end.main == s.main)
  {
    var called := Step(s, Request(t, n), true);
    run := CallCompletes(called, t, n, false);
    assert ([Request(t, n)] + run)[1..] == run;
    assert called.workers[t := Idle] == s.workers;
  }

  /** A close handler with a free mutex, and its steps alone: closed and unavailable, a sleeping main woken whatever the
      state was, and one notice exactly when it was another. */
  lemma CloseCompletes(s: State, t: Tid) returns (run: seq<Action>)
    requires t in s.workers && s.workers[t].Idle? && s.owner.Free?
    ensures OnlyOwn(run, t) && Exec(s, [Close(t)] + run, true).At?
    ensures Exec(s, [Close(t)] + run, true).state ==
            State(1, Unavailable, Free, s.workers, if s.main.Blocked? then WaitAcquire else s.main,
                  if s.radio != Unavailable then s.notices + 1 else s.notices)
  {
    var called := Step(s, Close(t), true);
    var closed := WorkStep(called, t, true);
    var rest := CallCompletes(closed, t, Unavailable, true);
    run := [Work(t)] + rest;
    assert ([Close(t)] + run)[1..] == run && run[1..] == rest;
    assert closed.workers[t := Idle] == s.workers;
  }

  // ---------------------------------------------------------------- the channel opens again

  predicate NoClose(run: seq<Action>) {
    forall i :: 0 <= i < |run| ==> run[i].Work? || run[i].Main?
  }

  /** While main waits for the mutex its holder, if any, gives it back. */
  lemma {:induction false} MutexIsFreed(s: State) returns (run: seq<Action>)
    requires Inv(s) && s.main.WaitAcquire? && s.closed == 1
    ensures OnlyWork(run) && Exec(s, run, true).At?
    ensures var end := Exec(s, run, true).state; end.main.WaitAcquire? && end.closed == 1 && end.owner.Free?
    decreases if s.owner.HeldBy? then StepsToRelease(s.workers[s.owner.t]) else 0
  {
    run := [];
    if s.owner.HeldBy? {
      var t := s.owner.t;
      assert Holding(s.workers[t]);
      WorkKeepsInv(s, t);
      var rest := MutexIsFreed(WorkStep(s, t, true));
      run := [Work(t)] + rest;
      assert run[1..] == rest;
    }
  }

  /** waitForClose returns, `s_closed` is cleared, the channel is opened, and main goes to sleep again. */
  lemma MainReopens(s: State)
    requires s.main.WaitAcquire? && s.closed == 1 && s.owner.Free?
    ensures var again := seq(8, _ => Main); Exec(s, again, true) == At(s.(closed := 0, main := Blocked))
  {
    var mains := seq(8, _ => Main);
    var three: seq<Action> := [Main, Main, Main];
    assert mains == three + [Main, Main, Main, Main, Main];
    ThreeMains(s);
    ExecConcat(s, three, [Main, Main, Main, Main, Main]);
    FiveMains(s.(main := Opening));
  }

  lemma ThreeMains(s: State)
    requires s.main.WaitAcquire? && s.closed == 1 && s.owner.Free?
    ensures Exec(s, [Main, Main, Main], true) == At(s.(main := Opening))
  {
    var a: seq<Action>, b: seq<Action>, c: seq<Action> := [Main], [Main, Main], [Main, Main, Main];
    assert a[1..] == [] && b[1..] == a && c[1..] == b;
  }

  lemma FiveMains(s: State)
    requires s.main.Opening? && s.owner.Free?
    ensures Exec(s, [Main, Main, Main, Main, Main], true) == At(s.(closed := 0, main := Blocked))
  {
    var a: seq<Action>, b: seq<Action>, c: seq<Action> := [Main], [Main, Main], [Main, Main, Main];
    var d: seq<Action>, e: seq<Action> := [Main] + c, [Main, Main, Main, Main, Main];
    assert a[1..] == [] && b[1..] == a && c[1..] == b && d[1..] == c && e[1..] == d;
    var s1 := MainStep(s);
    var s2 := MainStep(s1);
    var s3 := MainStep(s2);
    var s4 := MainStep(s3);
    assert Exec(s4, a, true) == At(MainStep(s4)) && Exec(s3, b, true) == Exec(s4, a, true);
    assert Exec(s2, c, true) == Exec(s3, b, true) && Exec(s1, d, true) == Exec(s2, c, true);
  }

  /** From every reachable state in which main sleeps on a closed channel a run without another close, and with no other
      help than the threads under way, opens the channel again: `s_closed` is 0 and main sleeps. */
  lemma ChannelReopens(s: State) returns (run: seq<Action>)
    requires Reachable(s, true) && s.main.Blocked? && s.closed == 1
    ensures NoClose(run) && Exec(s, run, true).At?
    ensures var end := Exec(s, run, true).state; end.closed == 0 && end.main.Blocked?
  {
    ReachableInv(s);
    var wake := WakeupIsReached(s);
    assert OnlyWork(wake) by { assert forall i :: 0 <= i < |wake| ==> wake[i] in wake; }
    WorkRunsEnd(s, wake);
    var woken := Exec(s, wake, true).state;
    var free := MutexIsFreed(woken);
    var ready := Exec(woken, free, true).state;
    var again := seq(8, _ => Main);
    MainReopens(ready);
    ExecConcat(s, wake, free + again);
    ExecConcat(woken, free, again);
    run := wake + (free + again);
  }

  /** Does main come to reopen the channel in this run? */
  predicate ComesToOpen(s: State, run: seq<Action>)
    decreases |run|
  {
    s.main.Opening? || (run != [] && Enabled(s, run[0]) && ComesToOpen(Step(s, run[0], true), run[1..]))
  }

  /** A close that comes while main is opening or about to wait is not lost: in every run the channel stays closed and main
      does not sleep, until it comes to reopen. */
  lemma {:induction false} CloseIsSeen(s: State, run: seq<Action>)
    requires Exec(s, run, true).At? && s.closed == 1
    requires s.main.Starting? || s.main.WaitAcquire? || s.main.WaitTest? || s.main.WaitRelease? || s.main.Gone?
    ensures ComesToOpen(s, run) || (Exec(s, run, true).state.closed == 1 && !Exec(s, run, true).state.main.Blocked?)
    decreases |run|
  {
    if run != [] {
      var next := Step(s, run[0], true);
      if !next.main.Opening? {
        CloseIsSeen(next, run[1..]);
      }
    }
  }

  /** A spurious wakeup on an open channel ends in the same sleep; on a closed one main goes on to reopen. */
  lemma SpuriousWakeup(s: State)
    requires s.main.Blocked? && s.owner.Free? && 0 <= s.closed <= 1
    ensures Exec(s, [Spurious, Main, Main, Main], true) == At(if s.closed == 0 then s else s.(main := Opening))
  {
    var woken := s.(main := WaitAcquire);
    var run: seq<Action> := [Spurious, Main, Main, Main];
    assert run[1..] == [Main, Main, Main];
    if s.closed == 1 {
      ThreeMains(woken);
    } else {
      BackToSleep(woken);
    }
  }

  lemma BackToSleep(s: State)
    requires s.main.WaitAcquire? && s.closed == 0 && s.owner.Free?
    ensures Exec(s, [Main, Main, Main], true) == At(s.(main := Blocked))
  {
    var a: seq<Action>, b: seq<Action>, c: seq<Action> := [Main], [Main, Main], [Main, Main, Main];
    assert a[1..] == [] && b[1..] == a && c[1..] == b;
    var s1 := MainStep(s);
    var s2 := MainStep(s1);
    assert Exec(s2, a, true) == At(s.(main := Blocked));
    assert Exec(s1, b, true) == Exec(s2, a, true);
  }

  /** When the channel cannot be opened main is gone in every run that follows. */
  lemma FailedOpenEnds(s: State, run: seq<Action>)
    requires Enabled(s, OpenFails) && Exec(Step(s, OpenFails, true), run, true).At?
    ensures Exec(Step(s, OpenFails, true), run, true).state.main.Gone?
  {
    GoneForEver(Step(s, OpenFails, true), run);
  }

  lemma {:induction false} GoneForEver(s: State, run: seq<Action>)
    requires s.main.Gone? && Exec(s, run, true).At?
    ensures Exec(s, run, true).state.main.Gone?
    decreases |run|
  {
    if run != [] {
      GoneForEver(Step(s, run[0], true), run[1..]);
    }
  }

  // ---------------------------------------------------------------- why the code is as it is

  lemma ReachStep(s: State, a: Action, always: bool) returns (s': State)
    requires Reachable(s, always) && Enabled(s, a)
    ensures s' == Step(s, a, always) && Reachable(s', always)
  {
    var s0: State, run :| Init(s0) && Exec(s0, run, always) == At(s);
    ExecAppend(s0, run, a, always);
    s' := Step(s, a, always);
  }

  const START := State(0, Unavailable, Free, map[0 := Idle, 1 := Idle], Opening, 0)

  lemma StartReachable(always: bool)
    ensures Reachable(START, always)
  {
    assert Init(START) && Exec(START, [], always) == At(START);
  }

  lemma MainFallsAsleep(always: bool) returns (s: State)
    ensures Reachable(s, always) && s == START.(main := Blocked)
  {
    StartReachable(always);
    s := ReachStep(START, Main, always);
    s := ReachStep(s, Main, always);
    s := ReachStep(s, Main, always);
    s := ReachStep(s, Main, always);
    s := ReachStep(s, Main, always);
  }

  /** A close handler that finds the radio unavailable and does not look at s_closed skips the store. */
  lemma CloseSkipsStore(s: State) returns (s': State)
    requires Reachable(s, false) && s == START.(main := Blocked)
    ensures Reachable(s', false)
    ensures s' == s.(closed := 1, owner := HeldBy(0), workers := s.workers[0 := Release(Unavailable, true, Unavailable)])
  {
    s' := ReachStep(s, Close(0), false);
    s' := ReachStep(s', Work(0), false);
    s' := ReachStep(s', Work(0), false);
    s' := ReachStep(s', Work(0), false);
    s' := ReachStep(s', Work(0), false);
    s' := ReachStep(s', Work(0), false);
  }

  /** Without `|| s_closed > 0` in the broadcast guard a close that finds the radio already unavailable
      makes no broadcast: main sleeps on a closed channel while every worker is idle. */
  lemma BroadcastWhenUnchangedIsNeeded()
    ensures exists s: State :: Reachable(s, false) && s.main.Blocked? && s.closed == 1 &&
                               forall t <- s.workers :: s.workers[t].Idle?
  {
    var s := MainFallsAsleep(false);
    s := CloseSkipsStore(s);
    s := ReachStep(s, Work(0), false);
    s := ReachStep(s, Work(0), false);
    assert s.main.Blocked? && s.closed == 1 && forall t <- s.workers :: s.workers[t].Idle?;
  }

  /** The window the safety statement leaves open is real: a thread that read `s_closed` as 0 stores a live
      state after the close, while the close handler is still waiting for the mutex. */
  lemma LateLiveWriteHappens()
    ensures exists s: State :: Reachable(s, true) && s.closed == 1 && s.radio.On?
  {
    var s := MainFallsAsleep(true);
    s := ReachStep(s, Request(0, On), true);
    s := ReachStep(s, Work(0), true);
    s := ReachStep(s, Work(0), true);
    s := ReachStep(s, Work(0), true);
    s := ReachStep(s, Close(1), true);
    s := ReachStep(s, Work(1), true);
    s := ReachStep(s, Work(0), true);
    s := ReachStep(s, Work(0), true);
    assert s.closed == 1 && s.radio.On?;
  }
}
