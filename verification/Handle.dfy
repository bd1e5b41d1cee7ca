/** The pause, resume and cancel handle: one shared state cell, one broadcast
    notifier, and any number of threads calling the operations at any time. Every
    atomic access is one step, so the steps of all calls interleave freely. */
module Handle {

  datatype Mode = Running | Paused | Cancelled

  /** Where a thread is inside its call. `seen` is the broadcast count a waiter's
      future was created at; a parked waiter wakes once the count has moved on. */
  datatype Thread =
    | Idle
    | Pausing
    | ResumeLoading
    | ResumeSwapping
    | ResumeNotifying
    | CancelStoring
    | CancelSettingToken
    | CancelNotifying
    | Waiting
    | Armed(seen: nat)
    | Reporting(seen: nat)
    | Parked(seen: nat)
    | Returned(ok: bool)

  datatype Call = CallPause | CallResume | CallCancel | CallWait

  datatype State = State(mode: Mode, token: bool, broadcasts: nat, threads: seq<Thread>)

  /** `Enter` begins a call on a thread that is in none, `Spawn` adds a thread and
      `Advance` takes the next atomic step of a call. */
  datatype Step = Spawn | Enter(t: nat, call: Call) | Advance(t: nat)

  ghost function Start(): State {
    State(Running, false, 0, [])
  }

  function First(call: Call): Thread {
    match call
    case CallPause => Pausing
    case CallResume => ResumeLoading
    case CallCancel => CancelStoring
    case CallWait => Waiting
  }

  ghost predicate Enabled(s: State, step: Step) {
    match step
    case Spawn => true
    case Enter(t, _) => t < |s.threads| && (s.threads[t].Idle? || s.threads[t].Returned?)
    case Advance(t) =>
      && t < |s.threads| && !s.threads[t].Idle? && !s.threads[t].Returned?
      && (s.threads[t].Parked? ==> s.threads[t].seen < s.broadcasts)
  }

  function At(s: State, t: nat, thread: Thread): State
    requires t < |s.threads|
  {
    s.(threads := s.threads[t := thread])
  }

  ghost function Move(s: State, t: nat): State
    requires Enabled(s, Advance(t))
  {
    match s.threads[t]
    case Pausing => At(if s.mode.Running? then s.(mode := Paused) else s, t, Idle)
    case ResumeLoading => At(s, t, if s.mode.Cancelled? then Idle else ResumeSwapping)
    case ResumeSwapping =>
      if s.mode.Paused? then At(s.(mode := Running), t, ResumeNotifying) else At(s, t, Idle)
    case ResumeNotifying => At(s.(broadcasts := s.broadcasts + 1), t, Idle)
    case CancelStoring => At(s.(mode := Cancelled), t, CancelSettingToken)
    case CancelSettingToken => At(s.(token := true), t, CancelNotifying)
    case CancelNotifying => At(s.(broadcasts := s.broadcasts + 1), t, Idle)
    case Waiting => At(s, t, Armed(s.broadcasts))
    case Armed(seen) =>
      (match s.mode
       case Running => At(s, t, Returned(true))
       case Cancelled => At(s, t, Returned(false))
       case Paused => At(s, t, Reporting(seen)))
    case Reporting(seen) => At(s, t, Parked(seen))
    case Parked(_) => At(s, t, Waiting)
    case Idle => s
    case Returned(_) => s
  }

  ghost function Apply(s: State, step: Step): State
    requires Enabled(s, step)
  {
    match step
    case Spawn => s.(threads := s.threads + [Idle])
    case Enter(t, call) => At(s, t, First(call))
    case Advance(t) => Move(s, t)
  }

  ghost predicate IsRun(run: seq<State>, steps: seq<Step>) {
    && |run| == |steps| + 1 && run[0] == Start()
    && forall x :: 0 <= x < |steps| ==> Enabled(run[x], steps[x]) && run[x + 1] == Apply(run[x], steps[x])
  }

  // ---------------------------------------------------------------------------
  // The invariant
  // ---------------------------------------------------------------------------

  /** Between a change of state and the broadcast that announces it. */
  predicate Announces(thread: Thread) {
    thread.ResumeNotifying? || thread.CancelSettingToken? || thread.CancelNotifying?
  }

  ghost predicate BroadcastDue(s: State) {
    exists t :: 0 <= t < |s.threads| && Announces(s.threads[t])
  }

  predicate SawPause(thread: Thread) {
    thread.Reporting? || thread.Parked?
  }

  predicate CancelUnderWay(thread: Thread) {
    thread.CancelSettingToken? || thread.CancelNotifying?
  }

  ghost predicate Sound(s: State) {
    && (forall t :: 0 <= t < |s.threads| && (s.threads[t].Armed? || SawPause(s.threads[t])) ==>
          s.threads[t].seen <= s.broadcasts)
    && (forall t :: 0 <= t < |s.threads| && SawPause(s.threads[t]) && s.threads[t].seen == s.broadcasts ==>
          s.mode.Paused? || BroadcastDue(s))
    && (s.token ==> s.mode.Cancelled?)
    && (forall t :: 0 <= t < |s.threads| && CancelUnderWay(s.threads[t]) ==> s.mode.Cancelled?)
    && (s.mode.Cancelled? && !s.token ==> exists t :: 0 <= t < |s.threads| && s.threads[t].CancelSettingToken?)
    && (forall t :: 0 <= t < |s.threads| && s.threads[t] == Returned(false) ==> s.mode.Cancelled?)
  }

  lemma {:induction false} DueElsewhere(s: State, s': State, t: nat)
    requires t < |s.threads| == |s'.threads| && s'.threads == s.threads[t := s'.threads[t]]
    requires BroadcastDue(s) && (Announces(s.threads[t]) ==> Announces(s'.threads[t]))
    ensures BroadcastDue(s')
  {
    var x :| 0 <= x < |s.threads| && Announces(s.threads[x]);
    assert Announces(s'.threads[x]);
  }

  lemma {:induction false} TokenElsewhere(s: State, s': State, t: nat)
    requires t < |s.threads| == |s'.threads| && s'.threads == s.threads[t := s'.threads[t]]
    requires !s.threads[t].CancelSettingToken?
    requires exists x :: 0 <= x < |s.threads| && s.threads[x].CancelSettingToken?
    ensures exists x :: 0 <= x < |s'.threads| && s'.threads[x].CancelSettingToken?
  {
    var x :| 0 <= x < |s.threads| && s.threads[x].CancelSettingToken?;
    assert s'.threads[x].CancelSettingToken?;
  }

  lemma {:induction false} MoveKeepsSound(s: State, t: nat)
    requires Sound(s) && Enabled(s, Advance(t))
    ensures Sound(Move(s, t))
  {
    var s' := Move(s, t);
    assert s'.threads == s.threads[t := s'.threads[t]];
    if Announces(s'.threads[t]) {
      assert BroadcastDue(s');
    } else if BroadcastDue(s) && !Announces(s.threads[t]) {
      DueElsewhere(s, s', t);
    }
    if s'.threads[t].CancelSettingToken? {
    } else if s'.mode.Cancelled? && !s'.token {
      TokenElsewhere(s, s', t);
    }
  }

  lemma {:induction false} StepKeepsSound(s: State, step: Step)
    requires Sound(s) && Enabled(s, step)
    ensures Sound(Apply(s, step))
  {
    var s' := Apply(s, step);
    match step
    case Advance(t) => MoveKeepsSound(s, t);
    case Enter(t, call) =>
      if BroadcastDue(s) {
        DueElsewhere(s, s', t);
      }
      if s.mode.Cancelled? && !s.token {
        TokenElsewhere(s, s', t);
      }
    case Spawn =>
      if BroadcastDue(s) {
        var x :| 0 <= x < |s.threads| && Announces(s.threads[x]);
        assert Announces(s'.threads[x]);
      }
      if s.mode.Cancelled? && !s.token {
        var x :| 0 <= x < |s.threads| && s.threads[x].CancelSettingToken?;
        assert s'.threads[x].CancelSettingToken?;
      }
  }

  lemma {:induction false} RunKeepsSound(run: seq<State>, steps: seq<Step>)
    requires IsRun(run, steps)
    ensures Sound(run[|steps|])
  {
    if steps != [] {
      var n := |steps| - 1;
      RunKeepsSound(run[..n + 1], steps[..n]);
      StepKeepsSound(run[n], steps[n]);
    }
  }

  // ---------------------------------------------------------------------------
  // Main results
  // ---------------------------------------------------------------------------

  /** No wakeup is lost: a parked waiter that no broadcast has reached is right to
      sleep, or some thread is about to broadcast. */
  lemma {:induction false} NoLostWakeup(run: seq<State>, steps: seq<Step>, t: nat)
    requires IsRun(run, steps) && t < |run[|steps|].threads| && run[|steps|].threads[t].Parked?
    ensures Enabled(run[|steps|], Advance(t)) || run[|steps|].mode.Paused? || BroadcastDue(run[|steps|])
  {
    RunKeepsSound(run, steps);
  }

  /** Cancellation is absorbing. */
  lemma {:induction false} CancelledForEver(run: seq<State>, steps: seq<Step>, x: nat, y: nat)
    requires IsRun(run, steps) && x <= y < |run| && run[x].mode.Cancelled?
    ensures run[y].mode.Cancelled?
  {
    if x < y {
      CancelledForEver(run, steps, x, y - 1);
      assert run[y - 1 + 1] == Apply(run[y - 1], steps[y - 1]);
    }
  }

  ghost predicate DecidedAt(run: seq<State>, steps: seq<Step>, x: nat, t: nat) {
    x < |steps| && |run| == |steps| + 1 && steps[x] == Advance(t) && t < |run[x].threads| && run[x].threads[t].Armed?
  }

  /** The answer of a finished wait goes back to one moment of that very wait: the state was
      Running then if the answer was to go on and Cancelled if not, the answer has stood since,
      and after a cancelled answer the state is Cancelled for ever. */
  lemma {:induction false} ReturnsTellTheTruth(run: seq<State>, steps: seq<Step>, y: nat, t: nat) returns (x: nat)
    requires IsRun(run, steps) && y < |run| && t < |run[y].threads| && run[y].threads[t].Returned?
    ensures x < y && DecidedAt(run, steps, x, t)
    ensures run[x].mode == if run[y].threads[t].ok then Running else Cancelled
    ensures forall z :: x < z <= y ==> t < |run[z].threads| && run[z].threads[t] == run[y].threads[t]
    ensures !run[y].threads[t].ok ==> forall z :: x <= z < |run| ==> run[z].mode.Cancelled?
  {
    x := y - 1;
    assert run[x + 1] == Apply(run[x], steps[x]);
    if steps[x] != Advance(t) {
      x := ReturnsTellTheTruth(run, steps, x, t);
    } else if !run[y].threads[t].ok {
      forall z | x <= z < |run| ensures run[z].mode.Cancelled? {
        CancelledForEver(run, steps, x, z);
      }
    }
  }

  /** The token is set only under cancellation, and a finished cancellation has set it. */
  lemma {:induction false} TokenFollowsState(run: seq<State>, steps: seq<Step>)
    requires IsRun(run, steps)
    ensures var s := run[|steps|];
            && (s.token ==> s.mode.Cancelled?)
            && (s.mode.Cancelled? && (forall t :: 0 <= t < |s.threads| ==> !s.threads[t].CancelSettingToken?) ==> s.token)
  {
    RunKeepsSound(run, steps);
  }

  // ---------------------------------------------------------------------------
  // Waking up
  // ---------------------------------------------------------------------------

  /** Atomic steps a thread still has to take, when nothing pauses again. */
  function Rank(thread: Thread): nat {
    match thread
    case Idle => 0
    case Returned(_) => 0
    case Pausing => 1
    case ResumeLoading => 3
    case ResumeSwapping => 2
    case ResumeNotifying => 1
    case CancelStoring => 3
    case CancelSettingToken => 2
    case CancelNotifying => 1
    case Armed(_) => 1
    case Waiting => 2
    case Parked(_) => 3
    case Reporting(_) => 4
  }

  function Ranks(threads: seq<Thread>): nat {
    if threads == [] then 0 else Ranks(threads[..|threads| - 1]) + Rank(threads[|threads| - 1])
  }

  lemma {:induction false} RanksUpdate(threads: seq<Thread>, t: nat, thread: Thread)
    requires t < |threads|
    ensures Ranks(threads[t := thread]) == Ranks(threads) - Rank(threads[t]) + Rank(thread)
  {
    var n := |threads| - 1;
    if t < n {
      RanksUpdate(threads[..n], t, thread);
      assert threads[t := thread][..n] == threads[..n][t := thread];
    } else {
      assert threads[t := thread][..n] == threads[..n];
    }
  }

  /** Not paused, and no call to pause is under way. */
  ghost predicate Released(s: State) {
    Sound(s) && !s.mode.Paused? && forall t :: 0 <= t < |s.threads| ==> !s.threads[t].Pausing?
  }

  ghost predicate Advances(s: State, s': State) {
    exists t: nat :: Enabled(s, Advance(t)) && s' == Move(s, t)
  }

  lemma {:induction false} MoveDescends(s: State, t: nat)
    requires Enabled(s, Advance(t)) && !s.mode.Paused? && !s.threads[t].Pausing?
    ensures var s' := Move(s, t);
            && s'.threads == s.threads[t := s'.threads[t]]
            && !s'.mode.Paused? && !s'.threads[t].Pausing? && Rank(s'.threads[t]) < Rank(s.threads[t])
  {
  }

  lemma {:induction false} AdvanceDescends(s: State, s': State)
    requires Released(s) && Advances(s, s')
    ensures Released(s') && Ranks(s'.threads) < Ranks(s.threads)
  {
    hide Move, Sound;
    var t: nat :| Enabled(s, Advance(t)) && s' == Move(s, t);
    MoveKeepsSound(s, t);
    MoveDescends(s, t);
    RanksUpdate(s.threads, t, s'.threads[t]);
  }

  lemma {:induction false} ParkedIsNotAlone(s: State, t: nat)
    requires Released(s) && t < |s.threads| && s.threads[t].Parked?
    ensures exists x: nat :: Enabled(s, Advance(x))
  {
    if s.threads[t].seen < s.broadcasts {
      assert Enabled(s, Advance(t));
    } else {
      assert SawPause(s.threads[t]);
      var x :| 0 <= x < |s.threads| && Announces(s.threads[x]);
      assert Enabled(s, Advance(x));
    }
  }

  /** In a released state a waiter is never stuck: if no thread can advance, every
      wait has returned. */
  lemma {:induction false} StuckMeansReturned(s: State)
    requires Released(s) && forall t: nat :: !Enabled(s, Advance(t))
    ensures forall t :: 0 <= t < |s.threads| ==> s.threads[t].Idle? || s.threads[t].Returned?
  {
    forall t | 0 <= t < |s.threads| ensures s.threads[t].Idle? || s.threads[t].Returned? {
      assert !Enabled(s, Advance(t));
      if s.threads[t].Parked? {
        ParkedIsNotAlone(s, t);
      }
    }
  }

  /** Inside a wait. */
  predicate InWait(thread: Thread) {
    thread.Waiting? || thread.Armed? || thread.Reporting? || thread.Parked?
  }

  /** A wait under way goes on until it returns, and stays returned. */
  ghost predicate WaitsGoOn(s: State, s': State) {
    |s'.threads| == |s.threads| &&
    forall w :: 0 <= w < |s.threads| && (InWait(s.threads[w]) || s.threads[w].Returned?) ==>
      InWait(s'.threads[w]) || s'.threads[w].Returned?
  }

  lemma {:induction false} WaitsGoOnByOne(s: State, s': State)
    requires Advances(s, s')
    ensures WaitsGoOn(s, s')
  {
  }

  lemma {:induction false} CallsEnd(run: nat -> State, n: nat) returns (end: nat)
    requires Released(run(n))
    ensures n <= end && !Advances(run(end), run(end + 1)) && Released(run(end)) && WaitsGoOn(run(n), run(end))
    decreases Ranks(run(n).threads)
  {
    hide Released, Ranks;
    if Advances(run(n), run(n + 1)) {
      AdvanceDescends(run(n), run(n + 1));
      WaitsGoOnByOne(run(n), run(n + 1));
      hide Advances;
      end := CallsEnd(run, n + 1);
    } else {
      end := n;
    }
  }

  /** However the calls under way are scheduled, after the last resume or cancel they come to
      rest, and then every waiter has returned, with leave to go on unless the download is
      cancelled. */
  lemma {:induction false} EveryWaiterReturns(run: nat -> State, n: nat) returns (end: nat)
    requires Released(run(n))
    ensures n <= end && !Advances(run(end), run(end + 1))
    ensures (forall t: nat :: !Enabled(run(end), Advance(t))) ==>
              forall t :: 0 <= t < |run(end).threads| ==> run(end).threads[t].Idle? || run(end).threads[t].Returned?
    ensures (forall t: nat :: !Enabled(run(end), Advance(t))) ==>
              forall w :: 0 <= w < |run(n).threads| && InWait(run(n).threads[w]) ==>
                w < |run(end).threads| && run(end).threads[w].Returned? && (run(end).threads[w].ok || run(end).mode.Cancelled?)
  {
    end := CallsEnd(run, n);
    if forall t: nat :: !Enabled(run(end), Advance(t)) {
      StuckMeansReturned(run(end));
    }
    hide Advances, Enabled;
  }

  /** A resume that makes its exchange on Paused leaves Running and owes a broadcast; on any
      other state it changes nothing. */
  lemma {:induction false} ResumeExchanges(s: State, r: nat)
    requires r < |s.threads| && s.threads[r] == ResumeSwapping
    ensures Enabled(s, Advance(r))
    ensures var s' := Apply(s, Advance(r));
            && s'.mode == (if s.mode == Paused then Running else s.mode)
            && s'.threads == s.threads[r := if s.mode == Paused then ResumeNotifying else Idle]
            && s'.broadcasts == s.broadcasts && s'.token == s.token
  {
  }

  /** Once a resume has made its exchange on Paused, and nothing pauses again, every waiter that
      was in its wait returns, with leave to go on unless the download is cancelled. */
  lemma {:induction false} ResumedWaitersReturn(prefix: seq<State>, steps: seq<Step>, r: nat, run: nat -> State) returns (end: nat)
    requires IsRun(prefix, steps) && run(0) == prefix[|steps|]
    requires run(0).mode == Paused && forall t :: 0 <= t < |run(0).threads| ==> run(0).threads[t] != Pausing
    requires r < |run(0).threads| && run(0).threads[r] == ResumeSwapping && run(1) == Apply(run(0), Advance(r))
    ensures run(1).mode == Running
    ensures 1 <= end && !Advances(run(end), run(end + 1))
    ensures (forall t: nat :: !Enabled(run(end), Advance(t))) ==>
              forall w :: 0 <= w < |run(0).threads| && InWait(run(0).threads[w]) ==>
                w < |run(end).threads| && run(end).threads[w].Returned? && (run(end).threads[w].ok || run(end).mode.Cancelled?)
  {
    RunKeepsSound(prefix, steps);
    ResumeExchanges(run(0), r);
    MoveKeepsSound(run(0), r);
    assert run(1).threads == run(0).threads[r := ResumeNotifying];
    assert forall w :: 0 <= w < |run(0).threads| && InWait(run(0).threads[w]) ==> InWait(run(1).threads[w]);
    hide Sound, Move, IsRun;
    end := EveryWaiterReturns(run, 1);
  }

  // ---------------------------------------------------------------------------
  // Sleeping
  // ---------------------------------------------------------------------------

  /** Paused, and no call is under way but waits. */
  ghost predicate AtPause(s: State) {
    && s.mode.Paused?
    && forall t :: 0 <= t < |s.threads| ==>
         && (s.threads[t].Idle? || s.threads[t].Returned? || InWait(s.threads[t]))
         && (s.threads[t].Armed? || SawPause(s.threads[t]) ==> s.threads[t].seen <= s.broadcasts)
  }

  /** Atomic steps a thread still has to take until it sleeps. */
  function Restlessness(thread: Thread, broadcasts: nat): nat {
    match thread
    case Waiting => 3
    case Armed(seen) => if seen < broadcasts then 6 else 2
    case Reporting(seen) => if seen < broadcasts then 5 else 1
    case Parked(seen) => if seen < broadcasts then 4 else 0
    case _ => 0
  }

  function TotalRestlessness(threads: seq<Thread>, broadcasts: nat): nat {
    if threads == [] then 0
    else TotalRestlessness(threads[..|threads| - 1], broadcasts) + Restlessness(threads[|threads| - 1], broadcasts)
  }

  lemma {:induction false} RestlessnessUpdate(threads: seq<Thread>, broadcasts: nat, t: nat, thread: Thread)
    requires t < |threads|
    ensures TotalRestlessness(threads[t := thread], broadcasts) ==
            TotalRestlessness(threads, broadcasts) - Restlessness(threads[t], broadcasts) + Restlessness(thread, broadcasts)
  {
    var n := |threads| - 1;
    if t < n {
      RestlessnessUpdate(threads[..n], broadcasts, t, thread);
      assert threads[t := thread][..n] == threads[..n][t := thread];
    } else {
      assert threads[t := thread][..n] == threads[..n];
    }
  }

  lemma {:induction false} OneCalms(s: State, t: nat)
    requires AtPause(s) && Enabled(s, Advance(t))
    ensures var s' := Move(s, t);
            && s'.mode == s.mode && s'.broadcasts == s.broadcasts && s'.threads == s.threads[t := s'.threads[t]]
            && InWait(s'.threads[t]) && (s'.threads[t].Armed? || SawPause(s'.threads[t]) ==> s'.threads[t].seen <= s.broadcasts)
            && Restlessness(s'.threads[t], s.broadcasts) < Restlessness(s.threads[t], s.broadcasts)
  {
  }

  lemma {:induction false} MoveCalms(s: State, s': State)
    requires AtPause(s) && Advances(s, s')
    ensures AtPause(s') && s'.broadcasts == s.broadcasts
    ensures TotalRestlessness(s'.threads, s.broadcasts) < TotalRestlessness(s.threads, s.broadcasts)
  {
    var t: nat :| Enabled(s, Advance(t)) && s' == Move(s, t);
    OneCalms(s, t);
    RestlessnessUpdate(s.threads, s.broadcasts, t, s'.threads[t]);
    hide Move, Enabled, Restlessness, TotalRestlessness;
  }

  lemma {:induction false} WaitsCalm(run: nat -> State, n: nat) returns (end: nat)
    requires AtPause(run(n))
    ensures n <= end && !Advances(run(end), run(end + 1)) && AtPause(run(end)) && WaitsGoOn(run(n), run(end))
    decreases TotalRestlessness(run(n).threads, run(n).broadcasts)
  {
    hide AtPause, TotalRestlessness;
    if Advances(run(n), run(n + 1)) {
      MoveCalms(run(n), run(n + 1));
      WaitsGoOnByOne(run(n), run(n + 1));
      hide Advances;
      end := WaitsCalm(run, n + 1);
    } else {
      end := n;
    }
  }

  lemma {:induction false} StuckMeansAsleep(s: State, t: nat)
    requires AtPause(s) && t < |s.threads| && InWait(s.threads[t]) && !Enabled(s, Advance(t))
    ensures s.threads[t] == Parked(s.broadcasts)
  {
  }

  /** While the download stays paused waiters do not spin: under every schedule they come to
      rest, and then every waiter sleeps and has seen every broadcast. */
  lemma {:induction false} WaitersSleepWhilePaused(run: nat -> State, n: nat) returns (end: nat)
    requires AtPause(run(n))
    ensures n <= end && !Advances(run(end), run(end + 1))
    ensures (forall t: nat :: !Enabled(run(end), Advance(t))) ==>
              forall t :: 0 <= t < |run(end).threads| && InWait(run(end).threads[t]) ==>
                run(end).threads[t] == Parked(run(end).broadcasts)
  {
    end := WaitsCalm(run, n);
    if forall t: nat :: !Enabled(run(end), Advance(t)) {
      forall t: nat | t < |run(end).threads| && InWait(run(end).threads[t])
        ensures run(end).threads[t] == Parked(run(end).broadcasts)
      {
        StuckMeansAsleep(run(end), t);
      }
    }
    hide AtPause, Enabled, Advances;
  }

  // ---------------------------------------------------------------------------
  // What can happen
  // ---------------------------------------------------------------------------

  ghost predicate Reachable(s: State) {
    exists run, steps :: IsRun(run, steps) && run[|steps|] == s
  }

  lemma {:induction false} StepIsReachable(s: State, step: Step)
    requires Reachable(s) && Enabled(s, step)
    ensures Reachable(Apply(s, step))
  {
    hide Enabled, Apply;
    var run, steps :| IsRun(run, steps) && run[|steps|] == s;
    assert IsRun(run + [Apply(s, step)], steps + [step]);
  }

  function Beginning(call: Call): Thread {
    if call == CallPause then Pausing
    else if call == CallResume then ResumeLoading
    else if call == CallCancel then CancelStoring
    else Waiting
  }

  /** One thread more, which has waited once already and now makes this call. */
  lemma {:induction false} OneMoreCaller(s: State, call: Call) returns (s': State)
    requires Reachable(s) && s.mode == Running
    ensures Reachable(s') && s' == s.(threads := s.threads + [Beginning(call)])
  {
    var t := |s.threads|;
    StepIsReachable(s, Spawn);
    s' := Apply(s, Spawn);
    StepIsReachable(s', Enter(t, CallWait));
    s' := Apply(s', Enter(t, CallWait));
    StepIsReachable(s', Advance(t));
    s' := Apply(s', Advance(t));
    StepIsReachable(s', Advance(t));
    s' := Apply(s', Advance(t));
    assert s'.threads[t] == Returned(true);
    StepIsReachable(s', Enter(t, call));
    s' := Apply(s', Enter(t, call));
    hide Reachable;
  }

  /** Any calls can be under way at once, on threads that have waited before. */
  lemma {:induction false} AnyCallsCanMeet(calls: seq<Call>) returns (s: State)
    ensures Reachable(s) && s.mode == Running && !s.token && s.broadcasts == 0
    ensures |s.threads| == |calls| && forall t :: 0 <= t < |calls| ==> s.threads[t] == Beginning(calls[t])
  {
    if calls == [] {
      s := Start();
      assert IsRun([s], []);
    } else {
      var s0 := AnyCallsCanMeet(calls[..|calls| - 1]);
      s := OneMoreCaller(s0, calls[|calls| - 1]);
      hide Reachable, Beginning;
    }
  }

  // ---------------------------------------------------------------------------
  // The operations
  // ---------------------------------------------------------------------------

  const STATE_RUNNING := 0
  const STATE_PAUSED := 1
  const STATE_CANCELLED := 3

  /** A snapshot of the raw cell; a value that no operation stores counts as cancelled. */
  function ModeOf(raw: nat): Mode {
    if raw == STATE_RUNNING then Running else if raw == STATE_PAUSED then Paused else Cancelled
  }

  /** Inside a call to pause, resume or cancel, or past it. */
  predicate InControl(thread: Thread) {
    thread.Idle? || thread.Pausing? || thread.ResumeLoading? || thread.ResumeSwapping? || thread.ResumeNotifying? ||
    thread.CancelStoring? || thread.CancelSettingToken? || thread.CancelNotifying?
  }

  /** The rest of a control call, when nothing interferes with it. */
  ghost function CallToEnd(s: State, t: nat): State
    requires t < |s.threads| && InControl(s.threads[t])
    decreases Rank(s.threads[t])
  {
    if s.threads[t].Idle? then s else CallToEnd(Move(s, t), t)
  }

  class DownloadHandle {
    var state: nat
    var token: bool
    var broadcasts: nat

    ghost predicate Valid()
      reads this
    {
      state == STATE_RUNNING || state == STATE_PAUSED || state == STATE_CANCELLED
    }

    ghost predicate Holds(s: State)
      reads this
    {
      Valid() && s.mode == ModeOf(state) && s.token == token && s.broadcasts == broadcasts
    }

    constructor ()
      ensures Holds(Start())
      ensures state == 0 && !token && broadcasts == 0
    {
      state, token, broadcasts := STATE_RUNNING, false, 0;
    }

    /** The snapshot is the mode of the protocol's state. */
    method GetState(ghost s: State) returns (mode: Mode)
      requires Holds(s)
      ensures mode == s.mode
      ensures mode == if state == 0 then Running else if state == 1 then Paused else Cancelled
    {
      if state == STATE_RUNNING {
        mode := Running;
      } else if state == STATE_PAUSED {
        mode := Paused;
      } else {
        mode := Cancelled;
      }
    }

    /** Swap Running for Paused. The exchange fails only on another state, and then
        the call gives up, so its retry loop never goes round. */
    method Pause(ghost s: State, ghost t: nat)
      requires Holds(s) && t < |s.threads| && s.threads[t] == Pausing
      modifies this
      ensures Holds(CallToEnd(s, t))
      ensures state == if old(state) == 0 then 1 else old(state)
      ensures token == old(token) && broadcasts == old(broadcasts)
    {
      assert CallToEnd(s, t) == Move(s, t);
      if state == STATE_RUNNING {
        state := STATE_PAUSED;
      }
    }

    /** Swap Paused for Running and broadcast only if the swap was made. */
    method Resume(ghost s: State, ghost t: nat)
      requires Holds(s) && t < |s.threads| && s.threads[t] == ResumeLoading
      modifies this
      ensures Holds(CallToEnd(s, t))
      ensures state == if old(state) == 1 then 0 else old(state)
      ensures broadcasts == old(broadcasts) + if old(state) == 1 then 1 else 0
      ensures token == old(token)
    {
      ghost var loaded := Move(s, t);
      assert CallToEnd(s, t) == CallToEnd(loaded, t);
      if state == STATE_CANCELLED {
        return;
      }
      ghost var swapped := Move(loaded, t);
      assert CallToEnd(loaded, t) == CallToEnd(swapped, t);
      assert swapped.threads[t].ResumeNotifying? ==> CallToEnd(swapped, t) == Move(swapped, t);
      if state == STATE_PAUSED {
        state := STATE_RUNNING;
        broadcasts := broadcasts + 1;
      }
    }

    /** Store the end state, set the token, and broadcast, whatever the state was. */
    method Cancel(ghost s: State, ghost t: nat)
      requires Holds(s) && t < |s.threads| && s.threads[t] == CancelStoring
      modifies this
      ensures Holds(CallToEnd(s, t))
      ensures state == 3 && token && broadcasts == old(broadcasts) + 1
    {
      ghost var stored := Move(s, t);
      ghost var tokened := Move(stored, t);
      assert CallToEnd(s, t) == CallToEnd(stored, t) == CallToEnd(tokened, t) == Move(tokened, t);
      state := STATE_CANCELLED;
      token := true;
      broadcasts := broadcasts + 1;
    }
  }
}
