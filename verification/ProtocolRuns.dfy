/** Which runs exist: every run ends, a run that cannot go on has finished, and two
    guarantees hold for exactly the jobs named here because every other job has a
    run that breaks them. */
module ProtocolRuns {
  import opened Manifest
  import opened Plan
  import opened Protocol
  import opened ProtocolFlow
  import opened ProtocolRefs

  // ---------------------------------------------------------------------------
  // Building runs
  // ---------------------------------------------------------------------------

  lemma {:induction false} StartIsReachable(j: Job)
    ensures Reachable(j, Start(j))
  {
    assert IsRun(j, [Start(j)], []);
  }

  lemma {:induction false} StepIsReachable(j: Job, s: State, step: Step)
    requires Reachable(j, s) && Enabled(j, s, step)
    ensures Reachable(j, Apply(j, s, step))
  {
    var run, steps :| IsRun(j, run, steps) && run[|steps|] == s;
    assert IsRun(j, run + [Apply(j, s, step)], steps + [step]);
  }

  lemma {:induction false} ReachableIsTracked(j: Job, s: State)
    requires GoodJob(j) && Reachable(j, s)
    ensures Tracked(j, s)
  {
    var run, steps :| IsRun(j, run, steps) && run[|steps|] == s;
    RunKeepsTracked(j, run, steps);
  }

  /** Downloads have run but no task has claimed its file yet. */
  ghost predicate Front(j: Job, s: State) {
    && Reachable(j, s) && |s.flags| == |j.rows| == |j.seeds|
    && (forall t :: 0 <= t < |s.tasks| ==> s.tasks[t].phase.Spawned?)
    && (forall i :: 0 <= i < |s.pc| ==> s.pc[i] != Errored)
    && s.released == {} && s.skipped == {} && s.refs == j.refcounts
    && (forall f: nat :: f < |j.rows| && s.flags[f] != j.seeds[f] ==> EagerFile(j, f))
  }

  lemma {:induction false} FrontStep(j: Job, s: State, step: Step)
    requires GoodJob(j) && Front(j, s) && Enabled(j, s, step)
    requires step.Fetch? || step.Notify? || step.CountEager? || step.Receive?
    ensures Front(j, Apply(j, s, step))
  {
    StepIsReachable(j, s, step);
    if step.Notify? {
      var e := j.entries[step.i][s.pc[step.i].k];
      assert IsEntry(j, step.i, s.pc[step.i].k);
      assert j.eager[step.i] ==> j.slots[e.pending] == e.file && j.slotEager[e.pending];
    }
  }

  /** Take item `i` through the rest of its entries. */
  lemma {:induction false} NotifyThrough(j: Job, s: State, i: nat) returns (s': State)
    requires GoodJob(j) && Front(j, s) && i < |s.pc| && !s.pc[i].Waiting? && !s.pc[i].Errored?
    ensures Front(j, s') && |s'.pc| == |s.pc| == |j.entries| && s'.tasks == s.tasks
    ensures s'.pc == s.pc[i := Notifying(|j.entries[i]|)]
    decreases (if |s.pc| == |j.entries| then |j.entries[i]| else 0) - Cursor(s.pc[i]), s.pc[i].Completing?
  {
    ReachableIsTracked(j, s);
    hide Reachable, PendingExact, SentExact, CountedExact, TasksFromMessages, CompletingSound, EagerFile, Consumers;
    if s.pc[i].Completing? {
      FrontStep(j, s, CountEager(i));
      s' := NotifyThrough(j, Apply(j, s, CountEager(i)), i);
    } else if s.pc[i].k < |j.entries[i]| {
      var e := j.entries[i][s.pc[i].k];
      assert IsEntry(j, i, s.pc[i].k);
      assert e.file in j.slots;
      FrontStep(j, s, Notify(i));
      s' := NotifyThrough(j, Apply(j, s, Notify(i)), i);
    } else {
      s' := s;
    }
  }

  lemma {:induction false} DownloadFirst(j: Job, n: nat) returns (s: State)
    requires GoodJob(j) && n <= |j.entries|
    ensures Front(j, s) && |s.pc| == |j.entries|
    ensures forall i :: 0 <= i < |s.pc| ==> s.pc[i] == if i < n then Notifying(|j.entries[i]|) else Waiting
  {
    if n == 0 {
      s := Start(j);
      StartIsReachable(j);
    } else {
      var s0 := DownloadFirst(j, n - 1);
      FrontStep(j, s0, Fetch(n - 1));
      s := NotifyThrough(j, Apply(j, s0, Fetch(n - 1)), n - 1);
    }
  }

  lemma {:induction false} ReceiveFirst(j: Job, s: State, n: nat) returns (s': State)
    requires GoodJob(j) && Front(j, s) && |s.tasks| <= n <= |s.sent|
    ensures Front(j, s') && |s'.tasks| == n && s'.sent == s.sent
    decreases n - |s.tasks|
  {
    ReachableIsTracked(j, s);
    if |s.tasks| == n {
      s' := s;
    } else {
      FrontStep(j, s, Receive);
      s' := ReceiveFirst(j, Apply(j, s, Receive), n);
    }
  }

  /** Every open file on the assembly route can be brought to the point where its task
      is about to look at its flag. */
  lemma {:induction false} ReachSpawned(j: Job, f: nat) returns (s: State, t: nat)
    requires GoodJob(j) && f < |j.rows| && f !in j.completed && !EagerFile(j, f)
    ensures Front(j, s) && t < |s.tasks| && s.tasks[t] == Task(f, Spawned)
  {
    var s0 := DownloadFirst(j, |j.entries|);
    ReachableIsTracked(j, s0);
    assert f in s0.sent by {
      if f !in j.sent {
        var p :| 0 <= p < |j.slots| && j.slots[p] == f;
        assert Open(j, s0.pc, p) == {};
        assert Launched(j, s0, f);
      }
    }
    var at :| 0 <= at < |s0.sent| && s0.sent[at] == f;
    if at < |s0.tasks| {
      s, t := s0, at;
    } else {
      s := ReceiveFirst(j, s0, at + 1);
      t := at;
      ReachableIsTracked(j, s);
    }
  }

  // ---------------------------------------------------------------------------
  // Skipped files
  // ---------------------------------------------------------------------------

  /** No task ever skips a file because its flag was set before the task came to it. */
  ghost predicate NeverSkips(j: Job) {
    forall s :: Reachable(j, s) ==> s.skipped == {}
  }

  /** A flag taken over from an earlier session names a file that the resume scan found
      complete, or one whose flag the assembly tasks do not look at. */
  ghost predicate SeedsHonest(j: Job) {
    forall f: nat :: f < |j.rows| && f < |j.seeds| && j.seeds[f] ==> f in j.completed || EagerFile(j, f)
  }

  ghost predicate ClaimedByTask(s: State, f: nat) {
    exists t :: 0 <= t < |s.tasks| && s.tasks[t].file == f && !s.tasks[t].phase.Spawned?
  }

  ghost predicate FlagsExplained(j: Job, s: State) {
    && |s.flags| == |j.rows| && s.skipped == {}
    && forall f: nat :: f < |s.flags| && s.flags[f] ==> f in j.completed || EagerFile(j, f) || ClaimedByTask(s, f)
  }

  lemma {:induction false} StepKeepsFlags(j: Job, s: State, step: Step)
    requires Tracked(j, s) && FlagsExplained(j, s) && Enabled(j, s, step)
    ensures FlagsExplained(j, Apply(j, s, step))
  {
    var s' := Apply(j, s, step);
    if step.Notify? {
      var e := j.entries[step.i][s.pc[step.i].k];
      assert IsEntry(j, step.i, s.pc[step.i].k);
      assert j.eager[step.i] ==> j.slots[e.pending] == e.file && j.slotEager[e.pending];
      assert j.eager[step.i] ==> EagerFile(j, e.file);
    }
    if step.Claim? {
      ClaimFindsClearFlag(j, s, step.t);
      assert s'.tasks[step.t].file == s.tasks[step.t].file && !s'.tasks[step.t].phase.Spawned?;
    }
    forall f: nat | ClaimedByTask(s, f) ensures ClaimedByTask(s', f) {
      var t :| 0 <= t < |s.tasks| && s.tasks[t].file == f && !s.tasks[t].phase.Spawned?;
      TaskStaysClaimed(j, s, step, t);
    }
  }

  lemma {:induction false} TaskStaysClaimed(j: Job, s: State, step: Step, t: nat)
    requires Enabled(j, s, step) && t < |s.tasks| && !s.tasks[t].phase.Spawned?
    ensures var s' := Apply(j, s, step);
            t < |s'.tasks| && s'.tasks[t].file == s.tasks[t].file && !s'.tasks[t].phase.Spawned?
  {
  }

  lemma {:induction false} ClaimFindsClearFlag(j: Job, s: State, t: nat)
    requires Tracked(j, s) && FlagsExplained(j, s) && Enabled(j, s, Claim(t))
    ensures !s.flags[s.tasks[t].file]
  {
    var f := s.tasks[t].file;
    TaskFileIsOpen(j, s, t);
    forall x | 0 <= x < |s.tasks| && s.tasks[x].file == f ensures x == t {
      OneTaskPerFile(j, s, t, x);
    }
    assert !ClaimedByTask(s, f);
    assert Launched(j, s, f);
    assert !EagerFile(j, f) by {
      forall p: nat | p < |j.slots| && j.slots[p] == f ensures !j.slotEager[p] {
        LaunchedIsNotEager(j, s, f, p);
      }
    }
  }

  lemma {:induction false} RunKeepsFlags(j: Job, run: seq<State>, steps: seq<Step>)
    requires GoodJob(j) && SeedsHonest(j) && IsRun(j, run, steps)
    ensures FlagsExplained(j, run[|steps|])
  {
    if steps != [] {
      var n := |steps| - 1;
      RunKeepsTracked(j, run[..n + 1], steps[..n]);
      RunKeepsFlags(j, run[..n + 1], steps[..n]);
      StepKeepsFlags(j, run[n], steps[n]);
    }
  }

  /** A stale flag for an open file on the assembly route makes its task count the file
      without assembling it; with honest flags no file is ever skipped. */
  lemma {:induction false} NeverSkipsExactly(j: Job)
    requires GoodJob(j)
    ensures NeverSkips(j) <==> SeedsHonest(j)
  {
    if SeedsHonest(j) {
      forall s | Reachable(j, s) ensures s.skipped == {} {
        var run, steps :| IsRun(j, run, steps) && run[|steps|] == s;
        RunKeepsFlags(j, run, steps);
      }
    } else {
      var f: nat :| f < |j.rows| && j.seeds[f] && f !in j.completed && !EagerFile(j, f);
      var s, t := ReachSpawned(j, f);
      assert s.flags[f];
      StepIsReachable(j, s, Claim(t));
      assert f in Apply(j, s, Claim(t)).skipped;
    }
  }

  // ---------------------------------------------------------------------------
  // Exact counts
  // ---------------------------------------------------------------------------

  ghost predicate AlwaysExact(j: Job) {
    forall s :: Reachable(j, s) ==> RefsExact(j, s)
  }

  ghost function Lookup(j: Job, name: string): (at: Option<nat>)
    ensures Answers(j, name, at)
  {
    if name in j.names then
      var i :| 0 <= i < |j.names| && j.names[i] == name;
      Some(i)
    else None
  }

  /** A task that found its file valid is about to release every row from `x` on. */
  ghost predicate ReleasingFrom(j: Job, s: State, t: nat, x: nat) {
    && Reachable(j, s) && TaskIn(s, t, j) && s.tasks[t].phase.Releasing?
    && s.tasks[t].file !in j.completed
    && x <= |j.rows[s.tasks[t].file]|
    && s.tasks[t].phase.todo == AllRowsOf(j, s.tasks[t].file)[x..]
  }

  lemma {:induction false} ReachReleasing(j: Job, f: nat) returns (s: State, t: nat)
    requires GoodJob(j) && f < |j.rows| && f !in j.completed && !EagerFile(j, f)
    ensures ReleasingFrom(j, s, t, 0) && s.tasks[t].file == f
  {
    var s0;
    s0, t := ReachSpawned(j, f);
    StepIsReachable(j, s0, Claim(t));
    s := Apply(j, s0, Claim(t));
    assert AllRowsOf(j, f)[0..] == AllRowsOf(j, f);
    if !s0.flags[f] {
      StepIsReachable(j, s, FindValid(t));
      s := Apply(j, s, FindValid(t));
    }
  }

  /** Releasing a reused row whose name is registered takes one off a count that no
      release was owed for. */
  lemma {:induction false} ReleasingReusedBreaks(j: Job, s: State, t: nat, x: nat)
    requires GoodJob(j) && ReleasingFrom(j, s, t, x) && x < |j.rows[s.tasks[t].file]|
    requires var row := j.rows[s.tasks[t].file][x]; !row.downloaded && row.name in j.names
    ensures !AlwaysExact(j)
  {
    if RefsExact(j, s) {
      var f := s.tasks[t].file;
      var at := Lookup(j, j.rows[f][x].name);
      StepIsReachable(j, s, Release(t, at));
      var s' := Apply(j, s, Release(t, at));
      assert IsRow(j, f, x);
      ReusedRowsCountNowhere(j, s, s', (f, x), at.value);
      assert s'.refs[at.value] != s.refs[at.value];
    }
  }

  lemma {:induction false} ReleaseTowards(j: Job, s: State, t: nat, x: nat, c: nat)
    requires GoodJob(j) && ReleasingFrom(j, s, t, x)
    requires x <= c < |j.rows[s.tasks[t].file]|
    requires var row := j.rows[s.tasks[t].file][c]; !row.downloaded && row.name in j.names
    ensures !AlwaysExact(j)
    decreases c - x
  {
    if x == c {
      ReleasingReusedBreaks(j, s, t, x);
    } else {
      var at := Lookup(j, j.rows[s.tasks[t].file][x].name);
      ReachableIsTracked(j, s);
      StepIsReachable(j, s, Release(t, at));
      ReleaseTowards(j, Apply(j, s, Release(t, at)), t, x + 1, c);
    }
  }

  /** Reference counts stay exact in every run if and only if no open file has a reused
      row whose name is also downloaded. */
  lemma {:induction false} AlwaysExactExactly(j: Job)
    requires GoodJob(j) && Deduplicated(j)
    ensures AlwaysExact(j) <==> ReusedNamesApart(j)
  {
    if ReusedNamesApart(j) {
      forall s | Reachable(j, s) ensures RefsExact(j, s) {
        RefcountsAreExact(j, s);
      }
    } else {
      var f: nat, c: nat :| IsRow(j, f, c) && !j.rows[f][c].downloaded && j.rows[f][c].name in j.names;
      var s, t := ReachReleasing(j, f);
      ReleaseTowards(j, s, t, 0, c);
    }
  }

  // ---------------------------------------------------------------------------
  // Every run ends
  // ---------------------------------------------------------------------------

  ghost function WaitingItems(s: State): set<int> {
    set i | 0 <= i < |s.pc| && s.pc[i].Waiting?
  }

  ghost function CompletingItems(s: State): set<int> {
    set i | 0 <= i < |s.pc| && s.pc[i].Completing?
  }

  ghost function OpenEntries(j: Job, s: State): set<(nat, nat)>
    requires |s.pc| == |j.entries|
  {
    set i: nat, k: nat | i < |j.entries| && k < |j.entries[i]| && Cursor(s.pc[i]) <= k :: (i, k)
  }

  ghost function Work(j: Job, t: Task): nat {
    var rows := if t.file < |j.rows| then |j.rows[t.file]| else 0;
    match t.phase
    case Spawned => rows + 4
    case Deciding => rows + 3
    case Assembling => rows + 2
    case Releasing(todo, _) => |todo| + 1
    case _ => 0
  }

  ghost function TotalWork(j: Job, tasks: seq<Task>): nat {
    if tasks == [] then 0 else TotalWork(j, tasks[..|tasks| - 1]) + Work(j, tasks[|tasks| - 1])
  }

  lemma {:induction false} TotalWorkUpdate(j: Job, tasks: seq<Task>, t: nat, task: Task)
    requires t < |tasks|
    ensures TotalWork(j, tasks[t := task]) == TotalWork(j, tasks) - Work(j, tasks[t]) + Work(j, task)
  {
    var n := |tasks| - 1;
    if t < n {
      TotalWorkUpdate(j, tasks[..n], t, task);
      assert tasks[t := task][..n] == tasks[..n][t := task];
    } else {
      assert tasks[t := task][..n] == tasks[..n];
    }
  }

  ghost predicate Decreases(j: Job, s: State, s': State)
    requires |s.pc| == |s'.pc| == |j.entries|
  {
    var w, w', o, o' := |WaitingItems(s)|, |WaitingItems(s')|, |OpenEntries(j, s)|, |OpenEntries(j, s')|;
    var c, c' := |CompletingItems(s)|, |CompletingItems(s')|;
    || w' < w
    || (w' == w && o' < o)
    || (w' == w && o' == o && c' < c)
    || (w' == w && o' == o && c' == c && |s'.channel| < |s.channel|)
    || (w' == w && o' == o && c' == c && |s'.channel| == |s.channel| && TotalWork(j, s'.tasks) < TotalWork(j, s.tasks))
  }

  lemma {:induction false} LeaveWaitingDecreases(j: Job, s: State, s': State, i: nat)
    requires |s.pc| == |s'.pc| == |j.entries| && i < |s.pc| && s.pc[i].Waiting? && !s'.pc[i].Waiting?
    requires s'.pc == s.pc[i := s'.pc[i]]
    ensures Decreases(j, s, s')
  {
    assert i in WaitingItems(s);
    assert WaitingItems(s') == WaitingItems(s) - {i};
  }

  lemma {:induction false} NotifyDecreases(j: Job, s: State, i: nat)
    requires Flow(j, s) && Enabled(j, s, Notify(i))
    ensures Decreases(j, s, DoNotify(j, s, i))
  {
    var s', k := DoNotify(j, s, i), s.pc[i].k;
    assert s'.pc == s.pc[i := s'.pc[i]] && Cursor(s'.pc[i]) == k + 1;
    assert WaitingItems(s') == WaitingItems(s);
    OpenEntriesDrop(j, s, s', i, k);
  }

  lemma {:induction false} OpenEntriesDrop(j: Job, s: State, s': State, i: nat, k: nat)
    requires |s.pc| == |s'.pc| == |j.entries| && i < |s.pc| && k == Cursor(s.pc[i]) < |j.entries[i]|
    requires s'.pc == s.pc[i := s'.pc[i]] && Cursor(s'.pc[i]) == k + 1
    ensures |OpenEntries(j, s')| == |OpenEntries(j, s)| - 1
  {
    assert (i, k) in OpenEntries(j, s);
    assert OpenEntries(j, s') == OpenEntries(j, s) - {(i, k)};
  }

  lemma {:induction false} CountEagerDecreases(j: Job, s: State, i: nat)
    requires Flow(j, s) && Enabled(j, s, CountEager(i))
    ensures Decreases(j, s, DoCountEager(j, s, i))
  {
    var s' := DoCountEager(j, s, i);
    assert WaitingItems(s') == WaitingItems(s);
    assert OpenEntries(j, s') == OpenEntries(j, s);
    assert i in CompletingItems(s);
    assert CompletingItems(s') == CompletingItems(s) - {i};
  }

  lemma {:induction false} DownloadedRowsAreRows(j: Job, f: nat, n: nat)
    requires f < |j.rows| && n <= |j.rows[f]|
    ensures |DownloadedRowsOf(j, f, n)| <= n
  {
    if n > 0 {
      DownloadedRowsAreRows(j, f, n - 1);
    }
  }

  lemma {:induction false} HeldRowsAreRows(held: seq<nat>, n: nat)
    requires NoDuplicates(held) && forall c :: c in held ==> c < n
    ensures |held| <= n
  {
    NoDuplicatesCardinality(held);
    SubsetCardinality((set c | c in held), Below(n));
  }

  lemma {:induction false} TaskStepWork(j: Job, s: State, step: Step, t: nat)
    requires Enabled(j, s, step) && t < |s.tasks|
    requires match step
             case Claim(x) => x == t
             case FindValid(x) => x == t
             case Begin(x) => x == t
             case Succeed(x) => x == t
             case GiveUp(x, _) => x == t
             case Release(x, _) => x == t
             case Finish(x) => x == t
             case _ => false
    ensures var s' := Apply(j, s, step);
            && s'.pc == s.pc && s'.channel == s.channel && |s'.tasks| == |s.tasks|
            && s'.tasks == s.tasks[t := s'.tasks[t]] && Work(j, s'.tasks[t]) < Work(j, s.tasks[t])
  {
    var f := s.tasks[t].file;
    if step.Succeed? {
      DownloadedRowsAreRows(j, f, |j.rows[f]|);
    } else if step.GiveUp? {
      HeldRowsAreRows(step.held, |j.rows[f]|);
    }
  }

  lemma {:induction false} TaskStepDecreases(j: Job, s: State, step: Step, t: nat)
    requires Flow(j, s) && Enabled(j, s, step) && t < |s.tasks|
    requires step.Claim? || step.FindValid? || step.Begin? || step.Succeed? || step.GiveUp? || step.Release? || step.Finish?
    requires t == step.t
    ensures var s' := Apply(j, s, step); |s'.pc| == |s.pc| && Decreases(j, s, s')
  {
    TaskStepWork(j, s, step, t);
    var s' := Apply(j, s, step);
    TotalWorkUpdate(j, s.tasks, t, s'.tasks[t]);
    assert WaitingItems(s') == WaitingItems(s) && CompletingItems(s') == CompletingItems(s);
    assert OpenEntries(j, s') == OpenEntries(j, s);
  }

  lemma {:induction false} StepDecreases(j: Job, s: State, step: Step)
    requires Flow(j, s) && Enabled(j, s, step)
    ensures var s' := Apply(j, s, step); |s'.pc| == |s.pc| && Decreases(j, s, s')
  {
    if step.Fetch? || step.FailItem? {
      LeaveWaitingDecreases(j, s, Apply(j, s, step), step.i);
    } else if step.Notify? {
      NotifyDecreases(j, s, step.i);
    } else if step.CountEager? {
      CountEagerDecreases(j, s, step.i);
    } else if step.Receive? {
      var s' := Apply(j, s, step);
      assert WaitingItems(s') == WaitingItems(s) && CompletingItems(s') == CompletingItems(s);
      assert OpenEntries(j, s') == OpenEntries(j, s);
    } else {
      TaskStepDecreases(j, s, step, step.t);
    }
  }

  ghost predicate StepsTo(j: Job, s: State, s': State) {
    exists step :: Enabled(j, s, step) && s' == Apply(j, s, step)
  }

  lemma {:induction false} StepsToDecreases(j: Job, s: State, s': State)
    requires Flow(j, s) && StepsTo(j, s, s')
    ensures Flow(j, s') && Decreases(j, s, s')
  {
    var step :| Enabled(j, s, step) && s' == Apply(j, s, step);
    StepKeepsFlow(j, s, step);
    StepDecreases(j, s, step);
  }

  /** No sequence of states can take protocol steps for ever. */
  lemma {:induction false} EveryRunEnds(j: Job, run: nat -> State, n: nat) returns (end: nat)
    requires Flow(j, run(n))
    ensures n <= end && !StepsTo(j, run(end), run(end + 1))
    decreases |WaitingItems(run(n))|, |OpenEntries(j, run(n))|, |CompletingItems(run(n))|, |run(n).channel|,
              TotalWork(j, run(n).tasks)
  {
    hide Flow, StepsTo, OpenEntries, WaitingItems, CompletingItems, TotalWork;
    if StepsTo(j, run(n), run(n + 1)) {
      StepsToDecreases(j, run(n), run(n + 1));
      end := EveryRunEnds(j, run, n + 1);
    } else {
      end := n;
    }
  }

  /** A step that is not a failure. */
  ghost predicate Advances(step: Step) {
    !step.FailItem? && !step.GiveUp?
  }

  lemma {:induction false} ItemCanMove(j: Job, s: State, i: nat) returns (step: Step)
    requires Flow(j, s) && i < |s.pc| && s.pc[i] != Errored && s.pc[i] != Notifying(|j.entries[i]|)
    ensures Enabled(j, s, step) && Advances(step)
  {
    match s.pc[i]
    case Waiting => step := Fetch(i);
    case Completing(_, _) => step := CountEager(i);
    case Notifying(k) =>
      assert IsEntry(j, i, k);
      assert j.entries[i][k].file in j.slots;
      step := Notify(i);
  }

  lemma {:induction false} TaskCanMove(j: Job, s: State, t: nat) returns (step: Step)
    requires Tracked(j, s) && t < |s.tasks|
    requires !s.tasks[t].phase.Counted? && !s.tasks[t].phase.Failed?
    ensures Enabled(j, s, step) && Advances(step)
  {
    TaskFileIsOpen(j, s, t);
    match s.tasks[t].phase
    case Spawned => step := Claim(t);
    case Deciding => step := Begin(t);
    case Assembling => step := Succeed(t);
    case Releasing(todo, _) =>
      if todo == [] {
        step := Finish(t);
      } else {
        assert todo[0] in todo;
        step := Release(t, Lookup(j, j.rows[s.tasks[t].file][todo[0]].name));
      }
  }

  /** No deadlock: in a reachable state that is not quiet, some step other than a failure
      is enabled. With `EveryRunEnds` and `ErrorFreeRunsPass`, every run without errors
      gets to the completion check and passes it. */
  lemma {:induction false} NoDeadlock(j: Job, s: State) returns (step: Step)
    requires GoodJob(j) && Reachable(j, s) && !Quiet(j, s)
    ensures Enabled(j, s, step) && Advances(step)
  {
    ReachableIsTracked(j, s);
    if s.channel != [] {
      step := Receive;
    } else if i: nat :| i < |s.pc| && s.pc[i] != Errored && s.pc[i] != Notifying(|j.entries[i]|) {
      step := ItemCanMove(j, s, i);
    } else {
      var t: nat :| t < |s.tasks| && !s.tasks[t].phase.Counted? && !s.tasks[t].phase.Failed?;
      step := TaskCanMove(j, s, t);
    }
  }

  // ---------------------------------------------------------------------------
  // What passing the completion check means
  // ---------------------------------------------------------------------------

  /** Nothing has failed and no task is about to report a failure. */
  ghost predicate Unfailed(s: State) {
    NoErrors(s) && forall t :: 0 <= t < |s.tasks| && s.tasks[t].phase.Releasing? ==> s.tasks[t].phase.after != Fail
  }

  lemma {:induction false} AdvancingKeepsUnfailed(j: Job, s: State, step: Step)
    requires Unfailed(s) && Enabled(j, s, step) && Advances(step)
    ensures Unfailed(Apply(j, s, step)) && s.skipped <= Apply(j, s, step).skipped
  {
  }

  /** Any run without failures can be carried on to the end without one. */
  lemma {:induction false} RunToTheEnd(j: Job, s: State) returns (s': State)
    requires Flow(j, s) && Reachable(j, s) && Unfailed(s)
    ensures Reachable(j, s') && Quiet(j, s') && NoErrors(s') && s.skipped <= s'.skipped
    decreases |WaitingItems(s)|, |OpenEntries(j, s)|, |CompletingItems(s)|, |s.channel|, TotalWork(j, s.tasks)
  {
    if Quiet(j, s) {
      s' := s;
    } else {
      var step := NoDeadlock(j, s);
      StepIsReachable(j, s, step);
      AdvancingKeepsUnfailed(j, s, step);
      StepKeepsFlow(j, s, step);
      StepDecreases(j, s, step);
      hide Flow, Enabled, Apply, Reachable, Unfailed, Quiet, OpenEntries, WaitingItems, CompletingItems, TotalWork;
      s' := RunToTheEnd(j, Apply(j, s, step));
    }
  }

  ghost predicate AllDownloaded(j: Job, f: nat) {
    forall c: nat :: IsRow(j, f, c) ==> j.rows[f][c].downloaded
  }

  /** File `f` is in place: complete beforehand, or counted by a task that did not skip it,
      or eager with every one of its rows downloaded and every one of its entries notified. */
  ghost predicate FileDone(j: Job, s: State, f: nat) {
    || f in j.completed
    || (f !in s.skipped && (CountedByTask(s, f) || (EagerlyDone(j, s, f) && AllDownloaded(j, f))))
  }

  /** No eager file has a reused row. */
  ghost predicate EagerFilesWhole(j: Job) {
    forall f: nat :: EagerFile(j, f) ==> AllDownloaded(j, f)
  }

  ghost predicate Passes(j: Job, s: State) {
    Reachable(j, s) && s.assembled == |j.rows|
  }

  lemma {:induction false} PassingTheCheckMeansDone(j: Job, s: State, f: nat)
    requires GoodJob(j) && SeedsHonest(j) && EagerFilesWhole(j) && Passes(j, s) && f < |j.rows|
    ensures FileDone(j, s, f)
  {
    NeverSkipsExactly(j);
    CompletionCheckIsExact(j, s);
    assert Settled(j, s, f);
    if f !in j.completed {
      CountedMeansDone(j, s, f);
    }
  }

  /** A stale flag makes some task skip its file before anything has failed. */
  lemma {:induction false} ReachSkipped(j: Job) returns (s: State, f: nat)
    requires GoodJob(j) && !SeedsHonest(j)
    ensures Reachable(j, s) && Unfailed(s) && f < |j.rows| && f !in j.completed && f in s.skipped
  {
    f :| f < |j.rows| && j.seeds[f] && f !in j.completed && !EagerFile(j, f);
    var s0, t := ReachSpawned(j, f);
    assert s0.flags[f];
    StepIsReachable(j, s0, Claim(t));
    s := Apply(j, s0, Claim(t));
    assert f in s.skipped;
  }

  /** Any run without failures can be carried on until it passes the check. */
  lemma {:induction false} RunToPassing(j: Job, s: State) returns (s': State)
    requires GoodJob(j) && Reachable(j, s) && Unfailed(s)
    ensures Passes(j, s') && s.skipped <= s'.skipped
  {
    ReachableIsTracked(j, s);
    s' := RunToTheEnd(j, s);
    ErrorFreeRunsPass(j, s');
  }

  lemma {:induction false} EagerFileIsOpen(j: Job, f: nat)
    requires GoodJob(j) && EagerFile(j, f)
    ensures f < |j.rows| && f !in j.completed
  {
    assert f in j.slots;
  }

  /** Any job that does not meet the two conditions has a run that passes the check with a
      file skipped, or not assembled although it has a reused row. */
  lemma {:induction false} PassingWithoutAFile(j: Job) returns (s: State, f: nat)
    requires GoodJob(j) && !(SeedsHonest(j) && EagerFilesWhole(j))
    ensures Passes(j, s) && f < |j.rows| && f !in j.completed
    ensures f in s.skipped || (!CountedByTask(s, f) && !AllDownloaded(j, f))
  {
    hide GoodJob, Reachable, Unfailed, SeedsHonest, EagerFile, AllDownloaded, CountedByTask;
    if !SeedsHonest(j) {
      var s0;
      s0, f := ReachSkipped(j);
      s := RunToPassing(j, s0);
    } else {
      f :| EagerFile(j, f) && !AllDownloaded(j, f);
      EagerFileIsOpen(j, f);
      StartIsReachable(j);
      StartIsUnfailed(j);
      s := RunToPassing(j, Start(j));
      ReachableIsTracked(j, s);
      hide Flow;
      if CountedByTask(s, f) {
        TaskIsNotEager(j, s, f);
      }
    }
  }

  lemma {:induction false} StartIsUnfailed(j: Job)
    ensures Unfailed(Start(j))
  {
  }

  /** Passing the completion check always means that every file is in place if and only if
      no stale flag is set and no eager file has a reused row. */
  lemma {:induction false} PassingMeansDoneExactly(j: Job)
    requires GoodJob(j)
    ensures (forall s, f: nat :: Passes(j, s) && f < |j.rows| ==> FileDone(j, s, f)) <==>
            SeedsHonest(j) && EagerFilesWhole(j)
  {
    if SeedsHonest(j) && EagerFilesWhole(j) {
      forall s, f: nat | Passes(j, s) && f < |j.rows| ensures FileDone(j, s, f) {
        PassingTheCheckMeansDone(j, s, f);
      }
    } else {
      var s, f := PassingWithoutAFile(j);
      assert !FileDone(j, s, f);
    }
  }
}
