/** What assembly tasks give back: each task releases exactly the rows that its outcome is owed
    for, completion flags say where each file stands, and a run at rest without errors leaves no
    reference and no chunk file of an assembled file behind. */
module ProtocolRelease {
  import opened Manifest
  import opened Plan
  import opened Protocol
  import opened ProtocolFlow
  import opened ProtocolRefs
  import opened ProtocolRuns

  // ---------------------------------------------------------------------------
  // What a task releases
  // ---------------------------------------------------------------------------

  /** The rows of its file that the task has to release once it has taken `step`: all of them if
      it skips the file or finds it valid, the downloaded ones if it has assembled it, and those
      whose chunk it had used if it gives up. */
  ghost predicate Due(j: Job, f: nat, step: Step, c: nat)
    requires f < |j.rows|
  {
    && c < |j.rows[f]| && (step.Claim? || step.FindValid? || step.Succeed? || step.GiveUp?)
    && (step.Succeed? ==> j.rows[f][c].downloaded) && (step.GiveUp? ==> c in step.held)
  }

  /** The step after which task `t` has nothing left to do but to release rows and to report. */
  ghost predicate Settles(s: State, step: Step, t: nat) {
    t < |s.tasks| &&
    match step
    case Claim(x) => x == t && s.tasks[t].file < |s.flags| && s.flags[s.tasks[t].file]
    case FindValid(x) => x == t
    case Succeed(x) => x == t
    case GiveUp(x, _) => x == t
    case _ => false
  }

  /** Task `t` has released the due rows of `f` but for those it still has to. */
  ghost predicate Paying(j: Job, s: State, t: nat, f: nat, step: Step) {
    && f < |j.rows| && t < |s.tasks| && s.tasks[t].file == f
    && (match s.tasks[t].phase
        case Releasing(_, after) => after == (if step.GiveUp? then Fail else Count)
        case Counted => !step.GiveUp?
        case Failed => step.GiveUp?
        case _ => false)
    && forall c: nat :: Due(j, f, step, c) <==> (f, c) in s.released || (s.tasks[t].phase.Releasing? && c in s.tasks[t].phase.todo)
  }

  lemma {:induction false} AllRowsAreRows(j: Job, f: nat, c: nat)
    requires f < |j.rows|
    ensures c in AllRowsOf(j, f) <==> c < |j.rows[f]|
  {
    assert c < |j.rows[f]| ==> AllRowsOf(j, f)[c] == c;
  }

  lemma {:induction false} SettlingStartsPaying(j: Job, s: State, step: Step, t: nat)
    requires Tracked(j, s) && Enabled(j, s, step) && Settles(s, step, t)
    ensures Paying(j, Apply(j, s, step), t, s.tasks[t].file, step)
  {
    var s', f := Apply(j, s, step), s.tasks[t].file;
    forall c: nat
      ensures Due(j, f, step, c) <==> (f, c) in s'.released || (s'.tasks[t].phase.Releasing? && c in s'.tasks[t].phase.todo)
    {
      NotPassedNotReleased(j, s, t, c);
      AllRowsAreRows(j, f, c);
    }
  }

  lemma {:induction false} TasksHaveOwnFiles(j: Job, s: State, x: nat, t: nat)
    requires Flow(j, s) && x < |s.tasks| && t < |s.tasks| && x != t
    ensures s.tasks[x].file != s.tasks[t].file
  {
    assert s.tasks[x].file == s.sent[x] && s.tasks[t].file == s.sent[t];
  }

  /** A step of another task leaves the file alone. */
  lemma {:induction false} OthersKeepPaying(j: Job, s: State, t: nat, f: nat, step: Step)
    requires Tracked(j, s) && t < |s.tasks| && s.tasks[t].file == f && Enabled(j, s, step)
    requires step.Release? || step.Finish? ==> step.t != t
    requires s.tasks[t].phase.Releasing? || s.tasks[t].phase.Counted? || s.tasks[t].phase.Failed?
    ensures var s' := Apply(j, s, step);
            && t < |s'.tasks| && s'.tasks[t] == s.tasks[t]
            && forall c: nat :: (f, c) in s'.released <==> (f, c) in s.released
  {
    if step.Release? {
      TasksHaveOwnFiles(j, s, step.t, t);
    }
  }

  lemma {:induction false} OwnReleaseKeepsPaying(j: Job, s: State, t: nat, f: nat, cause: Step, at: Option<nat>)
    requires Paying(j, s, t, f, cause) && Enabled(j, s, Release(t, at))
    ensures Paying(j, DoRelease(j, s, t, at), t, f, cause)
  {
    hide Due;
    var s', todo := DoRelease(j, s, t, at), s.tasks[t].phase.todo;
    forall c: nat ensures c in todo <==> c == todo[0] || c in todo[1..] {
      assert todo == [todo[0]] + todo[1..];
    }
    assert s'.tasks[t] == Task(f, Releasing(todo[1..], s.tasks[t].phase.after)) && s'.released == s.released + {(f, todo[0])};
  }

  lemma {:induction false} OwnFinishKeepsPaying(j: Job, s: State, t: nat, f: nat, cause: Step)
    requires Paying(j, s, t, f, cause) && Enabled(j, s, Finish(t))
    ensures Paying(j, DoFinish(j, s, t), t, f, cause)
  {
    hide Due;
  }

  lemma {:induction false} SameTaskKeepsPaying(j: Job, s: State, s': State, t: nat, f: nat, cause: Step)
    requires Paying(j, s, t, f, cause) && t < |s'.tasks| && s'.tasks[t] == s.tasks[t]
    requires forall c: nat :: (f, c) in s'.released <==> (f, c) in s.released
    ensures Paying(j, s', t, f, cause)
  {
    hide Due;
  }

  lemma {:induction false} StepKeepsPaying(j: Job, s: State, t: nat, f: nat, cause: Step, step: Step)
    requires Tracked(j, s) && Paying(j, s, t, f, cause) && Enabled(j, s, step)
    ensures Paying(j, Apply(j, s, step), t, f, cause)
  {
    if step.Release? && step.t == t {
      hide Due, Tracked, Enabled, DoRelease, Paying;
      OwnReleaseKeepsPaying(j, s, t, f, cause, step.at);
    } else if step.Finish? && step.t == t {
      hide Due, Tracked, Enabled, DoFinish, Paying;
      OwnFinishKeepsPaying(j, s, t, f, cause);
    } else {
      OthersKeepPaying(j, s, t, f, step);
      SameTaskKeepsPaying(j, s, Apply(j, s, step), t, f, cause);
      hide Due, Tracked, Enabled, Apply, Paying;
    }
  }

  lemma {:induction false} KeepsPaying(j: Job, run: seq<State>, steps: seq<Step>, x: nat, y: nat, t: nat)
    requires GoodJob(j) && IsRun(j, run, steps) && x < y < |run| && Settles(run[x], steps[x], t)
    ensures Paying(j, run[y], t, run[x].tasks[t].file, steps[x])
  {
    var z := y - 1;
    RunKeepsTracked(j, run[..z + 1], steps[..z]);
    if z == x {
      SettlingStartsPaying(j, run[x], steps[x], t);
    } else {
      KeepsPaying(j, run, steps, x, z, t);
      StepKeepsPaying(j, run[z], t, run[x].tasks[t].file, steps[x], steps[z]);
    }
  }

  /** When a task has ended, the rows released of its file are exactly the due ones: every row of
      a file it skipped or found valid, every downloaded row of one it assembled, and the rows it
      had used of one it gave up. It counts the file in every case but the last. */
  lemma {:induction false} ReleasedExactlyWhatIsDue(j: Job, run: seq<State>, steps: seq<Step>, x: nat, y: nat, t: nat)
    requires GoodJob(j) && IsRun(j, run, steps) && x < y < |run| && Settles(run[x], steps[x], t)
    requires t < |run[y].tasks| && (run[y].tasks[t].phase.Counted? || run[y].tasks[t].phase.Failed?)
    ensures var f := run[x].tasks[t].file;
            && f < |j.rows| && run[y].tasks[t].file == f
            && (run[y].tasks[t].phase.Failed? <==> steps[x].GiveUp?)
            && forall c: nat :: (f, c) in run[y].released <==>
                 && c < |j.rows[f]|
                 && (steps[x].Succeed? ==> j.rows[f][c].downloaded)
                 && (steps[x].GiveUp? ==> c in steps[x].held)
  {
    KeepsPaying(j, run, steps, x, y, t);
    forall c: nat ensures Due(j, run[x].tasks[t].file, steps[x], c) <==> (run[x].tasks[t].file, c) in run[y].released {
    }
  }

  // ---------------------------------------------------------------------------
  // Counted files have released their chunks
  // ---------------------------------------------------------------------------

  ghost predicate Unpaid(j: Job, s: State, t: nat, c: nat) {
    && t < |s.tasks| && s.tasks[t].file < |j.rows| && c < |j.rows[s.tasks[t].file]|
    && j.rows[s.tasks[t].file][c].downloaded && (s.tasks[t].file, c) !in s.released
  }

  /** A task that is going to count its file still has every downloaded row of it that it has
      not released on its list; one that has counted it has released them all. */
  ghost predicate Owing(j: Job, s: State) {
    forall t: nat, c: nat :: Unpaid(j, s, t, c) ==>
      && !s.tasks[t].phase.Counted?
      && (s.tasks[t].phase.Releasing? && s.tasks[t].phase.after.Count? ==> c in s.tasks[t].phase.todo)
  }

  /** What the steps of a task do to the rows it owes. */
  lemma {:induction false} TaskStepPays(j: Job, s: State, step: Step, c: nat)
    requires Tracked(j, s) && Owing(j, s) && Enabled(j, s, step)
    requires step.Claim? || step.FindValid? || step.Succeed? || step.GiveUp? || step.Begin? || step.Release? || step.Finish?
    requires Unpaid(j, s, step.t, c) && Unpaid(j, Apply(j, s, step), step.t, c)
    ensures var task := Apply(j, s, step).tasks[step.t];
            !task.phase.Counted? && (task.phase.Releasing? && task.phase.after.Count? ==> c in task.phase.todo)
  {
    AllRowsAreRows(j, s.tasks[step.t].file, c);
    hide Tracked, Answers;
  }

  lemma {:induction false} TaskStepKeepsOwing(j: Job, s: State, step: Step)
    requires Tracked(j, s) && Owing(j, s) && Enabled(j, s, step)
    requires step.Claim? || step.FindValid? || step.Succeed? || step.GiveUp? || step.Begin? || step.Release? || step.Finish?
    ensures Owing(j, Apply(j, s, step))
  {
    var s' := Apply(j, s, step);
    forall t: nat, c: nat | Unpaid(j, s', t, c)
      ensures !s'.tasks[t].phase.Counted?
      ensures s'.tasks[t].phase.Releasing? && s'.tasks[t].phase.after.Count? ==> c in s'.tasks[t].phase.todo
    {
      assert Unpaid(j, s, t, c);
      if t == step.t {
        TaskStepPays(j, s, step, c);
      }
    }
    hide Tracked, Unpaid, Apply, Enabled;
  }

  lemma {:induction false} OthersKeepOwing(j: Job, s: State, step: Step)
    requires Owing(j, s) && Enabled(j, s, step)
    requires step.Fetch? || step.FailItem? || step.Notify? || step.CountEager? || step.Receive?
    ensures Owing(j, Apply(j, s, step))
  {
    var s' := Apply(j, s, step);
    forall t: nat, c: nat | Unpaid(j, s', t, c)
      ensures (!s'.tasks[t].phase.Counted? && !s'.tasks[t].phase.Releasing?) || Unpaid(j, s, t, c)
    {
    }
  }

  lemma {:induction false} StepKeepsOwing(j: Job, s: State, step: Step)
    requires Tracked(j, s) && Owing(j, s) && Enabled(j, s, step)
    ensures Owing(j, Apply(j, s, step))
  {
    if step.Fetch? || step.FailItem? || step.Notify? || step.CountEager? || step.Receive? {
      OthersKeepOwing(j, s, step);
    } else {
      TaskStepKeepsOwing(j, s, step);
    }
  }

  lemma {:induction false} RunKeepsOwing(j: Job, run: seq<State>, steps: seq<Step>)
    requires GoodJob(j) && IsRun(j, run, steps)
    ensures Owing(j, run[|steps|])
  {
    if steps != [] {
      var n := |steps| - 1;
      RunKeepsTracked(j, run[..n + 1], steps[..n]);
      RunKeepsOwing(j, run[..n + 1], steps[..n]);
      StepKeepsOwing(j, run[n], steps[n]);
    }
  }

  /** A file that its task has counted has released every one of its downloaded rows. */
  lemma {:induction false} CountedFilesReleaseTheirChunks(j: Job, s: State, f: nat, c: nat)
    requires GoodJob(j) && Reachable(j, s) && CountedByTask(s, f)
    requires f < |j.rows| && c < |j.rows[f]| && j.rows[f][c].downloaded
    ensures (f, c) in s.released
  {
    var run, steps :| IsRun(j, run, steps) && run[|steps|] == s;
    RunKeepsOwing(j, run, steps);
    var t :| 0 <= t < |s.tasks| && s.tasks[t].file == f && s.tasks[t].phase.Counted?;
    assert !Unpaid(j, s, t, c);
  }

  // ---------------------------------------------------------------------------
  // The store at the end
  // ---------------------------------------------------------------------------

  /** The chunk file of an item whose files are assembled. */
  ghost predicate AssemblyChunkFile(j: Job, file: string) {
    exists i: nat :: i < |j.names| && i < |j.eager| && !j.eager[i] && file == ChunkFile(j.names[i])
  }

  /** Only chunk files of assembled items are ever stored or deleted. */
  ghost predicate StoreBounded(j: Job, s: State) {
    forall file :: (file in s.store <==> file in j.onDisk) || AssemblyChunkFile(j, file)
  }

  lemma {:induction false} ReleaseKeepsBound(j: Job, s: State, t: nat, at: Option<nat>)
    requires Tracked(j, s) && RefsExact(j, s) && Deduplicated(j) && ReusedNamesApart(j) && StoreBounded(j, s)
    requires Enabled(j, s, Release(t, at))
    ensures StoreBounded(j, DoRelease(j, s, t, at))
  {
    if at.Some? {
      var f, c := s.tasks[t].file, s.tasks[t].phase.todo[0];
      ReleasedRow(j, s, t, at);
      ReleaseDownloaded(j, s, t, at);
      TaskFileIsOpen(j, s, t);
      ReleasedMeansFetched(j, s, at.value, f, c);
      assert AssemblyChunkFile(j, ChunkFile(j.names[at.value]));
    }
  }

  lemma {:induction false} StepKeepsBound(j: Job, s: State, step: Step)
    requires Tracked(j, s) && RefsExact(j, s) && Deduplicated(j) && ReusedNamesApart(j) && StoreBounded(j, s)
    requires Enabled(j, s, step)
    ensures StoreBounded(j, Apply(j, s, step))
  {
    if step.Release? {
      ReleaseKeepsBound(j, s, step.t, step.at);
    } else if step.Fetch? {
      assert !j.eager[step.i] ==> AssemblyChunkFile(j, ChunkFile(j.names[step.i]));
    } else {
      OthersKeepStore(j, s, step);
    }
  }

  lemma {:induction false} RunKeepsBound(j: Job, run: seq<State>, steps: seq<Step>)
    requires GoodJob(j) && Deduplicated(j) && ReusedNamesApart(j) && IsRun(j, run, steps)
    ensures StoreBounded(j, run[|steps|])
  {
    if steps != [] {
      var n := |steps| - 1;
      RunKeepsRefs(j, run[..n + 1], steps[..n]);
      RunKeepsBound(j, run[..n + 1], steps[..n]);
      StepKeepsBound(j, run[n], steps[n]);
    }
  }

  /** The file of a row has an entry in the row's item, and so takes the item's route. */
  lemma {:induction false} RowTakesItsItemsRoute(j: Job, i: nat, f: nat, c: nat)
    requires GoodJob(j) && Deduplicated(j) && i < |j.names| && (f, c) in RowsNamed(j, i)
    ensures EagerFile(j, f) <==> j.eager[i]
  {
    ItemOfRow(j, f, c, i);
    var k: nat :| IsEntry(j, i, k) && j.entries[i][k].file == f;
    var e := j.entries[i][k];
    assert j.slots[e.pending] == f && j.slotEager[e.pending] == j.eager[i];
    if EagerFile(j, f) {
      var p: nat :| p < |j.slots| && j.slots[p] == f && j.slotEager[p];
      SameSlot(j, p, e.pending);
    }
  }

  lemma {:induction false} ReleasedAtRest(j: Job, s: State, f: nat, c: nat)
    requires Tracked(j, s) && Quiet(j, s) && NoErrors(s) && (f, c) in s.released
    ensures CountedByTask(s, f)
  {
    assert ReleasedBy(s, f, c);
  }

  /** At rest without errors an assembled item has no unreleased row, and an eager one only such. */
  lemma {:induction false} UnreleasedAtRest(j: Job, s: State, i: nat)
    requires GoodJob(j) && Deduplicated(j) && Reachable(j, s) && Quiet(j, s) && NoErrors(s) && i < |j.names|
    ensures Unreleased(j, s, i) == if j.eager[i] then RowsNamed(j, i) else {}
  {
    ReachableIsTracked(j, s);
    ErrorFreeRunsPass(j, s);
    CompletionCheckIsExact(j, s);
    forall x | x in RowsNamed(j, i) ensures x in s.released <==> !j.eager[i] {
      var f, c := x.0, x.1;
      RowTakesItsItemsRoute(j, i, f, c);
      assert Settled(j, s, f);
      CountedMeansDone(j, s, f);
      if j.eager[i] {
        if x in s.released {
          ReleasedAtRest(j, s, f, c);
        }
      } else {
        CountedFilesReleaseTheirChunks(j, s, f, c);
      }
    }
  }

  /** A run at rest without errors has given everything back: the count of an item is zero
      exactly when its files are assembled, and the store is what it was at the start without
      the chunk files of those items. */
  lemma {:induction false} NothingIsLeftBehind(j: Job, s: State)
    requires SafeJob(j) && Reachable(j, s) && Quiet(j, s) && NoErrors(s)
    ensures |s.refs| == |j.names| && forall i :: 0 <= i < |j.names| ==> (s.refs[i] == 0 <==> !j.eager[i])
    ensures forall file :: file in s.store <==> file in j.onDisk && !AssemblyChunkFile(j, file)
  {
    var run, steps :| IsRun(j, run, steps) && run[|steps|] == s;
    RunKeepsRefs(j, run, steps);
    RunKeepsStore(j, run, steps);
    RunKeepsBound(j, run, steps);
    hide IsRun, Quiet, Tracked, DistinctChunkFiles, ReusedNamesApart;
    forall i: nat | i < |j.names|
      ensures s.refs[i] == 0 <==> !j.eager[i]
      ensures !j.eager[i] ==> ChunkFile(j.names[i]) !in s.store
    {
      UnreleasedAtRest(j, s, i);
      FetchedAtRest(j, s, i);
    }
  }

  lemma {:induction false} FetchedAtRest(j: Job, s: State, i: nat)
    requires Quiet(j, s) && NoErrors(s) && i < |j.entries|
    ensures i < |s.pc| && Fetched(s.pc[i])
  {
  }

  // ---------------------------------------------------------------------------
  // Completion flags
  // ---------------------------------------------------------------------------

  /** The last entry of the eager file `f` has been notified. */
  ghost predicate EagerlyFlagged(j: Job, s: State, f: nat) {
    exists p: nat :: p < |j.slots| && p < |j.slotEager| && p < |s.pending| && j.slots[p] == f && j.slotEager[p] && s.pending[p] == 0
  }

  ghost predicate FlagsTold(j: Job, s: State) {
    && |s.flags| == |j.rows| == |j.seeds|
    && (forall t :: 0 <= t < |s.tasks| && s.tasks[t].file < |s.flags| && !s.tasks[t].phase.Spawned? ==>
          (s.flags[s.tasks[t].file] <==> !s.tasks[t].phase.Failed?))
    && (forall f: nat :: f < |s.flags| && !ClaimedByTask(s, f) ==>
          (s.flags[f] <==> j.seeds[f] || EagerlyFlagged(j, s, f)))
  }

  lemma {:induction false} NotifyKeepsFlagsTold(j: Job, s: State, i: nat)
    requires Tracked(j, s) && FlagsTold(j, s) && Enabled(j, s, Notify(i))
    ensures FlagsTold(j, DoNotify(j, s, i))
  {
    var s', e := DoNotify(j, s, i), j.entries[i][s.pc[i].k];
    NotifyPending(j, s, i);
    assert IsEntry(j, i, s.pc[i].k);
    var last := s.pending[e.pending] == 1 && j.eager[i];
    forall f: nat ensures EagerlyFlagged(j, s', f) <==> EagerlyFlagged(j, s, f) || (last && f == e.file) {
      if EagerlyFlagged(j, s, f) {
        var p: nat :| p < |j.slots| && j.slots[p] == f && j.slotEager[p] && s.pending[p] == 0;
        assert s'.pending[p] == 0;
      }
      if last && f == e.file {
        assert s'.pending[e.pending] == 0;
      }
    }
    forall f: nat ensures ClaimedByTask(s', f) <==> ClaimedByTask(s, f) {
    }
    if last {
      forall t | 0 <= t < |s.tasks| ensures s.tasks[t].file != e.file {
        EntryFileHasNoTask(j, s, t, e);
      }
    }
  }

  lemma {:induction false} EntryFileHasNoTask(j: Job, s: State, t: nat, e: Entry)
    requires Flow(j, s) && t < |s.tasks| && e.pending < |j.slots| && j.slots[e.pending] == e.file && j.slotEager[e.pending]
    ensures s.tasks[t].file != e.file
  {
    if s.tasks[t].file == e.file {
      assert s.sent[t] == e.file;
      LaunchedIsNotEager(j, s, e.file, e.pending);
    }
  }

  /** Task `x`, whose file no other task has, moves on, and the flag of its file goes with it. */
  ghost predicate MovesWithFlag(s: State, s': State, x: nat) {
    && x < |s.tasks| == |s'.tasks| && s'.tasks == s.tasks[x := s'.tasks[x]]
    && s'.tasks[x].file == s.tasks[x].file < |s.flags| && s'.pending == s.pending
    && !s'.tasks[x].phase.Spawned? && !s.tasks[x].phase.Failed?
    && s'.flags == (if s.tasks[x].phase.Spawned? then s.flags[s.tasks[x].file := true]
                    else if s'.tasks[x].phase.Failed? then s.flags[s.tasks[x].file := false]
                    else s.flags)
    && (s.tasks[x].phase.Spawned? ==> !s'.tasks[x].phase.Failed?)
  }

  lemma {:induction false} TaskStepMoves(j: Job, s: State, step: Step)
    requires Enabled(j, s, step)
    requires step.Claim? || step.FindValid? || step.Begin? || step.Succeed? || step.GiveUp? || step.Release? || step.Finish?
    ensures MovesWithFlag(s, Apply(j, s, step), step.t)
  {
  }

  lemma {:induction false} MovingKeepsFlagsTold(j: Job, s: State, s': State, x: nat)
    requires FlagsTold(j, s) && MovesWithFlag(s, s', x)
    requires forall t: nat :: t < |s.tasks| && t != x ==> s.tasks[t].file != s.tasks[x].file
    ensures FlagsTold(j, s')
  {
    hide EagerlyFlagged;
    SamePendingSameFlagged(j, s, s');
    forall g: nat ensures ClaimedByTask(s', g) <==> ClaimedByTask(s, g) || g == s.tasks[x].file {
      if ClaimedByTask(s, g) {
        var t :| 0 <= t < |s.tasks| && s.tasks[t].file == g && !s.tasks[t].phase.Spawned?;
        assert s'.tasks[t].file == g && !s'.tasks[t].phase.Spawned?;
      }
      assert !s'.tasks[x].phase.Spawned? && s'.tasks[x].file == s.tasks[x].file;
    }
  }

  lemma {:induction false} TaskKeepsFlagsTold(j: Job, s: State, step: Step)
    requires Tracked(j, s) && FlagsTold(j, s) && Enabled(j, s, step)
    requires step.Claim? || step.FindValid? || step.Begin? || step.Succeed? || step.GiveUp? || step.Release? || step.Finish?
    ensures FlagsTold(j, Apply(j, s, step))
  {
    hide Apply, FlagsTold;
    TaskStepMoves(j, s, step);
    forall t: nat | t < |s.tasks| && t != step.t ensures s.tasks[t].file != s.tasks[step.t].file {
      TasksHaveOwnFiles(j, s, t, step.t);
    }
    MovingKeepsFlagsTold(j, s, Apply(j, s, step), step.t);
  }

  lemma {:induction false} SamePendingSameFlagged(j: Job, s: State, s': State)
    requires s'.pending == s.pending
    ensures forall f: nat :: EagerlyFlagged(j, s', f) <==> EagerlyFlagged(j, s, f)
  {
  }

  lemma {:induction false} ReceiveKeepsFlagsTold(j: Job, s: State)
    requires FlagsTold(j, s) && s.channel != []
    ensures FlagsTold(j, DoReceive(s))
  {
    var s' := DoReceive(s);
    hide EagerlyFlagged;
    SamePendingSameFlagged(j, s, s');
    forall f: nat ensures ClaimedByTask(s', f) <==> ClaimedByTask(s, f) {
      if ClaimedByTask(s, f) {
        var t :| 0 <= t < |s.tasks| && s.tasks[t].file == f && !s.tasks[t].phase.Spawned?;
        assert s'.tasks[t] == s.tasks[t];
      }
    }
  }

  lemma {:induction false} ItemKeepsFlagsTold(j: Job, s: State, step: Step)
    requires FlagsTold(j, s) && Enabled(j, s, step) && (step.Fetch? || step.FailItem? || step.CountEager?)
    ensures FlagsTold(j, Apply(j, s, step))
  {
    var s' := Apply(j, s, step);
    hide EagerlyFlagged;
    SamePendingSameFlagged(j, s, s');
    assert forall f: nat :: ClaimedByTask(s', f) <==> ClaimedByTask(s, f);
  }

  lemma {:induction false} RunKeepsFlagsTold(j: Job, run: seq<State>, steps: seq<Step>)
    requires GoodJob(j) && IsRun(j, run, steps)
    ensures FlagsTold(j, run[|steps|])
  {
    if steps == [] {
      StartFlow(j);
      assert forall p: nat :: p < |j.slots| ==> j.pending[p] > 0;
    } else {
      var n := |steps| - 1;
      RunKeepsTracked(j, run[..n + 1], steps[..n]);
      RunKeepsFlagsTold(j, run[..n + 1], steps[..n]);
      match steps[n]
      case Notify(i) => NotifyKeepsFlagsTold(j, run[n], i);
      case Receive => ReceiveKeepsFlagsTold(j, run[n]);
      case Fetch(_) => ItemKeepsFlagsTold(j, run[n], steps[n]);
      case FailItem(_) => ItemKeepsFlagsTold(j, run[n], steps[n]);
      case CountEager(_) => ItemKeepsFlagsTold(j, run[n], steps[n]);
      case _ => TaskKeepsFlagsTold(j, run[n], steps[n]);
    }
  }

  /** In every reachable state the completion flags say exactly where the files stand: a file
      with a task at work on it or done is flagged unless the task has failed; any other file is
      flagged exactly when it was at the start or the last of its eager entries is notified. */
  lemma {:induction false} FlagsAreExact(j: Job, s: State)
    requires GoodJob(j) && Reachable(j, s)
    ensures |s.flags| == |j.rows| == |j.seeds|
    ensures forall t :: 0 <= t < |s.tasks| && !s.tasks[t].phase.Spawned? ==>
              s.tasks[t].file < |s.flags| && (s.flags[s.tasks[t].file] <==> !s.tasks[t].phase.Failed?)
    ensures forall f: nat :: f < |s.flags| && !ClaimedByTask(s, f) ==>
              (s.flags[f] <==> j.seeds[f] || EagerlyFlagged(j, s, f))
  {
    var run, steps :| IsRun(j, run, steps) && run[|steps|] == s;
    RunKeepsFlagsTold(j, run, steps);
    RunKeepsTracked(j, run, steps);
    forall t: nat | t < |s.tasks| ensures s.tasks[t].file < |s.flags| {
      TaskFileIsOpen(j, s, t);
    }
  }

  // ---------------------------------------------------------------------------
  // The completion check
  // ---------------------------------------------------------------------------

  lemma {:induction false} FailedIsUnsettled(j: Job, s: State, t: nat)
    requires GoodJob(j) && Reachable(j, s) && t < |s.tasks| && s.tasks[t].phase.Failed?
    ensures s.tasks[t].file < |j.rows| && !Settled(j, s, s.tasks[t].file)
  {
    ReachableIsTracked(j, s);
    TaskFileIsOpen(j, s, t);
    var f := s.tasks[t].file;
    forall x | 0 <= x < |s.tasks| && s.tasks[x].file == f ensures x == t {
      OneTaskPerFile(j, s, x, t);
    }
    if f in s.counted {
      CountedMeansDone(j, s, f);
      var p: nat :| p < |j.slots| && p < |j.slotEager| && j.slots[p] == f && j.slotEager[p];
      LaunchedIsNotEager(j, s, f, p);
    }
  }

  lemma {:induction false} DoneMeansFetched(j: Job, s: State, i: nat, k: nat, f: nat)
    requires EagerlyDone(j, s, f) && IsEntry(j, i, k) && j.entries[i][k].file == f
    ensures i < |s.pc| && Fetched(s.pc[i])
  {
    assert Notified(j, s, i, k, f);
  }

  lemma {:induction false} ErroredIsUnsettled(j: Job, s: State, i: nat)
    requires GoodJob(j) && Reachable(j, s) && i < |s.pc| && s.pc[i] == Errored && IsEntry(j, i, 0)
    ensures j.entries[i][0].file < |j.rows| && !Settled(j, s, j.entries[i][0].file)
  {
    ReachableIsTracked(j, s);
    var f := j.entries[i][0].file;
    assert f in j.slots;
    if f in s.counted {
      CountedMeansDone(j, s, f);
      if CountedByTask(s, f) {
        var t :| 0 <= t < |s.tasks| && s.tasks[t].file == f && s.tasks[t].phase.Counted?;
        TaskFileIsOpen(j, s, t);
        SentMeansNotified(j, s, i, 0);
      } else {
        DoneMeansFetched(j, s, i, 0, f);
      }
    }
  }

  /** At rest the completion check passes if and only if nothing has failed, when every item has
      a file that needs it. */
  lemma {:induction false} PassesAtRestExactly(j: Job, s: State)
    requires GoodJob(j) && Reachable(j, s) && Quiet(j, s)
    requires forall i: nat :: i < |j.entries| ==> IsEntry(j, i, 0)
    ensures s.assembled == |j.rows| <==> NoErrors(s)
  {
    CompletionCheckIsExact(j, s);
    if NoErrors(s) {
      ErrorFreeRunsPass(j, s);
    } else if i: nat :| i < |s.pc| && s.pc[i] == Errored {
      ErroredIsUnsettled(j, s, i);
    } else {
      var t: nat :| t < |s.tasks| && s.tasks[t].phase.Failed?;
      FailedIsUnsettled(j, s, t);
    }
  }

  /** Any item may fail at the start, and any open file on the assembly route whose flag is clear
      may fail in assembly, whichever chunks it has used by then: its flag is clear again, and
      those chunks are released. */
  lemma {:induction false} AnythingCanFail(j: Job, i: nat, f: nat, held: seq<nat>)
    requires GoodJob(j)
    ensures i < |j.entries| ==> exists s :: Reachable(j, s) && i < |s.pc| && s.pc[i] == Errored
    ensures f < |j.rows| && f !in j.completed && !EagerFile(j, f) && !j.seeds[f] && NoDuplicates(held) &&
            (forall c :: c in held ==> c < |j.rows[f]| && j.rows[f][c].downloaded) ==>
              exists s, t: nat :: Reachable(j, s) && t < |s.tasks| && s.tasks[t] == Task(f, Releasing(held, Fail))
  {
    if i < |j.entries| {
      StartIsReachable(j);
      StepIsReachable(j, Start(j), FailItem(i));
      assert Apply(j, Start(j), FailItem(i)).pc[i] == Errored;
    }
    if f < |j.rows| && f !in j.completed && !EagerFile(j, f) && !j.seeds[f] && NoDuplicates(held) &&
       forall c :: c in held ==> c < |j.rows[f]| && j.rows[f][c].downloaded {
      var s, t := ReachSpawned(j, f);
      FailInAssembly(j, s, t, held);
    }
  }

  lemma {:induction false} FailInAssembly(j: Job, s: State, t: nat, held: seq<nat>)
    requires Reachable(j, s) && TaskIn(s, t, j) && s.tasks[t].phase.Spawned? && !s.flags[s.tasks[t].file] && NoDuplicates(held)
    requires forall c :: c in held ==> c < |j.rows[s.tasks[t].file]| && j.rows[s.tasks[t].file][c].downloaded
    ensures exists s' :: Reachable(j, s') && t < |s'.tasks| && s'.tasks[t] == Task(s.tasks[t].file, Releasing(held, Fail))
  {
    StepIsReachable(j, s, Claim(t));
    var s1 := Apply(j, s, Claim(t));
    StepIsReachable(j, s1, Begin(t));
    var s2 := Apply(j, s1, Begin(t));
    StepIsReachable(j, s2, GiveUp(t, held));
    var s3 := Apply(j, s2, GiveUp(t, held));
    assert Reachable(j, s3) && s3.tasks[t] == Task(s.tasks[t].file, Releasing(held, Fail));
  }
}
