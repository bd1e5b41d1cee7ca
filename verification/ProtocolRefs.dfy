/** The shared chunk store: reference counts are exact in every interleaving, a
    stored chunk disappears exactly with its last release, and an assembling file
    never finds one of its chunks gone. */
module ProtocolRefs {
  import opened Manifest
  import opened Plan
  import opened Protocol
  import opened ProtocolFlow

  ghost predicate Passed(phase: Phase, c: nat) {
    (phase.Releasing? && c !in phase.todo) || phase.Counted? || phase.Failed?
  }

  ghost predicate ReleasedBy(s: State, f: nat, c: nat) {
    exists t :: 0 <= t < |s.tasks| && s.tasks[t].file == f && Passed(s.tasks[t].phase, c)
  }

  /** Rows are released by their file's task, each at most once. */
  ghost predicate Tracked(j: Job, s: State) {
    && Flow(j, s)
    && (forall f: nat, c: nat :: (f, c) in s.released ==> ReleasedBy(s, f, c))
    && (forall t :: 0 <= t < |s.tasks| && s.tasks[t].phase.Releasing? ==>
          NoDuplicates(s.tasks[t].phase.todo) && s.tasks[t].file < |j.rows| &&
          forall c :: c in s.tasks[t].phase.todo ==> c < |j.rows[s.tasks[t].file]|)
  }

  ghost function Unreleased(j: Job, s: State, i: nat): set<(nat, nat)>
    requires i < |j.names|
  {
    RowsNamed(j, i) - s.released
  }

  ghost predicate RefsExact(j: Job, s: State) {
    |s.refs| == |j.names| && forall i :: 0 <= i < |j.names| ==> s.refs[i] == |Unreleased(j, s, i)|
  }

  /** A stored chunk that has been fetched is on disk exactly while it is referenced. */
  ghost predicate StoreExact(j: Job, s: State) {
    |s.refs| == |s.pc| == |j.names| == |j.eager| &&
    forall i :: 0 <= i < |j.names| && !j.eager[i] && Fetched(s.pc[i]) ==>
      (ChunkFile(j.names[i]) in s.store <==> s.refs[i] > 0)
  }

  // ---------------------------------------------------------------------------
  // Tracking
  // ---------------------------------------------------------------------------

  lemma {:induction false} OneTaskPerFile(j: Job, s: State, t: nat, x: nat)
    requires Flow(j, s) && t < |s.tasks| && x < |s.tasks| && s.tasks[t].file == s.tasks[x].file
    ensures t == x
  {
    assert s.sent[t] == s.sent[x];
  }

  lemma {:induction false} TaskFileIsOpen(j: Job, s: State, t: nat)
    requires Flow(j, s) && t < |s.tasks|
    ensures s.tasks[t].file in s.sent && s.tasks[t].file < |j.rows| && s.tasks[t].file !in j.completed
  {
    assert s.sent[t] == s.tasks[t].file;
    LaunchedIsOpen(j, s, s.tasks[t].file);
  }

  /** A task that changes phase without dropping a row it passed keeps the tracking. */
  lemma {:induction false} PhaseKeepsTracked(j: Job, s: State, t: nat, s': State)
    requires Tracked(j, s) && Flow(j, s') && t < |s.tasks| == |s'.tasks|
    requires s'.tasks == s.tasks[t := s'.tasks[t]] && s'.tasks[t].file == s.tasks[t].file && s'.released == s.released
    requires forall c :: Passed(s.tasks[t].phase, c) ==> Passed(s'.tasks[t].phase, c)
    requires s'.tasks[t].phase.Releasing? ==>
      NoDuplicates(s'.tasks[t].phase.todo) && s'.tasks[t].file < |j.rows| &&
      forall c :: c in s'.tasks[t].phase.todo ==> c < |j.rows[s'.tasks[t].file]|
    ensures Tracked(j, s')
  {
    forall f: nat, c: nat | (f, c) in s'.released ensures ReleasedBy(s', f, c) {
      var x :| 0 <= x < |s.tasks| && s.tasks[x].file == f && Passed(s.tasks[x].phase, c);
      assert s'.tasks[x].file == f && Passed(s'.tasks[x].phase, c);
    }
  }

  lemma {:induction false} NotPassedNotReleased(j: Job, s: State, t: nat, c: nat)
    requires Tracked(j, s) && t < |s.tasks| && !Passed(s.tasks[t].phase, c)
    ensures (s.tasks[t].file, c) !in s.released
  {
    forall x | 0 <= x < |s.tasks| && s.tasks[x].file == s.tasks[t].file ensures x == t {
      OneTaskPerFile(j, s, t, x);
    }
    assert !ReleasedBy(s, s.tasks[t].file, c);
  }

  lemma {:induction false} ReleaseKeepsTracked(j: Job, s: State, t: nat, at: Option<nat>)
    requires Tracked(j, s) && Enabled(j, s, Release(t, at))
    ensures Tracked(j, DoRelease(j, s, t, at))
    ensures (s.tasks[t].file, s.tasks[t].phase.todo[0]) !in s.released
  {
    var s', f, todo := DoRelease(j, s, t, at), s.tasks[t].file, s.tasks[t].phase.todo;
    StepKeepsFlow(j, s, Release(t, at));
    NotPassedNotReleased(j, s, t, todo[0]);
    assert Passed(s'.tasks[t].phase, todo[0]) && s'.tasks[t].file == f;
    assert forall c :: c in todo[1..] ==> c in todo;
    forall g: nat, c: nat | (g, c) in s'.released ensures ReleasedBy(s', g, c) {
      if (g, c) in s.released {
        var x :| 0 <= x < |s.tasks| && s.tasks[x].file == g && Passed(s.tasks[x].phase, c);
        assert s'.tasks[x].file == g && Passed(s'.tasks[x].phase, c);
      }
    }
  }

  lemma {:induction false} ReceiveKeepsTracked(j: Job, s: State)
    requires Tracked(j, s) && s.channel != []
    ensures Tracked(j, DoReceive(s))
  {
    var s' := DoReceive(s);
    StepKeepsFlow(j, s, Receive);
    forall f: nat, c: nat | (f, c) in s'.released ensures ReleasedBy(s', f, c) {
      var x :| 0 <= x < |s.tasks| && s.tasks[x].file == f && Passed(s.tasks[x].phase, c);
      assert s'.tasks[x] == s.tasks[x];
    }
  }

  lemma {:induction false} TaskStepKeepsTracked(j: Job, s: State, step: Step, t: nat)
    requires Tracked(j, s) && Enabled(j, s, step)
    requires match step
             case Claim(x) => x == t
             case FindValid(x) => x == t
             case Begin(x) => x == t
             case Succeed(x) => x == t
             case GiveUp(x, _) => x == t
             case Finish(x) => x == t
             case _ => false
    ensures Tracked(j, Apply(j, s, step))
  {
    StepKeepsFlow(j, s, step);
    PhaseKeepsTracked(j, s, t, Apply(j, s, step));
  }

  lemma {:induction false} StepKeepsTracked(j: Job, s: State, step: Step)
    requires Tracked(j, s) && Enabled(j, s, step)
    ensures Tracked(j, Apply(j, s, step))
  {
    if step.Receive? {
      ReceiveKeepsTracked(j, s);
    } else if step.Release? {
      ReleaseKeepsTracked(j, s, step.t, step.at);
    } else if step.Fetch? || step.FailItem? || step.Notify? || step.CountEager? {
      StepKeepsFlow(j, s, step);
      SameTasksTracked(j, s, Apply(j, s, step));
    } else {
      TaskStepKeepsTracked(j, s, step, step.t);
    }
  }

  lemma {:induction false} SameTasksTracked(j: Job, s: State, s': State)
    requires Tracked(j, s) && Flow(j, s') && s'.tasks == s.tasks && s'.released == s.released
    ensures Tracked(j, s')
  {
    forall f: nat, c: nat | (f, c) in s'.released ensures ReleasedBy(s', f, c) {
      assert ReleasedBy(s, f, c);
    }
  }

  // ---------------------------------------------------------------------------
  // Exact counts
  // ---------------------------------------------------------------------------

  lemma {:induction false} UnreleasedDrop(j: Job, s: State, s': State, x: (nat, nat), i: nat, y: nat)
    requires NoDuplicates(j.names) && i < |j.names| && y < |j.names|
    requires x in Unreleased(j, s, i) && s'.released == s.released + {x}
    ensures |Unreleased(j, s', y)| == |Unreleased(j, s, y)| - if y == i then 1 else 0
  {
    if y == i {
      assert Unreleased(j, s', y) == Unreleased(j, s, y) - {x};
    } else {
      assert j.names[y] != j.names[i];
      assert Unreleased(j, s', y) == Unreleased(j, s, y);
    }
  }

  lemma {:induction false} ReusedRowsCountNowhere(j: Job, s: State, s': State, x: (nat, nat), y: nat)
    requires y < |j.names| && IsRow(j, x.0, x.1) && !j.rows[x.0][x.1].downloaded
    requires s'.released == s.released + {x}
    ensures Unreleased(j, s', y) == Unreleased(j, s, y)
  {
  }

  lemma {:induction false} ItemOfRow(j: Job, f: nat, c: nat, i: nat)
    requires GoodJob(j) && NoDuplicates(j.names) && IsRow(j, f, c) && j.rows[f][c].downloaded
    requires i < |j.names| && j.names[i] == j.rows[f][c].name
    ensures (f, c) in RowsNamed(j, i)
    ensures exists k: nat :: IsEntry(j, i, k) && j.entries[i][k].file == f
  {
    assert RowHasEntry(j, f, c);
    var i': nat, k: nat :| IsEntry(j, i', k) && i' < |j.names| && j.names[i'] == j.rows[f][c].name && j.entries[i'][k].file == f;
    assert i' == i;
  }

  /** Releasing a downloaded row: its item is found and its count is positive. */
  lemma {:induction false} ReleaseDownloaded(j: Job, s: State, t: nat, at: Option<nat>)
    requires Tracked(j, s) && RefsExact(j, s) && Deduplicated(j) && Enabled(j, s, Release(t, at))
    requires var f, c := s.tasks[t].file, s.tasks[t].phase.todo[0]; IsRow(j, f, c) && j.rows[f][c].downloaded
    ensures at.Some? && (s.tasks[t].file, s.tasks[t].phase.todo[0]) in Unreleased(j, s, at.value)
    ensures s.refs[at.value] > 0
  {
    var f, c := s.tasks[t].file, s.tasks[t].phase.todo[0];
    ReleaseKeepsTracked(j, s, t, at);
    assert RowHasEntry(j, f, c);
    ItemOfRow(j, f, c, at.value);
    var u := Unreleased(j, s, at.value);
    assert (f, c) in u;
    assert |u| > 0;
  }

  lemma {:induction false} ReleaseKeepsRefs(j: Job, s: State, t: nat, at: Option<nat>)
    requires Tracked(j, s) && RefsExact(j, s) && Deduplicated(j) && Enabled(j, s, Release(t, at))
    requires IsRow(j, s.tasks[t].file, s.tasks[t].phase.todo[0])
    requires j.rows[s.tasks[t].file][s.tasks[t].phase.todo[0]].downloaded || at.None?
    ensures RefsExact(j, DoRelease(j, s, t, at))
  {
    var s', x := DoRelease(j, s, t, at), (s.tasks[t].file, s.tasks[t].phase.todo[0]);
    if j.rows[x.0][x.1].downloaded {
      ReleaseDownloaded(j, s, t, at);
      forall y: nat | y < |j.names| ensures s'.refs[y] == |Unreleased(j, s', y)| {
        UnreleasedDrop(j, s, s', x, at.value, y);
      }
    } else {
      forall y: nat | y < |j.names| ensures s'.refs[y] == |Unreleased(j, s', y)| {
        ReusedRowsCountNowhere(j, s, s', x, y);
      }
    }
  }

  lemma {:induction false} OnlyReleaseTouchesRefs(j: Job, s: State, step: Step)
    requires Enabled(j, s, step) && !step.Release?
    ensures var s' := Apply(j, s, step); s'.refs == s.refs && s'.released == s.released
  {
  }

  /** With reused and downloaded names apart, a reused row finds no item to release. */
  lemma {:induction false} ReleasedRow(j: Job, s: State, t: nat, at: Option<nat>)
    requires Flow(j, s) && ReusedNamesApart(j) && Enabled(j, s, Release(t, at))
    ensures var f, c := s.tasks[t].file, s.tasks[t].phase.todo[0];
            IsRow(j, f, c) && (j.rows[f][c].downloaded || at.None?)
  {
    TaskFileIsOpen(j, s, t);
    assert IsRow(j, s.tasks[t].file, s.tasks[t].phase.todo[0]);
  }

  lemma {:induction false} StepKeepsRefs(j: Job, s: State, step: Step)
    requires Tracked(j, s) && RefsExact(j, s) && Deduplicated(j) && ReusedNamesApart(j) && Enabled(j, s, step)
    ensures RefsExact(j, Apply(j, s, step))
  {
    var s' := Apply(j, s, step);
    if step.Release? {
      ReleasedRow(j, s, step.t, step.at);
      ReleaseKeepsRefs(j, s, step.t, step.at);
    } else {
      OnlyReleaseTouchesRefs(j, s, step);
      forall x: nat | x < |j.names| ensures s'.refs[x] == |Unreleased(j, s', x)| {
        assert Unreleased(j, s', x) == Unreleased(j, s, x);
      }
    }
  }

  // ---------------------------------------------------------------------------
  // The store
  // ---------------------------------------------------------------------------

  /** A row that has been released belongs to a sent file, so its item was fetched and is not eager. */
  lemma {:induction false} ReleasedMeansFetched(j: Job, s: State, i: nat, f: nat, c: nat)
    requires Tracked(j, s) && Deduplicated(j) && i < |j.names| && (f, c) in RowsNamed(j, i)
    requires f in s.sent
    ensures i < |s.pc| && Fetched(s.pc[i]) && !j.eager[i]
  {
    ItemOfRow(j, f, c, i);
    var k: nat :| IsEntry(j, i, k) && j.entries[i][k].file == f;
    SentMeansNotified(j, s, i, k);
  }

  /** Nothing of an item is released before it is fetched. */
  lemma {:induction false} WaitingIsReferenced(j: Job, s: State, i: nat)
    requires Tracked(j, s) && RefsExact(j, s) && Deduplicated(j)
    requires i < |s.pc| == |j.names| && s.pc[i].Waiting?
    ensures s.refs[i] > 0
  {
    forall x | x in RowsNamed(j, i) ensures x !in s.released {
      if x in s.released {
        assert ReleasedBy(s, x.0, x.1);
        var t :| 0 <= t < |s.tasks| && s.tasks[t].file == x.0 && Passed(s.tasks[t].phase, x.1);
        TaskFileIsOpen(j, s, t);
        ReleasedMeansFetched(j, s, i, x.0, x.1);
      }
    }
    assert Unreleased(j, s, i) == RowsNamed(j, i);
  }

  lemma {:induction false} StoreAfterFetch(j: Job, s: State, i: nat)
    requires StoreExact(j, s) && DistinctChunkFiles(j) && Enabled(j, s, Fetch(i)) && s.refs[i] > 0
    ensures StoreExact(j, DoFetch(j, s, i))
  {
    forall x | 0 <= x < |j.names| && x != i ensures ChunkFile(j.names[x]) != ChunkFile(j.names[i]) {
    }
  }

  lemma {:induction false} FetchKeepsStore(j: Job, s: State, i: nat)
    requires Tracked(j, s) && RefsExact(j, s) && StoreExact(j, s) && Deduplicated(j) && DistinctChunkFiles(j)
    requires Enabled(j, s, Fetch(i))
    ensures StoreExact(j, DoFetch(j, s, i))
  {
    WaitingIsReferenced(j, s, i);
    StoreAfterFetch(j, s, i);
  }

  lemma {:induction false} FoundReleaseKeepsStore(j: Job, s: State, t: nat, i: nat)
    requires StoreExact(j, s) && DistinctChunkFiles(j) && Enabled(j, s, Release(t, Some(i))) && s.refs[i] > 0
    ensures StoreExact(j, DoRelease(j, s, t, Some(i)))
  {
    StoreAfterRelease(j, s, DoRelease(j, s, t, Some(i)), i);
  }

  lemma {:induction false} MissedReleaseKeepsStore(j: Job, s: State, t: nat)
    requires StoreExact(j, s) && Enabled(j, s, Release(t, None))
    ensures StoreExact(j, DoRelease(j, s, t, None))
  {
  }

  lemma {:induction false} ReleaseKeepsStore(j: Job, s: State, t: nat, at: Option<nat>)
    requires Tracked(j, s) && RefsExact(j, s) && StoreExact(j, s) && Deduplicated(j) && DistinctChunkFiles(j)
    requires ReusedNamesApart(j) && Enabled(j, s, Release(t, at))
    ensures StoreExact(j, DoRelease(j, s, t, at))
  {
    hide StoreExact, DoRelease, GoodJob;
    if at.Some? {
      ReleasedRow(j, s, t, at);
      ReleaseDownloaded(j, s, t, at);
      FoundReleaseKeepsStore(j, s, t, at.value);
    } else {
      MissedReleaseKeepsStore(j, s, t);
    }
  }

  lemma {:induction false} StoreAfterRelease(j: Job, s: State, s': State, i: nat)
    requires StoreExact(j, s) && DistinctChunkFiles(j) && i < |j.names| && s.refs[i] > 0
    requires s'.pc == s.pc && s'.refs == s.refs[i := s.refs[i] - 1]
    requires s'.store == if s.refs[i] == 1 then s.store - {ChunkFile(j.names[i])} else s.store
    ensures StoreExact(j, s')
  {
    forall x | 0 <= x < |j.names| && x != i ensures ChunkFile(j.names[x]) != ChunkFile(j.names[i]) {
    }
  }

  lemma {:induction false} OthersKeepStore(j: Job, s: State, step: Step)
    requires Enabled(j, s, step) && !step.Release? && !step.Fetch?
    ensures var s' := Apply(j, s, step);
            && s'.refs == s.refs && s'.store == s.store && |s'.pc| == |s.pc|
            && forall i :: 0 <= i < |s.pc| ==> (Fetched(s'.pc[i]) <==> Fetched(s.pc[i]))
  {
  }

  lemma {:induction false} StepKeepsStore(j: Job, s: State, step: Step)
    requires Tracked(j, s) && RefsExact(j, s) && StoreExact(j, s) && Deduplicated(j) && DistinctChunkFiles(j)
    requires ReusedNamesApart(j) && Enabled(j, s, step)
    ensures StoreExact(j, Apply(j, s, step))
  {
    if step.Fetch? {
      FetchKeepsStore(j, s, step.i);
    } else if step.Release? {
      ReleaseKeepsStore(j, s, step.t, step.at);
    } else {
      OthersKeepStore(j, s, step);
    }
  }

  // ---------------------------------------------------------------------------
  // Main results
  // ---------------------------------------------------------------------------

  ghost predicate SafeJob(j: Job) {
    GoodJob(j) && Deduplicated(j) && ReusedNamesApart(j) && DistinctChunkFiles(j)
  }

  lemma {:induction false} RunKeepsTracked(j: Job, run: seq<State>, steps: seq<Step>)
    requires GoodJob(j) && IsRun(j, run, steps)
    ensures Tracked(j, run[|steps|])
  {
    if steps == [] {
      StartFlow(j);
    } else {
      var n := |steps| - 1;
      RunKeepsTracked(j, run[..n + 1], steps[..n]);
      StepKeepsTracked(j, run[n], steps[n]);
    }
  }

  lemma {:induction false} RunKeepsRefs(j: Job, run: seq<State>, steps: seq<Step>)
    requires GoodJob(j) && Deduplicated(j) && ReusedNamesApart(j) && IsRun(j, run, steps)
    ensures Tracked(j, run[|steps|]) && RefsExact(j, run[|steps|])
  {
    RunKeepsTracked(j, run, steps);
    if steps == [] {
      forall i | 0 <= i < |j.names| ensures j.refcounts[i] == |Unreleased(j, run[0], i)| {
        assert Unreleased(j, run[0], i) == RowsNamed(j, i);
      }
    } else {
      var n := |steps| - 1;
      RunKeepsRefs(j, run[..n + 1], steps[..n]);
      StepKeepsRefs(j, run[n], steps[n]);
    }
  }

  lemma {:induction false} RunKeepsStore(j: Job, run: seq<State>, steps: seq<Step>)
    requires SafeJob(j) && IsRun(j, run, steps)
    ensures StoreExact(j, run[|steps|])
  {
    if steps != [] {
      var n := |steps| - 1;
      RunKeepsRefs(j, run[..n + 1], steps[..n]);
      RunKeepsStore(j, run[..n + 1], steps[..n]);
      StepKeepsStore(j, run[n], steps[n]);
    }
  }

  /** In every reachable state a reference count is the number of rows that have not
      been released, no release underflows, and no row is released twice. */
  lemma {:induction false} RefcountsAreExact(j: Job, s: State)
    requires GoodJob(j) && Deduplicated(j) && ReusedNamesApart(j) && Reachable(j, s)
    ensures RefsExact(j, s)
    ensures forall t: nat, at: Option<nat> :: Enabled(j, s, Release(t, at)) ==>
              (at.Some? ==> s.refs[at.value] > 0) && (s.tasks[t].file, s.tasks[t].phase.todo[0]) !in s.released
  {
    var run, steps :| IsRun(j, run, steps) && run[|steps|] == s;
    RunKeepsRefs(j, run, steps);
    forall t: nat, at: Option<nat> | Enabled(j, s, Release(t, at))
      ensures at.Some? ==> s.refs[at.value] > 0
      ensures (s.tasks[t].file, s.tasks[t].phase.todo[0]) !in s.released
    {
      ReleasedRow(j, s, t, at);
      ReleaseKeepsTracked(j, s, t, at);
      if at.Some? {
        ReleaseDownloaded(j, s, t, at);
      }
    }
  }

  /** A fetched chunk is on disk exactly while some row that uses it is unreleased. */
  lemma {:induction false} DeletedExactlyWithLastRelease(j: Job, s: State, i: nat)
    requires SafeJob(j) && Reachable(j, s) && i < |j.names| && !j.eager[i]
    requires i < |s.pc| && Fetched(s.pc[i])
    ensures ChunkFile(j.names[i]) in s.store <==> Unreleased(j, s, i) != {}
  {
    var run, steps :| IsRun(j, run, steps) && run[|steps|] == s;
    RunKeepsRefs(j, run, steps);
    RunKeepsStore(j, run, steps);
  }

  lemma {:induction false} ChunkOfAssemblingFile(j: Job, s: State, t: nat, c: nat) returns (i: nat)
    requires Tracked(j, s) && Deduplicated(j) && t < |s.tasks| && s.tasks[t].phase.Assembling?
    requires s.tasks[t].file < |j.rows| && c < |j.rows[s.tasks[t].file]| && j.rows[s.tasks[t].file][c].downloaded
    ensures i < |j.names| && j.names[i] == j.rows[s.tasks[t].file][c].name
    ensures i < |s.pc| && Fetched(s.pc[i]) && !j.eager[i] && (s.tasks[t].file, c) in Unreleased(j, s, i)
  {
    var f := s.tasks[t].file;
    TaskFileIsOpen(j, s, t);
    NotPassedNotReleased(j, s, t, c);
    assert IsRow(j, f, c) && RowHasEntry(j, f, c);
    i :| i < |j.names| && j.names[i] == j.rows[f][c].name;
    assert (f, c) in RowsNamed(j, i);
    ReleasedMeansFetched(j, s, i, f, c);
  }

  /** While a file is being assembled, every downloaded chunk of it is on disk. */
  lemma {:induction false} AssemblyNeverMissesAChunk(j: Job, s: State, t: nat, c: nat)
    requires SafeJob(j) && Reachable(j, s) && t < |s.tasks| && s.tasks[t].phase.Assembling?
    requires s.tasks[t].file < |j.rows| && c < |j.rows[s.tasks[t].file]| && j.rows[s.tasks[t].file][c].downloaded
    ensures ChunkFile(j.rows[s.tasks[t].file][c].name) in s.store
  {
    var run, steps :| IsRun(j, run, steps) && run[|steps|] == s;
    RunKeepsTracked(j, run, steps);
    var i := ChunkOfAssemblingFile(j, s, t, c);
    DeletedExactlyWithLastRelease(j, s, i);
  }

  /** Chunk files are named by replacing an extension, so two chunk names can collide;
      names without a dot do not. */
  lemma {:induction false} NamesCanCollide()
    ensures "a.1" != "a.2" && ChunkFile("a.1") == ChunkFile("a.2")
  {
    assert ExtensionDot("a.1", 2) == Some(1) && ExtensionDot("a.1", 3) == Some(1);
    assert ExtensionDot("a.2", 2) == Some(1) && ExtensionDot("a.2", 3) == Some(1);
    assert "a.1"[..1] == "a.2"[..1];
  }

  lemma {:induction false} DotlessNamesDiffer(a: string, b: string)
    requires '.' !in a && '.' !in b && ChunkFile(a) == ChunkFile(b)
    ensures a == b
  {
    var x, y := ExtensionDot(a, |a|), ExtensionDot(b, |b|);
    assert ChunkFile(a)[..|a|] == a && ChunkFile(b)[..|b|] == b;
  }

  /** A dot that can start an extension, at `d` before `end`. */
  predicate StartsExtension(name: string, d: nat, end: nat) {
    && 0 < d < end <= |name| && name[d] == '.' && name[d - 1] != '/'
    && forall x :: d < x < end ==> name[x] != '.' && name[x] != '/'
  }

  lemma {:induction false} ExtensionDotFinds(name: string, end: nat, d: nat)
    requires end <= |name|
    ensures ExtensionDot(name, end) == Some(d) <==> StartsExtension(name, d, end)
  {
    if end > 0 && name[end - 1] != '/' && name[end - 1] != '.' {
      ExtensionDotFinds(name, end - 1, d);
    }
  }

  /** Exactly how a chunk's file is named: what follows the last dot of the last component gives
      way to `zstd`, if that dot does not begin the component; any other name gets it appended. */
  lemma {:induction false} ChunkFileExactly(name: string)
    ensures forall stem, ext :: stem != "" && stem[|stem| - 1] != '/' && '.' !in ext && '/' !in ext && name == stem + "." + ext ==>
              ChunkFile(name) == stem + ".zstd"
    ensures (forall d: nat :: !StartsExtension(name, d, |name|)) ==> ChunkFile(name) == name + ".zstd"
  {
    forall stem, ext | stem != "" && stem[|stem| - 1] != '/' && '.' !in ext && '/' !in ext && name == stem + "." + ext
      ensures ChunkFile(name) == stem + ".zstd"
    {
      var d := |stem|;
      forall x | d < x < |name| ensures name[x] != '.' && name[x] != '/' {
        assert name[x] == ext[x - d - 1];
      }
      assert name[d] == '.' && name[d - 1] == stem[d - 1] && name[..d] == stem;
      ExtensionDotFinds(name, |name|, d);
    }
    if forall d: nat :: !StartsExtension(name, d, |name|) {
      var at := ExtensionDot(name, |name|);
      if at.Some? {
        ExtensionDotFinds(name, |name|, at.value);
      }
    }
  }
}
