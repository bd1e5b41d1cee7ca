/** Completion safety: in every mode and every interleaving each file is completed
    or sent to assembly at most once, only after all its chunks are in place, and
    raises the completion counter at most once. */
module ProtocolFlow {
  import opened Manifest
  import opened Plan
  import opened Protocol

  // ---------------------------------------------------------------------------
  // The invariant
  // ---------------------------------------------------------------------------

  /** Entries of slot `p` whose notification has not been made yet. */
  ghost function Open(j: Job, pc: seq<ItemPc>, p: nat): set<(nat, nat)>
    requires |pc| == |j.entries|
  {
    set i: nat, k: nat |
      i < |j.entries| && k < |j.entries[i]| && j.entries[i][k].pending == p && Cursor(pc[i]) <= k :: (i, k)
  }

  ghost predicate Shape(j: Job, s: State) {
    && |s.pc| == |j.entries| && |s.pending| == |j.pending| && |s.flags| == |j.rows| && |s.refs| == |j.refcounts|
    && forall i :: 0 <= i < |s.pc| ==> Cursor(s.pc[i]) <= |j.entries[i]|
  }

  ghost predicate PendingExact(j: Job, s: State)
    requires Shape(j, s)
  {
    forall p: nat :: p < |s.pending| ==> s.pending[p] == |Open(j, s.pc, p)|
  }

  /** The file's own chunks are done and it takes the assembly route. */
  ghost predicate Launched(j: Job, s: State, f: nat)
    requires |s.pending| == |j.slots| == |j.slotEager|
  {
    f in j.sent || exists p: nat :: p < |j.slots| && j.slots[p] == f && s.pending[p] == 0 && !j.slotEager[p]
  }

  ghost predicate SentExact(j: Job, s: State)
    requires |s.pending| == |j.slots| == |j.slotEager|
  {
    && NoDuplicates(s.sent)
    && forall f: nat :: f in s.sent <==> Launched(j, s, f)
  }

  /** Every message is either still queued or became the task of its position. */
  ghost predicate TasksFromMessages(s: State) {
    && |s.tasks| <= |s.sent|
    && s.channel == s.sent[|s.tasks|..]
    && forall t :: 0 <= t < |s.tasks| ==> s.tasks[t].file == s.sent[t]
  }

  ghost predicate BeingCounted(s: State, f: nat) {
    exists i :: 0 <= i < |s.pc| && s.pc[i].Completing? && s.pc[i].file == f
  }

  ghost predicate CompletingSound(j: Job, s: State)
    requires Shape(j, s) && |j.slots| == |j.pending| && GoodJob(j)
  {
    && (forall i :: 0 <= i < |s.pc| && s.pc[i].Completing? ==>
          && 0 < s.pc[i].k
          && j.entries[i][s.pc[i].k - 1].file == s.pc[i].file
          && j.eager[i]
          && IsEntry(j, i, s.pc[i].k - 1)
          && s.pending[j.entries[i][s.pc[i].k - 1].pending] == 0)
    && (forall x, y :: 0 <= x < y < |s.pc| && s.pc[x].Completing? && s.pc[y].Completing? ==> s.pc[x].file != s.pc[y].file)
  }

  ghost predicate CountedByTask(s: State, f: nat) {
    exists t :: 0 <= t < |s.tasks| && s.tasks[t].file == f && s.tasks[t].phase.Counted?
  }

  ghost predicate CountedEagerly(j: Job, s: State, f: nat)
    requires |s.pending| == |j.slots| == |j.slotEager|
  {
    !BeingCounted(s, f) && exists p: nat :: p < |j.slots| && j.slots[p] == f && s.pending[p] == 0 && j.slotEager[p]
  }

  ghost predicate CountedExact(j: Job, s: State)
    requires |s.pending| == |j.slots| == |j.slotEager|
  {
    && s.assembled == |j.completed| + |s.counted|
    && NoDuplicates(s.counted)
    && forall f: nat :: f in s.counted <==> CountedByTask(s, f) || CountedEagerly(j, s, f)
  }

  ghost predicate Flow(j: Job, s: State) {
    && GoodJob(j) && Shape(j, s)
    && PendingExact(j, s)
    && SentExact(j, s)
    && TasksFromMessages(s)
    && CompletingSound(j, s)
    && CountedExact(j, s)
  }

  // ---------------------------------------------------------------------------
  // Start
  // ---------------------------------------------------------------------------

  lemma {:induction false} StartFlow(j: Job)
    requires GoodJob(j)
    ensures Flow(j, Start(j))
  {
    var s := Start(j);
    forall p: nat | p < |s.pending| ensures s.pending[p] == |Open(j, s.pc, p)| {
      assert Open(j, s.pc, p) == Consumers(j, p);
    }
  }

  // ---------------------------------------------------------------------------
  // Consequences used by the steps
  // ---------------------------------------------------------------------------

  lemma {:induction false} SameSlot(j: Job, p: nat, q: nat)
    requires GoodJob(j) && p < |j.slots| && q < |j.slots| && j.slots[p] == j.slots[q]
    ensures p == q
  {
  }

  /** A slot at zero has had every one of its entries notified. */
  lemma {:induction false} ZeroMeansNotified(j: Job, s: State, i: nat, k: nat)
    requires Flow(j, s) && IsEntry(j, i, k) && s.pending[j.entries[i][k].pending] == 0
    ensures k < Cursor(s.pc[i])
  {
    var p := j.entries[i][k].pending;
    assert |Open(j, s.pc, p)| == 0;
    assert (i, k) !in Open(j, s.pc, p);
  }

  /** Moving one item's cursor over an entry takes that entry out of its slot. */
  lemma {:induction false} OpenAfterNotify(j: Job, pc: seq<ItemPc>, i: nat, pc': ItemPc, p: nat)
    requires |pc| == |j.entries| && i < |pc| && Cursor(pc[i]) < |j.entries[i]| && Cursor(pc') == Cursor(pc[i]) + 1
    ensures var k := Cursor(pc[i]);
            var q := j.entries[i][k].pending;
            && (i, k) in Open(j, pc, q)
            && |Open(j, pc[i := pc'], p)| == |Open(j, pc, p)| - if p == q then 1 else 0
  {
    var k := Cursor(pc[i]);
    var q := j.entries[i][k].pending;
    var a, b := Open(j, pc, p), Open(j, pc[i := pc'], p);
    if p == q {
      assert (i, k) in a;
      assert b == a - {(i, k)};
    } else {
      assert b == a;
    }
  }

  lemma {:induction false} OpenUnchanged(j: Job, pc: seq<ItemPc>, pc': seq<ItemPc>, p: nat)
    requires |pc| == |pc'| == |j.entries|
    requires forall i :: 0 <= i < |pc| ==> Cursor(pc'[i]) == Cursor(pc[i])
    ensures Open(j, pc', p) == Open(j, pc, p)
  {
  }

  // ---------------------------------------------------------------------------
  // Steps
  // ---------------------------------------------------------------------------

  lemma {:induction false} FetchKeepsFlow(j: Job, s: State, i: nat, s': State)
    requires Flow(j, s) && i < |s.pc| && s.pc[i].Waiting?
    requires s' == s.(pc := s'.pc, store := s'.store)
    requires s'.pc == s.pc[i := Notifying(0)] || s'.pc == s.pc[i := Errored]
    ensures Flow(j, s')
  {
    forall p: nat | p < |s.pending| ensures s'.pending[p] == |Open(j, s'.pc, p)| {
      OpenUnchanged(j, s.pc, s'.pc, p);
    }
    SameCounting(j, s, s');
    assert forall f: nat :: Launched(j, s', f) <==> Launched(j, s, f);
  }

  /** Counting looks only at pending counts, tasks and the items being completed. */
  lemma {:induction false} SameCounting(j: Job, s: State, s': State)
    requires Flow(j, s) && s'.pending == s.pending && s'.tasks == s.tasks && |s'.pc| == |s.pc|
    requires forall i :: 0 <= i < |s.pc| ==> s'.pc[i].Completing? == s.pc[i].Completing?
    requires forall i :: 0 <= i < |s.pc| && s.pc[i].Completing? ==> s'.pc[i] == s.pc[i]
    ensures forall f: nat :: BeingCounted(s', f) <==> BeingCounted(s, f)
    ensures forall f: nat :: CountedEagerly(j, s', f) <==> CountedEagerly(j, s, f)
    ensures forall f: nat :: CountedByTask(s', f) <==> CountedByTask(s, f)
  {
    forall f: nat ensures BeingCounted(s', f) <==> BeingCounted(s, f) {
      if BeingCounted(s, f) {
        var i :| 0 <= i < |s.pc| && s.pc[i].Completing? && s.pc[i].file == f;
        assert s'.pc[i].Completing? && s'.pc[i].file == f;
      }
    }
  }

  lemma {:induction false} NotifyPending(j: Job, s: State, i: nat)
    requires Flow(j, s) && Enabled(j, s, Notify(i))
    ensures var s', q := DoNotify(j, s, i), j.entries[i][s.pc[i].k].pending;
            && Shape(j, s') && PendingExact(j, s')
            && s.pending[q] > 0 && s'.pending == s.pending[q := s.pending[q] - 1]
  {
    var s', k := DoNotify(j, s, i), s.pc[i].k;
    var q := j.entries[i][k].pending;
    assert s'.pc == s.pc[i := s'.pc[i]] && Cursor(s'.pc[i]) == k + 1;
    OpenAfterNotify(j, s.pc, i, s'.pc[i], q);
    assert |Open(j, s.pc, q)| > 0;
    forall p: nat | p < |s.pending| ensures s'.pending[p] == |Open(j, s'.pc, p)| {
      OpenAfterNotify(j, s.pc, i, s'.pc[i], p);
    }
  }

  lemma {:induction false} NotifySent(j: Job, s: State, i: nat)
    requires Flow(j, s) && Enabled(j, s, Notify(i))
    ensures var s' := DoNotify(j, s, i); Shape(j, s') && SentExact(j, s') && TasksFromMessages(s')
  {
    NotifyPending(j, s, i);
    var s', e := DoNotify(j, s, i), j.entries[i][s.pc[i].k];
    forall f: nat ensures Launched(j, s', f) <==> Launched(j, s, f) || (f == e.file && s.pending[e.pending] == 1 && !j.eager[i]) {
      if Launched(j, s, f) && f !in j.sent {
        var p: nat :| p < |j.slots| && j.slots[p] == f && s.pending[p] == 0 && !j.slotEager[p];
        assert s'.pending[p] == 0;
      }
      if f == e.file && s.pending[e.pending] == 1 && !j.eager[i] {
        assert j.slots[e.pending] == f && s'.pending[e.pending] == 0;
      }
    }
    assert !Launched(j, s, e.file) by {
      assert e.file in j.slots;
    }
  }

  lemma {:induction false} NotifyCompleting(j: Job, s: State, i: nat)
    requires Flow(j, s) && Enabled(j, s, Notify(i))
    ensures var s' := DoNotify(j, s, i); Shape(j, s') && CompletingSound(j, s')
  {
    hide PendingExact, SentExact, CountedExact, TasksFromMessages, Launched, Consumers;
    NotifyPending(j, s, i);
    var s', k := DoNotify(j, s, i), s.pc[i].k;
    var e := j.entries[i][k];
    forall x | 0 <= x < |s.pc| && x != i && s.pc[x].Completing? ensures s.pc[x].file != e.file {
      var d := j.entries[x][s.pc[x].k - 1];
      assert IsEntry(j, x, s.pc[x].k - 1) && s.pending[d.pending] == 0;
    }
  }

  lemma {:induction false} NotifyCounted(j: Job, s: State, i: nat)
    requires Flow(j, s) && Enabled(j, s, Notify(i))
    ensures var s' := DoNotify(j, s, i); Shape(j, s') && CountedExact(j, s')
  {
    NotifyPending(j, s, i);
    var s', e := DoNotify(j, s, i), j.entries[i][s.pc[i].k];
    var completes := s.pending[e.pending] == 1 && j.eager[i];
    assert IsEntry(j, i, s.pc[i].k);
    forall f: nat ensures BeingCounted(s', f) <==> BeingCounted(s, f) || (completes && f == e.file) {
      if BeingCounted(s, f) {
        var x :| 0 <= x < |s.pc| && s.pc[x].Completing? && s.pc[x].file == f;
        assert s'.pc[x] == s.pc[x];
      }
      if completes && f == e.file {
        assert s'.pc[i].Completing? && s'.pc[i].file == f;
      }
    }
    forall f: nat ensures CountedEagerly(j, s', f) <==> CountedEagerly(j, s, f) {
      if f == e.file {
        assert j.slots[e.pending] == f && s.pending[e.pending] != 0;
        assert !CountedEagerly(j, s, f);
      } else {
        assert forall p: nat :: p < |j.slots| && j.slots[p] == f ==> s'.pending[p] == s.pending[p];
      }
    }
    assert forall f: nat :: CountedByTask(s', f) <==> CountedByTask(s, f);
  }

  lemma {:induction false} LaunchedIsNotEager(j: Job, s: State, f: nat, p: nat)
    requires Flow(j, s) && Launched(j, s, f) && p < |j.slots| && j.slots[p] == f
    ensures s.pending[p] == 0 && !j.slotEager[p]
  {
    assert f in j.slots;
  }

  lemma {:induction false} LaunchedIsOpen(j: Job, s: State, f: nat)
    requires Flow(j, s) && Launched(j, s, f)
    ensures f < |j.rows| && f !in j.completed
  {
    if f !in j.sent {
      var p: nat :| p < |j.slots| && j.slots[p] == f && s.pending[p] == 0 && !j.slotEager[p];
      assert f in j.slots;
    }
  }

  /** The item that is completing `f` owns the count: no task of `f` exists. */
  lemma {:induction false} CompletingIsUncounted(j: Job, s: State, i: nat)
    requires Flow(j, s) && i < |s.pc| && s.pc[i].Completing?
    ensures var f := s.pc[i].file;
            && BeingCounted(s, f) && !CountedByTask(s, f) && f !in s.counted
            && exists p: nat :: p < |j.slots| && j.slots[p] == f && s.pending[p] == 0 && j.slotEager[p]
  {
    var f, e := s.pc[i].file, j.entries[i][s.pc[i].k - 1];
    assert IsEntry(j, i, s.pc[i].k - 1);
    assert j.slots[e.pending] == f && s.pending[e.pending] == 0 && j.slotEager[e.pending];
    forall t | 0 <= t < |s.tasks| && s.tasks[t].file == f ensures false {
      assert s.sent[t] == f;
      LaunchedIsNotEager(j, s, f, e.pending);
    }
  }

  lemma {:induction false} CountEagerCounts(j: Job, s: State, i: nat)
    requires Flow(j, s) && Enabled(j, s, CountEager(i))
    ensures CountedExact(j, DoCountEager(j, s, i))
  {
    var s', f := DoCountEager(j, s, i), s.pc[i].file;
    CompletingIsUncounted(j, s, i);
    forall g: nat ensures BeingCounted(s', g) <==> BeingCounted(s, g) && g != f {
      if BeingCounted(s, g) && g != f {
        var x :| 0 <= x < |s.pc| && s.pc[x].Completing? && s.pc[x].file == g;
        assert s'.pc[x] == s.pc[x];
      }
    }
    var p: nat :| p < |j.slots| && j.slots[p] == f && s.pending[p] == 0 && j.slotEager[p];
    assert CountedEagerly(j, s', f);
    assert forall g: nat :: g != f ==> (CountedEagerly(j, s', g) <==> CountedEagerly(j, s, g));
    assert forall g: nat :: CountedByTask(s', g) <==> CountedByTask(s, g);
  }

  lemma {:induction false} CountEagerKeepsFlow(j: Job, s: State, i: nat)
    requires Flow(j, s) && Enabled(j, s, CountEager(i))
    ensures Flow(j, DoCountEager(j, s, i))
  {
    var s' := DoCountEager(j, s, i);
    CountEagerCounts(j, s, i);
    forall p: nat | p < |s.pending| ensures s'.pending[p] == |Open(j, s'.pc, p)| {
      OpenUnchanged(j, s.pc, s'.pc, p);
    }
    assert forall g: nat :: Launched(j, s', g) <==> Launched(j, s, g);
  }

  lemma {:induction false} ReceiveKeepsFlow(j: Job, s: State)
    requires Flow(j, s) && s.channel != []
    ensures Flow(j, DoReceive(s))
  {
    var s' := DoReceive(s);
    assert s.sent[|s.tasks|] == s.channel[0];
    forall f: nat ensures CountedByTask(s', f) <==> CountedByTask(s, f) {
      if CountedByTask(s, f) {
        var t :| 0 <= t < |s.tasks| && s.tasks[t].file == f && s.tasks[t].phase.Counted?;
        assert s'.tasks[t] == s.tasks[t];
      }
    }
    SameItems(j, s, s');
  }

  /** Nothing about items changes when only tasks do. */
  lemma {:induction false} SameItems(j: Job, s: State, s': State)
    requires Flow(j, s) && s'.pc == s.pc && s'.pending == s.pending
    ensures forall f: nat :: BeingCounted(s', f) <==> BeingCounted(s, f)
    ensures forall f: nat :: CountedEagerly(j, s', f) <==> CountedEagerly(j, s, f)
    ensures forall f: nat :: Launched(j, s', f) <==> Launched(j, s, f)
  {
  }

  /** A task moving between phases that are not `Counted`. */
  lemma {:induction false} PhaseKeepsFlow(j: Job, s: State, t: nat, s': State)
    requires Flow(j, s) && t < |s.tasks| && |s'.tasks| == |s.tasks| && |s'.flags| == |s.flags| && |s'.refs| == |s.refs|
    requires s' == s.(tasks := s'.tasks, flags := s'.flags, refs := s'.refs, store := s'.store,
                      released := s'.released, skipped := s'.skipped)
    requires s'.tasks == s.tasks[t := s'.tasks[t]] && s'.tasks[t].file == s.tasks[t].file
    requires !s.tasks[t].phase.Counted? && !s'.tasks[t].phase.Counted?
    ensures Flow(j, s')
  {
    SameItems(j, s, s');
    forall f: nat ensures CountedByTask(s', f) <==> CountedByTask(s, f) {
      if CountedByTask(s, f) {
        var x :| 0 <= x < |s.tasks| && s.tasks[x].file == f && s.tasks[x].phase.Counted?;
        assert s'.tasks[x] == s.tasks[x];
      }
    }
  }

  lemma {:induction false} CountKeepsFlow(j: Job, s: State, t: nat)
    requires Flow(j, s) && Enabled(j, s, Finish(t)) && s.tasks[t].phase.after == Count
    ensures Flow(j, DoFinish(j, s, t))
  {
    var s', f := DoFinish(j, s, t), s.tasks[t].file;
    SameItems(j, s, s');
    assert s.sent[t] == f;
    assert f !in s.counted by {
      forall x | 0 <= x < |s.tasks| && s.tasks[x].file == f ensures x == t {
        assert s.sent[x] == f;
      }
      if CountedEagerly(j, s, f) {
        var p: nat :| p < |j.slots| && j.slots[p] == f && s.pending[p] == 0 && j.slotEager[p];
        LaunchedIsNotEager(j, s, f, p);
      }
    }
    assert s'.tasks[t].phase.Counted? && s'.tasks[t].file == f;
    forall g: nat ensures CountedByTask(s', g) <==> CountedByTask(s, g) || g == f {
      if CountedByTask(s, g) {
        var x :| 0 <= x < |s.tasks| && s.tasks[x].file == g && s.tasks[x].phase.Counted?;
        assert s'.tasks[x] == s.tasks[x];
      }
    }
  }

  /** Every step of every worker and task keeps the invariant. */
  lemma {:induction false} StepKeepsFlow(j: Job, s: State, step: Step)
    requires Flow(j, s) && Enabled(j, s, step)
    ensures Flow(j, Apply(j, s, step))
  {
    match step
    case Fetch(i) => FetchKeepsFlow(j, s, i, Apply(j, s, step));
    case FailItem(i) => FetchKeepsFlow(j, s, i, Apply(j, s, step));
    case Notify(i) =>
      NotifyPending(j, s, i);
      NotifySent(j, s, i);
      NotifyCompleting(j, s, i);
      NotifyCounted(j, s, i);
    case CountEager(i) => CountEagerKeepsFlow(j, s, i);
    case Receive => ReceiveKeepsFlow(j, s);
    case Claim(t) => PhaseKeepsFlow(j, s, t, Apply(j, s, step));
    case FindValid(t) => PhaseKeepsFlow(j, s, t, Apply(j, s, step));
    case Begin(t) => PhaseKeepsFlow(j, s, t, Apply(j, s, step));
    case Succeed(t) => PhaseKeepsFlow(j, s, t, Apply(j, s, step));
    case GiveUp(t, held) => PhaseKeepsFlow(j, s, t, Apply(j, s, step));
    case Release(t, at) => PhaseKeepsFlow(j, s, t, Apply(j, s, step));
    case Finish(t) =>
      if s.tasks[t].phase.after == Count {
        CountKeepsFlow(j, s, t);
      } else {
        PhaseKeepsFlow(j, s, t, Apply(j, s, step));
      }
  }

  lemma {:induction false} RunKeepsFlow(j: Job, run: seq<State>, steps: seq<Step>)
    requires GoodJob(j) && IsRun(j, run, steps)
    ensures Flow(j, run[|steps|])
  {
    if steps == [] {
      StartFlow(j);
    } else {
      var n := |steps| - 1;
      RunKeepsFlow(j, run[..n + 1], steps[..n]);
      StepKeepsFlow(j, run[n], steps[n]);
    }
  }

  // ---------------------------------------------------------------------------
  // Main results
  // ---------------------------------------------------------------------------

  /** Each open file is sent at most once and started at most once; a sent file has
      had every entry notified, so every chunk it needs is in place. */
  lemma {:induction false} SentOnceAndOnlyWhenReady(j: Job, s: State)
    requires GoodJob(j) && Reachable(j, s)
    ensures NoDuplicates(s.sent) && forall x, y :: 0 <= x < y < |s.tasks| ==> s.tasks[x].file != s.tasks[y].file
    ensures forall t :: 0 <= t < |s.tasks| ==> s.tasks[t].file in s.sent
    ensures forall f: nat :: f in s.sent ==> f < |j.rows| && f !in j.completed
    ensures |s.pc| == |j.entries|
    ensures forall i: nat, k: nat :: IsEntry(j, i, k) && j.entries[i][k].file in s.sent ==>
              Fetched(s.pc[i]) && k < Cursor(s.pc[i]) && |j.eager| == |j.entries| && !j.eager[i]
  {
    var run, steps :| IsRun(j, run, steps) && run[|steps|] == s;
    RunKeepsFlow(j, run, steps);
    forall x, y | 0 <= x < y < |s.tasks| ensures s.tasks[x].file != s.tasks[y].file {
      assert s.sent[x] != s.sent[y];
    }
    forall t | 0 <= t < |s.tasks| ensures s.tasks[t].file in s.sent {
      assert s.sent[t] == s.tasks[t].file;
    }
    forall f: nat | f in s.sent ensures f < |j.rows| && f !in j.completed {
      LaunchedIsOpen(j, s, f);
    }
    forall i: nat, k: nat | IsEntry(j, i, k) && j.entries[i][k].file in s.sent
      ensures k < Cursor(s.pc[i]) && !j.eager[i]
    {
      SentMeansNotified(j, s, i, k);
    }
  }

  lemma {:induction false} SentMeansNotified(j: Job, s: State, i: nat, k: nat)
    requires Flow(j, s) && IsEntry(j, i, k) && j.entries[i][k].file in s.sent
    ensures k < Cursor(s.pc[i]) && !j.eager[i]
  {
    var p := j.entries[i][k].pending;
    LaunchedIsNotEager(j, s, j.entries[i][k].file, p);
    ZeroMeansNotified(j, s, i, k);
  }

  /** The file was done before the run, its eager chunks were all written, or a task finished it. */
  ghost predicate Settled(j: Job, s: State, f: nat) {
    f in j.completed || f in s.counted
  }

  lemma {:induction false} CountedFilesAreOpen(j: Job, s: State, f: nat)
    requires Flow(j, s) && f in s.counted
    ensures f < |j.rows| && f !in j.completed
  {
    if CountedByTask(s, f) {
      var t :| 0 <= t < |s.tasks| && s.tasks[t].file == f && s.tasks[t].phase.Counted?;
      assert s.sent[t] == f;
      LaunchedIsOpen(j, s, f);
    } else {
      var p: nat :| p < |j.slots| && j.slots[p] == f && s.pending[p] == 0 && j.slotEager[p];
      assert f in j.slots;
    }
  }

  lemma {:induction false} CountNeverExceeds(j: Job, s: State)
    requires Flow(j, s)
    ensures s.assembled <= |j.rows|
    ensures s.assembled == |j.rows| <==> forall f: nat :: f < |j.rows| ==> Settled(j, s, f)
  {
    var done := set f: nat | f in s.counted;
    forall f | f in done ensures f in Below(|j.rows|) && f !in j.completed {
      CountedFilesAreOpen(j, s, f);
    }
    assert done == set f | f in s.counted;
    NoDuplicatesCardinality(s.counted);
    var all := j.completed + done;
    assert |all| == |j.completed| + |done|;
    SubsetCardinality(all, Below(|j.rows|));
    if forall f: nat :: f < |j.rows| ==> Settled(j, s, f) {
      assert forall f :: f in Below(|j.rows|) ==> Settled(j, s, f);
      assert all == Below(|j.rows|);
    }
    if s.assembled == |j.rows| {
      assert all == Below(|j.rows|);
      forall f: nat | f < |j.rows| ensures Settled(j, s, f) {
        assert f in all;
      }
    }
  }

  /** The final check compares the counter with the number of files. The counter never
      overshoots, and equality holds exactly when every single file is settled. */
  lemma {:induction false} CompletionCheckIsExact(j: Job, s: State)
    requires GoodJob(j) && Reachable(j, s)
    ensures s.assembled <= |j.rows|
    ensures s.assembled == |j.rows| <==> forall f: nat :: f < |j.rows| ==> Settled(j, s, f)
  {
    var run, steps :| IsRun(j, run, steps) && run[|steps|] == s;
    RunKeepsFlow(j, run, steps);
    CountNeverExceeds(j, s);
  }

  ghost predicate EagerFile(j: Job, f: nat) {
    exists p: nat :: p < |j.slots| && p < |j.slotEager| && j.slots[p] == f && j.slotEager[p]
  }

  /** An entry of file `f` whose item is fetched and has notified it. */
  ghost predicate Notified(j: Job, s: State, i: nat, k: nat, f: nat) {
    && IsEntry(j, i, k) && j.entries[i][k].file == f
    && i < |j.eager| && j.eager[i] && i < |s.pc| && Fetched(s.pc[i]) && k < Cursor(s.pc[i])
  }

  /** File `f` takes the eager route, has an entry, and all its entries are notified. */
  ghost predicate EagerlyDone(j: Job, s: State, f: nat) {
    && EagerFile(j, f)
    && (exists i: nat, k: nat :: Notified(j, s, i, k, f))
    && forall i: nat, k: nat :: IsEntry(j, i, k) && j.entries[i][k].file == f ==> Notified(j, s, i, k, f)
  }

  lemma {:induction false} CountedEagerlyIsDone(j: Job, s: State, f: nat)
    requires Flow(j, s) && CountedEagerly(j, s, f)
    ensures EagerlyDone(j, s, f)
  {
    var p: nat :| p < |j.slots| && j.slots[p] == f && s.pending[p] == 0 && j.slotEager[p];
    forall i: nat, k: nat | IsEntry(j, i, k) && j.entries[i][k].file == f ensures Notified(j, s, i, k, f) {
      SameSlot(j, p, j.entries[i][k].pending);
      ZeroMeansNotified(j, s, i, k);
    }
    assert Consumers(j, p) != {};
    var x :| x in Consumers(j, p);
    assert IsEntry(j, x.0, x.1);
  }

  /** A counted file was either counted by its own task, as every file sent at registration
      is, or is an eager file all of whose entries, at least one, have been notified. */
  lemma {:induction false} CountedMeansDone(j: Job, s: State, f: nat)
    requires GoodJob(j) && Reachable(j, s) && f in s.counted
    ensures CountedByTask(s, f) != EagerlyDone(j, s, f)
    ensures CountedByTask(s, f) <==> !EagerFile(j, f)
    ensures f in j.sent ==> CountedByTask(s, f)
  {
    var run, steps :| IsRun(j, run, steps) && run[|steps|] == s;
    RunKeepsFlow(j, run, steps);
    hide IsRun, CompletingSound, PendingExact, SentExact, Consumers, TasksFromMessages;
    if CountedByTask(s, f) {
      TaskIsNotEager(j, s, f);
    } else {
      CountedEagerlyIsDone(j, s, f);
      assert f in j.slots;
    }
  }

  lemma {:induction false} TaskIsNotEager(j: Job, s: State, f: nat)
    requires Flow(j, s) && CountedByTask(s, f)
    ensures !EagerFile(j, f)
  {
    var t :| 0 <= t < |s.tasks| && s.tasks[t].file == f && s.tasks[t].phase.Counted?;
    assert s.sent[t] == f;
    forall p: nat | p < |j.slots| && j.slots[p] == f ensures !j.slotEager[p] {
      LaunchedIsNotEager(j, s, f, p);
    }
  }

  /** Nothing is left to do: every item is through its entries or stopped by an error,
      no message is queued, and every task has ended. */
  ghost predicate Quiet(j: Job, s: State) {
    && |s.pc| == |j.entries|
    && (forall i :: 0 <= i < |s.pc| ==> s.pc[i] == Errored || s.pc[i] == Notifying(|j.entries[i]|))
    && s.channel == []
    && (forall t :: 0 <= t < |s.tasks| ==> s.tasks[t].phase.Counted? || s.tasks[t].phase.Failed?)
  }

  ghost predicate NoErrors(s: State) {
    && (forall i :: 0 <= i < |s.pc| ==> s.pc[i] != Errored)
    && (forall t :: 0 <= t < |s.tasks| ==> !s.tasks[t].phase.Failed?)
  }

  /** A run that ends with no error always passes the completion check. */
  lemma {:induction false} ErrorFreeRunsPass(j: Job, s: State)
    requires GoodJob(j) && Reachable(j, s) && Quiet(j, s) && NoErrors(s)
    ensures s.assembled == |j.rows|
  {
    var run, steps :| IsRun(j, run, steps) && run[|steps|] == s;
    RunKeepsFlow(j, run, steps);
    forall p: nat | p < |j.slots| ensures s.pending[p] == 0 {
      assert Open(j, s.pc, p) == {};
    }
    forall f: nat | f < |j.rows| ensures Settled(j, s, f) {
      if f !in j.completed {
        if f in s.sent {
          var t :| 0 <= t < |s.sent| && s.sent[t] == f;
          assert s.tasks[t].file == f && s.tasks[t].phase.Counted?;
        } else {
          assert f !in j.sent;
          var p :| 0 <= p < |j.slots| && j.slots[p] == f;
          assert CountedEagerly(j, s, f);
        }
      }
    }
    CountNeverExceeds(j, s);
  }
}
