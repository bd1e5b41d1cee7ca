/** The notification loops over the flattened entry table, as the workers run them
    when nothing interferes: they are the protocol's steps, one after another. */
module Notification {
  import opened Manifest
  import opened Plan
  import opened Protocol
  import opened ProtocolFlow

  /** The steps of one worker through the entries of its item, with no other step between them. */
  ghost function Uninterrupted(j: Job, s: State, i: nat): State
    requires Flow(j, s) && i < |s.pc| && Fetched(s.pc[i])
    decreases |j.entries[i]| - Cursor(s.pc[i]), s.pc[i].Completing?
  {
    if s.pc[i].Completing? then
      StepKeepsFlow(j, s, CountEager(i));
      Uninterrupted(j, DoCountEager(j, s, i), i)
    else if s.pc[i].k < |j.entries[i]| then
      NotifyIsEnabled(j, s, i);
      StepKeepsFlow(j, s, Notify(i));
      Uninterrupted(j, DoNotify(j, s, i), i)
    else s
  }

  lemma {:induction false} NotifyIsEnabled(j: Job, s: State, i: nat)
    requires Flow(j, s) && i < |s.pc| && s.pc[i].Notifying? && s.pc[i].k < |j.entries[i]|
    ensures Enabled(j, s, Notify(i)) && 0 < s.pending[j.entries[i][s.pc[i].k].pending]
  {
    assert IsEntry(j, i, s.pc[i].k);
    assert j.entries[i][s.pc[i].k].file in j.slots;
    NotifyPending(j, s, i);
  }

  ghost predicate Ready(j: Job, s: State, i: nat, k: nat) {
    Flow(j, s) && i < |s.pc| == |j.eager| && s.pc[i] == Notifying(k)
  }

  /** The state after one iteration of the loop, counting included. */
  ghost function AfterEntry(j: Job, s: State, i: nat): State
    requires Enabled(j, s, Notify(i))
  {
    var s1 := DoNotify(j, s, i);
    if s1.pc[i].Completing? then DoCountEager(j, s1, i) else s1
  }

  /** `now` is on the way from `s`, before entry `k` of item `i`. */
  ghost predicate Along(j: Job, s: State, now: State, i: nat, k: nat) {
    && Ready(j, s, i, 0) && Ready(j, now, i, k) && i < |j.entries|
    && Uninterrupted(j, now, i) == Uninterrupted(j, s, i)
  }

  /** One entry is one or two steps, and leaves the worker at the next entry. */
  lemma {:induction false} EntryIsSteps(j: Job, s: State, i: nat, k: nat)
    requires Ready(j, s, i, k) && i < |j.entries| && k < |j.entries[i]|
    ensures Enabled(j, s, Notify(i)) && 0 < s.pending[j.entries[i][k].pending]
    ensures Ready(j, AfterEntry(j, s, i), i, k + 1)
    ensures Uninterrupted(j, AfterEntry(j, s, i), i) == Uninterrupted(j, s, i)
  {
    hide GoodJob;
    NotifyIsEnabled(j, s, i);
    StepKeepsFlow(j, s, Notify(i));
    var s1 := DoNotify(j, s, i);
    assert Uninterrupted(j, s, i) == Uninterrupted(j, s1, i);
    if s1.pc[i].Completing? {
      StepKeepsFlow(j, s1, CountEager(i));
      assert Uninterrupted(j, s1, i) == Uninterrupted(j, DoCountEager(j, s1, i), i);
    }
  }

  /** One iteration, as the loops need it. */
  lemma {:induction false} OneEntry(j: Job, s: State, now: State, i: nat, k: nat) returns (next: State)
    requires Along(j, s, now, i, k) && k < |j.entries[i]|
    ensures Enabled(j, now, Notify(i)) && now.pc[i] == Notifying(k) && 0 < now.pending[j.entries[i][k].pending]
    ensures next == AfterEntry(j, now, i) && (!j.eager[i] ==> next == DoNotify(j, now, i))
    ensures Along(j, s, next, i, k + 1)
  {
    EntryIsSteps(j, now, i, k);
    next := AfterEntry(j, now, i);
    hide Flow, Uninterrupted;
  }

  lemma {:induction false} NoEntryLeft(j: Job, s: State, now: State, i: nat)
    requires i < |j.entries| && Along(j, s, now, i, |j.entries[i]|)
    ensures now == Uninterrupted(j, s, i)
  {
    assert Uninterrupted(j, now, i) == now;
  }

  /** Nothing but the shared counters and the queue is written. */
  class Shared {
    const pending: array<nat>
    const flags: array<bool>
    var channel: seq<nat>
    var assembled: nat

    constructor (pending: array<nat>, flags: array<bool>, channel: seq<nat>, assembled: nat)
      requires pending as object != flags
      ensures this.pending == pending && this.flags == flags
      ensures this.channel == channel && this.assembled == assembled
    {
      this.pending, this.flags, this.channel, this.assembled := pending, flags, channel, assembled;
    }

    ghost predicate Holds(s: State)
      reads this, pending, flags
    {
      && pending as object != flags
      && pending[..] == s.pending && flags[..] == s.flags
      && channel == s.channel && assembled == s.assembled
    }

    /** One entry of an item on the assembly route: the taker of the last count sends the file. */
    method NotifyOne(ghost j: Job, ghost s: State, i: nat, e: Entry)
      requires Enabled(j, s, Notify(i)) && Holds(s) && !j.eager[i]
      requires e == j.entries[i][s.pc[i].k] && 0 < s.pending[e.pending]
      modifies this, pending
      ensures Holds(DoNotify(j, s, i))
    {
      var before := pending[e.pending];
      pending[e.pending] := before - 1;
      if before == 1 {
        channel := channel + [e.file];
      }
    }

    /** Take one off every entry's file; send the files that reach zero to assembly. */
    method NotifyAssemblyReady(ghost j: Job, ghost s: State, i: nat, flat: seq<Entry>, offsets: seq<nat>)
      requires Holds(s) && Ready(j, s, i, 0) && i < |j.entries| && !j.eager[i]
      requires i + 1 < |offsets| && offsets[i] <= offsets[i + 1] <= |flat|
      requires flat[offsets[i]..offsets[i + 1]] == j.entries[i]
      modifies this, pending, flags
      ensures Holds(Uninterrupted(j, s, i))
    {
      ghost var now := s;
      assert Along(j, s, now, i, 0);
      hide Along, AfterEntry, DoNotify;
      for at := offsets[i] to offsets[i + 1]
        invariant offsets[i] <= at <= offsets[i + 1]
        invariant Holds(now) && Along(j, s, now, i, at - offsets[i])
      {
        var e := flat[at];
        assert e == j.entries[i][at - offsets[i]];
        ghost var next := OneEntry(j, s, now, i, at - offsets[i]);
        NotifyOne(j, now, i, e);
        now := next;
      }
      NoEntryLeft(j, s, now, i);
    }

    /** One entry of an eager item: the taker of the last count completes the file and counts it. */
    method CompleteOne(ghost j: Job, ghost s: State, i: nat, e: Entry)
      requires Enabled(j, s, Notify(i)) && Holds(s) && j.eager[i]
      requires e == j.entries[i][s.pc[i].k] && 0 < s.pending[e.pending]
      modifies this, pending, flags
      ensures Holds(AfterEntry(j, s, i))
    {
      var before := pending[e.pending];
      pending[e.pending] := before - 1;
      if before == 1 {
        flags[e.file] := true;
        assembled := assembled + 1;
      }
    }

    /** Take one off every entry's file; complete and count the files that reach zero. */
    method NotifyEagerFileComplete(ghost j: Job, ghost s: State, i: nat, flat: seq<Entry>, offsets: seq<nat>)
      requires Holds(s) && Ready(j, s, i, 0) && i < |j.entries| && j.eager[i]
      requires i + 1 < |offsets| && offsets[i] <= offsets[i + 1] <= |flat|
      requires flat[offsets[i]..offsets[i + 1]] == j.entries[i]
      modifies this, pending, flags
      ensures Holds(Uninterrupted(j, s, i))
    {
      ghost var now := s;
      assert Along(j, s, now, i, 0);
      hide Along, AfterEntry, DoNotify;
      for at := offsets[i] to offsets[i + 1]
        invariant offsets[i] <= at <= offsets[i + 1]
        invariant Holds(now) && Along(j, s, now, i, at - offsets[i])
      {
        var e := flat[at];
        assert e == j.entries[i][at - offsets[i]];
        ghost var next := OneEntry(j, s, now, i, at - offsets[i]);
        CompleteOne(j, now, i, e);
        now := next;
      }
      NoEntryLeft(j, s, now, i);
    }
  }
}
