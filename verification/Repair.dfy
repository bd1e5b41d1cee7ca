/** The repair batch: a bounded number of jobs at a time, nothing new after a failure,
    and chunk counts that keep every chunk until its last consumer is done with it. */
module Repair {
  import opened Manifest

  const ASSEMBLY_CONCURRENCY := 4

  // ---------------------------------------------------------------------------
  // Scheduling
  // ---------------------------------------------------------------------------

  datatype Event = Started(i: nat) | Joined(i: nat, ok: bool)

  /** Jobs started and not yet joined. */
  ghost function Running(log: seq<Event>): set<nat> {
    if log == [] then {}
    else
      var before := Running(log[..|log| - 1]);
      match log[|log| - 1]
      case Started(i) => before + {i}
      case Joined(i, _) => before - {i}
  }

  ghost function StartedCount(log: seq<Event>): nat {
    if log == [] then 0 else StartedCount(log[..|log| - 1]) + if log[|log| - 1].Started? then 1 else 0
  }

  ghost predicate HasFailure(log: seq<Event>) {
    exists k :: 0 <= k < |log| && log[k].Joined? && !log[k].ok
  }

  /** Jobs start in order, each once, never after a failure; only running jobs are joined;
      the limit holds at every moment. */
  ghost predicate Orderly(log: seq<Event>, count: nat) {
    log != [] ==>
      var before, e := log[..|log| - 1], log[|log| - 1];
      && Orderly(before, count)
      && |Running(log)| <= ASSEMBLY_CONCURRENCY
      && match e
         case Started(i) => i == StartedCount(before) < count && !HasFailure(before)
         case Joined(i, _) => i in Running(before)
  }

  lemma {:induction false} FailureGrows(log: seq<Event>, e: Event)
    ensures HasFailure(log + [e]) <==> HasFailure(log) || (e.Joined? && !e.ok)
  {
    var more := log + [e];
    if HasFailure(log) {
      var k :| 0 <= k < |log| && log[k].Joined? && !log[k].ok;
      assert more[k] == log[k];
    }
    if e.Joined? && !e.ok {
      assert more[|log|] == e;
    }
  }

  lemma {:induction false} OneMore(log: seq<Event>, e: Event)
    ensures (log + [e])[..|log + [e]| - 1] == log && (log + [e])[|log|] == e
  {
  }

  lemma {:induction false} RunningAreStarted(log: seq<Event>, count: nat)
    requires Orderly(log, count)
    ensures forall i :: i in Running(log) ==> i < StartedCount(log)
    ensures StartedCount(log) <= count
  {
    if log != [] {
      RunningAreStarted(log[..|log| - 1], count);
    }
  }

  /** The limit holds at every moment. */
  lemma {:induction false} AtMostFour(log: seq<Event>, count: nat, k: nat)
    requires Orderly(log, count) && k <= |log|
    ensures |Running(log[..k])| <= 4
  {
    if k < |log| {
      AtMostFour(log[..|log| - 1], count, k);
      assert log[..|log| - 1][..k] == log[..k];
    } else {
      assert log[..k] == log;
    }
  }

  ghost predicate Tracks(log: seq<Event>, count: nat, tasks: set<nat>, next: nat, failed: bool) {
    && Orderly(log, count) && tasks == Running(log) && next == StartedCount(log) <= count
    && (failed <==> HasFailure(log)) && |tasks| <= ASSEMBLY_CONCURRENCY
  }

  lemma {:induction false} StartTracks(log: seq<Event>, count: nat, tasks: set<nat>, next: nat)
    requires Tracks(log, count, tasks, next, false) && next < count && |tasks| < ASSEMBLY_CONCURRENCY
    ensures Tracks(log + [Started(next)], count, tasks + {next}, next + 1, false) && next !in tasks
  {
    OneMore(log, Started(next));
    FailureGrows(log, Started(next));
    RunningAreStarted(log, count);
  }

  lemma {:induction false} JoinTracks(log: seq<Event>, count: nat, tasks: set<nat>, next: nat, failed: bool, i: nat, good: bool)
    requires Tracks(log, count, tasks, next, failed) && i in tasks
    ensures Tracks(log + [Joined(i, good)], count, tasks - {i}, next, failed || !good)
  {
    OneMore(log, Joined(i, good));
    FailureGrows(log, Joined(i, good));
  }

  /** Every job started is joined before the batch ends, and the batch succeeds exactly
      when no job failed; then every index below `count` was started. `log` is the
      schedule, kept for the record. */
  method RunRepairJobs(count: nat) returns (ok: bool, log: seq<Event>)
    ensures Orderly(log, count) && Running(log) == {}
    ensures forall k :: 0 <= k <= |log| ==> |Running(log[..k])| <= 4
    ensures ok <==> !HasFailure(log)
    ensures ok ==> StartedCount(log) == count
  {
    log := [];
    var tasks: set<nat> := {};
    var next, failed, over := 0, false, false;
    assert Tracks(log, count, tasks, next, failed);
    while !over
      invariant Tracks(log, count, tasks, next, failed) && next <= count
      invariant over ==> tasks == {} && (!failed ==> next == count)
      decreases !over, 2 * (count - next) + |tasks|
    {
      hide Tracks;
      ghost var work := 2 * (count - next) + |tasks|;
      while !failed && next < count && |tasks| < ASSEMBLY_CONCURRENCY
        invariant Tracks(log, count, tasks, next, failed) && next <= count
        invariant 2 * (count - next) + |tasks| <= work
        decreases count - next
      {
        StartTracks(log, count, tasks, next);
        log := log + [Started(next)];
        tasks := tasks + {next};
        next := next + 1;
      }
      if tasks == {} {
        over := true;
      } else {
        var i :| i in tasks;
        var good: bool := *;
        JoinTracks(log, count, tasks, next, failed, i, good);
        log := log + [Joined(i, good)];
        tasks := tasks - {i};
        if !good {
          failed := true;
        }
      }
    }
    ok := !failed;
    forall k | 0 <= k <= |log| ensures |Running(log[..k])| <= 4 {
      AtMostFour(log, count, k);
    }
  }

  ghost function Times(log: seq<Event>, e: Event): nat {
    if log == [] then 0 else Times(log[..|log| - 1], e) + if log[|log| - 1] == e then 1 else 0
  }

  /** In an orderly log a started job has one start, and one end unless it is running. */
  lemma {:induction false} StartsAndEnds(log: seq<Event>, count: nat, i: nat)
    requires Orderly(log, count)
    ensures Times(log, Started(i)) == if i < StartedCount(log) then 1 else 0
    ensures Times(log, Joined(i, true)) + Times(log, Joined(i, false)) ==
            if i < StartedCount(log) && i !in Running(log) then 1 else 0
    ensures Times(log, Joined(i, false)) > 0 ==> HasFailure(log)
  {
    if log != [] {
      var before, e := log[..|log| - 1], log[|log| - 1];
      StartsAndEnds(before, count, i);
      RunningAreStarted(before, count);
      assert log == before + [e];
      FailureGrows(before, e);
    }
  }

  /** A batch that succeeds ran every index once and every run succeeded. */
  lemma {:induction false} SuccessMeansEachRanOnce(log: seq<Event>, count: nat, i: nat)
    requires Orderly(log, count) && Running(log) == {} && !HasFailure(log) && StartedCount(log) == count && i < count
    ensures Times(log, Started(i)) == Times(log, Joined(i, true)) == 1 && Times(log, Joined(i, false)) == 0
  {
    StartsAndEnds(log, count, i);
  }

  /** After a failure nothing starts, and whatever was started is joined. */
  lemma {:induction false} NothingStartsAfterFailure(log: seq<Event>, count: nat, j: nat, k: nat)
    requires Orderly(log, count) && j < k < |log| && log[j].Joined? && !log[j].ok
    ensures log[k].Joined?
  {
    var before := log[..|log| - 1];
    if k < |before| {
      NothingStartsAfterFailure(before, count, j, k);
    } else {
      assert before[j] == log[j];
    }
  }

  // ---------------------------------------------------------------------------
  // Chunk counts
  // ---------------------------------------------------------------------------

  /** Chunk names of the rows of every file of the batch. */
  type Batch = seq<seq<string>>

  ghost function RowsOf(batch: Batch, name: string): set<(nat, nat)> {
    set f: nat, c: nat | f < |batch| && c < |batch[f]| && batch[f][c] == name :: (f, c)
  }

  /** Rows among the first `n` files and the first `m` of file `n`. */
  ghost function RowsBefore(batch: Batch, name: string, n: nat, m: nat): set<(nat, nat)> {
    set x | x in RowsOf(batch, name) && (x.0 < n || (x.0 == n && x.1 < m))
  }

  ghost predicate Counts(counts: map<string, nat>, batch: Batch, n: nat, m: nat) {
    forall name :: (if name in counts then counts[name] else 0) == |RowsBefore(batch, name, n, m)|
  }

  lemma {:induction false} OneMoreRow(batch: Batch, name: string, n: nat, m: nat)
    requires n < |batch| && m < |batch[n]|
    ensures |RowsBefore(batch, name, n, m + 1)| == |RowsBefore(batch, name, n, m)| + if batch[n][m] == name then 1 else 0
  {
    var a, b := RowsBefore(batch, name, n, m), RowsBefore(batch, name, n, m + 1);
    assert b == if batch[n][m] == name then a + {(n, m)} else a;
  }

  method CountOccurrences(batch: Batch) returns (counts: map<string, nat>)
    ensures forall name :: (if name in counts then counts[name] else 0) == |RowsOf(batch, name)|
  {
    counts := map[];
    forall name ensures RowsBefore(batch, name, 0, 0) == {} {
    }
    for n := 0 to |batch|
      invariant Counts(counts, batch, n, 0)
    {
      for m := 0 to |batch[n]|
        invariant Counts(counts, batch, n, m)
      {
        forall name ensures |RowsBefore(batch, name, n, m + 1)| ==
          |RowsBefore(batch, name, n, m)| + if batch[n][m] == name then 1 else 0
        {
          OneMoreRow(batch, name, n, m);
        }
        var name := batch[n][m];
        counts := counts[name := (if name in counts then counts[name] else 0) + 1];
      }
      forall name ensures RowsBefore(batch, name, n + 1, 0) == RowsBefore(batch, name, n, |batch[n]|) {
      }
    }
    forall name ensures RowsBefore(batch, name, |batch|, 0) == RowsOf(batch, name) {
    }
  }

  /** The counts and the removed chunks after rows are released one by one, in any order:
      the release that takes the last count removes the chunk. */
  ghost function CountAfter(batch: Batch, released: seq<(nat, nat)>, name: string): int {
    if released == [] then |RowsOf(batch, name)|
    else
      var x := released[|released| - 1];
      CountAfter(batch, released[..|released| - 1], name) - if x in RowsOf(batch, name) then 1 else 0
  }

  ghost predicate Removed(batch: Batch, released: seq<(nat, nat)>, name: string) {
    exists k :: 0 <= k < |released| && released[k] in RowsOf(batch, name) && CountAfter(batch, released[..k], name) == 1
  }

  lemma {:induction false} LeftAfterOneMore(rows: set<(nat, nat)>, released: seq<(nat, nat)>, x: (nat, nat))
    requires x !in released
    ensures |Left(rows, released + [x])| == |Left(rows, released)| - if x in rows then 1 else 0
  {
    var left := Left(rows, released);
    assert Left(rows, released + [x]) == if x in rows then left - {x} else left;
  }

  ghost function Left(rows: set<(nat, nat)>, released: seq<(nat, nat)>): set<(nat, nat)> {
    set x | x in rows && x !in released
  }

  lemma {:induction false} CountIsWhatIsLeft(batch: Batch, released: seq<(nat, nat)>, name: string)
    requires NoDuplicates(released)
    ensures CountAfter(batch, released, name) == |Left(RowsOf(batch, name), released)|
  {
    var rows := RowsOf(batch, name);
    if released == [] {
      assert Left(rows, released) == rows;
    } else {
      hide RowsOf, Left;
      var init, x := released[..|released| - 1], released[|released| - 1];
      CountIsWhatIsLeft(batch, init, name);
      LeftAfterOneMore(rows, init, x);
      assert init + [x] == released;
    }
  }

  /** A chunk is removed exactly when its last consumer has released it, so that no file with
      a row still to be released ever misses one of its chunks. */
  lemma {:induction false} RemovedExactlyWithTheLast(batch: Batch, released: seq<(nat, nat)>, name: string)
    requires NoDuplicates(released) && RowsOf(batch, name) != {}
    ensures Removed(batch, released, name) <==> forall x :: x in RowsOf(batch, name) ==> x in released
  {
    if Removed(batch, released, name) {
      var k :| 0 <= k < |released| && released[k] in RowsOf(batch, name) && CountAfter(batch, released[..k], name) == 1;
      CountIsWhatIsLeft(batch, released[..k], name);
      OnlyOneLeft(RowsOf(batch, name), released, k);
    }
    if forall x :: x in RowsOf(batch, name) ==> x in released {
      AllReleasedRemoves(batch, released, name);
    }
  }

  lemma {:induction false} AllReleasedRemoves(batch: Batch, released: seq<(nat, nat)>, name: string)
    requires NoDuplicates(released) && RowsOf(batch, name) != {}
    requires forall x :: x in RowsOf(batch, name) ==> x in released
    ensures Removed(batch, released, name)
  {
    var rows := RowsOf(batch, name);
    var x :| x in rows;
    assert x in released;
    var k := LastOf(rows, released);
    CountIsWhatIsLeft(batch, released[..k], name);
  }

  lemma {:induction false} OnlyOneLeft(rows: set<(nat, nat)>, released: seq<(nat, nat)>, k: nat)
    requires k < |released| && released[k] in rows && released[k] !in released[..k]
    requires |Left(rows, released[..k])| == 1
    ensures forall x :: x in rows ==> x in released
  {
    var left := Left(rows, released[..k]);
    SubsetCardinality({released[k]}, left);
    forall x | x in rows ensures x in released {
      if x !in released[..k] {
        assert x in left;
      }
    }
  }

  /** The position of the row of `rows` that is released last. */
  lemma {:induction false} LastOf(rows: set<(nat, nat)>, released: seq<(nat, nat)>) returns (k: nat)
    requires NoDuplicates(released) && rows != {} && released != [] && forall x :: x in rows ==> x in released
    ensures k < |released| && released[k] in rows
    ensures Left(rows, released[..k]) == {released[k]}
  {
    var n := |released| - 1;
    assert released == released[..n] + [released[n]];
    if released[n] in rows {
      k := n;
    } else {
      var x :| x in rows;
      assert x in released[..n];
      k := LastOf(rows, released[..n]);
      assert released[..n][..k] == released[..k];
    }
  }
}
