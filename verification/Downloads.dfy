/** The download worker pool: workers pop a shared queue until it is empty, and a
    counter of unfinished items tells the last of them to stop. Workers may be
    added while the pool runs, and their steps interleave freely. */
module Downloads {
  import opened Manifest

  /** Between the queue and the counter a worker holds one item: `Busy` while it is
      processed, `Done` until the counter has been decremented. */
  datatype Worker = Head | Busy(item: nat) | Done(item: nat) | Exited

  /** What a queued item is to its worker: the compressed size, its route, whether its
      chunk file was present at the start, and whether the bitmap marks it as written. */
  datatype Piece = Piece(size: nat, eager: bool, pre: bool, marked: bool)

  datatype Outcome = Downloaded | FoundOnDisk | MarkedWritten | Failed

  /** `outcome[i]` is how item `i` ended, once it did; `bytes` is the progress counter. */
  datatype Pool = Pool(
    queue: seq<nat>,
    workers: seq<Worker>,
    remaining: nat,
    cancelled: bool,
    outcome: seq<Option<Outcome>>,
    bytes: nat,
    finished: seq<nat>
  )

  datatype Step = Spawn | Cancel | Look(w: nat) | Process(w: nat, outcome: Outcome) | CountDown(w: nat)

  /** The pool at the start, with the workers spawned before the loop: no more than items. */
  ghost function Start(n: nat, initial: nat): Pool {
    Pool(seq(n, i => i), seq(if initial < n then initial else n, _ => Head), n, false, seq(n, _ => None), 0, [])
  }

  /** An eager item that the bitmap marks is not fetched again; one on the assembly route
      may be found on disk only if it was there at the start. Anything may fail. */
  predicate CanEnd(piece: Piece, outcome: Outcome) {
    match outcome
    case Downloaded => !(piece.eager && piece.marked)
    case FoundOnDisk => !piece.eager && piece.pre
    case MarkedWritten => piece.eager && piece.marked
    case Failed => true
  }

  /** What an item adds to the progress counter. */
  function Gain(piece: Piece, outcome: Outcome): nat {
    if outcome.Downloaded? || outcome.MarkedWritten? then piece.size else 0
  }

  /** A worker is added only while fewer were spawned than items were queued when the loop last
      looked, so there are never more workers than items. */
  ghost predicate Enabled(pieces: seq<Piece>, p: Pool, step: Step) {
    match step
    case Spawn => |p.workers| < |p.outcome|
    case Cancel => !p.cancelled
    case Look(w) => w < |p.workers| && p.workers[w].Head?
    case Process(w, outcome) =>
      w < |p.workers| && p.workers[w].Busy? && p.workers[w].item < |p.outcome| == |pieces| &&
      CanEnd(pieces[p.workers[w].item], outcome)
    case CountDown(w) => w < |p.workers| && p.workers[w].Done? && p.remaining > 0
  }

  ghost function Apply(pieces: seq<Piece>, p: Pool, step: Step): Pool
    requires Enabled(pieces, p, step)
  {
    match step
    case Spawn => p.(workers := p.workers + [Head])
    case Cancel => p.(cancelled := true)
    case Look(w) =>
      if p.cancelled || p.queue == [] then p.(workers := p.workers[w := Exited])
      else p.(queue := p.queue[1..], workers := p.workers[w := Busy(p.queue[0])])
    case Process(w, outcome) =>
      var i := p.workers[w].item;
      p.(workers := p.workers[w := Done(i)], outcome := p.outcome[i := Some(outcome)],
         bytes := p.bytes + Gain(pieces[i], outcome))
    case CountDown(w) =>
      p.(workers := p.workers[w := if p.remaining == 1 then Exited else Head],
         remaining := p.remaining - 1, finished := p.finished + [p.workers[w].item])
  }

  ghost predicate IsRun(pieces: seq<Piece>, initial: nat, run: seq<Pool>, steps: seq<Step>) {
    && |run| == |steps| + 1 && run[0] == Start(|pieces|, initial)
    && forall x :: 0 <= x < |steps| ==>
         Enabled(pieces, run[x], steps[x]) && run[x + 1] == Apply(pieces, run[x], steps[x])
  }

  ghost predicate AllGone(p: Pool) {
    forall w :: 0 <= w < |p.workers| ==> p.workers[w].Exited?
  }

  predicate Holds(w: Worker, item: nat) {
    (w.Busy? || w.Done?) && w.item == item
  }

  ghost predicate Held(p: Pool, item: nat) {
    exists w :: 0 <= w < |p.workers| && Holds(p.workers[w], item)
  }

  /** What the ended items have added. */
  function Gained(pieces: seq<Piece>, outcome: seq<Option<Outcome>>): nat
    requires |pieces| == |outcome|
  {
    if pieces == [] then 0
    else
      var n := |pieces| - 1;
      Gained(pieces[..n], outcome[..n]) + if outcome[n].Some? then Gain(pieces[n], outcome[n].value) else 0
  }

  function TotalSize(pieces: seq<Piece>): nat {
    if pieces == [] then 0 else TotalSize(pieces[..|pieces| - 1]) + pieces[|pieces| - 1].size
  }

  /** The sizes of the items that ended without adding theirs. */
  function Ungained(pieces: seq<Piece>, outcome: seq<Option<Outcome>>): nat
    requires |pieces| == |outcome|
  {
    if pieces == [] then 0
    else
      var n := |pieces| - 1;
      Ungained(pieces[..n], outcome[..n]) +
      if outcome[n].Some? && (outcome[n].value.Failed? || outcome[n].value.FoundOnDisk?) then pieces[n].size else 0
  }

  /** Every item is in exactly one place: queued, with one worker, or finished. */
  ghost predicate Sound(pieces: seq<Piece>, p: Pool) {
    var n := |pieces|;
    && |p.outcome| == n && |p.queue| <= n
    && (forall x :: 0 <= x < |p.queue| ==> p.queue[x] == n - |p.queue| + x)
    && NoDuplicates(p.finished)
    && (forall i :: i in p.finished ==> i < n - |p.queue| && !Held(p, i) && p.outcome[i].Some?)
    && (forall w :: 0 <= w < |p.workers| && p.workers[w].Busy? ==>
          p.workers[w].item < n - |p.queue| && p.outcome[p.workers[w].item].None?)
    && (forall w :: 0 <= w < |p.workers| && p.workers[w].Done? ==>
          p.workers[w].item < n - |p.queue| && p.outcome[p.workers[w].item].Some?)
    && (forall v, w, i: nat :: 0 <= v < w < |p.workers| && Holds(p.workers[v], i) ==> !Holds(p.workers[w], i))
    && (forall i: nat :: i < n - |p.queue| ==> Held(p, i) || i in p.finished)
    && (forall i: nat :: n - |p.queue| <= i < n ==> p.outcome[i].None?)
    && |p.finished| <= n && p.remaining == n - |p.finished|
    && (forall w :: 0 <= w < |p.workers| && p.workers[w].Exited? ==> p.cancelled || p.queue == [])
    && (forall i :: 0 <= i < n && p.outcome[i].Some? ==> CanEnd(pieces[i], p.outcome[i].value))
    && p.bytes == Gained(pieces, p.outcome)
  }

  // ---------------------------------------------------------------------------
  // Steps
  // ---------------------------------------------------------------------------

  lemma {:induction false} NothingGained(pieces: seq<Piece>, outcome: seq<Option<Outcome>>)
    requires |pieces| == |outcome| && forall i :: 0 <= i < |outcome| ==> outcome[i].None?
    ensures Gained(pieces, outcome) == 0
  {
    if pieces != [] {
      NothingGained(pieces[..|pieces| - 1], outcome[..|pieces| - 1]);
    }
  }

  /** Conservation: once every item has ended, each size was added or was held back by a
      failure or a chunk already on disk. */
  lemma {:induction false} GainedAndUngained(pieces: seq<Piece>, outcome: seq<Option<Outcome>>)
    requires |pieces| == |outcome| && forall i :: 0 <= i < |outcome| ==> outcome[i].Some?
    ensures Gained(pieces, outcome) + Ungained(pieces, outcome) == TotalSize(pieces)
  {
    if pieces != [] {
      GainedAndUngained(pieces[..|pieces| - 1], outcome[..|pieces| - 1]);
    }
  }

  lemma {:induction false} UngainedIsZeroExactly(pieces: seq<Piece>, outcome: seq<Option<Outcome>>)
    requires |pieces| == |outcome| && forall i :: 0 <= i < |outcome| ==> outcome[i].Some?
    ensures Ungained(pieces, outcome) == 0 <==>
            forall i :: 0 <= i < |pieces| && (outcome[i].value.Failed? || outcome[i].value.FoundOnDisk?) ==> pieces[i].size == 0
  {
    if pieces != [] {
      UngainedIsZeroExactly(pieces[..|pieces| - 1], outcome[..|pieces| - 1]);
    }
  }

  lemma {:induction false} GainedMore(pieces: seq<Piece>, outcome: seq<Option<Outcome>>, i: nat, o: Outcome)
    requires |pieces| == |outcome| && i < |outcome| && outcome[i].None?
    ensures Gained(pieces, outcome[i := Some(o)]) == Gained(pieces, outcome) + Gain(pieces[i], o)
  {
    var n := |pieces| - 1;
    if i < n {
      GainedMore(pieces[..n], outcome[..n], i, o);
      assert outcome[i := Some(o)][..n] == outcome[..n][i := Some(o)];
    } else {
      assert outcome[i := Some(o)][..n] == outcome[..n];
    }
  }

  lemma {:induction false} FinishedFit(pieces: seq<Piece>, p: Pool)
    requires Sound(pieces, p)
    ensures |p.finished| <= |pieces| - |p.queue|
    ensures |p.finished| == |pieces| - |p.queue| ==> forall i: nat :: i < |pieces| - |p.queue| ==> i in p.finished
  {
    var done, taken := (set i | i in p.finished), Below(|pieces| - |p.queue|);
    NoDuplicatesCardinality(p.finished);
    SubsetCardinality(done, taken);
    if |done| == |taken| {
      forall i: nat | i < |pieces| - |p.queue| ensures i in p.finished {
        assert i in done;
      }
    }
  }

  lemma {:induction false} HeldAfter(p: Pool, p': Pool, w: nat)
    requires w < |p.workers| == |p'.workers| && p'.workers == p.workers[w := p'.workers[w]]
    ensures forall i: nat :: !Holds(p.workers[w], i) && !Holds(p'.workers[w], i) ==> (Held(p', i) <==> Held(p, i))
    ensures forall i: nat :: Holds(p'.workers[w], i) ==> Held(p', i)
  {
    forall i: nat | !Holds(p.workers[w], i) && !Holds(p'.workers[w], i) ensures Held(p', i) <==> Held(p, i) {
      if Held(p, i) {
        var x :| 0 <= x < |p.workers| && Holds(p.workers[x], i);
        assert Holds(p'.workers[x], i);
      }
    }
  }

  lemma {:induction false} LookKeepsSound(pieces: seq<Piece>, p: Pool, w: nat)
    requires Sound(pieces, p) && Enabled(pieces, p, Look(w))
    ensures Sound(pieces, Apply(pieces, p, Look(w)))
  {
    var p' := Apply(pieces, p, Look(w));
    HeldAfter(p, p', w);
    if p'.workers[w].Busy? {
      var i := p.queue[0];
      assert i !in p.finished;
      forall i': nat | i' < |pieces| - |p'.queue| ensures Held(p', i') || i' in p'.finished {
        if i' != i {
          assert Held(p, i') || i' in p.finished;
        }
      }
    }
  }

  lemma {:induction false} ProcessKeepsSound(pieces: seq<Piece>, p: Pool, w: nat, o: Outcome)
    requires Sound(pieces, p) && Enabled(pieces, p, Process(w, o))
    ensures Sound(pieces, Apply(pieces, p, Process(w, o)))
  {
    var p', i := Apply(pieces, p, Process(w, o)), p.workers[w].item;
    HeldAfter(p, p', w);
    assert Holds(p.workers[w], i);
    assert Held(p, i);
    GainedMore(pieces, p.outcome, i, o);
  }

  lemma {:induction false} CountDownKeepsSound(pieces: seq<Piece>, p: Pool, w: nat)
    requires Sound(pieces, p) && Enabled(pieces, p, CountDown(w))
    ensures Sound(pieces, Apply(pieces, p, CountDown(w)))
  {
    var p', i := Apply(pieces, p, CountDown(w)), p.workers[w].item;
    HeldAfter(p, p', w);
    assert Holds(p.workers[w], i);
    assert Held(p, i) && i !in p.finished;
    assert !Held(p', i) by {
      assert forall x :: 0 <= x < |p.workers| && x != w ==> !Holds(p.workers[x], i);
    }
    FinishedFit(pieces, p);
  }

  lemma {:induction false} SpawnKeepsSound(pieces: seq<Piece>, p: Pool)
    requires Sound(pieces, p) && Enabled(pieces, p, Spawn)
    ensures Sound(pieces, Apply(pieces, p, Spawn))
  {
    var p' := Apply(pieces, p, Spawn);
    forall i: nat ensures Held(p', i) <==> Held(p, i) {
      if Held(p, i) {
        var x :| 0 <= x < |p.workers| && Holds(p.workers[x], i);
        assert Holds(p'.workers[x], i);
      }
    }
  }

  lemma {:induction false} StepKeepsSound(pieces: seq<Piece>, p: Pool, step: Step)
    requires Sound(pieces, p) && Enabled(pieces, p, step)
    ensures Sound(pieces, Apply(pieces, p, step))
  {
    match step
    case Spawn => SpawnKeepsSound(pieces, p);
    case Cancel => assert forall i: nat :: Held(p.(cancelled := true), i) <==> Held(p, i);
    case Look(w) => LookKeepsSound(pieces, p, w);
    case Process(w, o) => ProcessKeepsSound(pieces, p, w, o);
    case CountDown(w) => CountDownKeepsSound(pieces, p, w);
  }

  lemma {:induction false} RunKeepsSound(pieces: seq<Piece>, initial: nat, run: seq<Pool>, steps: seq<Step>)
    requires IsRun(pieces, initial, run, steps)
    ensures Sound(pieces, run[|steps|])
  {
    if steps == [] {
      NothingGained(pieces, run[0].outcome);
    } else {
      var n := |steps| - 1;
      RunKeepsSound(pieces, initial, run[..n + 1], steps[..n]);
      StepKeepsSound(pieces, run[n], steps[n]);
    }
  }

  // ---------------------------------------------------------------------------
  // Main results
  // ---------------------------------------------------------------------------

  /** The counter is zero exactly when the queue is empty and every item is finished. */
  lemma {:induction false} RemainingIsExact(pieces: seq<Piece>, initial: nat, run: seq<Pool>, steps: seq<Step>)
    requires IsRun(pieces, initial, run, steps)
    ensures var p := run[|steps|];
            && NoDuplicates(p.finished)
            && (p.remaining == 0 <==> p.queue == [] && forall i: nat :: i < |pieces| ==> i in p.finished)
  {
    var p := run[|steps|];
    RunKeepsSound(pieces, initial, run, steps);
    FinishedFit(pieces, p);
    if p.remaining == 0 {
      assert |p.queue| == 0;
      assert forall i: nat :: i < |pieces| ==> i in p.finished;
    }
    if p.queue == [] && forall i: nat :: i < |pieces| ==> i in p.finished {
      var done, all := (set i | i in p.finished), Below(|pieces|);
      NoDuplicatesCardinality(p.finished);
      SubsetCardinality(all, done);
    }
  }

  /** An item ends like this: fetched unless it is eager and marked as written, which is the other
      way for it to end well; found on disk if it is not eager and was there; or failed. */
  predicate MayEnd(piece: Piece, outcome: Outcome) {
    || outcome == Failed
    || (outcome == FoundOnDisk && !piece.eager && piece.pre)
    || (outcome == if piece.eager && piece.marked then MarkedWritten else Downloaded)
  }

  /** When every worker has gone and nothing was cancelled, each item was processed and
      counted down exactly once, in a way that was open to it, and the progress counter
      falls short of all sizes by those of the failed items and the chunks found on disk. */
  lemma {:induction false} EveryItemIsProcessedOnce(pieces: seq<Piece>, initial: nat, run: seq<Pool>, steps: seq<Step>)
    requires IsRun(pieces, initial, run, steps)
    requires var p := run[|steps|];
             && !p.cancelled && (|pieces| > 0 ==> |p.workers| > 0)
             && AllGone(p)
    ensures var p := run[|steps|];
            && p.remaining == 0 && p.queue == [] && |p.outcome| == |pieces|
            && NoDuplicates(p.finished) && (forall i: nat :: i in p.finished <==> i < |pieces|)
            && (forall i :: 0 <= i < |p.outcome| ==> p.outcome[i].Some? && MayEnd(pieces[i], p.outcome[i].value))
            && p.bytes + Ungained(pieces, p.outcome) == TotalSize(pieces)
  {
    var p := run[|steps|];
    RunKeepsSound(pieces, initial, run, steps);
    assert p.queue == [] by {
      if |pieces| > 0 {
        assert p.workers[0].Exited?;
      }
    }
    forall i: nat | i < |pieces| ensures i in p.finished {
      assert !Held(p, i);
    }
    RemainingIsExact(pieces, initial, run, steps);
    GainedAndUngained(pieces, p.outcome);
  }

  /** Once the pool is cancelled no item is taken from the queue, and a worker that looks leaves. */
  lemma {:induction false} NothingIsTakenAfterCancel(
      pieces: seq<Piece>, initial: nat, run: seq<Pool>, steps: seq<Step>, x: nat, y: nat)
    requires IsRun(pieces, initial, run, steps) && x <= y < |run| && run[x].cancelled
    ensures run[y].cancelled && run[y].queue == run[x].queue
    ensures forall w: nat :: y < |steps| && steps[y] == Look(w) ==> w < |run[y + 1].workers| && run[y + 1].workers[w] == Exited
  {
    if x < y {
      NothingIsTakenAfterCancel(pieces, initial, run, steps, x, y - 1);
      assert run[y - 1 + 1] == Apply(pieces, run[y - 1], steps[y - 1]);
    }
  }

  // ---------------------------------------------------------------------------
  // Every run comes to rest
  // ---------------------------------------------------------------------------

  function Rank(w: Worker): nat {
    match w
    case Head => 1
    case Busy(_) => 3
    case Done(_) => 2
    case Exited => 0
  }

  function Ranks(workers: seq<Worker>): nat {
    if workers == [] then 0 else Ranks(workers[..|workers| - 1]) + Rank(workers[|workers| - 1])
  }

  /** What the workers still have to do; an item in the queue counts as much as one in work. */
  function Work(p: Pool): nat {
    3 * |p.queue| + Ranks(p.workers)
  }

  /** Workers that may still be added. */
  function Room(p: Pool): nat {
    if |p.workers| < |p.outcome| then |p.outcome| - |p.workers| else 0
  }

  lemma {:induction false} RanksUpdate(workers: seq<Worker>, w: nat, k: Worker)
    requires w < |workers|
    ensures Ranks(workers[w := k]) == Ranks(workers) - Rank(workers[w]) + Rank(k)
  {
    var n := |workers| - 1;
    if w < n {
      RanksUpdate(workers[..n], w, k);
      assert workers[w := k][..n] == workers[..n][w := k];
    } else {
      assert workers[w := k][..n] == workers[..n];
    }
  }

  ghost predicate Descends(p: Pool, p': Pool) {
    || (!p.cancelled && p'.cancelled)
    || (p.cancelled == p'.cancelled && Room(p') < Room(p))
    || (p.cancelled == p'.cancelled && Room(p') == Room(p) && Work(p') < Work(p))
  }

  lemma {:induction false} StepDescends(pieces: seq<Piece>, p: Pool, step: Step)
    requires Enabled(pieces, p, step)
    ensures Descends(p, Apply(pieces, p, step))
  {
    var p' := Apply(pieces, p, step);
    match step
    case Spawn =>
    case Cancel =>
    case Look(w) => RanksUpdate(p.workers, w, p'.workers[w]);
    case Process(w, _) => RanksUpdate(p.workers, w, p'.workers[w]);
    case CountDown(w) => RanksUpdate(p.workers, w, p'.workers[w]);
  }

  ghost predicate StepsTo(pieces: seq<Piece>, p: Pool, p': Pool) {
    exists step :: Enabled(pieces, p, step) && p' == Apply(pieces, p, step)
  }

  lemma {:induction false} StepsToDescends(pieces: seq<Piece>, p: Pool, p': Pool)
    requires Sound(pieces, p) && StepsTo(pieces, p, p')
    ensures Sound(pieces, p') && Descends(p, p')
  {
    hide Sound, Descends;
    var step :| Enabled(pieces, p, step) && p' == Apply(pieces, p, step);
    StepKeepsSound(pieces, p, step);
    StepDescends(pieces, p, step);
  }

  /** A worker that has not gone can always go on: an item it holds is still to be counted. */
  lemma {:induction false} WorkerCanMove(pieces: seq<Piece>, p: Pool, w: nat) returns (step: Step)
    requires Sound(pieces, p) && w < |p.workers| && !p.workers[w].Exited?
    ensures Enabled(pieces, p, step) && !step.Spawn? && !step.Cancel?
  {
    match p.workers[w]
    case Head => step := Look(w);
    case Busy(_) => step := Process(w, Failed);
    case Done(i) =>
      step := CountDown(w);
      assert Holds(p.workers[w], i);
      assert Held(p, i) && i !in p.finished;
      FinishedFit(pieces, p);
  }

  /** No worker can take a step. */
  ghost predicate Stuck(pieces: seq<Piece>, p: Pool) {
    forall step :: Enabled(pieces, p, step) ==> step.Spawn? || step.Cancel?
  }

  /** No sequence of pools can take steps for ever, and where no worker can go on they have all
      gone, which is what the end of the download waits for. */
  lemma {:induction false} EveryPoolEnds(pieces: seq<Piece>, run: nat -> Pool, n: nat) returns (end: nat)
    requires Sound(pieces, run(n))
    ensures n <= end && !StepsTo(pieces, run(end), run(end + 1))
    ensures Stuck(pieces, run(end)) ==> AllGone(run(end))
    decreases !run(n).cancelled, Room(run(n)), Work(run(n))
  {
    hide Sound, StepsTo, Enabled, Work, Room;
    if StepsTo(pieces, run(n), run(n + 1)) {
      StepsToDescends(pieces, run(n), run(n + 1));
      end := EveryPoolEnds(pieces, run, n + 1);
    } else {
      end := n;
      if Stuck(pieces, run(end)) && !AllGone(run(end)) {
        var w: nat :| w < |run(end).workers| && !run(end).workers[w].Exited?;
        var step := WorkerCanMove(pieces, run(end), w);
        assert false;
      }
    }
  }

  // ---------------------------------------------------------------------------
  // What can happen
  // ---------------------------------------------------------------------------

  ghost predicate Reachable(pieces: seq<Piece>, initial: nat, p: Pool) {
    exists run, steps :: IsRun(pieces, initial, run, steps) && run[|steps|] == p
  }

  lemma {:induction false} StepIsReachable(pieces: seq<Piece>, initial: nat, p: Pool, step: Step)
    requires Reachable(pieces, initial, p) && Enabled(pieces, p, step)
    ensures Reachable(pieces, initial, Apply(pieces, p, step))
  {
    hide Enabled, Apply, Start;
    var run, steps :| IsRun(pieces, initial, run, steps) && run[|steps|] == p;
    assert IsRun(pieces, initial, run + [Apply(pieces, p, step)], steps + [step]);
  }

  /** The first worker has taken the first `n` items through, and nobody else has moved. */
  ghost predicate FirstWorkerDid(pieces: seq<Piece>, initial: nat, outcomes: seq<Outcome>, n: nat, p: Pool) {
    && n < |pieces| == |outcomes| && Reachable(pieces, initial, p) && !p.cancelled
    && |p.queue| == |pieces| - n && p.remaining == |pieces| - n
    && (forall x :: 0 <= x < |p.queue| ==> p.queue[x] == n + x)
    && |p.workers| == (if initial < |pieces| then initial else |pieces|) > 0
    && (forall w :: 0 <= w < |p.workers| ==> p.workers[w] == Head)
    && |p.outcome| == |pieces| && forall i :: 0 <= i < n ==> p.outcome[i] == Some(outcomes[i])
  }

  /** Take item `n` through. */
  lemma {:induction false} FirstWorkerGoesOn(pieces: seq<Piece>, initial: nat, outcomes: seq<Outcome>, n: nat, p: Pool)
    returns (p': Pool)
    requires FirstWorkerDid(pieces, initial, outcomes, n, p) && MayEnd(pieces[n], outcomes[n])
    ensures Reachable(pieces, initial, p') && !p'.cancelled
    ensures p'.queue == p.queue[1..] && p'.remaining == p.remaining - 1
    ensures p'.outcome == p.outcome[n := Some(outcomes[n])]
    ensures p'.workers == p.workers[0 := if p.remaining == 1 then Exited else Head]
  {
    StepIsReachable(pieces, initial, p, Look(0));
    var p1 := Apply(pieces, p, Look(0));
    StepIsReachable(pieces, initial, p1, Process(0, outcomes[n]));
    var p2 := Apply(pieces, p1, Process(0, outcomes[n]));
    StepIsReachable(pieces, initial, p2, CountDown(0));
    p' := Apply(pieces, p2, CountDown(0));
    hide Reachable;
  }

  lemma {:induction false} FirstWorkerGoesTo(pieces: seq<Piece>, initial: nat, outcomes: seq<Outcome>, n: nat) returns (p: Pool)
    requires initial > 0 && n < |pieces| == |outcomes|
    requires forall i :: 0 <= i < |pieces| ==> MayEnd(pieces[i], outcomes[i])
    ensures FirstWorkerDid(pieces, initial, outcomes, n, p)
  {
    if n == 0 {
      p := Start(|pieces|, initial);
      assert IsRun(pieces, initial, [p], []);
    } else {
      var p0 := FirstWorkerGoesTo(pieces, initial, outcomes, n - 1);
      p := FirstWorkerGoesOn(pieces, initial, outcomes, n - 1, p0);
      hide Reachable, MayEnd;
    }
  }

  /** Workers that find the queue empty leave. */
  lemma {:induction false} OthersLeave(pieces: seq<Piece>, initial: nat, p: Pool, w: nat) returns (p': Pool)
    requires Reachable(pieces, initial, p) && p.queue == [] && w <= |p.workers|
    requires forall x :: 0 <= x < |p.workers| ==> p.workers[x] == if x < w then Exited else Head
    ensures Reachable(pieces, initial, p') && AllGone(p') && p'.outcome == p.outcome && p'.cancelled == p.cancelled
    decreases |p.workers| - w
  {
    if w == |p.workers| {
      p' := p;
    } else {
      StepIsReachable(pieces, initial, p, Look(w));
      p' := OthersLeave(pieces, initial, Apply(pieces, p, Look(w)), w + 1);
    }
  }

  /** With at least one worker, any outcomes that items may have are the outcomes of some pool
      that was never cancelled, each worker of which has gone. */
  lemma {:induction false} AnyOutcomesCanHappen(pieces: seq<Piece>, initial: nat, outcomes: seq<Outcome>) returns (p: Pool)
    requires initial > 0 && 0 < |pieces| == |outcomes|
    requires forall i :: 0 <= i < |pieces| ==> MayEnd(pieces[i], outcomes[i])
    ensures Reachable(pieces, initial, p) && AllGone(p) && !p.cancelled && |p.outcome| == |pieces|
    ensures forall i :: 0 <= i < |pieces| ==> p.outcome[i] == Some(outcomes[i])
  {
    var n := |pieces| - 1;
    var p0 := FirstWorkerGoesTo(pieces, initial, outcomes, n);
    var p1 := FirstWorkerGoesOn(pieces, initial, outcomes, n, p0);
    hide Reachable, MayEnd;
    p := OthersLeave(pieces, initial, p1, 1);
  }
}
