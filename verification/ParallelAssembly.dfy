/** Assembling one file with several workers and a hashing thread. Worker `w` takes
    the rows `w`, `w + W`, `w + 2W`, ... and writes them at their offsets; the
    hashing thread consumes the ranges in order, each after its row is flagged.
    Every write, flag access and decision is one step, in any interleaving. */
module ParallelAssembly {
  import opened Hex
  import opened Manifest
  import opened RangeWriter
  import opened Assembly

  datatype Config = Config(
    digest: seq<Byte> -> seq<Byte>,
    oldFile: seq<Byte>,
    rows: seq<Row>,
    workers: nat,
    fileHash: seq<Byte>,
    policy: Policy
  )

  /** `i` is the row the worker is at. `Trying` is the one-shot attempt, which may leave junk
      behind, `Streaming` has written that many bytes, `Failing` has recorded an error but not yet raised the
      flag; after a bad name it then stops for good. */
  datatype Worker =
    | Next(i: nat)
    | Trying(i: nat, written: nat)
    | Streaming(i: nat, written: nat)
    | Failing(i: nat, last: bool)
    | Stopped(i: nat)

  datatype Hasher = Absent | Opening | Waiting(i: nat) | Finished | HashFailed | Quit

  datatype State = State(
    out: seq<Byte>,
    workers: seq<Worker>,
    done: seq<bool>,
    firstError: bool,
    errFlag: bool,
    total: nat,
    hasher: Hasher,
    hashed: seq<Byte>
  )

  datatype Step =
    | Look(w: nat)
    | Scribble(w: nat, junk: seq<Byte>)
    | Fallback(w: nat)
    | Land(w: nat)
    | Write(w: nat, n: nat)
    | Complete(w: nat)
    | Fail(w: nat, junk: seq<Byte>)
    | RaiseFlag(w: nat)
    | HashOpen
    | HashRead
    | HashFinish
    | HashBreak
    | HashQuit

  ghost function Source(c: Config, i: nat): seq<Byte>
    requires i < |c.rows|
  {
    Payload(c.oldFile, c.rows[i])
  }

  /** The row can be completed: its name, its size and a digest that is due are in order. */
  ghost predicate RowPasses(c: Config, i: nat)
    requires i < |c.rows|
  {
    NameValid(c.rows[i]) && RowDone(c.digest, c.oldFile, c.rows[i], c.policy.chunkHash)
  }

  ghost function FileSize(c: Config): nat {
    Offset(c.rows, |c.rows|)
  }

  ghost function Start(c: Config): State {
    State(seq(FileSize(c), _ => 0), seq(c.workers, (w: nat) => Next(w)), seq(|c.rows|, _ => false), false, false, 0,
          if c.policy.threadHash then Opening else Absent, [])
  }

  // ---------------------------------------------------------------------------
  // Steps
  // ---------------------------------------------------------------------------

  ghost predicate Busy(c: Config, s: State, w: nat) {
    w < |s.workers| && s.workers[w].i < |c.rows| == |s.done|
  }

  ghost predicate Enabled(c: Config, s: State, step: Step) {
    match step
    case Look(w) => w < |s.workers| && s.workers[w].Next?
    case Scribble(w, junk) =>
      Busy(c, s, w) && s.workers[w].Trying? && 0 < |junk| && s.workers[w].written + |junk| <= c.rows[s.workers[w].i].size
    case Fallback(w) => Busy(c, s, w) && s.workers[w].Trying?
    case Land(w) =>
      Busy(c, s, w) && s.workers[w].Trying? && |Source(c, s.workers[w].i)| == c.rows[s.workers[w].i].size
    case Write(w, n) =>
      Busy(c, s, w) && s.workers[w].Streaming? && 0 < n && s.workers[w].written + n <= |Source(c, s.workers[w].i)|
    case Complete(w) =>
      && Busy(c, s, w) && s.workers[w].Streaming?
      && s.workers[w].written == |Source(c, s.workers[w].i)|
      && RowPasses(c, s.workers[w].i)
    case Fail(w, junk) =>
      && Busy(c, s, w) && (s.workers[w].Trying? || s.workers[w].Streaming?)
      && |junk| <= Max(c.rows[s.workers[w].i].size, |Source(c, s.workers[w].i)|)
    case RaiseFlag(w) => w < |s.workers| && s.workers[w].Failing?
    case HashOpen => s.hasher.Opening? && FileSize(c) > 0
    case HashRead =>
      && s.hasher.Waiting? && s.hasher.i < |c.rows| == |s.done| && s.done[s.hasher.i]
      && Offset(c.rows, s.hasher.i + 1) <= |s.out|
    case HashFinish => s.hasher.Waiting? && s.hasher.i == |c.rows|
    case HashBreak => s.hasher.Opening? || s.hasher.Waiting?
    case HashQuit => s.hasher.Waiting? && s.hasher.i < |c.rows| && s.errFlag
  }

  ghost function At(s: State, w: nat, worker: Worker): State
    requires w < |s.workers|
  {
    s.(workers := s.workers[w := worker])
  }

  /** A worker at a row leaves if there is none or an error is flagged; otherwise it
      starts on the row. */
  ghost function DoLook(c: Config, s: State, w: nat): State
    requires Enabled(c, s, Look(w))
  {
    var i := s.workers[w].i;
    if i >= |c.rows| || s.errFlag then At(s, w, Stopped(i))
    else if c.rows[i].oldOffset >= 0 then At(s, w, Streaming(i, 0))
    else if !c.rows[i].validName then At(s.(firstError := true), w, Failing(i, true))
    else if 0 < c.rows[i].size <= ONESHOT_MAX_SIZE then At(s, w, Trying(i, 0))
    else At(s, w, Streaming(i, 0))
  }

  ghost function Put(c: Config, s: State, w: nat, skip: nat, bytes: seq<Byte>, worker: Worker): State
    requires Busy(c, s, w)
  {
    At(s.(out := Splice(s.out, Offset(c.rows, s.workers[w].i) + skip, bytes)), w, worker)
  }

  ghost function Apply(c: Config, s: State, step: Step): State
    requires Enabled(c, s, step)
  {
    match step
    case Look(w) => DoLook(c, s, w)
    case Scribble(w, junk) =>
      var i, k := s.workers[w].i, s.workers[w].written;
      Put(c, s, w, k, junk, Trying(i, k + |junk|))
    case Fallback(w) => At(s, w, Streaming(s.workers[w].i, 0))
    case Land(w) => Put(c, s, w, 0, Source(c, s.workers[w].i), Streaming(s.workers[w].i, |Source(c, s.workers[w].i)|))
    case Write(w, n) =>
      var i, k := s.workers[w].i, s.workers[w].written;
      Put(c, s, w, k, Source(c, i)[k..k + n], Streaming(i, k + n))
    case Complete(w) =>
      var i := s.workers[w].i;
      At(s.(done := s.done[i := true], total := s.total + c.rows[i].size), w, Next(i + c.workers))
    case Fail(w, junk) => Put(c, s, w, 0, junk, Failing(s.workers[w].i, false)).(firstError := true)
    case RaiseFlag(w) =>
      var i := s.workers[w].i;
      At(s.(errFlag := true), w, if s.workers[w].last then Stopped(i) else Next(i + c.workers))
    case HashOpen => s.(hasher := Waiting(0))
    case HashRead =>
      var i := s.hasher.i;
      s.(hasher := Waiting(i + 1), hashed := s.hashed + s.out[Offset(c.rows, i)..Offset(c.rows, i + 1)])
    case HashFinish => s.(hasher := Finished)
    case HashBreak => s.(hasher := HashFailed)
    case HashQuit => s.(hasher := Quit)
  }

  ghost predicate IsRun(c: Config, run: seq<State>, steps: seq<Step>) {
    && |run| == |steps| + 1 && run[0] == Start(c)
    && forall x :: 0 <= x < |steps| ==> Enabled(c, run[x], steps[x]) && run[x + 1] == Apply(c, run[x], steps[x])
  }

  // ---------------------------------------------------------------------------
  // The invariant
  // ---------------------------------------------------------------------------

  ghost predicate Overrun(c: Config, worker: Worker) {
    worker.Streaming? && worker.i < |c.rows| && worker.written > c.rows[worker.i].size
  }

  /** Some bytes may be wrong, but then an error is recorded or about to be. */
  ghost predicate Dirty(c: Config, s: State) {
    s.firstError || exists w :: 0 <= w < |s.workers| && Overrun(c, s.workers[w])
  }

  /** The worker's own row is one of its rows, and it is really at one while it works. */
  ghost predicate Placed(c: Config, s: State, w: nat)
    requires w < |s.workers| && c.workers > 0
  {
    var k := s.workers[w];
    && k.i % c.workers == w
    && (k.Trying? || k.Streaming? || k.Failing? ==> k.i < |c.rows|)
    && (k.Trying? ==> k.written <= c.rows[k.i].size)
    && (k.Streaming? ==> k.written <= |Source(c, k.i)|)
    && (k.Failing? ==> s.firstError)
    && (k.Stopped? ==> k.i >= |c.rows| || s.firstError)
  }

  function SizeDone(rows: seq<Row>, done: seq<bool>): nat
    requires |rows| == |done|
  {
    if rows == [] then 0
    else
      var n := |rows| - 1;
      SizeDone(rows[..n], done[..n]) + if done[n] then rows[n].size else 0
  }

  ghost predicate Shape(c: Config, s: State) {
    && 0 < c.workers == |s.workers| && |s.done| == |c.rows| && FileSize(c) <= |s.out|
    && (forall w: nat :: w < |s.workers| ==> Placed(c, s, w))
    && (forall j: nat :: j < |s.done| && s.done[j] ==>
          RowPasses(c, j) && j < s.workers[j % c.workers].i)
    && (!s.firstError ==> forall j: nat :: j < |s.done| && j < s.workers[j % c.workers].i ==> s.done[j])
    && s.total == SizeDone(c.rows, s.done)
    && (s.errFlag ==> s.firstError)
    && (s.firstError && !s.errFlag ==> exists w :: 0 <= w < |s.workers| && s.workers[w].Failing?)
  }

  ghost predicate HasherPlaced(c: Config, s: State) {
    && (c.policy.threadHash <==> !s.hasher.Absent?)
    && (s.hasher.Quit? ==> s.errFlag)
    && (s.hasher.Waiting? ==> s.hasher.i <= |c.rows|)
    && (s.hasher.Opening? ==> s.hashed == [])
    && (s.hasher.Waiting? || s.hasher.Finished? ==> FileSize(c) > 0)
  }

  ghost predicate RangeHolds(c: Config, s: State, i: nat, bytes: seq<Byte>)
    requires i < |c.rows|
  {
    var at := Offset(c.rows, i);
    at + |bytes| <= |s.out| && s.out[at..at + |bytes|] == bytes
  }

  ghost predicate DoneHold(c: Config, s: State)
    requires |s.done| == |c.rows|
  {
    forall j: nat :: j < |s.done| && s.done[j] ==> RangeHolds(c, s, j, Source(c, j))
  }

  ghost predicate PrefixHolds(c: Config, s: State, w: nat)
    requires w < |s.workers| && c.workers > 0
  {
    && Placed(c, s, w)
    && (s.workers[w].Streaming? ==>
          RangeHolds(c, s, s.workers[w].i, Source(c, s.workers[w].i)[..s.workers[w].written]))
  }

  ghost predicate HashedSoFar(c: Config, s: State) {
    && (s.hasher.Waiting? && s.hasher.i <= |c.rows| ==> s.hashed == Joined(c.oldFile, c.rows, s.hasher.i))
    && (s.hasher.Finished? ==> s.hashed == Joined(c.oldFile, c.rows, |c.rows|))
  }

  /** While nothing is dirty, every finished range holds its payload, every range under way
      a prefix of it, and the hasher has seen the payloads of the rows before its own. */
  ghost predicate Clean(c: Config, s: State)
    requires Shape(c, s)
  {
    && |s.out| == FileSize(c)
    && DoneHold(c, s)
    && (forall w: nat :: w < |s.workers| ==> PrefixHolds(c, s, w))
    && HashedSoFar(c, s)
  }

  ghost predicate Sound(c: Config, s: State) {
    Shape(c, s) && HasherPlaced(c, s) && (!Dirty(c, s) ==> Clean(c, s))
  }

  // ---------------------------------------------------------------------------
  // Shape
  // ---------------------------------------------------------------------------

  lemma {:induction false} NothingDone(rows: seq<Row>, done: seq<bool>)
    requires |rows| == |done| && forall i :: 0 <= i < |done| ==> !done[i]
    ensures SizeDone(rows, done) == 0
  {
    if rows != [] {
      NothingDone(rows[..|rows| - 1], done[..|rows| - 1]);
    }
  }

  lemma {:induction false} OneMoreDone(rows: seq<Row>, done: seq<bool>, i: nat)
    requires |rows| == |done| && i < |done| && !done[i]
    ensures SizeDone(rows, done[i := true]) == SizeDone(rows, done) + rows[i].size
  {
    var n := |rows| - 1;
    if i < n {
      OneMoreDone(rows[..n], done[..n], i);
      assert done[i := true][..n] == done[..n][i := true];
    } else {
      assert done[i := true][..n] == done[..n];
    }
  }

  lemma {:induction false} AllDone(rows: seq<Row>, done: seq<bool>)
    requires |rows| == |done| && forall i :: 0 <= i < |done| ==> done[i]
    ensures SizeDone(rows, done) == Offset(rows, |rows|)
  {
    if rows != [] {
      var n := |rows| - 1;
      AllDone(rows[..n], done[..n]);
      OffsetOfPrefix(rows, n, n);
    }
  }

  lemma {:induction false} OffsetOfPrefix(rows: seq<Row>, m: nat, n: nat)
    requires n <= m <= |rows|
    ensures Offset(rows[..m], n) == Offset(rows, n)
  {
    if n > 0 {
      OffsetOfPrefix(rows, m, n - 1);
    }
  }

  lemma {:induction false} AtLeastOnce(w: nat, q: int)
    requires q >= 1
    ensures w * q >= w
  {
  }

  /** Rows of one worker are `W` apart. */
  lemma {:induction false} OwnRowsApart(i: nat, j: nat, workers: nat)
    requires workers > 0 && i % workers == j % workers && i < j
    ensures i + workers <= j
  {
    var q := j / workers - i / workers;
    assert i == workers * (i / workers) + i % workers;
    assert j == workers * (j / workers) + j % workers;
    assert j - i == workers * q;
    assert q >= 1;
    AtLeastOnce(workers, q);
  }

  lemma {:induction false} NextOwnRow(i: nat, workers: nat)
    requires workers > 0
    ensures (i + workers) % workers == i % workers
  {
    var k, q, r := i + workers, i / workers + 1, i % workers;
    assert k == workers * q + r;
    var q', r' := k / workers, k % workers;
    assert workers * (q - q') == r' - r;
    if q > q' {
      AtLeastOnce(workers, q - q');
    } else if q < q' {
      AtLeastOnce(workers, q' - q);
    }
  }

  lemma {:induction false} FailingElsewhere(s: State, s': State, w: nat)
    requires w < |s.workers| == |s'.workers| && s'.workers == s.workers[w := s'.workers[w]]
    requires exists x :: 0 <= x < |s.workers| && s.workers[x].Failing?
    requires s.workers[w].Failing? ==> s'.workers[w].Failing?
    ensures exists x :: 0 <= x < |s'.workers| && s'.workers[x].Failing?
  {
    var x :| 0 <= x < |s.workers| && s.workers[x].Failing?;
    assert s'.workers[x].Failing?;
  }

  /** The facts about one worker's move that keep the shape, whatever it wrote. */
  ghost predicate MovesOne(c: Config, s: State, s': State, w: nat) {
    && w < |s.workers| == |s'.workers| && s'.workers == s.workers[w := s'.workers[w]]
    && FileSize(c) <= |s'.out|
    && s'.hasher == s.hasher && s'.hashed == s.hashed
  }

  /** A worker that stays at its row keeps the shape. */
  lemma {:induction false} StayKeepsShape(c: Config, s: State, s': State, w: nat)
    requires Shape(c, s) && MovesOne(c, s, s', w)
    requires s'.workers[w].i == s.workers[w].i && s'.done == s.done && s'.total == s.total && s'.errFlag == s.errFlag
    requires s.firstError ==> s'.firstError
    requires s'.firstError && !s.firstError ==> s'.workers[w].Failing?
    requires s.workers[w].Failing? ==> s'.workers[w].Failing?
    requires Placed(c, s', w)
    ensures Shape(c, s')
  {
    forall x: nat | x < |s'.workers| ensures Placed(c, s', x) {
      assert Placed(c, s, x);
    }
    if s.firstError && !s.errFlag {
      FailingElsewhere(s, s', w);
    } else if s'.firstError && !s'.errFlag {
      assert s'.workers[w].Failing?;
    }
  }

  lemma {:induction false} LookKeepsShape(c: Config, s: State, w: nat)
    requires Shape(c, s) && Enabled(c, s, Look(w))
    ensures Shape(c, DoLook(c, s, w))
  {
    assert Placed(c, s, w);
    StayKeepsShape(c, s, DoLook(c, s, w), w);
  }

  lemma {:induction false} OwnRowIsOpen(c: Config, s: State, w: nat)
    requires Shape(c, s) && w < |s.workers| && s.workers[w].i < |c.rows|
    ensures !s.done[s.workers[w].i]
  {
    assert Placed(c, s, w);
  }

  /** A worker that goes on to its next row: the row it leaves is done, or an error is recorded. */
  lemma {:induction false} AdvanceKeepsShape(c: Config, s: State, s': State, w: nat)
    requires Shape(c, s) && MovesOne(c, s, s', w) && s'.firstError == s.firstError
    requires s'.workers[w] == Next(s.workers[w].i + c.workers)
    requires s.workers[w].i < |c.rows|
    requires || (s'.done == s.done && s'.total == s.total && s.firstError && s'.errFlag)
             || (s'.done == s.done[s.workers[w].i := true] && s'.total == s.total + c.rows[s.workers[w].i].size &&
                 RowPasses(c, s.workers[w].i) && s'.errFlag == s.errFlag &&
                 !s.workers[w].Failing?)
    ensures Shape(c, s')
  {
    var i := s.workers[w].i;
    assert Placed(c, s, w);
    NextOwnRow(i, c.workers);
    forall x: nat | x < |s'.workers| ensures Placed(c, s', x) {
      assert Placed(c, s, x);
    }
    OwnRowIsOpen(c, s, w);
    if s'.done != s.done {
      OneMoreDone(c.rows, s.done, i);
    }
    forall j: nat | j < |s'.done| && j % c.workers == w && !s'.firstError && j < i + c.workers ensures s'.done[j] {
      if i < j {
        OwnRowsApart(i, j, c.workers);
      } else if j < i {
        assert j < s.workers[j % c.workers].i;
      }
    }
    if s'.firstError && !s'.errFlag {
      FailingElsewhere(s, s', w);
    }
  }

  lemma {:induction false} RaiseKeepsShape(c: Config, s: State, w: nat)
    requires Shape(c, s) && Enabled(c, s, RaiseFlag(w))
    ensures Shape(c, Apply(c, s, RaiseFlag(w)))
  {
    var s' := Apply(c, s, RaiseFlag(w));
    assert Placed(c, s, w);
    if s.workers[w].last {
      forall x: nat | x < |s'.workers| ensures Placed(c, s', x) {
        assert Placed(c, s, x);
      }
    } else {
      AdvanceKeepsShape(c, s, s', w);
    }
  }

  lemma {:induction false} StepKeepsShape(c: Config, s: State, step: Step)
    requires Shape(c, s) && Enabled(c, s, step)
    ensures Shape(c, Apply(c, s, step))
  {
    var s' := Apply(c, s, step);
    if step.Look? {
      LookKeepsShape(c, s, step.w);
    } else if step.Complete? {
      assert Placed(c, s, step.w);
      AdvanceKeepsShape(c, s, s', step.w);
    } else if step.RaiseFlag? {
      RaiseKeepsShape(c, s, step.w);
    } else if step.Scribble? || step.Fallback? || step.Land? || step.Write? || step.Fail? {
      assert Placed(c, s, step.w);
      StayKeepsShape(c, s, s', step.w);
    } else {
      forall x: nat | x < |s'.workers| ensures Placed(c, s', x) {
        assert Placed(c, s, x);
      }
    }
  }

  // ---------------------------------------------------------------------------
  // Contents
  // ---------------------------------------------------------------------------

  /** Once some bytes may be wrong, the assembly stays dirty until an error is recorded. */
  lemma {:induction false} DirtyStays(c: Config, s: State, step: Step)
    requires Shape(c, s) && Dirty(c, s) && Enabled(c, s, step)
    ensures Dirty(c, Apply(c, s, step))
  {
    var s' := Apply(c, s, step);
    if !s.firstError {
      var x :| 0 <= x < |s.workers| && Overrun(c, s.workers[x]);
      assert s'.firstError || Overrun(c, s'.workers[x]);
    }
  }

  lemma {:induction false} RowFits(c: Config, i: nat)
    requires i < |c.rows|
    ensures Offset(c.rows, i) + c.rows[i].size <= FileSize(c)
  {
    OffsetsGrow(c.rows, i + 1, |c.rows|);
  }

  /** Writing inside row `i`'s range leaves every other row's range alone. */
  lemma {:induction false} OtherRange(c: Config, s: State, s': State, i: nat, skip: nat, bytes: seq<Byte>, j: nat, b: seq<Byte>)
    requires i < |c.rows| && j < |c.rows| && i != j
    requires skip + |bytes| <= c.rows[i].size && |b| <= c.rows[j].size
    requires s'.out == Splice(s.out, Offset(c.rows, i) + skip, bytes) && FileSize(c) <= |s.out|
    requires RangeHolds(c, s, j, b)
    ensures RangeHolds(c, s', j, b)
  {
    RowFits(c, i);
    if i < j {
      OffsetsGrow(c.rows, i + 1, j);
    } else {
      OffsetsGrow(c.rows, j + 1, i);
    }
  }

  lemma {:induction false} OwnRange(c: Config, s: State, s': State, i: nat, k: nat, n: nat)
    requires i < |c.rows| && k + n <= |Source(c, i)| && k + n <= c.rows[i].size && FileSize(c) <= |s.out|
    requires RangeHolds(c, s, i, Source(c, i)[..k])
    requires s'.out == Splice(s.out, Offset(c.rows, i) + k, Source(c, i)[k..k + n])
    ensures RangeHolds(c, s', i, Source(c, i)[..k + n])
  {
    RowFits(c, i);
    var at := Offset(c.rows, i);
    forall x | 0 <= x < k + n ensures s'.out[at + x] == Source(c, i)[x] {
      if x < k {
        assert s.out[at..at + k][x] == Source(c, i)[..k][x];
      }
    }
  }

  lemma {:induction false} NothingHolds(c: Config, s: State, i: nat)
    requires i < |c.rows| && FileSize(c) <= |s.out|
    ensures RangeHolds(c, s, i, Source(c, i)[..0])
  {
    RowFits(c, i);
  }

  lemma {:induction false} NotOverrun(c: Config, s: State, w: nat)
    requires !Dirty(c, s) && w < |s.workers|
    ensures !Overrun(c, s.workers[w])
  {
  }

  /** A write inside the worker's own range keeps everything but that range. */
  lemma {:induction false} PutKeepsOthers(c: Config, s: State, w: nat, skip: nat, bytes: seq<Byte>, worker: Worker)
    requires Shape(c, s) && !Dirty(c, s) && Clean(c, s) && Busy(c, s, w)
    requires skip + |bytes| <= c.rows[s.workers[w].i].size
    ensures var s' := Put(c, s, w, skip, bytes, worker);
            && |s'.out| == FileSize(c) && DoneHold(c, s')
            && forall x: nat :: x < |s.workers| && x != w ==> Placed(c, s', x) && PrefixHolds(c, s', x)
  {
    var s', i := Put(c, s, w, skip, bytes, worker), s.workers[w].i;
    RowFits(c, i);
    forall j: nat | j < |s.done| && s.done[j] ensures RangeHolds(c, s', j, Source(c, j)) {
      OwnRowIsOpen(c, s, w);
      OtherRange(c, s, s', i, skip, bytes, j, Source(c, j));
    }
    forall x: nat | x < |s.workers| && x != w ensures Placed(c, s', x) && PrefixHolds(c, s', x) {
      assert Placed(c, s, x) && Placed(c, s, w) && PrefixHolds(c, s, x);
      if s.workers[x].Streaming? {
        NotOverrun(c, s, x);
        OtherRange(c, s, s', i, skip, bytes, s.workers[x].i, Source(c, s.workers[x].i)[..s.workers[x].written]);
      }
    }
  }

  lemma {:induction false} WriteKeepsClean(c: Config, s: State, w: nat, n: nat)
    requires Shape(c, s) && !Dirty(c, s) && Clean(c, s) && Enabled(c, s, Write(w, n))
    requires Shape(c, Apply(c, s, Write(w, n))) && !Dirty(c, Apply(c, s, Write(w, n)))
    ensures Clean(c, Apply(c, s, Write(w, n)))
  {
    hide Splice, DoneHold, RangeHolds, RowPasses, SizeDone;
    var s', i, k := Apply(c, s, Write(w, n)), s.workers[w].i, s.workers[w].written;
    NotOverrun(c, s', w);
    PutKeepsOthers(c, s, w, k, Source(c, i)[k..k + n], Streaming(i, k + n));
    assert PrefixHolds(c, s, w) && Placed(c, s', w);
    OwnRange(c, s, s', i, k, n);
  }

  lemma {:induction false} LandKeepsClean(c: Config, s: State, w: nat)
    requires Shape(c, s) && !Dirty(c, s) && Clean(c, s) && Enabled(c, s, Land(w))
    requires Shape(c, Apply(c, s, Land(w)))
    ensures Clean(c, Apply(c, s, Land(w)))
  {
    var s', i := Apply(c, s, Land(w)), s.workers[w].i;
    var p := Source(c, i);
    PutKeepsOthers(c, s, w, 0, p, Streaming(i, |p|));
    NothingHolds(c, s, i);
    assert p[0..0 + |p|] == p && Placed(c, s', w);
    OwnRange(c, s, s', i, 0, |p|);
  }

  lemma {:induction false} ScribbleKeepsClean(c: Config, s: State, w: nat, junk: seq<Byte>)
    requires Shape(c, s) && !Dirty(c, s) && Clean(c, s) && Enabled(c, s, Scribble(w, junk))
    requires Shape(c, Apply(c, s, Scribble(w, junk)))
    ensures Clean(c, Apply(c, s, Scribble(w, junk)))
  {
    var s' := Apply(c, s, Scribble(w, junk));
    var i, k := s.workers[w].i, s.workers[w].written;
    PutKeepsOthers(c, s, w, k, junk, Trying(i, k + |junk|));
    assert Placed(c, s', w);
  }

  /** A step that writes nothing and reads nothing: only the worker's place changes. */
  lemma {:induction false} PlaceKeepsClean(c: Config, s: State, s': State, w: nat)
    requires Shape(c, s) && Shape(c, s') && Clean(c, s) && MovesOne(c, s, s', w)
    requires s'.out == s.out && s'.done == s.done
    requires s'.workers[w].Streaming? ==> s'.workers[w].written == 0
    ensures Clean(c, s')
  {
    forall x: nat | x < |s'.workers| ensures Placed(c, s', x) && PrefixHolds(c, s', x) {
      assert Placed(c, s', x) && PrefixHolds(c, s, x);
      if x == w && s'.workers[x].Streaming? {
        NothingHolds(c, s', s'.workers[w].i);
      }
    }
    assert forall j: nat :: j < |s.done| && s.done[j] ==> RangeHolds(c, s, j, Source(c, j)) && RangeHolds(c, s', j, Source(c, j));
  }

  lemma {:induction false} CompleteKeepsClean(c: Config, s: State, w: nat)
    requires Shape(c, s) && Clean(c, s) && Enabled(c, s, Complete(w)) && Shape(c, Apply(c, s, Complete(w)))
    ensures Clean(c, Apply(c, s, Complete(w)))
  {
    var s', i := Apply(c, s, Complete(w)), s.workers[w].i;
    assert PrefixHolds(c, s, w);
    assert Source(c, i)[..|Source(c, i)|] == Source(c, i);
    forall j: nat | j < |s'.done| && s'.done[j] ensures RangeHolds(c, s', j, Source(c, j)) {
      if j != i {
        assert s.done[j] && RangeHolds(c, s, j, Source(c, j));
      }
    }
    forall x: nat | x < |s'.workers| ensures Placed(c, s', x) && PrefixHolds(c, s', x) {
      assert Placed(c, s', x) && PrefixHolds(c, s, x);
    }
  }

  lemma {:induction false} HashKeepsClean(c: Config, s: State, step: Step)
    requires Sound(c, s) && !Dirty(c, s) && Enabled(c, s, step)
    requires step.HashOpen? || step.HashRead? || step.HashFinish? || step.HashBreak? || step.HashQuit?
    requires Shape(c, Apply(c, s, step))
    ensures Clean(c, Apply(c, s, step))
  {
    var s' := Apply(c, s, step);
    forall x: nat | x < |s'.workers| ensures Placed(c, s', x) && PrefixHolds(c, s', x) {
      assert Placed(c, s', x) && PrefixHolds(c, s, x);
    }
    forall j: nat | j < |s'.done| && s'.done[j] ensures RangeHolds(c, s', j, Source(c, j)) {
      assert RangeHolds(c, s, j, Source(c, j));
    }
    if step.HashRead? {
      assert RangeHolds(c, s, s.hasher.i, Source(c, s.hasher.i));
    }
  }

  lemma {:induction false} StepKeepsClean(c: Config, s: State, step: Step)
    requires Sound(c, s) && !Dirty(c, s) && Enabled(c, s, step) && Shape(c, Apply(c, s, step))
    requires !Dirty(c, Apply(c, s, step))
    ensures Clean(c, Apply(c, s, step))
  {
    var s' := Apply(c, s, step);
    match step
    case Write(w, n) => WriteKeepsClean(c, s, w, n);
    case Land(w) => LandKeepsClean(c, s, w);
    case Scribble(w, junk) => ScribbleKeepsClean(c, s, w, junk);
    case Complete(w) => CompleteKeepsClean(c, s, w);
    case Look(w) => PlaceKeepsClean(c, s, s', w);
    case Fallback(w) => PlaceKeepsClean(c, s, s', w);
    case Fail(_, _) =>
    case RaiseFlag(w) => PlaceKeepsClean(c, s, s', w);
    case HashOpen => HashKeepsClean(c, s, step);
    case HashRead => HashKeepsClean(c, s, step);
    case HashFinish => HashKeepsClean(c, s, step);
    case HashBreak => HashKeepsClean(c, s, step);
    case HashQuit => HashKeepsClean(c, s, step);
  }

  lemma {:induction false} StepKeepsSound(c: Config, s: State, step: Step)
    requires Sound(c, s) && Enabled(c, s, step)
    ensures Sound(c, Apply(c, s, step))
  {
    var s' := Apply(c, s, step);
    StepKeepsShape(c, s, step);
    if Dirty(c, s) {
      DirtyStays(c, s, step);
    } else if !Dirty(c, s') {
      StepKeepsClean(c, s, step);
    }
    assert HasherPlaced(c, s');
  }

  lemma {:induction false} StartIsSound(c: Config)
    requires c.workers > 0
    ensures Sound(c, Start(c))
  {
    var s := Start(c);
    NothingDone(c.rows, s.done);
    forall w: nat | w < |s.workers| ensures Placed(c, s, w) && PrefixHolds(c, s, w) {
      assert w % c.workers == w;
    }
    forall j: nat | j < |s.done| ensures s.workers[j % c.workers].i <= j {
      SmallRemainder(j, c.workers);
    }
  }

  lemma {:induction false} SmallRemainder(j: nat, workers: nat)
    requires workers > 0
    ensures j % workers <= j
  {
    assert j == workers * (j / workers) + j % workers;
  }

  lemma {:induction false} RunKeepsSound(c: Config, run: seq<State>, steps: seq<Step>)
    requires c.workers > 0 && IsRun(c, run, steps)
    ensures Sound(c, run[|steps|])
  {
    if steps == [] {
      StartIsSound(c);
    } else {
      var n := |steps| - 1;
      RunKeepsSound(c, run[..n + 1], steps[..n]);
      StepKeepsSound(c, run[n], steps[n]);
    }
  }

  // ---------------------------------------------------------------------------
  // The end of the assembly
  // ---------------------------------------------------------------------------

  /** All threads have ended. */
  ghost predicate AtRest(s: State) {
    && (forall w :: 0 <= w < |s.workers| ==> s.workers[w].Stopped?)
    && !s.hasher.Opening? && !s.hasher.Waiting?
  }

  /** The checks after the threads have ended. A hasher without a result is accepted. */
  ghost predicate Accepts(c: Config, s: State) {
    && !s.firstError
    && (c.policy.threadHash ==>
          !s.hasher.HashFailed? && (s.hasher.Finished? ==> Matches(c.digest, s.hashed, c.fileHash)))
    && s.total == FileSize(c)
  }

  /** Rows whose stored chunk is released afterwards: the downloaded ones that are done. */
  ghost function Held(c: Config, s: State, n: nat): seq<nat>
    requires n <= |c.rows| == |s.done|
  {
    if n == 0 then []
    else if s.done[n - 1] && c.rows[n - 1].oldOffset < 0 then Held(c, s, n - 1) + [n - 1]
    else Held(c, s, n - 1)
  }

  lemma {:induction false} AllHeld(c: Config, s: State, n: nat)
    requires n <= |c.rows| == |s.done| && forall j :: 0 <= j < |s.done| ==> s.done[j]
    ensures Held(c, s, n) == DownloadedRows(c.rows, n)
  {
    if n > 0 {
      AllHeld(c, s, n - 1);
    }
  }

  lemma {:induction false} RangesJoin(c: Config, s: State, n: nat)
    requires Shape(c, s) && n <= |c.rows| && forall j: nat :: j < |c.rows| ==> s.done[j]
    requires DoneHold(c, s) && |s.out| == FileSize(c)
    ensures Offset(c.rows, n) <= |s.out| && s.out[..Offset(c.rows, n)] == Joined(c.oldFile, c.rows, n)
  {
    OffsetsGrow(c.rows, n, |c.rows|);
    if n > 0 {
      RangesJoin(c, s, n - 1);
      var a, b := Offset(c.rows, n - 1), Offset(c.rows, n);
      assert s.done[n - 1] && RangeHolds(c, s, n - 1, Source(c, n - 1));
      assert s.out[..b] == s.out[..a] + s.out[a..b];
    }
  }

  lemma {:induction false} EverythingDone(c: Config, s: State)
    requires Sound(c, s) && AtRest(s) && !s.firstError
    ensures !Dirty(c, s) && forall j: nat :: j < |c.rows| ==> s.done[j]
  {
    forall j: nat | j < |c.rows| ensures s.done[j] {
      var w := j % c.workers;
      assert Placed(c, s, w);
    }
  }

  /** The hashing thread gives up only when an error is recorded, so that accepting no
      result is safe; and when all workers have stopped it is never left waiting. */
  lemma {:induction false} HasherQuitsOnlyOnError(c: Config, run: seq<State>, steps: seq<Step>)
    requires c.workers > 0 && IsRun(c, run, steps)
    ensures run[|steps|].hasher.Quit? ==> run[|steps|].firstError
  {
    RunKeepsSound(c, run, steps);
  }

  lemma {:induction false} HasherIsNeverStranded(c: Config, run: seq<State>, steps: seq<Step>)
    requires c.workers > 0 && IsRun(c, run, steps)
    requires var s := run[|steps|]; s.hasher.Waiting? && forall w :: 0 <= w < |s.workers| ==> s.workers[w].Stopped?
    ensures var s := run[|steps|];
            Enabled(c, s, HashRead) || Enabled(c, s, HashFinish) || Enabled(c, s, HashQuit)
  {
    var s := run[|steps|];
    RunKeepsSound(c, run, steps);
    if s.hasher.i < |c.rows| && !s.errFlag {
      var w := s.hasher.i % c.workers;
      assert Placed(c, s, w);
      assert s.done[s.hasher.i];
      RowFits(c, s.hasher.i);
    }
  }

  /** An assembly at rest without an error: everything is in place. */
  lemma {:induction false} RestIsComplete(c: Config, s: State)
    requires Sound(c, s) && AtRest(s) && !s.firstError
    ensures s.out == Joined(c.oldFile, c.rows, |c.rows|) && s.total == FileSize(c)
    ensures forall i: nat :: i < |c.rows| ==> RowPasses(c, i)
    ensures Held(c, s, |c.rows|) == DownloadedRows(c.rows, |c.rows|)
    ensures c.policy.threadHash && !s.hasher.HashFailed? ==> s.hasher.Finished? && s.hashed == s.out
  {
    EverythingDone(c, s);
    AllDone(c.rows, s.done);
    RangesJoin(c, s, |c.rows|);
    assert s.out[..FileSize(c)] == s.out;
    AllHeld(c, s, |c.rows|);
    forall i: nat | i < |c.rows| ensures RowPasses(c, i) {
      assert s.done[i];
    }
  }

  lemma {:induction false} PassedRowsMatch(c: Config)
    requires forall i: nat :: i < |c.rows| ==> RowPasses(c, i)
    ensures Sized(c.oldFile, c.rows, |c.rows|) && NamesValid(c.rows)
    ensures c.policy.chunkHash ==> ChunksMatch(c.digest, c.oldFile, c.rows, |c.rows|)
  {
    assert RowsDone(c.digest, c.oldFile, c.rows, |c.rows|, c.policy.chunkHash) by {
      forall i | 0 <= i < |c.rows|
        ensures RowDone(c.digest, c.oldFile, c.rows[i], c.policy.chunkHash) && NameValid(c.rows[i])
      {
        assert RowPasses(c, i);
      }
    }
    hide RowDone, NameValid, Sized, ChunksMatch;
    RowsDoneExactly(c.digest, c.oldFile, c.rows, c.fileHash, c.policy.(streamHash := false, threadHash := false));
  }

  /** For every number of workers and every interleaving: the assembly is accepted exactly
      when no thread failed and, if the file is hashed, its digest is the expected one; and
      then the output is the concatenation of the payloads in manifest order, every row has
      its promised size and its digest where one is due, and every downloaded chunk is
      released. */
  lemma {:induction false} AcceptedExactlyWhenAssembled(
      c: Config, run: seq<State>, steps: seq<Step>)
    requires c.workers > 0 && IsRun(c, run, steps) && AtRest(run[|steps|])
    requires !c.policy.streamHash
    ensures var s := run[|steps|];
            && |s.done| == |c.rows|
            && (Accepts(c, s) ==>
                  Assembled(c.digest, c.oldFile, c.rows, c.fileHash, c.policy, s.out) &&
                  Held(c, s, |c.rows|) == DownloadedRows(c.rows, |c.rows|))
            && (Accepts(c, s) <==>
                  !s.firstError && (c.policy.threadHash ==>
                    s.hasher.Finished? && Matches(c.digest, Joined(c.oldFile, c.rows, |c.rows|), c.fileHash)))
  {
    var s := run[|steps|];
    hide IsRun, AtRest, Sized, ChunksMatch, RowPasses, HasherPlaced, Clean, Matches, Joined;
    RunKeepsSound(c, run, steps);
    assert |s.done| == |c.rows|;
    if !s.firstError {
      RestIsComplete(c, s);
      PassedRowsMatch(c);
    }
  }

  /** With verification on, an accepted parallel assembly has been checked. */
  lemma {:induction false} AcceptedIsChecked(
      c: Config, run: seq<State>, steps: seq<Step>, mode: VerifyMode)
    requires c.workers > 0 && IsRun(c, run, steps) && AtRest(run[|steps|])
    requires c.fileHash != [] && !mode.NoVerification?
    requires c.policy == Decide(mode, c.fileHash, AllHashed(c.rows), |c.rows|, c.workers) && c.policy.parallel
    requires Accepts(c, run[|steps|])
    ensures run[|steps|].out == Joined(c.oldFile, c.rows, |c.rows|)
    ensures Checked(c.digest, c.oldFile, c.rows, c.fileHash)
  {
    DecideCovers(mode, c.fileHash, AllHashed(c.rows), |c.rows|, c.workers);
    AcceptedExactlyWhenAssembled(c, run, steps);
    AssembledIsChecked(c.digest, c.oldFile, c.rows, c.fileHash, mode, c.workers, run[|steps|].out);
  }

  /** A row that yields too many or too few bytes is never accepted. */
  lemma {:induction false} WrongSizesAreRefused(
      c: Config, run: seq<State>, steps: seq<Step>, i: nat)
    requires c.workers > 0 && IsRun(c, run, steps) && AtRest(run[|steps|])
    requires !c.policy.streamHash
    requires i < |c.rows| && |Source(c, i)| != c.rows[i].size
    ensures !Accepts(c, run[|steps|])
  {
    AcceptedExactlyWhenAssembled(c, run, steps);
  }

  /** An empty file cannot be mapped, so the hashing thread refuses it even though its
      rows are in order. */
  lemma {:induction false} EmptyFilesAreRefused(c: Config, run: seq<State>, steps: seq<Step>)
    requires c.workers > 0 && IsRun(c, run, steps) && AtRest(run[|steps|])
    requires !c.policy.streamHash && c.policy.threadHash && FileSize(c) == 0
    ensures !Accepts(c, run[|steps|])
  {
    AcceptedExactlyWhenAssembled(c, run, steps);
    RunKeepsSound(c, run, steps);
  }

  // ---------------------------------------------------------------------------
  // The writers' outcomes are steps
  // ---------------------------------------------------------------------------

  /** A sequence of steps from one state to another. */
  ghost predicate Leads(c: Config, s: State, steps: seq<Step>, s': State)
    decreases |steps|
  {
    if steps == [] then s' == s
    else Enabled(c, s, steps[0]) && Leads(c, Apply(c, s, steps[0]), steps[1..], s')
  }

  lemma {:induction false} LeadsOn(c: Config, s: State, step: Step, steps: seq<Step>, s': State)
    requires Enabled(c, s, step) && Leads(c, Apply(c, s, step), steps, s')
    ensures Leads(c, s, [step] + steps, s')
  {
    assert ([step] + steps)[1..] == steps;
  }

  /** Writing all that the row's source yields, from the start of the row. */
  lemma {:induction false} StreamAll(c: Config, s: State, w: nat) returns (steps: seq<Step>, s': State)
    requires Busy(c, s, w) && s.workers[w] == Streaming(s.workers[w].i, 0)
    ensures Leads(c, s, steps, s')
    ensures var i := s.workers[w].i;
            s' == Put(c, s, w, 0, Source(c, i), Streaming(i, |Source(c, i)|))
  {
    var i := s.workers[w].i;
    var all := Source(c, i);
    if all == [] {
      steps, s' := [], s;
      assert s.workers[w := Streaming(i, 0)] == s.workers;
    } else {
      var step := Write(w, |all|);
      assert all[0..0 + |all|] == all;
      s' := Apply(c, s, step);
      steps := [step];
      LeadsOn(c, s, step, [], s');
    }
  }

  lemma {:induction false} PassedRowFits(c: Config, i: nat)
    requires i < |c.rows| && RowPasses(c, i)
    ensures |Source(c, i)| == c.rows[i].size
  {
  }

  /** A worker that has begun on a row that passes can write it and complete it. */
  lemma {:induction false} WroteTakesSteps(c: Config, s: State, w: nat) returns (steps: seq<Step>, s': State)
    requires Busy(c, s, w) && RowPasses(c, s.workers[w].i)
    requires s.workers[w] == Trying(s.workers[w].i, 0) || s.workers[w] == Streaming(s.workers[w].i, 0)
    ensures Leads(c, s, steps, s')
    ensures var i := s.workers[w].i;
            && s'.out == Splice(s.out, Offset(c.rows, i), Source(c, i))
            && s' == s.(out := s'.out, workers := s.workers[w := Next(i + c.workers)],
                        done := s.done[i := true], total := s.total + c.rows[i].size)
  {
    hide Splice, RowDone, NameValid, Payload, Leads;
    var i := s.workers[w].i;
    var s1 := if s.workers[w].Trying? then Apply(c, s, Fallback(w)) else s;
    var more, s2 := StreamAll(c, s1, w);
    var complete := Complete(w);
    assert |Source(c, i)| == c.rows[i].size && Enabled(c, s2, complete) by {
      PassedRowFits(c, i);
    }
    s' := Apply(c, s2, complete);
    NoSteps(c, s');
    LeadsOn(c, s2, complete, [], s');
    assert [complete] + [] == [complete];
    LeadsAppend(c, s1, more, s2, [complete], s');
    steps := more + [complete];
    if s.workers[w].Trying? {
      LeadsOn(c, s, Fallback(w), steps, s');
      steps := [Fallback(w)] + steps;
    }
  }

  lemma {:induction false} LeadsAppend(c: Config, s: State, a: seq<Step>, t: State, b: seq<Step>, u: State)
    requires Leads(c, s, a, t) && Leads(c, t, b, u)
    ensures Leads(c, s, a + b, u)
    decreases |a|
  {
    if a == [] {
      assert a + b == b;
    } else {
      LeadsAppend(c, Apply(c, s, a[0]), a[1..], t, b, u);
      assert (a + b)[1..] == a[1..] + b;
    }
  }

  lemma {:induction false} LookBegins(c: Config, s: State, w: nat)
    requires Busy(c, s, w) && s.workers[w].Next? && !s.errFlag
    ensures var i, s1 := s.workers[w].i, DoLook(c, s, w);
            if NameValid(c.rows[i]) then s1 == At(s, w, Trying(i, 0)) || s1 == At(s, w, Streaming(i, 0))
            else s1 == At(s.(firstError := true), w, Failing(i, true))
  {
  }

  lemma {:induction false} FailedTakesStep(c: Config, s: State, w: nat, after: seq<Byte>) returns (step: Step, s': State)
    requires Busy(c, s, w) && (s.workers[w].Trying? || s.workers[w].Streaming?)
    requires var i := s.workers[w].i;
             ConfinedTo(s.out, after, Offset(c.rows, i), Max(c.rows[i].size, |Source(c, i)|))
    ensures Enabled(c, s, step) && s' == Apply(c, s, step)
    ensures s' == s.(out := after, firstError := true, workers := s.workers[w := Failing(s.workers[w].i, false)])
  {
    hide Splice;
    var i := s.workers[w].i;
    var bytes: seq<Byte> :| |bytes| <= Max(c.rows[i].size, |Source(c, i)|) && after == Splice(s.out, Offset(c.rows, i), bytes);
    step := Fail(w, bytes);
    s' := Apply(c, s, step);
  }

  /** Every outcome that the writer of one row may have is a sequence of the worker's steps. */
  lemma {:induction false} WritersTakeSteps(c: Config, s: State, w: nat, after: seq<Byte>, r: Outcome)
    returns (steps: seq<Step>, s': State)
    requires Busy(c, s, w) && s.workers[w].Next? && !s.errFlag
    requires var i := s.workers[w].i;
             RowOutcome(c.digest, c.oldFile, c.rows[i], c.policy.chunkHash, s.out, after, Offset(c.rows, i), r)
    ensures Leads(c, s, steps, s')
    ensures var i := s.workers[w].i;
            if r.Wrote? then
              s' == s.(out := after, workers := s.workers[w := Next(i + c.workers)],
                       done := s.done[i := true], total := s.total + c.rows[i].size)
            else
              s' == s.(out := after, firstError := true, workers := s.workers[w := Failing(i, !NameValid(c.rows[i]))])
  {
    hide Splice, RowDone, NameValid, Payload, ConfinedTo, Leads;
    var i, look := s.workers[w].i, Look(w);
    var s1 := DoLook(c, s, w);
    LookBegins(c, s, w);
    var more: seq<Step>;
    match r {
      case Wrote(_) =>
        more, s' := WroteTakesSteps(c, s1, w);
      case Failed(_) =>
        NoSteps(c, s1);
        more, s' := [], s1;
        if NameValid(c.rows[i]) {
          var step;
          step, s' := FailedTakesStep(c, s1, w, after);
          NoSteps(c, s');
          LeadsOn(c, s1, step, [], s');
          more := [step];
          assert [step] + [] == [step];
        }
    }
    LeadsOn(c, s, look, more, s');
    steps := [look] + more;
  }

  lemma {:induction false} NoSteps(c: Config, s: State)
    ensures Leads(c, s, [], s)
  {
  }

  // ---------------------------------------------------------------------------
  // Every assembly ends
  // ---------------------------------------------------------------------------

  /** Steps that a worker at row `i` may still take, from that row on. */
  ghost function RowsLeft(c: Config, i: nat): nat
    requires c.workers > 0
    decreases |c.rows| - i
  {
    if i >= |c.rows| then 1 else c.rows[i].size + |Source(c, i)| + 6 + RowsLeft(c, i + c.workers)
  }

  ghost function Rank(c: Config, k: Worker): nat
    requires c.workers > 0
  {
    match k
    case Next(i) => RowsLeft(c, i)
    case Trying(i, n) =>
      if i < |c.rows| && n <= c.rows[i].size
      then c.rows[i].size - n + |Source(c, i)| + 5 + RowsLeft(c, i + c.workers) else 0
    case Streaming(i, n) =>
      if i < |c.rows| && n <= |Source(c, i)| then |Source(c, i)| - n + 3 + RowsLeft(c, i + c.workers) else 0
    case Failing(i, _) => 2 + RowsLeft(c, i + c.workers)
    case Stopped(_) => 0
  }

  ghost function Ranks(c: Config, workers: seq<Worker>): nat
    requires c.workers > 0
  {
    if workers == [] then 0 else Ranks(c, workers[..|workers| - 1]) + Rank(c, workers[|workers| - 1])
  }

  ghost function HasherRank(c: Config, h: Hasher): nat {
    match h
    case Opening => |c.rows| + 2
    case Waiting(i) => if i <= |c.rows| then |c.rows| - i + 1 else 0
    case _ => 0
  }

  lemma {:induction false} RanksUpdate(c: Config, workers: seq<Worker>, w: nat, k: Worker)
    requires c.workers > 0 && w < |workers|
    ensures Ranks(c, workers[w := k]) == Ranks(c, workers) - Rank(c, workers[w]) + Rank(c, k)
  {
    hide Rank;
    var n := |workers| - 1;
    if w < n {
      RanksUpdate(c, workers[..n], w, k);
      assert workers[w := k][..n] == workers[..n][w := k];
    } else {
      assert workers[w := k][..n] == workers[..n];
    }
  }

  /** The worker whose step it is. */
  ghost function Actor(step: Step): Option<nat> {
    match step
    case Look(w) => Some(w)
    case Scribble(w, _) => Some(w)
    case Fallback(w) => Some(w)
    case Land(w) => Some(w)
    case Write(w, _) => Some(w)
    case Complete(w) => Some(w)
    case Fail(w, _) => Some(w)
    case RaiseFlag(w) => Some(w)
    case _ => None
  }

  lemma {:induction false} RowsLeftIsPositive(c: Config, i: nat)
    requires c.workers > 0
    ensures RowsLeft(c, i) > 0
  {
  }

  lemma {:induction false} LookDescends(c: Config, s: State, w: nat)
    requires c.workers > 0 && Enabled(c, s, Look(w))
    ensures var s' := DoLook(c, s, w);
            && s'.hasher == s.hasher && |s.workers| == |s'.workers|
            && s'.workers == s.workers[w := s'.workers[w]] && Rank(c, s'.workers[w]) < Rank(c, s.workers[w])
  {
    hide NameValid, Payload;
  }

  lemma {:induction false} WorkerStepDescends(c: Config, s: State, step: Step, w: nat)
    requires Shape(c, s) && Enabled(c, s, step) && Actor(step) == Some(w)
    ensures var s' := Apply(c, s, step);
            && s'.hasher == s.hasher && w < |s.workers| == |s'.workers|
            && s'.workers == s.workers[w := s'.workers[w]] && Rank(c, s'.workers[w]) < Rank(c, s.workers[w])
  {
    hide Splice, RowDone, NameValid, Payload;
    assert Placed(c, s, w);
    if step.Look? {
      LookDescends(c, s, w);
      hide DoLook, Rank;
    } else {
      hide DoLook, RowsLeft;
      if step.RaiseFlag? {
        RowsLeftIsPositive(c, s.workers[w].i + c.workers);
      }
    }
  }

  /** Workers before the hashing thread: one of them gets closer to its end. */
  ghost predicate Descends(c: Config, s: State, s': State)
    requires c.workers > 0
  {
    || Ranks(c, s'.workers) < Ranks(c, s.workers)
    || (s'.workers == s.workers && HasherRank(c, s'.hasher) < HasherRank(c, s.hasher))
  }

  lemma {:induction false} StepDescends(c: Config, s: State, step: Step)
    requires Sound(c, s) && Enabled(c, s, step)
    ensures c.workers > 0 && Sound(c, Apply(c, s, step)) && Descends(c, s, Apply(c, s, step))
  {
    StepKeepsSound(c, s, step);
    var s' := Apply(c, s, step);
    if Actor(step).Some? {
      var w := Actor(step).value;
      WorkerStepDescends(c, s, step, w);
      RanksUpdate(c, s.workers, w, s'.workers[w]);
    }
  }

  ghost predicate StepsTo(c: Config, s: State, s': State) {
    exists step :: Enabled(c, s, step) && s' == Apply(c, s, step)
  }

  /** Nothing goes wrong in the step. */
  ghost predicate Smooth(step: Step) {
    !step.Fail? && !step.HashBreak? && !step.HashQuit?
  }

  ghost predicate AllPass(c: Config) {
    forall i: nat :: i < |c.rows| ==> RowPasses(c, i)
  }

  lemma {:induction false} WorkerCanMove(c: Config, s: State, w: nat) returns (step: Step)
    requires Sound(c, s) && w < |s.workers| && !s.workers[w].Stopped?
    ensures Enabled(c, s, step) && (AllPass(c) ==> Smooth(step))
  {
    hide Clean, HasherPlaced, Splice, RowDone, NameValid, Payload;
    assert Placed(c, s, w);
    match s.workers[w]
    case Next(_) => step := Look(w);
    case Trying(_, _) => step := Fallback(w);
    case Failing(_, _) => step := RaiseFlag(w);
    case Streaming(i, n) =>
      if n < |Source(c, i)| {
        step := Write(w, |Source(c, i)| - n);
      } else if RowPasses(c, i) {
        step := Complete(w);
      } else {
        step := Fail(w, []);
      }
  }

  /** The hashing thread goes on once the workers have stopped. */
  lemma {:induction false} HasherCanMove(c: Config, s: State) returns (step: Step)
    requires Sound(c, s) && (forall w :: 0 <= w < |s.workers| ==> s.workers[w].Stopped?)
    requires s.hasher.Opening? || s.hasher.Waiting?
    ensures Enabled(c, s, step) && (!s.firstError && FileSize(c) > 0 ==> Smooth(step))
  {
    if s.hasher.Opening? {
      step := if FileSize(c) > 0 then HashOpen else HashBreak;
    } else if s.hasher.i == |c.rows| {
      step := HashFinish;
    } else if s.errFlag {
      step := HashQuit;
    } else {
      var w := s.hasher.i % c.workers;
      assert Placed(c, s, w);
      RowFits(c, s.hasher.i);
      step := HashRead;
    }
  }

  /** No deadlock: some thread can go on until all have ended, and without a step that fails
      when every row passes, nothing has failed and there is something to map. */
  lemma {:induction false} CanMove(c: Config, s: State) returns (step: Step)
    requires Sound(c, s) && !AtRest(s)
    ensures Enabled(c, s, step)
    ensures AllPass(c) && !s.firstError && (c.policy.threadHash ==> FileSize(c) > 0) ==> Smooth(step)
  {
    if w: nat :| w < |s.workers| && !s.workers[w].Stopped? {
      step := WorkerCanMove(c, s, w);
    } else {
      step := HasherCanMove(c, s);
    }
  }

  lemma {:induction false} StepsToDescends(c: Config, s: State, s': State)
    requires Sound(c, s) && StepsTo(c, s, s')
    ensures c.workers > 0 && Sound(c, s') && Descends(c, s, s')
  {
    hide Enabled, Apply, Sound, Descends;
    var step :| Enabled(c, s, step) && s' == Apply(c, s, step);
    StepDescends(c, s, step);
  }

  lemma {:induction false} StuckMeansEnded(c: Config, s: State)
    requires Sound(c, s) && forall step :: !Enabled(c, s, step)
    ensures AtRest(s)
  {
    hide Enabled, Sound;
    if !AtRest(s) {
      var step := CanMove(c, s);
      assert false;
    }
  }

  /** No sequence of states can take assembly steps for ever, and where it stops because no step
      is possible all threads have ended. */
  lemma {:induction false} EveryAssemblyEnds(c: Config, run: nat -> State, n: nat) returns (end: nat)
    requires c.workers > 0 && Sound(c, run(n))
    ensures n <= end && !StepsTo(c, run(end), run(end + 1))
    ensures (forall step :: !Enabled(c, run(end), step)) ==> AtRest(run(end))
    decreases Ranks(c, run(n).workers), HasherRank(c, run(n).hasher)
  {
    hide Enabled, Sound, StepsTo, Ranks, HasherRank, AtRest;
    if StepsTo(c, run(n), run(n + 1)) {
      StepsToDescends(c, run(n), run(n + 1));
      end := EveryAssemblyEnds(c, run, n + 1);
    } else {
      end := n;
      if forall step :: !Enabled(c, run(n), step) {
        StuckMeansEnded(c, run(n));
      }
    }
  }

  /** Once the error flag is raised it stays, and no worker begins another row. */
  lemma {:induction false} NoRowAfterTheFlag(c: Config, run: seq<State>, steps: seq<Step>, x: nat, y: nat)
    requires IsRun(c, run, steps) && x <= y < |run| && run[x].errFlag
    ensures run[y].errFlag
    ensures forall w: nat :: y < |steps| && steps[y] == Look(w) ==> w < |run[y + 1].workers| && run[y + 1].workers[w].Stopped?
  {
    if x < y {
      NoRowAfterTheFlag(c, run, steps, x, y - 1);
      hide Splice, RowDone, Payload, NameValid;
      assert run[y - 1 + 1] == Apply(c, run[y - 1], steps[y - 1]);
    }
  }

  // ---------------------------------------------------------------------------
  // When an assembly can be accepted
  // ---------------------------------------------------------------------------

  ghost predicate Reachable(c: Config, s: State) {
    exists run, steps :: IsRun(c, run, steps) && run[|steps|] == s
  }

  lemma {:induction false} StepIsReachable(c: Config, s: State, step: Step)
    requires Reachable(c, s) && Enabled(c, s, step)
    ensures Reachable(c, Apply(c, s, step))
  {
    hide Enabled, Apply, Start;
    var run, steps :| IsRun(c, run, steps) && run[|steps|] == s;
    assert IsRun(c, run + [Apply(c, s, step)], steps + [step]);
  }

  ghost predicate Unfailed(s: State) {
    !s.firstError && !s.hasher.HashFailed?
  }

  lemma {:induction false} NoneFailing(c: Config, s: State, w: nat)
    requires Shape(c, s) && !s.firstError && w < |s.workers|
    ensures !s.workers[w].Failing?
  {
    assert Placed(c, s, w);
  }

  lemma {:induction false} SmoothKeepsUnfailed(c: Config, s: State, step: Step)
    requires AllPass(c) && Unfailed(s) && Shape(c, s) && Enabled(c, s, step) && Smooth(step)
    ensures Unfailed(Apply(c, s, step))
  {
    hide Splice, RowDone, Payload;
    if step.RaiseFlag? {
      NoneFailing(c, s, step.w);
    }
    if step.Look? && s.workers[step.w].i < |c.rows| {
      assert RowPasses(c, s.workers[step.w].i);
    }
  }

  /** Any assembly of rows that pass can be carried on to its end without a failure. */
  lemma {:induction false} RunToRest(c: Config, s: State) returns (s': State)
    requires Sound(c, s) && Reachable(c, s) && Unfailed(s)
    requires AllPass(c) && (c.policy.threadHash ==> FileSize(c) > 0)
    ensures Reachable(c, s') && AtRest(s') && Unfailed(s')
    decreases Ranks(c, s.workers), HasherRank(c, s.hasher)
  {
    if AtRest(s) {
      s' := s;
    } else {
      var step := CanMove(c, s);
      StepIsReachable(c, s, step);
      SmoothKeepsUnfailed(c, s, step);
      StepDescends(c, s, step);
      hide Enabled, Sound, Reachable, Ranks, HasherRank, AtRest, Unfailed, AllPass, Apply;
      s' := RunToRest(c, Apply(c, s, step));
    }
  }

  /** Some schedule ends in acceptance with these bytes. */
  ghost predicate EndsAccepted(c: Config, out: seq<Byte>) {
    exists s :: Reachable(c, s) && AtRest(s) && Accepts(c, s) && s.out == out
  }

  /** Names, sizes and due digests are in order, and a hashing thread has something to map. */
  ghost predicate Fit(c: Config) {
    Acceptable(c.digest, c.oldFile, c.rows, c.fileHash, c.policy) && (c.policy.threadHash ==> FileSize(c) > 0)
  }

  lemma {:induction false} FitMeansPass(c: Config)
    requires Acceptable(c.digest, c.oldFile, c.rows, c.fileHash, c.policy)
    ensures AllPass(c)
  {
    hide RowDone, NameValid, Acceptable, Sized, ChunksMatch;
    RowsDoneExactly(c.digest, c.oldFile, c.rows, c.fileHash, c.policy);
  }

  lemma {:induction false} FitIsAccepted(c: Config)
    requires c.workers > 0 && !c.policy.streamHash && Fit(c)
    ensures EndsAccepted(c, Joined(c.oldFile, c.rows, |c.rows|))
  {
    FitMeansPass(c);
    StartIsSound(c);
    assert Reachable(c, Start(c)) by {
      assert IsRun(c, [Start(c)], []);
    }
    var s := RunToRest(c, Start(c));
    var run, steps :| IsRun(c, run, steps) && run[|steps|] == s;
    AcceptedExactlyWhenAssembled(c, run, steps);
    RunKeepsSound(c, run, steps);
    hide IsRun, Sized, ChunksMatch, Clean, Matches, Joined, Assembled;
    RestIsComplete(c, s);
  }

  lemma {:induction false} AcceptedIsFit(c: Config, s: State)
    requires c.workers > 0 && !c.policy.streamHash && Reachable(c, s) && AtRest(s) && Accepts(c, s)
    ensures Fit(c) && s.out == Joined(c.oldFile, c.rows, |c.rows|)
  {
    var run, steps :| IsRun(c, run, steps) && run[|steps|] == s;
    AcceptedExactlyWhenAssembled(c, run, steps);
    RunKeepsSound(c, run, steps);
    if c.policy.threadHash && FileSize(c) == 0 {
      EmptyFilesAreRefused(c, run, steps);
    }
    hide IsRun, Clean, Matches, Joined, AtRest, Accepts;
    RestIsComplete(c, s);
    PassedRowsMatch(c);
  }

  /** For every number of workers: some schedule ends in acceptance if and only if the assembly
      is fit, and then with the concatenation of the payloads. */
  lemma {:induction false} EndsAcceptedExactly(c: Config, out: seq<Byte>)
    requires c.workers > 0 && !c.policy.streamHash
    ensures EndsAccepted(c, out) <==> Fit(c) && out == Joined(c.oldFile, c.rows, |c.rows|)
  {
    hide Reachable, AtRest, Accepts, Joined, Fit;
    if EndsAccepted(c, out) {
      var s :| Reachable(c, s) && AtRest(s) && Accepts(c, s) && s.out == out;
      AcceptedIsFit(c, s);
    }
    if Fit(c) {
      FitIsAccepted(c);
    }
  }

  // ---------------------------------------------------------------------------
  // One file, whichever route it takes
  // ---------------------------------------------------------------------------

  /** Assembling the file can succeed with these bytes: by some schedule of the threads when the
      file is worked on in parallel, and otherwise row after row as `AssembleFile` does it. */
  ghost predicate CanAssemble(
      digest: seq<Byte> -> seq<Byte>, target: Option<seq<Byte>>, rows: seq<Row>, fileSize: nat, fileHash: seq<Byte>,
      mode: VerifyMode, workers: nat, out: seq<Byte>)
  {
    var policy := PolicyOf(mode, fileHash, rows, workers);
    && Ready(target, rows, fileSize)
    && if policy.parallel then EndsAccepted(Config(digest, OldOf(target), rows, workers, fileHash, policy), out)
       else Acceptable(digest, OldOf(target), rows, fileHash, policy) && out == Joined(OldOf(target), rows, |rows|)
  }

  /** For every mode, number of workers and set of hashes: the file can be assembled if and only
      if the sizes add up, the old file is there when a row is reused, names, row sizes and due
      digests are in order and a hashing thread has something to map; the bytes are then the
      concatenation of the payloads, and in a verifying mode a digest that covers them matched. */
  lemma {:induction false} CanAssembleExactly(
      digest: seq<Byte> -> seq<Byte>, target: Option<seq<Byte>>, rows: seq<Row>, fileSize: nat, fileHash: seq<Byte>,
      mode: VerifyMode, workers: nat, out: seq<Byte>)
    ensures var policy := PolicyOf(mode, fileHash, rows, workers);
            CanAssemble(digest, target, rows, fileSize, fileHash, mode, workers, out) <==>
            && Ready(target, rows, fileSize)
            && Acceptable(digest, OldOf(target), rows, fileHash, policy)
            && (policy.threadHash ==> fileSize > 0)
            && out == Joined(OldOf(target), rows, |rows|)
    ensures CanAssemble(digest, target, rows, fileSize, fileHash, mode, workers, out) && fileHash != [] && !mode.NoVerification? ==>
              Checked(digest, OldOf(target), rows, fileHash)
  {
    var policy := PolicyOf(mode, fileHash, rows, workers);
    if policy.parallel {
      EndsAcceptedExactly(Config(digest, OldOf(target), rows, workers, fileHash, policy), out);
    }
    hide EndsAccepted, Joined, Matches, Payload, Sized;
    if CanAssemble(digest, target, rows, fileSize, fileHash, mode, workers, out) && fileHash != [] && !mode.NoVerification? {
      AssembledIsChecked(digest, OldOf(target), rows, fileHash, mode, workers, out);
    }
  }

  /** A digest text that is compared: 32 characters that are not all '0'. */
  ghost predicate DigestText(text: seq<Byte>) {
    |text| == 32 && exists i :: 0 <= i < 32 && text[i] != '0' as int
  }

  lemma {:induction false} DigestTextExactly(text: seq<Byte>)
    ensures DigestText(text) <==> HashRequired(text)
  {
  }

  /** What each mode looks at. Rows need their names and sizes in every mode. In Full mode every
      row whose digest text is a proper one has that digest. The whole file has its digest, if
      one is given, in Deferred mode, and in Full mode when a row has no proper text; with
      verification off only when in that case several workers share four or more rows. Then,
      with several workers and four or more rows, it must not be empty. */
  lemma {:induction false} CanAssembleByMode(
      digest: seq<Byte> -> seq<Byte>, target: Option<seq<Byte>>, rows: seq<Row>, fileSize: nat, fileHash: seq<Byte>,
      mode: VerifyMode, workers: nat, out: seq<Byte>)
    ensures var hashed := forall n :: 0 <= n < |rows| ==> DigestText(rows[n].hash);
            var many := workers > 1 && |rows| >= 4;
            CanAssemble(digest, target, rows, fileSize, fileHash, mode, workers, out) <==>
            && Ready(target, rows, fileSize) && NamesValid(rows) && Sized(OldOf(target), rows, |rows|)
            && out == Joined(OldOf(target), rows, |rows|)
            && (mode == Full ==> forall n :: 0 <= n < |rows| && DigestText(rows[n].hash) ==>
                  Lower(rows[n].hash) == Encode(digest(Payload(OldOf(target), rows[n]))))
            && (fileHash != [] && (mode == Deferred || (!hashed && (mode == Full || many))) ==>
                  Lower(fileHash) == Encode(digest(out)) && (many ==> fileSize > 0))
  {
    CanAssembleExactly(digest, target, rows, fileSize, fileHash, mode, workers, out);
    forall n | 0 <= n < |rows| ensures DigestText(rows[n].hash) <==> HashRequired(rows[n].hash) {
      DigestTextExactly(rows[n].hash);
    }
    hide CanAssemble, Joined, Payload, DigestText, HashRequired, Lower, Encode;
  }
}
