/** The completion protocol as a step relation. Download workers finish items in
    any order and decrement pending counts one entry at a time; a count that
    reaches zero completes an eager file or sends the file to assembly; assembly
    tasks claim files, assemble them or find them valid, and release chunk
    reference counts one row at a time. Every atomic access is one step and the
    steps of all workers and tasks interleave freely. */
module Protocol {
  import opened Manifest
  import opened Plan

  datatype Row = Row(name: string, downloaded: bool)

  /** What the protocol is started with. `slots[p]` is the file that owns pending
      slot `p` and `slotEager[p]` the route of that file; `seeds` are the
      completion flags taken over from a previous session; `onDisk` are the chunk
      files present at the start. */
  datatype Job = Job(
    rows: seq<seq<Row>>,
    completed: set<nat>,
    seeds: seq<bool>,
    entries: seq<seq<Entry>>,
    eager: seq<bool>,
    names: seq<string>,
    slots: seq<nat>,
    slotEager: seq<bool>,
    refcounts: seq<nat>,
    pending: seq<nat>,
    sent: seq<nat>,
    onDisk: set<string>
  )

  /** Where the worker of an item is: not begun, about to handle entry `k`, between
      flagging an eager file and counting it, or stopped by an error. */
  datatype ItemPc = Waiting | Notifying(k: nat) | Completing(k: nat, file: nat) | Errored

  datatype After = Count | Fail

  /** An assembly task. `Releasing` holds the rows still to be released. */
  datatype Phase =
    | Spawned
    | Deciding
    | Assembling
    | Releasing(todo: seq<nat>, after: After)
    | Counted
    | Failed

  datatype Task = Task(file: nat, phase: Phase)

  /** `channel` is the FIFO queue to the assembly coordinator and `tasks` every task
      it has started. The last four fields record history and steer nothing: the
      messages ever sent, the files that raised `assembled`, the rows released, and
      the files a task skipped because their flag was already set. */
  datatype State = State(
    pc: seq<ItemPc>,
    pending: seq<nat>,
    refs: seq<nat>,
    store: set<string>,
    channel: seq<nat>,
    tasks: seq<Task>,
    flags: seq<bool>,
    assembled: nat,
    sent: seq<nat>,
    counted: seq<nat>,
    released: set<(nat, nat)>,
    skipped: set<nat>
  )

  datatype Step =
    | Fetch(i: nat)
    | FailItem(i: nat)
    | Notify(i: nat)
    | CountEager(i: nat)
    | Receive
    | Claim(t: nat)
    | FindValid(t: nat)
    | Begin(t: nat)
    | Succeed(t: nat)
    | GiveUp(t: nat, held: seq<nat>)
    | Release(t: nat, at: Option<nat>)
    | Finish(t: nat)

  /** 32-bit `fetch_sub(1)`. */
  function Decrement(x: nat): (r: nat)
    ensures x < U32 ==> r < U32 && (x - 1 - r) % U32 == 0
  {
    if x == 0 then 0xFFFF_FFFF else x - 1
  }

  // ---------------------------------------------------------------------------
  // Chunk files
  // ---------------------------------------------------------------------------

  /** Position of the dot that starts the extension of the last path component, if any. */
  function ExtensionDot(name: string, end: nat): (d: Option<nat>)
    requires end <= |name|
    ensures d.Some? ==> 0 < d.value < end && name[d.value] == '.'
  {
    if end == 0 || name[end - 1] == '/' then None
    else if name[end - 1] == '.' then
      if end == 1 || name[end - 2] == '/' then None else Some(end - 1)
    else ExtensionDot(name, end - 1)
  }

  /** File name of a stored chunk: the extension, if there is one, becomes `zstd`. */
  function ChunkFile(name: string): string {
    (match ExtensionDot(name, |name|)
     case None => name
     case Some(d) => name[..d]) + ".zstd"
  }

  // ---------------------------------------------------------------------------
  // Steps
  // ---------------------------------------------------------------------------

  function Cursor(pc: ItemPc): nat {
    match pc
    case Waiting => 0
    case Notifying(k) => k
    case Completing(k, _) => k
    case Errored => 0
  }

  ghost predicate Fetched(pc: ItemPc) {
    pc.Notifying? || pc.Completing?
  }

  ghost function AllRowsOf(j: Job, f: nat): seq<nat>
    requires f < |j.rows|
  {
    seq(|j.rows[f]|, c => c)
  }

  /** The rows of `f` that were downloaded, among the first `n`. */
  ghost function DownloadedRowsOf(j: Job, f: nat, n: nat): (r: seq<nat>)
    requires f < |j.rows| && n <= |j.rows[f]|
    ensures NoDuplicates(r)
    ensures forall c :: c in r <==> 0 <= c < n && j.rows[f][c].downloaded
  {
    if n == 0 then []
    else if j.rows[f][n - 1].downloaded then DownloadedRowsOf(j, f, n - 1) + [n - 1]
    else DownloadedRowsOf(j, f, n - 1)
  }

  /** A correct answer of the chunk name index. */
  ghost predicate Answers(j: Job, name: string, at: Option<nat>) {
    match at
    case Some(i) => i < |j.names| && j.names[i] == name
    case None => name !in j.names
  }

  ghost predicate TaskIn(s: State, t: nat, j: Job) {
    t < |s.tasks| && s.tasks[t].file < |j.rows| == |s.flags|
  }

  ghost predicate ItemIn(s: State, i: nat, j: Job) {
    i < |s.pc| == |j.entries| == |j.eager| == |j.names|
  }

  ghost predicate Enabled(j: Job, s: State, step: Step) {
    match step
    case Fetch(i) => ItemIn(s, i, j) && s.pc[i].Waiting?
    case FailItem(i) => ItemIn(s, i, j) && s.pc[i].Waiting?
    case Notify(i) =>
      ItemIn(s, i, j) && s.pc[i].Notifying? && s.pc[i].k < |j.entries[i]| &&
      j.entries[i][s.pc[i].k].pending < |s.pending| && j.entries[i][s.pc[i].k].file < |s.flags|
    case CountEager(i) => ItemIn(s, i, j) && s.pc[i].Completing?
    case Receive => s.channel != []
    case Claim(t) => TaskIn(s, t, j) && s.tasks[t].phase.Spawned?
    case FindValid(t) => TaskIn(s, t, j) && s.tasks[t].phase.Deciding?
    case Begin(t) => TaskIn(s, t, j) && s.tasks[t].phase.Deciding?
    case Succeed(t) => TaskIn(s, t, j) && s.tasks[t].phase.Assembling?
    case GiveUp(t, held) =>
      TaskIn(s, t, j) && s.tasks[t].phase.Assembling? && NoDuplicates(held) &&
      var f := s.tasks[t].file;
      forall c :: c in held ==> 0 <= c < |j.rows[f]| && j.rows[f][c].downloaded
    case Release(t, at) =>
      TaskIn(s, t, j) && s.tasks[t].phase.Releasing? && s.tasks[t].phase.todo != [] &&
      var f, c := s.tasks[t].file, s.tasks[t].phase.todo[0];
      c < |j.rows[f]| && Answers(j, j.rows[f][c].name, at) && (at.Some? ==> at.value < |s.refs|)
    case Finish(t) => TaskIn(s, t, j) && s.tasks[t].phase.Releasing? && s.tasks[t].phase.todo == []
  }

  ghost function WithPhase(s: State, t: nat, phase: Phase): State
    requires t < |s.tasks|
  {
    s.(tasks := s.tasks[t := s.tasks[t].(phase := phase)])
  }

  /** The item's chunk file is complete, or its bytes are in the output file. */
  ghost function DoFetch(j: Job, s: State, i: nat): State
    requires Enabled(j, s, Fetch(i))
  {
    s.(pc := s.pc[i := Notifying(0)],
       store := if j.eager[i] then s.store else s.store + {ChunkFile(j.names[i])})
  }

  /** One iteration of the notification loops: take one off the pending count of the
      entry's file; whoever takes the last one completes the file or sends it on. */
  ghost function DoNotify(j: Job, s: State, i: nat): State
    requires Enabled(j, s, Notify(i))
  {
    var k := s.pc[i].k;
    var e := j.entries[i][k];
    var before := s.pending[e.pending];
    var s1 := s.(pending := s.pending[e.pending := Decrement(before)]);
    if before != 1 then
      s1.(pc := s.pc[i := Notifying(k + 1)])
    else if j.eager[i] then
      s1.(pc := s.pc[i := Completing(k + 1, e.file)], flags := s.flags[e.file := true])
    else
      s1.(pc := s.pc[i := Notifying(k + 1)], channel := s.channel + [e.file], sent := s.sent + [e.file])
  }

  ghost function DoCountEager(j: Job, s: State, i: nat): State
    requires Enabled(j, s, CountEager(i))
  {
    s.(pc := s.pc[i := Notifying(s.pc[i].k)],
       assembled := s.assembled + 1, counted := s.counted + [s.pc[i].file])
  }

  ghost function DoReceive(s: State): State
    requires s.channel != []
  {
    s.(channel := s.channel[1..], tasks := s.tasks + [Task(s.channel[0], Spawned)])
  }

  /** Swap the completion flag; a flag that was already set means the file is skipped. */
  ghost function DoClaim(j: Job, s: State, t: nat): State
    requires Enabled(j, s, Claim(t))
  {
    var f := s.tasks[t].file;
    if s.flags[f] then
      WithPhase(s, t, Releasing(AllRowsOf(j, f), Count)).(skipped := s.skipped + {f})
    else
      WithPhase(s, t, Deciding).(flags := s.flags[f := true])
  }

  /** Release one row: the last reference removes the stored chunk. */
  ghost function DoRelease(j: Job, s: State, t: nat, at: Option<nat>): State
    requires Enabled(j, s, Release(t, at))
  {
    var f, todo := s.tasks[t].file, s.tasks[t].phase.todo;
    var s1 := WithPhase(s, t, Releasing(todo[1..], s.tasks[t].phase.after)).(released := s.released + {(f, todo[0])});
    match at
    case None => s1
    case Some(i) =>
      s1.(refs := s.refs[i := Decrement(s.refs[i])],
          store := if s.refs[i] == 1 then s.store - {ChunkFile(j.names[i])} else s.store)
  }

  ghost function DoFinish(j: Job, s: State, t: nat): State
    requires Enabled(j, s, Finish(t))
  {
    var f := s.tasks[t].file;
    match s.tasks[t].phase.after
    case Count => WithPhase(s, t, Counted).(assembled := s.assembled + 1, counted := s.counted + [f])
    case Fail => WithPhase(s, t, Failed).(flags := s.flags[f := false])
  }

  ghost function Apply(j: Job, s: State, step: Step): State
    requires Enabled(j, s, step)
  {
    match step
    case Fetch(i) => DoFetch(j, s, i)
    case FailItem(i) => s.(pc := s.pc[i := Errored])
    case Notify(i) => DoNotify(j, s, i)
    case CountEager(i) => DoCountEager(j, s, i)
    case Receive => DoReceive(s)
    case Claim(t) => DoClaim(j, s, t)
    case FindValid(t) => WithPhase(s, t, Releasing(AllRowsOf(j, s.tasks[t].file), Count))
    case Begin(t) => WithPhase(s, t, Assembling)
    case Succeed(t) =>
      var f := s.tasks[t].file;
      WithPhase(s, t, Releasing(DownloadedRowsOf(j, f, |j.rows[f]|), Count))
    case GiveUp(t, held) => WithPhase(s, t, Releasing(held, Fail))
    case Release(t, at) => DoRelease(j, s, t, at)
    case Finish(t) => DoFinish(j, s, t)
  }

  /** The state the protocol starts in: registration's messages are already queued. */
  ghost function Start(j: Job): State {
    State(seq(|j.entries|, _ => Waiting), j.pending, j.refcounts, j.onDisk, j.sent, [], j.seeds,
          |j.completed|, j.sent, [], {}, {})
  }

  /** A run is a start state followed by enabled steps. */
  ghost predicate IsRun(j: Job, run: seq<State>, steps: seq<Step>) {
    && |run| == |steps| + 1
    && run[0] == Start(j)
    && forall x :: 0 <= x < |steps| ==> Enabled(j, run[x], steps[x]) && run[x + 1] == Apply(j, run[x], steps[x])
  }

  ghost predicate Reachable(j: Job, s: State) {
    exists run, steps :: IsRun(j, run, steps) && run[|steps|] == s
  }

  // ---------------------------------------------------------------------------
  // Jobs that come from a plan
  // ---------------------------------------------------------------------------

  ghost predicate IsEntry(j: Job, i: nat, k: nat) {
    i < |j.entries| && k < |j.entries[i]|
  }

  ghost function Consumers(j: Job, p: nat): set<(nat, nat)> {
    set i: nat, k: nat | i < |j.entries| && k < |j.entries[i]| && j.entries[i][k].pending == p :: (i, k)
  }

  ghost predicate IsRow(j: Job, f: nat, c: nat) {
    f < |j.rows| && f !in j.completed && c < |j.rows[f]|
  }

  /** Some entry of the item named like row `(f, c)` belongs to `f`. */
  ghost predicate RowHasEntry(j: Job, f: nat, c: nat)
    requires IsRow(j, f, c)
  {
    exists i: nat, k: nat :: IsEntry(j, i, k) && i < |j.names| && j.names[i] == j.rows[f][c].name && j.entries[i][k].file == f
  }

  /** The linked tables agree, in every verification mode. */
  ghost predicate GoodJob(j: Job) {
    && |j.entries| == |j.eager| == |j.names| == |j.refcounts|
    && |j.seeds| == |j.rows|
    && |j.slots| == |j.slotEager| == |j.pending|
    && NoDuplicates(j.slots) && NoDuplicates(j.sent)
    && (forall f :: f in j.completed ==> f < |j.rows|)
    && (forall f :: f in j.slots ==> f < |j.rows| && f !in j.completed)
    && (forall f :: f in j.sent <==> 0 <= f < |j.rows| && f !in j.completed && f !in j.slots)
    && (forall i: nat, k: nat :: IsEntry(j, i, k) ==>
          var e := j.entries[i][k];
          e.pending < |j.slots| && j.slots[e.pending] == e.file && j.slotEager[e.pending] == j.eager[i])
    && (forall p: nat :: p < |j.slots| ==> j.pending[p] == |Consumers(j, p)| > 0)
    && (forall f: nat, c: nat :: IsRow(j, f, c) && j.rows[f][c].downloaded ==> RowHasEntry(j, f, c))
    && (forall f: nat, c: nat :: IsRow(j, f, c) && f in j.sent ==> !j.rows[f][c].downloaded)
  }

  /** The downloaded rows of open files named like item `i`. */
  ghost function RowsNamed(j: Job, i: nat): set<(nat, nat)>
    requires i < |j.names|
  {
    set f: nat, c: nat | f < |j.rows| && f !in j.completed && c < |j.rows[f]| &&
                         j.rows[f][c].downloaded && j.rows[f][c].name == j.names[i] :: (f, c)
  }

  /** What deduplication (Full mode) adds: names are distinct, counts are exact, and a
      file on the eager route has no reused row. */
  ghost predicate Deduplicated(j: Job) {
    && NoDuplicates(j.names)
    && (forall p: nat, c: nat :: p < |j.slots| && p < |j.slotEager| && j.slotEager[p] && IsRow(j, j.slots[p], c) ==>
          j.rows[j.slots[p]][c].downloaded)
    && forall i :: 0 <= i < |j.names| && i < |j.refcounts| ==> j.refcounts[i] == |RowsNamed(j, i)| > 0
  }

  /** No reused row of an open file has the name of a downloaded one. */
  ghost predicate ReusedNamesApart(j: Job) {
    forall f: nat, c: nat :: IsRow(j, f, c) && !j.rows[f][c].downloaded ==> j.rows[f][c].name !in j.names
  }

  /** Different items are stored in different files. */
  ghost predicate DistinctChunkFiles(j: Job) {
    forall x, y :: 0 <= x < y < |j.names| ==> ChunkFile(j.names[x]) != ChunkFile(j.names[y])
  }
}
