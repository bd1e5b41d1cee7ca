/** A whole installation: what the plan and the completion protocol guarantee together,
    said of the manifest alone. */
module Install {
  import opened Manifest
  import opened Plan
  import opened PlanFacts
  import opened PlanTheorems
  import opened PlanJob
  import P = Protocol
  import F = ProtocolFlow
  import R = ProtocolRefs
  import D = Downloads
  import Runs = ProtocolRuns
  import Release = ProtocolRelease

  ghost predicate OpenRow(files: seq<Asset>, u: Setup, f: nat, c: nat) {
    f < |files| && f !in u.completed && c < |files[f].chunks|
  }

  ghost predicate DownloadedRow(files: seq<Asset>, u: Setup, f: nat, c: nat) {
    OpenRow(files, u, f, c) && IsDownloaded(files[f].chunks[c])
  }

  predicate SameChunkFile(a: Chunk, b: Chunk) {
    P.ChunkFile(a.name) == P.ChunkFile(b.name)
  }

  /** No chunk name is both reused and downloaded. */
  ghost predicate NamesApart(files: seq<Asset>, u: Setup) {
    forall f: nat, c: nat, g: nat, d: nat ::
      OpenRow(files, u, f, c) && OpenRow(files, u, g, d) && files[f].chunks[c].name == files[g].chunks[d].name ==>
        (IsDownloaded(files[f].chunks[c]) <==> IsDownloaded(files[g].chunks[d]))
  }

  /** Different downloaded names are stored in different files. */
  ghost predicate ChunkFilesDiffer(files: seq<Asset>, u: Setup) {
    forall f: nat, c: nat, g: nat, d: nat ::
      DownloadedRow(files, u, f, c) && DownloadedRow(files, u, g, d) ==>
        SameChunkFile(files[f].chunks[c], files[g].chunks[d]) ==> files[f].chunks[c].name == files[g].chunks[d].name
  }

  /** Every item name is the name of a downloaded row. */
  lemma {:induction false} ItemIsARow(files: seq<Asset>, u: Setup, seeds: seq<bool>, onDisk: set<string>, i: nat)
    returns (f: nat, c: nat)
    requires ValidSetup(files, u) && !u.forceEager && i < |JobOf(files, u, seeds, onDisk).names|
    ensures DownloadedRow(files, u, f, c)
    ensures JobOf(files, u, seeds, onDisk).names[i] == files[f].chunks[c].name
  {
    DeduplicatedItems(files, u, i);
    f, c := FinalItems(files, u)[i].file, FinalItems(files, u)[i].chunk;
  }

  lemma {:induction false} JobIsSafe(files: seq<Asset>, u: Setup, seeds: seq<bool>, onDisk: set<string>)
    requires ValidSetup(files, u) && |seeds| == |files| && !u.forceEager
    requires NamesApart(files, u) && ChunkFilesDiffer(files, u)
    ensures R.SafeJob(JobOf(files, u, seeds, onDisk))
  {
    var j := JobOf(files, u, seeds, onDisk);
    PlanIsGood(files, u, seeds, onDisk);
    PlanIsDeduplicated(files, u, seeds, onDisk);
    hide P.GoodJob;
    forall f: nat, c: nat | P.IsRow(j, f, c) && !j.rows[f][c].downloaded ensures j.rows[f][c].name !in j.names {
      if j.rows[f][c].name in j.names {
        var i: nat :| i < |j.names| && j.names[i] == j.rows[f][c].name;
        var g, d := ItemIsARow(files, u, seeds, onDisk, i);
      }
    }
    forall x: nat, y: nat | x < y < |j.names| ensures P.ChunkFile(j.names[x]) != P.ChunkFile(j.names[y]) {
      var f, c := ItemIsARow(files, u, seeds, onDisk, x);
      var g, d := ItemIsARow(files, u, seeds, onDisk, y);
    }
  }

  /** In every interleaving of a deduplicating install, a file that is being assembled finds
      all its downloaded chunks in the store. */
  lemma {:induction false} AssemblyFindsItsChunks(
      files: seq<Asset>, u: Setup, seeds: seq<bool>, onDisk: set<string>, s: P.State, t: nat, c: nat)
    requires ValidSetup(files, u) && |seeds| == |files| && !u.forceEager
    requires NamesApart(files, u) && ChunkFilesDiffer(files, u)
    requires P.Reachable(JobOf(files, u, seeds, onDisk), s)
    requires t < |s.tasks| && s.tasks[t].phase.Assembling? && s.tasks[t].file < |files|
    requires c < |files[s.tasks[t].file].chunks| && IsDownloaded(files[s.tasks[t].file].chunks[c])
    ensures P.ChunkFile(files[s.tasks[t].file].chunks[c].name) in s.store
  {
    JobIsSafe(files, u, seeds, onDisk);
    R.AssemblyNeverMissesAChunk(JobOf(files, u, seeds, onDisk), s, t, c);
  }

  // ---------------------------------------------------------------------------
  // The completion check
  // ---------------------------------------------------------------------------

  /** A completion flag taken over from an earlier session names a file that the resume scan
      found complete, or an eager one, whose flag no task looks at. */
  ghost predicate HonestSeeds(files: seq<Asset>, u: Setup, seeds: seq<bool>) {
    forall f: nat :: f < |files| && f < |seeds| && seeds[f] ==> f in u.completed || EagerRoute(files, u, f)
  }

  /** No open file has both reused and downloaded rows. */
  ghost predicate NoFileMixes(files: seq<Asset>, u: Setup) {
    forall f: nat :: f < |files| && f !in u.completed && HasDownloads(files[f]) ==> Pure(files[f])
  }

  /** The item of row `(f, c)` has its bytes in the output file and has said so. */
  ghost predicate RowWritten(files: seq<Asset>, u: Setup, s: P.State, f: nat, c: nat)
    requires |files| == |u.installers|
  {
    exists i: nat :: i < |FinalItems(files, u)| && FinalItems(files, u)[i].file == f && FinalItems(files, u)[i].chunk == c &&
      FinalItems(files, u)[i].useEager && i < |s.pc| && P.Fetched(s.pc[i]) && P.Cursor(s.pc[i]) > 0
  }

  /** Every row of the eager file `f` is downloaded, and in its output file. */
  ghost predicate EagerlyWritten(files: seq<Asset>, u: Setup, s: P.State, f: nat)
    requires |files| == |u.installers|
  {
    EagerRoute(files, u, f) && Pure(files[f]) && forall c: nat :: c < |files[f].chunks| ==> RowWritten(files, u, s, f, c)
  }

  /** File `f` was complete beforehand, or is written eagerly to its last row, or a task that
      did not skip it assembled it or found it valid. */
  ghost predicate Complete(files: seq<Asset>, u: Setup, s: P.State, f: nat)
    requires |files| == |u.installers|
  {
    f in u.completed || (f !in s.skipped && (F.CountedByTask(s, f) || EagerlyWritten(files, u, s, f)))
  }

  lemma {:induction false} WholeExactly(files: seq<Asset>, u: Setup, seeds: seq<bool>, onDisk: set<string>, f: nat)
    requires ValidSetup(files, u) && f < |files| && f !in u.completed
    ensures Runs.AllDownloaded(JobOf(files, u, seeds, onDisk), f) <==> Pure(files[f])
  {
    var j := JobOf(files, u, seeds, onDisk);
    forall c: nat | c < |files[f].chunks|
      ensures P.IsRow(j, f, c) && (j.rows[f][c].downloaded <==> IsDownloaded(files[f].chunks[c]))
    {
      assert j.rows[f] == RowsOfAsset(files[f]);
    }
  }

  /** The protocol's two conditions, said of the manifest. */
  lemma {:induction false} ConditionsAgree(files: seq<Asset>, u: Setup, seeds: seq<bool>, onDisk: set<string>)
    requires ValidSetup(files, u) && |seeds| == |files|
    ensures var j := JobOf(files, u, seeds, onDisk);
            && (Runs.SeedsHonest(j) <==> HonestSeeds(files, u, seeds))
            && (Runs.EagerFilesWhole(j) <==> !u.forceEager || NoFileMixes(files, u))
  {
    var j := JobOf(files, u, seeds, onDisk);
    hide Runs.AllDownloaded, F.EagerFile, Pure, HasDownloads;
    forall f: nat ensures F.EagerFile(j, f) <==> EagerRoute(files, u, f) {
      EagerFileExactly(files, u, seeds, onDisk, f);
    }
    forall f: nat | f < |files| && f !in u.completed ensures Runs.AllDownloaded(j, f) <==> Pure(files[f]) {
      WholeExactly(files, u, seeds, onDisk, f);
    }
  }

  lemma {:induction false} DoneIsComplete(
      files: seq<Asset>, u: Setup, seeds: seq<bool>, onDisk: set<string>, s: P.State, f: nat)
    requires ValidSetup(files, u) && |seeds| == |files| && f < |files|
    requires Runs.FileDone(JobOf(files, u, seeds, onDisk), s, f)
    ensures Complete(files, u, s, f)
  {
    var j := JobOf(files, u, seeds, onDisk);
    if f !in u.completed && !F.CountedByTask(s, f) {
      EagerFileExactly(files, u, seeds, onDisk, f);
      WholeExactly(files, u, seeds, onDisk, f);
      forall c: nat | c < |files[f].chunks| ensures RowWritten(files, u, s, f, c) {
        var i, k := EagerRowHasItsItem(files, u, f, c);
        assert P.IsEntry(j, i, k);
        assert F.Notified(j, s, i, k, f);
      }
    }
  }

  lemma {:induction false} PassingLeavesAFile(files: seq<Asset>, u: Setup, seeds: seq<bool>, onDisk: set<string>)
    returns (s: P.State, f: nat)
    requires ValidSetup(files, u) && |seeds| == |files|
    requires !(HonestSeeds(files, u, seeds) && (!u.forceEager || NoFileMixes(files, u)))
    ensures Runs.Passes(JobOf(files, u, seeds, onDisk), s) && f < |files| && !Complete(files, u, s, f)
  {
    PlanIsGood(files, u, seeds, onDisk);
    ConditionsAgree(files, u, seeds, onDisk);
    s, f := Runs.PassingWithoutAFile(JobOf(files, u, seeds, onDisk));
    WholeExactly(files, u, seeds, onDisk, f);
  }

  /** A run that has come to rest without an error. */
  ghost predicate EndsWell(j: P.Job, s: P.State) {
    P.Reachable(j, s) && F.Quiet(j, s) && F.NoErrors(s)
  }

  /** Of any manifest in any mode: passing the completion check always means that every file
      is complete if and only if no stale flag is set and, when deduplication is off, no open
      file mixes reused and downloaded rows. An install at rest without errors passes it. */
  lemma {:induction false} FinishedInstallIsComplete(files: seq<Asset>, u: Setup, seeds: seq<bool>, onDisk: set<string>)
    requires ValidSetup(files, u) && |seeds| == |files|
    ensures (forall s, f: nat :: Runs.Passes(JobOf(files, u, seeds, onDisk), s) && f < |files| ==> Complete(files, u, s, f))
            <==> HonestSeeds(files, u, seeds) && (!u.forceEager || NoFileMixes(files, u))
    ensures forall s :: EndsWell(JobOf(files, u, seeds, onDisk), s) ==> Runs.Passes(JobOf(files, u, seeds, onDisk), s)
  {
    var j := JobOf(files, u, seeds, onDisk);
    PlanIsGood(files, u, seeds, onDisk);
    ConditionsAgree(files, u, seeds, onDisk);
    hide P.GoodJob, P.Reachable, Complete, Runs.FileDone, HonestSeeds, NoFileMixes;
    if HonestSeeds(files, u, seeds) && (!u.forceEager || NoFileMixes(files, u)) {
      forall s, f: nat | Runs.Passes(j, s) && f < |files| ensures Complete(files, u, s, f) {
        Runs.PassingTheCheckMeansDone(j, s, f);
        DoneIsComplete(files, u, seeds, onDisk, s, f);
      }
    } else {
      var s, f := PassingLeavesAFile(files, u, seeds, onDisk);
    }
    forall s | EndsWell(j, s) ensures Runs.Passes(j, s) {
      F.ErrorFreeRunsPass(j, s);
    }
  }

  /** Of any manifest in any mode: an install at rest passes the completion check if and only if
      no item and no task has failed. */
  lemma {:induction false} RestingInstallPassesExactly(
      files: seq<Asset>, u: Setup, seeds: seq<bool>, onDisk: set<string>, s: P.State)
    requires ValidSetup(files, u) && |seeds| == |files|
    requires P.Reachable(JobOf(files, u, seeds, onDisk), s) && F.Quiet(JobOf(files, u, seeds, onDisk), s)
    ensures s.assembled == |files| <==> F.NoErrors(s)
  {
    var j := JobOf(files, u, seeds, onDisk);
    PlanIsGood(files, u, seeds, onDisk);
    forall i: nat | i < |j.entries| ensures P.IsEntry(j, i, 0) {
      ItemsHaveEntries(files, u, i);
    }
    hide P.GoodJob, P.Reachable, F.Quiet;
    Release.PassesAtRestExactly(j, s);
  }

  // ---------------------------------------------------------------------------
  // Chunk files
  // ---------------------------------------------------------------------------

  /** The chunk file of a downloaded row whose file is assembled. */
  ghost predicate AssembledChunkFile(files: seq<Asset>, u: Setup, file: string) {
    exists f: nat, c: nat :: DownloadedRow(files, u, f, c) && !EagerRoute(files, u, f) && file == P.ChunkFile(files[f].chunks[c].name)
  }

  lemma {:induction false} ItemNamed(files: seq<Asset>, u: Setup, seeds: seq<bool>, onDisk: set<string>, f: nat, c: nat)
    returns (i: nat)
    requires ValidSetup(files, u) && |seeds| == |files| && !u.forceEager && DownloadedRow(files, u, f, c)
    ensures i < |JobOf(files, u, seeds, onDisk).names| && JobOf(files, u, seeds, onDisk).names[i] == files[f].chunks[c].name
    ensures JobOf(files, u, seeds, onDisk).eager[i] <==> EagerRoute(files, u, f)
  {
    var j := JobOf(files, u, seeds, onDisk);
    PlanIsGood(files, u, seeds, onDisk);
    PlanIsDeduplicated(files, u, seeds, onDisk);
    assert P.IsRow(j, f, c) && P.RowHasEntry(j, f, c);
    i :| i < |j.names| && j.names[i] == j.rows[f][c].name;
    Release.RowTakesItsItemsRoute(j, i, f, c);
    EagerFileExactly(files, u, seeds, onDisk, f);
  }

  lemma {:induction false} ChunkFilesAgree(files: seq<Asset>, u: Setup, seeds: seq<bool>, onDisk: set<string>, file: string)
    requires ValidSetup(files, u) && |seeds| == |files| && !u.forceEager
    ensures Release.AssemblyChunkFile(JobOf(files, u, seeds, onDisk), file) <==> AssembledChunkFile(files, u, file)
  {
    var j := JobOf(files, u, seeds, onDisk);
    if Release.AssemblyChunkFile(j, file) {
      var i: nat :| i < |j.names| && i < |j.eager| && !j.eager[i] && file == P.ChunkFile(j.names[i]);
      var f, c := ItemIsARow(files, u, seeds, onDisk, i);
      var i' := ItemNamed(files, u, seeds, onDisk, f, c);
      PlanIsDeduplicated(files, u, seeds, onDisk);
      assert i' == i;
    }
    if AssembledChunkFile(files, u, file) {
      var f: nat, c: nat :| DownloadedRow(files, u, f, c) && !EagerRoute(files, u, f) && file == P.ChunkFile(files[f].chunks[c].name);
      var i := ItemNamed(files, u, seeds, onDisk, f, c);
    }
  }

  /** A deduplicating install at rest without errors leaves no chunk file of an assembled file in
      the store, and every other file that was there at the start. */
  lemma {:induction false} ChunkFilesAreGone(
      files: seq<Asset>, u: Setup, seeds: seq<bool>, onDisk: set<string>, s: P.State, file: string)
    requires ValidSetup(files, u) && |seeds| == |files| && !u.forceEager
    requires NamesApart(files, u) && ChunkFilesDiffer(files, u) && EndsWell(JobOf(files, u, seeds, onDisk), s)
    ensures file in s.store <==> file in onDisk && !AssembledChunkFile(files, u, file)
  {
    var j := JobOf(files, u, seeds, onDisk);
    JobIsSafe(files, u, seeds, onDisk);
    ChunkFilesAgree(files, u, seeds, onDisk, file);
    assert j.onDisk == onDisk;
    hide P.Reachable, R.SafeJob, F.Quiet, Release.AssemblyChunkFile, AssembledChunkFile;
    Release.NothingIsLeftBehind(j, s);
  }

  // ---------------------------------------------------------------------------
  // Bytes
  // ---------------------------------------------------------------------------

  /** The planned items as the worker pool sees them; `marked` are the rows whose chunk the
      bitmap says is written. */
  ghost function Pieces(files: seq<Asset>, items: seq<Item>, marked: set<nat>): (r: seq<D.Piece>)
    ensures |r| == |items|
    ensures forall i :: 0 <= i < |r| ==> r[i] == PieceOf(files, items[i], marked)
  {
    seq(|items|, i requires 0 <= i < |items| => PieceOf(files, items[i], marked))
  }

  ghost function PieceOf(files: seq<Asset>, it: Item, marked: set<nat>): D.Piece {
    if it.file < |files| && it.chunk < |files[it.file].chunks|
    then D.Piece(files[it.file].chunks[it.chunk].size, it.useEager, it.preDownloaded, FirstRow(files, it.file) + it.chunk in marked)
    else D.Piece(0, it.useEager, it.preDownloaded, false)
  }

  lemma {:induction false} PiecesAddUp(files: seq<Asset>, items: seq<Item>, marked: set<nat>)
    ensures D.TotalSize(Pieces(files, items, marked)) == ItemBytes(files, items)
  {
    if items != [] {
      var init := items[..|items| - 1];
      PiecesAddUp(files, init, marked);
      assert Pieces(files, items, marked)[..|init|] == Pieces(files, init, marked);
    }
  }

  ghost predicate NothingPre(items: seq<Item>) {
    forall i :: 0 <= i < |items| ==> !items[i].preDownloaded
  }

  lemma {:induction false} RowsWithoutPre(t: Tables, files: seq<Asset>, u: Setup, f: nat, slot: nat, c: nat)
    requires t.Aligned() && slot < |t.pending| && f < |files| && f < |u.installers| && c <= |files[f].chunks|
    requires u.pre == {} && NothingPre(t.items)
    ensures NothingPre(AddRows(t, files, u, f, slot, c).items)
  {
    if c > 0 {
      RowsWithoutPre(t, files, u, f, slot, c - 1);
    }
  }

  lemma {:induction false} TablesWithoutPre(files: seq<Asset>, u: Setup, n: nat)
    requires n <= |files| == |u.installers| && u.pre == {}
    ensures NothingPre(RegisterAll(files, u, n).items)
  {
    if n > 0 {
      TablesWithoutPre(files, u, n - 1);
      var t := RegisterAll(files, u, n - 1);
      RowsWithoutPre(t.(pending := t.pending + [0]), files, u, n - 1, |t.pending|, |files[n - 1].chunks|);
    }
  }

  /** A fresh deduplicating install whose workers all finish without cancellation has counted
      exactly the announced total if and only if every item that failed, or whose chunk file
      was found on disk, is empty; with nothing downloaded before and no failure it always has. */
  lemma {:induction false} DownloadedBytesReachTheTotal(
      files: seq<Asset>, u: Setup, marked: set<nat>, initial: nat, run: seq<D.Pool>, steps: seq<D.Step>)
    requires |files| == |u.installers| && u.completed == {} && !u.forceEager
    requires SmallRows(Rows(files, |files|))
    requires D.IsRun(Pieces(files, FinalItems(files, u), marked), initial, run, steps)
    requires var p := run[|steps|];
             && !p.cancelled && (|FinalItems(files, u)| > 0 ==> |p.workers| > 0)
             && D.AllGone(p)
    ensures var p, pieces := run[|steps|], Pieces(files, FinalItems(files, u), marked);
            && |p.outcome| == |pieces| && (forall i :: 0 <= i < |pieces| ==> p.outcome[i].Some?)
            && (p.bytes == ComputeTotal(Rows(files, |files|)).0 <==>
                forall i :: 0 <= i < |pieces| && (p.outcome[i].value.Failed? || p.outcome[i].value.FoundOnDisk?) ==>
                  pieces[i].size == 0)
            && (u.pre == {} && (forall i :: 0 <= i < |pieces| ==> !p.outcome[i].value.Failed?) ==>
                  p.bytes == ComputeTotal(Rows(files, |files|)).0)
  {
    var p, pieces := run[|steps|], Pieces(files, FinalItems(files, u), marked);
    D.EveryItemIsProcessedOnce(pieces, initial, run, steps);
    PiecesAddUp(files, FinalItems(files, u), marked);
    TotalIsWhatWillBeDownloaded(files, u);
    D.UngainedIsZeroExactly(pieces, p.outcome);
    if u.pre == {} {
      TablesWithoutPre(files, u, |files|);
      forall i | 0 <= i < |pieces| ensures !p.outcome[i].value.FoundOnDisk? {
        assert !FinalTables(files, u).items[i].preDownloaded;
      }
    }
  }
}
