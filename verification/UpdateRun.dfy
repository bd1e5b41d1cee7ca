/** A whole update: several categories planned against one installation, written file by
    file, and the dropped names removed at the end. What the directory then holds, and exactly
    when it is the new build. */
module UpdateRun {
  import opened Hex
  import opened Manifest
  import opened RangeWriter
  import opened UpdateCategories
  import opened UpdatePlan
  import opened UpdateTree
  import opened UpdateWrite
  import A = Assembly
  import Protocol
  import Tables = Plan
  import Facts = PlanFacts
  import Jobs = PlanJob
  import Install
  import Refs = ProtocolRefs
  import Runs = ProtocolRuns

  // ---------------------------------------------------------------------------
  // The setting of an update
  // ---------------------------------------------------------------------------

  /** Files with the extension `tmp` are removed before anything is written. */
  predicate IsTmp(name: string) {
    var d := Protocol.ExtensionDot(name, |name|);
    d.Some? && name[d.value + 1..] == "tmp"
  }

  /** A name counts as temporary exactly when it ends in `.tmp` with something before it in its
      last component. */
  lemma {:induction false} IsTmpExactly(name: string)
    ensures IsTmp(name) <==> |name| > 4 && name[|name| - 4..] == ".tmp" && name[|name| - 5] != '/'
  {
    var n := |name|;
    var d := Protocol.ExtensionDot(name, n);
    if d.Some? {
      Refs.ExtensionDotFinds(name, n, d.value);
      if name[d.value + 1..] == "tmp" {
        assert d.value == n - 4;
        assert name[n - 4..] == [name[n - 4]] + name[d.value + 1..];
      }
    }
    if n > 4 && name[n - 4..] == ".tmp" && name[n - 5] != '/' {
      assert name[n - 4] == '.' && name[n - 3] == 't' && name[n - 2] == 'm' && name[n - 1] == 'p';
      Refs.ExtensionDotFinds(name, n, n - 4);
      assert name[n - 3..] == "tmp";
    }
  }

  ghost function Cleaned(found: Tree): Tree {
    map n | n in found && !IsTmp(n) :: found[n]
  }

  ghost predicate CategorySetting(store: Store, found: Tree, cat: Category) {
    match cat.before
    case None => forall a :: a in cat.after && !IsDirectory(a) ==> Described(store, a)
    case Some(before) => Setting(store, before, cat.after, found) && |before| < U32 && FirstRow(before, |before|) < U32
  }

  /** Sizes fit the columns of the manifest. */
  ghost predicate ColumnsFit(files: seq<Asset>) {
    forall f, c :: 0 <= f < |files| && 0 <= c < |files[f].chunks| ==>
      files[f].size < A.U64_LIMIT && files[f].chunks[c].sizeDecompressed < U32
  }

  /** At this moment of the run a task is assembling file `f`. */
  ghost predicate Moment(j: Job, f: nat, seeds: seq<bool>, onDisk: set<string>, s: Protocol.State, t: nat)
    requires Jobs.ValidSetup(j.files, j.u)
  {
    && |seeds| == |j.files| && Protocol.Reachable(Jobs.JobOf(j.files, j.u, seeds, onDisk), s)
    && t < |s.tasks| && s.tasks[t] == Protocol.Task(f, Protocol.Assembling)
  }

  /** The chunk of row `(g, d)` is what lies in the chunk file of row `(f, c)`. */
  ghost predicate StoredFrom(j: Job, f: nat, c: nat, g: nat, d: nat)
    requires f < |j.dirs| && Install.DownloadedRow(j.files, j.u, f, c)
  {
    && Install.DownloadedRow(j.files, j.u, g, d)
    && Install.SameChunkFile(j.files[f].chunks[c], j.files[g].chunks[d])
    && var file, hash := Protocol.ChunkFile(j.files[f].chunks[c].name), j.files[g].chunks[d].decompressedHash;
       file in j.dirs[f] && hash in j.store && j.dirs[f][file] == j.store[hash]
  }

  /** `dirs[f]` is the chunk directory at a moment when `f` is being assembled: the files are
      those that the completion protocol has stored, and each holds some chunk that is stored
      under its name. */
  ghost predicate AssemblySees(j: Job, f: nat)
    requires Jobs.ValidSetup(j.files, j.u) && f < |j.dirs|
  {
    && (exists seeds, onDisk, s, t: nat :: Moment(j, f, seeds, onDisk, s, t) && j.dirs[f].Keys == s.store)
    && forall c: nat :: Install.DownloadedRow(j.files, j.u, f, c) && Protocol.ChunkFile(j.files[f].chunks[c].name) in j.dirs[f] ==>
         exists g: nat, d: nat :: StoredFrom(j, f, c, g, d)
  }

  /** A chunk name stands for one content. */
  ghost predicate NamesTell(j: Job) {
    forall f: nat, c: nat, g: nat, d: nat ::
      Install.DownloadedRow(j.files, j.u, f, c) && Install.DownloadedRow(j.files, j.u, g, d) &&
      j.files[f].chunks[c].name == j.files[g].chunks[d].name ==>
        SameContent(j.store, j.files[f].chunks[c], j.files[g].chunks[d])
  }

  predicate SameContent(store: Store, a: Chunk, b: Chunk) {
    a.decompressedHash in store && b.decompressedHash in store ==> store[a.decompressedHash] == store[b.decompressedHash]
  }

  /** What the chunk directory needs when chunks are stored in it: no name both reused and
      downloaded, different names in different files, and one content for each name. */
  ghost predicate ChunkSetting(j: Job)
    requires Jobs.ValidSetup(j.files, j.u) && |j.dirs| == |j.files|
  {
    !j.u.forceEager ==>
      && Install.NamesApart(j.files, j.u) && Install.ChunkFilesDiffer(j.files, j.u) && NamesTell(j)
      && forall f :: 0 <= f < |j.files| && !Eager(j, f) && !Skipped(j, j.files[f]) ==> AssemblySees(j, f)
  }

  /** These categories planned against the directory as it was found, and carried out from the
      start in the mode that `u` is for; the new build names each file once. */
  ghost predicate UpdateSetting(cats: seq<Category>, disk: Disk, found: Tree, j: Job) {
    && j.files == Planned(cats, disk) && SizesOf(found, disk) && j.tree == Cleaned(found)
    && UniqueFiles(AllAfter(cats)) && ColumnsFit(j.files)
    && (forall d :: 0 <= d < |cats| ==> CategorySetting(j.store, found, cats[d]))
    && Jobs.ValidSetup(j.files, j.u) && j.u.completed == {} && j.u.pre == {} && (j.u.forceEager <==> !j.mode.Full?)
    && |j.dirs| == |j.files| && ChunkSetting(j)
  }

  /** Every file on the assembly route has such a moment in some run, so that what is asked of
      `dirs` can be met. */
  lemma {:induction false} MomentIsReached(j: Job, f: nat, onDisk: set<string>) returns (s: Protocol.State, t: nat)
    requires Jobs.ValidSetup(j.files, j.u) && j.u.completed == {} && f < |j.files| && !Eager(j, f)
    ensures Moment(j, f, seq(|j.files|, _ => false), onDisk, s, t)
  {
    var seeds := seq(|j.files|, _ => false);
    var job := Jobs.JobOf(j.files, j.u, seeds, onDisk);
    Jobs.PlanIsGood(j.files, j.u, seeds, onDisk);
    Jobs.EagerFileExactly(j.files, j.u, seeds, onDisk, f);
    hide Protocol.GoodJob, Jobs.EagerRoute;
    s, t := Runs.ReachSpawned(job, f);
    assert !s.flags[f];
    Runs.StepIsReachable(job, s, Protocol.Claim(t));
    s := Protocol.Apply(job, s, Protocol.Claim(t));
    Runs.StepIsReachable(job, s, Protocol.Begin(t));
    s := Protocol.Apply(job, s, Protocol.Begin(t));
  }

  lemma {:induction false} AssetsAreDescribed(cats: seq<Category>, disk: Disk, found: Tree, j: Job, d: nat, a: Asset)
    requires UpdateSetting(cats, disk, found, j) && d < |cats| && a in cats[d].after && !IsDirectory(a)
    ensures Described(j.store, a)
  {
    hide Described, Jobs.ValidSetup, SizesOf, UniqueFiles, ChunkSetting, ColumnsFit;
    assert CategorySetting(j.store, found, cats[d]);
    if cats[d].before.Some? {
      assert a in cats[d].before.value + cats[d].after;
    }
  }

  lemma {:induction false} UpdateIsWritable(cats: seq<Category>, disk: Disk, found: Tree, j: Job)
    requires UpdateSetting(cats, disk, found, j)
    ensures Writable(j) && ChunkSetting(j) && DistinctNames(j.files) && |Origins(cats, disk)| == |j.files|
  {
    hide Described, CategorySetting, Jobs.ValidSetup, SizesOf, UniqueFiles, Planned, Origins, ChunkSetting, ColumnsFit;
    forall f | 0 <= f < |j.files| ensures Described(j.store, j.files[f]) {
      var a := PlannedFrom(cats, disk, f);
      AssetsAreDescribed(cats, disk, found, j, Origins(cats, disk)[f], a);
      VersionDescribed(j.store, a, j.files[f]);
    }
    forall f, g | 0 <= f < g < |j.files| ensures j.files[f].name != j.files[g].name {
      PlannedDistinct(cats, disk, f, g);
    }
  }

  lemma {:induction false} ChunkIsThere(j: Job, f: nat, c: nat)
    requires Writable(j) && !j.u.forceEager && Install.NamesApart(j.files, j.u) && Install.ChunkFilesDiffer(j.files, j.u)
    requires f < |j.dirs| && AssemblySees(j, f) && Install.DownloadedRow(j.files, j.u, f, c)
    ensures Protocol.ChunkFile(j.files[f].chunks[c].name) in j.dirs[f]
  {
    hide Described, Install.NamesApart, Install.ChunkFilesDiffer, Protocol.Reachable, Protocol.ChunkFile;
    var seeds, onDisk, s, t: nat :| Moment(j, f, seeds, onDisk, s, t) && j.dirs[f].Keys == s.store;
    Install.AssemblyFindsItsChunks(j.files, j.u, seeds, onDisk, s, t, c);
  }

  /** While a file is assembled, each of its chunks is there, and with its own content. */
  lemma {:induction false} ChunkIsRight(j: Job, f: nat, c: nat)
    requires Writable(j) && ChunkSetting(j) && !j.u.forceEager && f < |j.files| && !Eager(j, f) && !Skipped(j, j.files[f])
    requires Install.DownloadedRow(j.files, j.u, f, c)
    ensures var chunk := j.files[f].chunks[c];
            var file := Protocol.ChunkFile(chunk.name);
            file in j.dirs[f] && chunk.decompressedHash in j.store && j.dirs[f][file] == j.store[chunk.decompressedHash]
  {
    hide UpdateTree.Content, Skipped, Install.NamesApart, Moment, Jobs.EagerRoute, Protocol.ChunkFile;
    assert AssemblySees(j, f);
    ChunkIsThere(j, f, c);
    var g: nat, d: nat :| StoredFrom(j, f, c, g, d);
    assert SameContent(j.store, j.files[f].chunks[c], j.files[g].chunks[d]);
    assert Described(j.store, j.files[f]);
  }

  lemma {:induction false} SameDownloadedRows(rows: seq<A.Row>, job: Protocol.Job, f: nat, n: nat)
    requires f < |job.rows| && |job.rows[f]| == |rows| && n <= |rows|
    requires forall c :: 0 <= c < |rows| ==> (rows[c].oldOffset < 0 <==> job.rows[f][c].downloaded)
    ensures A.DownloadedRows(rows, n) == Protocol.DownloadedRowsOf(job, f, n)
  {
    if n > 0 {
      SameDownloadedRows(rows, job, f, n - 1);
    }
  }

  /** The rows whose chunks a successful assembly has used are those that the file's task then
      releases. */
  lemma {:induction false} UsedRowsAreReleased(j: Job, seeds: seq<bool>, onDisk: set<string>, f: nat)
    requires Jobs.ValidSetup(j.files, j.u) && f < |j.dirs| == |j.files|
    ensures var rows, job := RowsOf(j.files[f], j.dirs[f]), Jobs.JobOf(j.files, j.u, seeds, onDisk);
            f < |job.rows| && |job.rows[f]| == |rows| &&
            A.DownloadedRows(rows, |rows|) == Protocol.DownloadedRowsOf(job, f, |rows|)
  {
    var rows, job := RowsOf(j.files[f], j.dirs[f]), Jobs.JobOf(j.files, j.u, seeds, onDisk);
    hide A.DownloadedRows, Protocol.DownloadedRowsOf;
    SameDownloadedRows(rows, job, f, |rows|);
  }

  lemma {:induction false} ChunksAreRight(j: Job, f: nat)
    requires Writable(j) && ChunkSetting(j) && j.u.completed == {} && f < |j.files| && !Eager(j, f) && !Skipped(j, j.files[f])
    ensures ChunksRight(j, j.files[f], j.dirs[f])
  {
    assert Described(j.store, j.files[f]);
    assert HasContents(j.store, j.files[f]);
    hide Described, Skipped, ChunkSetting;
    forall c: nat | c < |j.files[f].chunks| && IsDownloaded(j.files[f].chunks[c])
      ensures !j.u.forceEager && Install.DownloadedRow(j.files, j.u, f, c)
    {
      assert Facts.HasDownloads(j.files[f]);
    }
    forall c: nat | c < |j.files[f].chunks| && IsDownloaded(j.files[f].chunks[c])
      ensures var chunk := j.files[f].chunks[c];
              var file := Protocol.ChunkFile(chunk.name);
              file in j.dirs[f] && j.dirs[f][file] == j.store[chunk.decompressedHash]
    {
      ChunkIsRight(j, f, c);
    }
  }

  // ---------------------------------------------------------------------------
  // What a planned file needs
  // ---------------------------------------------------------------------------

  /** The file belongs to a category that only the new build has. */
  ghost predicate IsNew(cats: seq<Category>, disk: Disk, f: nat)
    requires f < |Planned(cats, disk)|
  {
    cats[Origins(cats, disk)[f]].before.None?
  }

  /** Its rows were planned against the old file, which is still there. */
  ghost predicate IsKnown(cats: seq<Category>, disk: Disk, f: nat)
    requires f < |Planned(cats, disk)|
  {
    !IsNew(cats, disk, f) && !IsTmp(Planned(cats, disk)[f].name)
  }

  /** What file `f` needs to come out right. On the eager route: no longer file under its name,
      and every reused row at the place it has in the old file, or already in place when the plan
      does not know the old file. On the assembly route: what is taken for valid is right;
      otherwise the digests that are compared are true and a hashing thread has something to map,
      and, when the plan does not know the old file, every reused row reads its own chunk. */
  ghost predicate Good(cats: seq<Category>, disk: Disk, j: Job, f: nat)
    requires Writable(j) && j.files == Planned(cats, disk) && f < |j.files|
  {
    var a := j.files[f];
    if Eager(j, f) then
      |OldFile(j.tree, a)| <= a.size && if IsKnown(cats, disk, f) then NoneMoved(j.tree, a) else AllInPlace(j.store, j.tree, a)
    else if Skipped(j, a) then
      j.tree[a.name] == FileContent(j.store, a)
    else
      DigestsHold(j, a) && (IsKnown(cats, disk, f) || AllReadRight(j.store, j.tree, a))
  }

  ghost function KnownOffsets(cat: Category, disk: Disk): Offsets
    requires cat.before.Some?
  {
    Without(Naive(cat.before.value, |cat.before.value|), CorruptedNames(cat.before.value, disk))
  }

  lemma {:induction false} KnownOrigin(cats: seq<Category>, disk: Disk, f: nat) returns (a: Asset)
    requires UniqueFiles(AllAfter(cats)) && f < |Planned(cats, disk)| && !IsNew(cats, disk, f)
    ensures var cat := cats[Origins(cats, disk)[f]];
            a in cat.after && !IsDirectory(a) && Planned(cats, disk)[f] == AssignedFile(KnownOffsets(cat, disk), a)
  {
    var d, p := Origins(cats, disk)[f], Planned(cats, disk)[f];
    PlannedAt(cats, disk, f);
    AfterIsUnique(cats, d);
    var before, after := cats[d].before.value, cats[d].after;
    PlanParts(before, after, disk);
    var plan := Plan(before, after, disk);
    var i :| 0 <= i < |plan| && plan[i] == p;
    hide Planned, Origins, Plan, Naive, Without, CorruptedNames, OldMd5;
    a := DiffFiles(after, OldMd5(before, |before|) - CorruptedNames(before, disk))[i];
  }

  /** Where the plan knows the old file, every reused row reads its own chunk. */
  lemma {:induction false} KnownRowsReadRight(cats: seq<Category>, disk: Disk, found: Tree, j: Job, f: nat, c: nat)
    requires UpdateSetting(cats, disk, found, j) && Writable(j) && f < |j.files| && IsKnown(cats, disk, f)
    requires c < |j.files[f].chunks| && IsReused(j.files[f], c)
    ensures ReadsRight(j.store, j.tree, j.files[f], c)
  {
    assert j.files == Planned(cats, disk) && UniqueFiles(AllAfter(cats));
    hide UniqueFiles, Jobs.ValidSetup, ChunkSetting, ColumnsFit, Described;
    var d := Origins(cats, disk)[f];
    var a := KnownOrigin(cats, disk, f);
    AssetsAreDescribed(cats, disk, found, j, d, a);
    assert CategorySetting(j.store, found, cats[d]);
    hide Setting, SizesOf, Planned, Origins, Naive, Without, CorruptedNames, OldBytes, Writable;
    KnownRow(j.store, found, cats[d].before.value, cats[d].after, disk, KnownOffsets(cats[d], disk), a, c);
  }

  lemma {:induction false} KnownRow(
      store: Store, found: Tree, before: seq<Asset>, after: seq<Asset>, disk: Disk, naive: Offsets, a: Asset, c: nat)
    requires Setting(store, before, after, found) && SizesOf(found, disk)
    requires naive == Without(Naive(before, |before|), CorruptedNames(before, disk))
    requires Described(store, a) && c < |a.chunks| && IsReused(AssignedFile(naive, a), c)
    ensures HasContents(store, AssignedFile(naive, a)) && ReadsRight(store, found, AssignedFile(naive, a), c)
  {
    hide Setting, SizesOf, Naive, Without, CorruptedNames, OldBytes, UpdateTree.Content;
    ReusedBytes(store, before, after, found, disk, naive, a, c);
  }

  lemma {:induction false} KnownFile(cats: seq<Category>, disk: Disk, found: Tree, j: Job, f: nat)
    requires UpdateSetting(cats, disk, found, j) && Writable(j) && f < |j.files| && IsKnown(cats, disk, f)
    ensures AllReadRight(j.store, j.tree, j.files[f])
    ensures AllInPlace(j.store, j.tree, j.files[f]) <==> NoneMoved(j.tree, j.files[f])
  {
    var a := j.files[f];
    hide UpdateSetting, Described, RangeIs, OldBytes;
    forall c | 0 <= c < |a.chunks| && IsReused(a, c)
      ensures ReadsRight(j.store, j.tree, a, c)
      ensures LiesInPlace(j.store, j.tree, a, c) <==> Unmoved(j.tree, a, c)
    {
      KnownRowsReadRight(cats, disk, found, j, f, c);
    }
  }

  /** A planned file is written right exactly when it is good. */
  lemma {:induction false} GoodExactly(cats: seq<Category>, disk: Disk, found: Tree, j: Job, f: nat)
    requires UpdateSetting(cats, disk, found, j) && Writable(j) && ChunkSetting(j) && f < |j.files|
    ensures WrittenAt(j, f).content == Some(NewContent(j, f)) <==> Good(cats, disk, j, f)
    ensures !Eager(j, f) ==> (WrittenAt(j, f).ok <==> WrittenAt(j, f).content.Some?)
  {
    var a := j.files[f];
    assert Described(j.store, a);
    if IsKnown(cats, disk, f) {
      KnownFile(cats, disk, found, j, f);
    }
    hide UpdateSetting, Described, FileContent, AllReadRight, AllInPlace, NoneMoved, DigestsHold, Planned, Origins;
    if Eager(j, f) {
      EagerRightExactly(j.store, j.tree, a);
    } else if !Skipped(j, a) {
      FreshUpdate(cats, disk, found, j);
      ChunksAreRight(j, f);
      AssembledRightExactly(j, a, j.dirs[f]);
    }
  }

  lemma {:induction false} FreshUpdate(cats: seq<Category>, disk: Disk, found: Tree, j: Job)
    requires UpdateSetting(cats, disk, found, j)
    ensures j.u.completed == {} && (j.u.forceEager <==> !j.mode.Full?)
  {
  }

  // ---------------------------------------------------------------------------
  // Files that are planned, and files that are left alone
  // ---------------------------------------------------------------------------

  ghost predicate NewAsset(cats: seq<Category>, d: nat, a: Asset) {
    d < |cats| && a in cats[d].after && !IsDirectory(a)
  }

  /** The plan leaves the file alone: the old manifest has its digest, and its size on disk is right. */
  ghost predicate Kept(cat: Category, disk: Disk, a: Asset) {
    cat.before.Some? && !Changed(a, OldMd5(cat.before.value, |cat.before.value|) - CorruptedNames(cat.before.value, disk))
  }

  /** Assembly fails, and the file had its content although the manifest has another digest. */
  ghost predicate Spared(j: Job, f: nat)
    requires Writable(j) && f < |j.files|
  {
    WrittenAt(j, f).content.None? && Holds(j.tree, j.files[f].name, NewContent(j, f))
  }

  /** Everything that is planned under that name comes out right. */
  ghost predicate GoodUnder(cats: seq<Category>, disk: Disk, j: Job, name: string)
    requires Writable(j) && j.files == Planned(cats, disk)
  {
    forall f: nat :: f < |j.files| && j.files[f].name == name ==> Good(cats, disk, j, f) || Spared(j, f)
  }

  lemma {:induction false} HoldsWhenWritten(j: Job, f: nat)
    requires Writable(j) && DistinctNames(j.files) && f < |j.files|
    ensures Holds(Installed(j, |j.files|), j.files[f].name, NewContent(j, f)) <==>
            WrittenAt(j, f).content == Some(NewContent(j, f)) || Spared(j, f)
  {
    InstalledAt(j, |j.files|, f);
    hide FileContent, Installed, WrittenAt;
  }

  /** A file that is left alone had its content when it was found, nothing is planned under its
      name, and it stays unless it is removed as temporary. */
  lemma {:induction false} KeptFile(cats: seq<Category>, disk: Disk, found: Tree, j: Job, d: nat, a: Asset)
    requires UpdateSetting(cats, disk, found, j) && NewAsset(cats, d, a) && Kept(cats[d], disk, a)
    ensures Described(j.store, a) && (Holds(j.tree, a.name, FileContent(j.store, a)) <==> !IsTmp(a.name))
    ensures forall f :: 0 <= f < |j.files| ==> j.files[f].name != a.name
  {
    AssetsAreDescribed(cats, disk, found, j, d, a);
    var before, after := cats[d].before.value, cats[d].after;
    assert CategorySetting(j.store, found, cats[d]);
    hide ChunkSetting, ColumnsFit, Jobs.ValidSetup, FileContent, Described, UniqueFiles;
    KeptFilesAreRight(j.store, before, after, found, disk, a);
    forall f | 0 <= f < |j.files| ensures j.files[f].name != a.name {
      NotPlanned(cats, disk, d, a, f);
    }
  }

  lemma {:induction false} NotPlanned(cats: seq<Category>, disk: Disk, d: nat, a: Asset, f: nat)
    requires UniqueFiles(AllAfter(cats)) && NewAsset(cats, d, a) && Kept(cats[d], disk, a)
    requires f < |Planned(cats, disk)|
    ensures Planned(cats, disk)[f].name != a.name
  {
    var e, p := Origins(cats, disk)[f], Planned(cats, disk)[f];
    var before, after := cats[d].before.value, cats[d].after;
    PlannedAt(cats, disk, f);
    var b := PlannedFrom(cats, disk, f);
    if e == d {
      AfterIsUnique(cats, d);
      PlanParts(before, after, disk);
      var bad := CorruptedNames(before, disk);
      var diff := DiffFiles(after, OldMd5(before, |before|) - bad);
      var i :| 0 <= i < |Plan(before, after, disk)| && Plan(before, after, disk)[i] == p;
      hide Plan, Planned, Origins, Naive, OldMd5, CorruptedNames;
      assert diff[i] in diff && diff[i].name == p.name;
      SameNameSameFile(after, a, diff[i]);
    } else if b.name == a.name {
      NameTellsAsset(cats, d, a, e, b);
    }
  }

  /** A file that is not left alone is planned. */
  lemma {:induction false} ChangedIsPlanned(cats: seq<Category>, disk: Disk, d: nat, a: Asset) returns (f: nat)
    requires UniqueFiles(AllAfter(cats)) && NewAsset(cats, d, a) && !Kept(cats[d], disk, a)
    ensures f < |Planned(cats, disk)| && Version(a, Planned(cats, disk)[f])
  {
    var p := a;
    match cats[d].before {
      case None =>
        assert Version(a, a);
      case Some(before) =>
        AfterIsUnique(cats, d);
        PlanParts(before, cats[d].after, disk);
        var bad := CorruptedNames(before, disk);
        var diff := DiffFiles(cats[d].after, OldMd5(before, |before|) - bad);
        assert a in diff;
        var i :| 0 <= i < |diff| && diff[i] == a;
        p := Plan(before, cats[d].after, disk)[i];
        hide Naive, OldMd5, CorruptedNames, Without;
        assert Version(a, p);
    }
    f := PlannedHas(cats, disk, d, p);
  }

  /** What a file of the new build needs to have its content once everything is written. */
  ghost predicate StaysGood(cats: seq<Category>, disk: Disk, j: Job, d: nat, a: Asset)
    requires Writable(j) && j.files == Planned(cats, disk) && d < |cats|
  {
    if Kept(cats[d], disk, a) then !IsTmp(a.name) else GoodUnder(cats, disk, j, a.name)
  }

  lemma {:induction false} VersionName(a: Asset, p: Asset)
    requires Version(a, p)
    ensures p.name == a.name
  {
  }

  lemma {:induction false} OneUnderName(cats: seq<Category>, disk: Disk, j: Job, f: nat)
    requires Writable(j) && j.files == Planned(cats, disk) && DistinctNames(j.files) && f < |j.files|
    ensures GoodUnder(cats, disk, j, j.files[f].name) <==> Good(cats, disk, j, f) || Spared(j, f)
  {
    hide Writable, Good, Spared, Planned;
    assert forall g: nat :: g < |j.files| && j.files[g].name == j.files[f].name ==> g == f;
  }

  lemma {:induction false} PlannedHolds(cats: seq<Category>, disk: Disk, found: Tree, j: Job, d: nat, a: Asset)
    requires UpdateSetting(cats, disk, found, j) && Writable(j) && ChunkSetting(j) && DistinctNames(j.files)
    requires NewAsset(cats, d, a) && !Kept(cats[d], disk, a) && Described(j.store, a)
    ensures Holds(Installed(j, |j.files|), a.name, FileContent(j.store, a)) <==> GoodUnder(cats, disk, j, a.name)
  {
    assert j.files == Planned(cats, disk) && UniqueFiles(AllAfter(cats));
    hide UpdateSetting, Described, Writable, Installed, Good, Spared, WrittenAt, FileContent, Planned, ChunkSetting, UniqueFiles, Kept,
      Jobs.ValidSetup, GoodUnder, DistinctNames;
    var f := ChangedIsPlanned(cats, disk, d, a);
    VersionDescribed(j.store, a, j.files[f]);
    VersionName(a, j.files[f]);
    hide Version;
    HoldsWhenWritten(j, f);
    GoodExactly(cats, disk, found, j, f);
    OneUnderName(cats, disk, j, f);
  }

  lemma {:induction false} HoldsAfterWriting(cats: seq<Category>, disk: Disk, found: Tree, j: Job, d: nat, a: Asset)
    requires UpdateSetting(cats, disk, found, j) && Writable(j) && ChunkSetting(j) && DistinctNames(j.files) && NewAsset(cats, d, a)
    ensures Described(j.store, a)
    ensures Holds(Installed(j, |j.files|), a.name, FileContent(j.store, a)) <==> StaysGood(cats, disk, j, d, a)
  {
    AssetsAreDescribed(cats, disk, found, j, d, a);
    if Kept(cats[d], disk, a) {
      KeptFile(cats, disk, found, j, d, a);
      InstalledElsewhere(j, |j.files|, a.name);
    } else {
      PlannedHolds(cats, disk, found, j, d, a);
    }
    hide UpdateSetting, Described, Writable, Installed, FileContent, ChunkSetting, GoodUnder, Kept;
  }

  // ---------------------------------------------------------------------------
  // Main results
  // ---------------------------------------------------------------------------

  ghost predicate DroppedSomewhere(cats: seq<Category>, name: string) {
    exists e :: 0 <= e < |cats| && Drops(cats[e], name)
  }

  /** At the end of any update, all its tasks having ended, a file of the new build has its
      content if and only if it stays good and, the update having succeeded, no category drops its
      name: a file that moves between categories is deleted after it was installed. */
  lemma {:induction false} NewFileHoldsExactly(cats: seq<Category>, disk: Disk, found: Tree, j: Job, d: nat, a: Asset)
    requires UpdateSetting(cats, disk, found, j) && NewAsset(cats, d, a)
    ensures Writable(j) && Described(j.store, a) && !Drops(cats[d], a.name)
    ensures Holds(Updated(j, Dropped(cats)), a.name, FileContent(j.store, a)) <==>
            StaysGood(cats, disk, j, d, a) && !(Succeeds(j) && DroppedSomewhere(cats, a.name))
  {
    UpdateIsWritable(cats, disk, found, j);
    HoldsAfterWriting(cats, disk, found, j, d, a);
    hide UpdateSetting, Writable, StaysGood, Installed, Succeeds, FileContent, Described, ChunkSetting;
    assert a.name in Names(cats[d].after);
  }

  /** File `f` is good, and nothing fails while it is written. */
  ghost predicate Passes(cats: seq<Category>, disk: Disk, j: Job, f: nat)
    requires Writable(j) && j.files == Planned(cats, disk) && f < |j.files|
  {
    Good(cats, disk, j, f) && (Eager(j, f) ==> EagerPasses(j, j.files[f]))
  }

  /** Every file of the new build has exactly its content. */
  ghost predicate HasNewBuild(cats: seq<Category>, store: Store, t: Tree) {
    forall d: nat, a :: NewAsset(cats, d, a) ==> HasContents(store, a) && Holds(t, a.name, FileContent(store, a))
  }

  /** No file of the new build has a name that some category drops. */
  ghost predicate NothingMoves(cats: seq<Category>) {
    forall d: nat, a :: NewAsset(cats, d, a) ==> !DroppedSomewhere(cats, a.name)
  }

  /** No file that is left alone is removed as temporary. */
  ghost predicate NothingKeptIsTmp(cats: seq<Category>, disk: Disk) {
    forall d: nat, a :: NewAsset(cats, d, a) && Kept(cats[d], disk, a) ==> !IsTmp(a.name)
  }

  ghost predicate AllPass(cats: seq<Category>, disk: Disk, j: Job)
    requires Writable(j) && j.files == Planned(cats, disk)
  {
    forall f: nat :: f < |j.files| ==> Passes(cats, disk, j, f)
  }

  lemma {:induction false} PassingSucceeds(cats: seq<Category>, disk: Disk, found: Tree, j: Job, f: nat)
    requires UpdateSetting(cats, disk, found, j) && Writable(j) && ChunkSetting(j) && f < |j.files|
    ensures Passes(cats, disk, j, f) ==> WrittenAt(j, f).ok
    ensures WrittenAt(j, f).ok && (Good(cats, disk, j, f) || Spared(j, f)) ==> Passes(cats, disk, j, f)
  {
    GoodExactly(cats, disk, found, j, f);
    hide UpdateSetting, Good, FileContent, Planned, ChunkSetting, WriteAssembled, EagerBytes;
  }

  /** The update succeeds and leaves exactly the new build if and only if every planned file
      passes, no file that is left alone is removed as temporary, and no file moves between
      categories. After success the dropped names are gone; of the names of neither build the
      temporary ones are removed and the others are never touched. */
  lemma {:induction false} UpdateIsRightExactly(cats: seq<Category>, disk: Disk, found: Tree, j: Job)
    requires UpdateSetting(cats, disk, found, j)
    ensures Writable(j)
    ensures Succeeds(j) && HasNewBuild(cats, j.store, Updated(j, Dropped(cats))) <==>
            AllPass(cats, disk, j) && NothingKeptIsTmp(cats, disk) && NothingMoves(cats)
    ensures Succeeds(j) ==> forall n :: DroppedSomewhere(cats, n) ==> n !in Updated(j, Dropped(cats))
    ensures forall n :: !DroppedSomewhere(cats, n) && (forall d: nat, a :: NewAsset(cats, d, a) ==> a.name != n) ==>
              SameAt(Cleaned(found), Updated(j, Dropped(cats)), n)
  {
    UpdateIsWritable(cats, disk, found, j);
    if Succeeds(j) && HasNewBuild(cats, j.store, Updated(j, Dropped(cats))) {
      RightMeansPassing(cats, disk, found, j);
    }
    if AllPass(cats, disk, j) && NothingKeptIsTmp(cats, disk) && NothingMoves(cats) {
      PassingMeansRight(cats, disk, found, j);
    }
    OthersStay(cats, disk, found, j);
  }

  lemma {:induction false} RightFilePasses(cats: seq<Category>, disk: Disk, found: Tree, j: Job, f: nat)
    requires UpdateSetting(cats, disk, found, j) && Writable(j) && ChunkSetting(j) && f < |j.files|
    requires Succeeds(j) && HasNewBuild(cats, j.store, Updated(j, Dropped(cats)))
    ensures Passes(cats, disk, j, f)
  {
    assert j.files == Planned(cats, disk) && UniqueFiles(AllAfter(cats));
    assert WrittenAt(j, f).ok;
    hide UpdateSetting, Updated, Planned, Writable, Good, Spared, WrittenAt, Passes, FileContent, ChunkSetting, Kept, UniqueFiles, Version,
      Succeeds, DroppedSomewhere, Origins;
    var a := PlannedFrom(cats, disk, f);
    var d := Origins(cats, disk)[f];
    VersionName(a, j.files[f]);
    assert NewAsset(cats, d, a);
    NewFileHoldsExactly(cats, disk, found, j, d, a);
    PassingSucceeds(cats, disk, found, j, f);
    if Kept(cats[d], disk, a) {
      NotPlanned(cats, disk, d, a, f);
    }
  }

  lemma {:induction false} RightMeansPassing(cats: seq<Category>, disk: Disk, found: Tree, j: Job)
    requires UpdateSetting(cats, disk, found, j) && Writable(j) && ChunkSetting(j)
    requires Succeeds(j) && HasNewBuild(cats, j.store, Updated(j, Dropped(cats)))
    ensures AllPass(cats, disk, j) && NothingKeptIsTmp(cats, disk) && NothingMoves(cats)
  {
    assert j.files == Planned(cats, disk);
    hide UpdateSetting, Updated, Planned, Succeeds, DroppedSomewhere, Writable, GoodUnder, FileContent, ChunkSetting, Kept, Passes;
    forall f: nat | f < |j.files| ensures Passes(cats, disk, j, f) {
      RightFilePasses(cats, disk, found, j, f);
    }
    forall d: nat, a | NewAsset(cats, d, a)
      ensures !DroppedSomewhere(cats, a.name) && (Kept(cats[d], disk, a) ==> !IsTmp(a.name))
    {
      NewFileHoldsExactly(cats, disk, found, j, d, a);
    }
  }

  lemma {:induction false} PassingMeansRight(cats: seq<Category>, disk: Disk, found: Tree, j: Job)
    requires UpdateSetting(cats, disk, found, j) && Writable(j) && ChunkSetting(j)
    requires AllPass(cats, disk, j) && NothingKeptIsTmp(cats, disk) && NothingMoves(cats)
    ensures Succeeds(j) && HasNewBuild(cats, j.store, Updated(j, Dropped(cats)))
  {
    assert j.files == Planned(cats, disk);
    hide UpdateSetting, Updated, Planned, DroppedSomewhere, Writable, Good, Spared, WrittenAt, FileContent, ChunkSetting, Kept;
    forall f | 0 <= f < |j.files| ensures WrittenAt(j, f).ok && Good(cats, disk, j, f) {
      PassingSucceeds(cats, disk, found, j, f);
      assert Passes(cats, disk, j, f);
    }
    forall d: nat, a | NewAsset(cats, d, a)
      ensures HasContents(j.store, a) && Holds(Updated(j, Dropped(cats)), a.name, FileContent(j.store, a))
    {
      NewFileHoldsExactly(cats, disk, found, j, d, a);
    }
  }

  ghost predicate SameAt(s: Tree, t: Tree, name: string) {
    (name in t <==> name in s) && (name in s ==> t[name] == s[name])
  }

  lemma {:induction false} OthersStay(cats: seq<Category>, disk: Disk, found: Tree, j: Job)
    requires UpdateSetting(cats, disk, found, j) && Writable(j)
    ensures Succeeds(j) ==> forall n :: DroppedSomewhere(cats, n) ==> n !in Updated(j, Dropped(cats))
    ensures forall n :: !DroppedSomewhere(cats, n) && (forall d: nat, a :: NewAsset(cats, d, a) ==> a.name != n) ==>
              SameAt(Cleaned(found), Updated(j, Dropped(cats)), n)
  {
    hide WrittenAt, Writable, ChunkSetting, CategorySetting, SizesOf, Jobs.ValidSetup, ColumnsFit;
    forall n | !DroppedSomewhere(cats, n) && (forall d: nat, a :: NewAsset(cats, d, a) ==> a.name != n)
      ensures SameAt(Cleaned(found), Updated(j, Dropped(cats)), n)
    {
      forall f | 0 <= f < |j.files| ensures j.files[f].name != n {
        var a := PlannedFrom(cats, disk, f);
        assert NewAsset(cats, Origins(cats, disk)[f], a);
      }
      InstalledElsewhere(j, |j.files|, n);
    }
  }

  // ---------------------------------------------------------------------------
  // Categories that only the new build has
  // ---------------------------------------------------------------------------

  predicate AllZero(bytes: seq<Byte>) {
    forall i :: 0 <= i < |bytes| ==> bytes[i] == 0
  }

  lemma {:induction false} ZeroRange(size: nat, at: nat, bytes: seq<Byte>)
    requires at + |bytes| <= size
    ensures RangeIs(Extended([], size), at, bytes) <==> AllZero(bytes)
  {
    var zeros := Extended([], size);
    if RangeIs(zeros, at, bytes) {
      forall i | 0 <= i < |bytes| ensures bytes[i] == 0 {
        assert zeros[at..at + |bytes|][i] == zeros[at + i];
      }
    }
  }

  /** With nothing on disk, a reused row of an eager file is right exactly when it is all zeros. */
  lemma {:induction false} AbsentRows(j: Job, f: nat, c: nat)
    requires Writable(j) && f < |j.files| && j.files[f].name !in j.tree && c < |j.files[f].chunks|
    ensures LiesInPlace(j.store, j.tree, j.files[f], c) <==> AllZero(j.store[j.files[f].chunks[c].decompressedHash])
  {
    var a := j.files[f];
    assert Described(j.store, a);
    hide UpdateTree.Content;
    RowFits(j.store, a, c);
    ZeroRange(a.size, RowStart(a, c), j.store[a.chunks[c].decompressedHash]);
  }

  predicate ReusedAreZero(store: Store, a: Asset)
    requires HasContents(store, a)
  {
    forall c :: 0 <= c < |a.chunks| && IsReused(a, c) ==> AllZero(store[a.chunks[c].decompressedHash])
  }

  ghost predicate WrittenRight(j: Job, f: nat)
    requires Writable(j) && f < |j.files|
  {
    WrittenAt(j, f).content == Some(NewContent(j, f))
  }

  lemma {:induction false} ReusedExactly(a: Asset)
    ensures Tables.Pure(a) <==> forall c :: 0 <= c < |a.chunks| ==> !IsReused(a, c)
  {
    assert forall c :: 0 <= c < |a.chunks| ==> (IsReused(a, c) <==> !IsDownloaded(a.chunks[c]));
  }

  lemma {:induction false} AbsentFile(j: Job, f: nat)
    requires Writable(j) && f < |j.files| && j.files[f].name !in j.tree
    ensures var a := j.files[f];
            && (AllInPlace(j.store, j.tree, a) <==> ReusedAreZero(j.store, a))
            && (AllReadRight(j.store, j.tree, a) <==> Tables.Pure(a))
            && !Skipped(j, a)
  {
    var a := j.files[f];
    forall c: nat | c < |a.chunks|
      ensures LiesInPlace(j.store, j.tree, a, c) <==> AllZero(j.store[a.chunks[c].decompressedHash])
    {
      AbsentRows(j, f, c);
    }
    hide Described, FileContent, LiesInPlace, AllZero;
    ReusedExactly(a);
  }

  /** A reused row without an old file fails the assembly. */
  lemma {:induction false} AbsentSourceFails(j: Job, f: nat)
    requires Writable(j) && f < |j.files| && j.files[f].name !in j.tree && !Tables.Pure(j.files[f]) && !Eager(j, f)
    ensures WrittenAt(j, f) == Written(false, None)
  {
    var a := j.files[f];
    var rows := RowsOf(a, j.dirs[f]);
    hide Described, FileContent, Content, A.Joined, A.Acceptable, Jobs.EagerRoute;
    ReusedExactly(a);
    var c :| 0 <= c < |a.chunks| && IsReused(a, c);
    assert rows[c].oldOffset >= 0;
    assert A.HasReused(rows);
  }

  /** Rows of a new category keep the offsets of their manifest, where an omitted field reads as
      zero and so counts as reused. With no file of that name on disk: with deduplication on, the
      file gets its content if and only if none of its rows has an offset and, on the assembly
      route, the digests hold; a row with an offset fails the assembly. With deduplication off a
      file with downloads is forced eager, and it gets its content also when every reused row
      should be all zeros. With such a file on disk: on the assembly route it ends right if and
      only if it was rightly taken for valid, or was not and every reused row happens to read its
      own chunk and the digests hold; on the eager route if and only if it was not longer and had
      every reused chunk in place. */
  lemma {:induction false} NewCategoryExactly(cats: seq<Category>, disk: Disk, found: Tree, j: Job, f: nat)
    requires UpdateSetting(cats, disk, found, j) && f < |Planned(cats, disk)| && IsNew(cats, disk, f)
    ensures Writable(j) && j.files[f] in cats[Origins(cats, disk)[f]].after
    ensures var a := j.files[f]; a.name !in j.tree && !j.u.forceEager ==>
              (WrittenRight(j, f) <==> Tables.Pure(a) && (Eager(j, f) || DigestsHold(j, a))) &&
              (!Tables.Pure(a) ==> WrittenAt(j, f) == Written(false, None))
    ensures var a := j.files[f]; a.name !in j.tree && j.u.forceEager ==>
              (WrittenRight(j, f) <==> if Facts.HasDownloads(a) then ReusedAreZero(j.store, a) else Tables.Pure(a) && DigestsHold(j, a))
    ensures var a := j.files[f]; a.name in j.tree && !Eager(j, f) ==>
              (WrittenRight(j, f) <==>
                if Skipped(j, a) then j.tree[a.name] == FileContent(j.store, a)
                else DigestsHold(j, a) && AllReadRight(j.store, j.tree, a))
    ensures var a := j.files[f]; a.name in j.tree && Eager(j, f) ==>
              (WrittenRight(j, f) <==> |j.tree[a.name]| <= a.size && AllInPlace(j.store, j.tree, a))
  {
    UpdateIsWritable(cats, disk, found, j);
    PlannedAt(cats, disk, f);
    GoodExactly(cats, disk, found, j, f);
    var a := j.files[f];
    if a.name !in j.tree {
      AbsentFile(j, f);
      if !Tables.Pure(a) && !Eager(j, f) {
        AbsentSourceFails(j, f);
      }
      if Tables.Pure(a) {
        ReusedExactly(a);
      }
    }
    FreshUpdate(cats, disk, found, j);
    assert IsNew(cats, disk, f) && !IsKnown(cats, disk, f);
    hide UpdateSetting, Described, FileContent, AllZero, Planned, Origins, AllReadRight, AllInPlace, Skipped, WrittenAt, DigestsHold,
      Writable, ChunkSetting, CategoryPlan;
  }
}
