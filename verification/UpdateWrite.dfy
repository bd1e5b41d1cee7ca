/** Writing the files of an update, each along the route that the plan's tables give it, and
    when a file comes out of assembly right. */
module UpdateWrite {
  import opened Hex
  import opened Manifest
  import opened RangeWriter
  import opened UpdateCategories
  import opened UpdatePlan
  import opened UpdateTree
  import A = Assembly
  import Parallel = ParallelAssembly
  import Protocol
  import Tables = Plan
  import Jobs = PlanJob
  import Cache = VerificationCache

  // ---------------------------------------------------------------------------
  // Writing everything
  // ---------------------------------------------------------------------------

  /** The contents of the chunk directory by chunk file name, decoded. */
  type ChunkDir = map<string, seq<Byte>>

  /** A fresh update as it starts to write. Routes come from the plan's tables in the mode that
      `u` says; `dirs[f]` is the chunk directory while file `f` is being assembled. */
  datatype Job = Job(
    digest: seq<Byte> -> seq<Byte>,
    store: Store,
    tree: Tree,
    cache: map<string, Cache.Entry>,
    files: seq<Asset>,
    u: Tables.Setup,
    mode: A.VerifyMode,
    workers: nat,
    dirs: seq<ChunkDir>
  )

  /** A text as the bytes it is. */
  function Bytes(s: string): (r: seq<Byte>)
    ensures |r| == |s| && forall i :: 0 <= i < |s| ==> r[i] == s[i] as int % 256
  {
    seq(|s|, i requires 0 <= i < |s| => s[i] as int % 256)
  }

  ghost predicate Writable(j: Job) {
    && Jobs.ValidSetup(j.files, j.u) && |j.dirs| == |j.files|
    && forall f :: 0 <= f < |j.files| ==> Described(j.store, j.files[f])
  }

  ghost predicate Eager(j: Job, f: nat) {
    Jobs.EagerRoute(j.files, j.u, f)
  }

  /** What writing a file comes to: whether it succeeded, and the new content of the file,
      if it has one. */
  datatype Written = Written(ok: bool, content: Option<seq<Byte>>)

  /** The chunk's own digest is that of its content, if it is one that gets compared. */
  ghost predicate ChunkDigestHolds(j: Job, a: Asset, c: nat)
    requires HasContents(j.store, a) && c < |a.chunks|
  {
    var hash := a.chunks[c].decompressedHash;
    HashRequired(Bytes(hash)) ==> Matches(j.digest, j.store[hash], Bytes(hash))
  }

  /** An eager chunk of no bytes cannot be mapped, and in Full mode its digest is compared. */
  ghost predicate EagerPasses(j: Job, a: Asset)
    requires HasContents(j.store, a)
  {
    forall c :: 0 <= c < |a.chunks| && IsDownloaded(a.chunks[c]) ==>
      a.chunks[c].sizeDecompressed > 0 && (j.mode.Full? ==> ChunkDigestHolds(j, a, c))
  }

  /** An eager file passes exactly when the eager decompressor accepts the content of each of its
      downloaded chunks, with its digest text in Full mode and none in the others. */
  lemma {:induction false} EagerPassesExactly(j: Job, a: Asset)
    requires Described(j.store, a)
    ensures EagerPasses(j, a) <==> forall c :: 0 <= c < |a.chunks| && a.chunks[c].oldOffset < 0 ==>
              var chunk := a.chunks[c];
              EagerAccepts(j.digest, j.store[chunk.decompressedHash], chunk.sizeDecompressed,
                           if j.mode == A.Full then Bytes(chunk.decompressedHash) else [])
  {
    hide Content, Bytes, Lower, Encode;
  }

  /** The rows of a file as assembly sees them. */
  function RowsOf(a: Asset, dir: ChunkDir): (r: seq<A.Row>)
    ensures |r| == |a.chunks| && forall c :: 0 <= c < |r| ==> r[c] == RowOf(a.chunks[c], dir)
  {
    seq(|a.chunks|, c requires 0 <= c < |a.chunks| => RowOf(a.chunks[c], dir))
  }

  function RowOf(c: Chunk, dir: ChunkDir): A.Row {
    var file := Protocol.ChunkFile(c.name);
    A.Row(c.sizeDecompressed, c.oldOffset, Bytes(c.decompressedHash), true, if file in dir then dir[file] else [])
  }

  predicate ChunksPresent(a: Asset, dir: ChunkDir) {
    forall c :: 0 <= c < |a.chunks| && IsDownloaded(a.chunks[c]) ==> Protocol.ChunkFile(a.chunks[c].name) in dir
  }

  function TargetOf(tree: Tree, a: Asset): (t: Option<seq<Byte>>)
    ensures A.OldOf(t) == OldFile(tree, a)
  {
    if a.name in tree then Some(tree[a.name]) else None
  }

  /** The assembly task takes the file on disk for valid: size and digest are right, or a cache
      entry says so. */
  ghost predicate Skipped(j: Job, a: Asset) {
    a.name in j.tree &&
    Cache.TaskAccepts(j.cache, a.name, Cache.Seen(j.digest, Some(Cache.DiskFile(j.tree[a.name], 0))), a.size, Bytes(a.md5))
  }

  ghost predicate CanAssemble(j: Job, a: Asset, dir: ChunkDir, out: seq<Byte>) {
    Parallel.CanAssemble(j.digest, TargetOf(j.tree, a), RowsOf(a, dir), a.size, Bytes(a.md5), j.mode, j.workers, out)
  }

  /** The assembly route: a file taken for valid is left alone; otherwise it is assembled if
      its chunks are there and it can be, and left as it was if not. */
  ghost function WriteAssembled(j: Job, a: Asset, dir: ChunkDir): Written {
    var out := A.Joined(OldFile(j.tree, a), RowsOf(a, dir), |a.chunks|);
    if Skipped(j, a) then Written(true, Some(j.tree[a.name]))
    else if ChunksPresent(a, dir) && CanAssemble(j, a, dir, out) then Written(true, Some(out))
    else Written(false, None)
  }

  /** A file that is not taken for valid fails, and stays as it was, if one of its downloaded
      chunks is not there. */
  lemma {:induction false} MissingChunkFails(j: Job, a: Asset, dir: ChunkDir, c: nat)
    requires c < |a.chunks| && a.chunks[c].oldOffset < 0 && Protocol.ChunkFile(a.chunks[c].name) !in dir
    ensures WriteAssembled(j, a, dir) == if Skipped(j, a) then Written(true, Some(j.tree[a.name])) else Written(false, None)
  {
    hide Skipped, CanAssemble, Protocol.ChunkFile;
    assert IsDownloaded(a.chunks[c]);
  }

  ghost function WrittenAt(j: Job, f: nat): Written
    requires Writable(j) && f < |j.files|
  {
    var a := j.files[f];
    if Eager(j, f) then Written(EagerPasses(j, a), Some(EagerBytes(j.store, j.tree, a)))
    else WriteAssembled(j, a, j.dirs[f])
  }

  ghost function NewContent(j: Job, f: nat): seq<Byte>
    requires Writable(j) && f < |j.files|
  {
    FileContent(j.store, j.files[f])
  }

  /** The directory after the first `n` files. No file reads another, so the order does not matter. */
  ghost function Installed(j: Job, n: nat): Tree
    requires Writable(j) && n <= |j.files|
  {
    if n == 0 then j.tree
    else
      var t := Installed(j, n - 1);
      match WrittenAt(j, n - 1).content
      case None => t
      case Some(bytes) => t[j.files[n - 1].name := bytes]
  }

  ghost predicate Succeeds(j: Job)
    requires Writable(j)
  {
    forall f :: 0 <= f < |j.files| ==> WrittenAt(j, f).ok
  }

  /** Dropped files are removed once everything is written, and only then. */
  ghost function Updated(j: Job, dropped: set<string>): Tree
    requires Writable(j)
  {
    if Succeeds(j) then Installed(j, |j.files|) - dropped else Installed(j, |j.files|)
  }

  lemma {:induction false} InstalledAt(j: Job, n: nat, f: nat)
    requires Writable(j) && DistinctNames(j.files) && n <= |j.files| && f < n
    ensures var t, name := Installed(j, n), j.files[f].name;
            match WrittenAt(j, f).content
            case Some(bytes) => name in t && t[name] == bytes
            case None => (name in t <==> name in j.tree) && (name in t ==> t[name] == j.tree[name])
  {
    hide WrittenAt, Writable;
    if f < n - 1 {
      InstalledAt(j, n - 1, f);
    } else {
      InstalledElsewhere(j, n - 1, j.files[f].name);
    }
  }

  lemma {:induction false} InstalledElsewhere(j: Job, n: nat, name: string)
    requires Writable(j) && n <= |j.files| && forall f :: 0 <= f < n ==> j.files[f].name != name
    ensures (name in Installed(j, n) <==> name in j.tree) && (name in j.tree ==> Installed(j, n)[name] == j.tree[name])
  {
    hide WrittenAt, Writable;
    if n > 0 {
      InstalledElsewhere(j, n - 1, name);
    }
  }

  ghost predicate Holds(t: Tree, name: string, bytes: seq<Byte>) {
    name in t && t[name] == bytes
  }

  // ---------------------------------------------------------------------------
  // When one file comes out right
  // ---------------------------------------------------------------------------

  /** The old file has at the row's new place the bytes that it has at the row's old place. */
  predicate Unmoved(tree: Tree, a: Asset, c: nat)
    requires c < |a.chunks| && IsReused(a, c)
  {
    RangeIs(Extended(OldFile(tree, a), a.size), RowStart(a, c),
            OldBytes(OldFile(tree, a), a.chunks[c].oldOffset, a.chunks[c].sizeDecompressed))
  }

  predicate NoneMoved(tree: Tree, a: Asset) {
    forall c :: 0 <= c < |a.chunks| && IsReused(a, c) ==> Unmoved(tree, a, c)
  }

  ghost function PolicyOf(j: Job, a: Asset): A.Policy {
    A.Decide(j.mode, Bytes(a.md5), AllHashed(a), |a.chunks|, j.workers)
  }

  ghost predicate AllHashed(a: Asset) {
    forall c :: 0 <= c < |a.chunks| ==> HashRequired(Bytes(a.chunks[c].decompressedHash))
  }

  /** Whatever digest assembly compares is that of the content, and a hashing thread has
      something to map. */
  ghost predicate DigestsHold(j: Job, a: Asset)
    requires HasContents(j.store, a)
  {
    var policy := PolicyOf(j, a);
    && (policy.chunkHash ==> forall c :: 0 <= c < |a.chunks| ==> ChunkDigestHolds(j, a, c))
    && (policy.streamHash || policy.threadHash ==> Matches(j.digest, FileContent(j.store, a), Bytes(a.md5)))
    && (policy.threadHash ==> a.size > 0)
  }

  /** Every downloaded chunk is there with its own content. */
  ghost predicate ChunksRight(j: Job, a: Asset, dir: ChunkDir)
    requires HasContents(j.store, a)
  {
    forall c :: 0 <= c < |a.chunks| && IsDownloaded(a.chunks[c]) ==>
      var file := Protocol.ChunkFile(a.chunks[c].name);
      file in dir && dir[file] == j.store[a.chunks[c].decompressedHash]
  }

  lemma {:induction false} RowsStart(a: Asset, dir: ChunkDir, n: nat)
    requires n <= |a.chunks|
    ensures A.Offset(RowsOf(a, dir), n) == RowStart(a, n)
  {
    if n > 0 {
      RowsStart(a, dir, n - 1);
    }
  }

  /** With the right chunks the joined payloads are the pieces of the plan. */
  lemma {:induction false} RowsJoin(j: Job, a: Asset, dir: ChunkDir, n: nat)
    requires HasContents(j.store, a) && ChunksRight(j, a, dir) && n <= |a.chunks|
    ensures A.Joined(OldFile(j.tree, a), RowsOf(a, dir), n) == AssembledBytes(j.store, j.tree, a, n)
  {
    if n > 0 {
      RowsJoin(j, a, dir, n - 1);
    }
  }

  /** What a row's source yields. */
  lemma {:induction false} RowPayload(j: Job, a: Asset, dir: ChunkDir, c: nat)
    requires Described(j.store, a) && ChunksRight(j, a, dir) && c < |a.chunks|
    ensures var row := RowsOf(a, dir)[c];
            && row.size == a.chunks[c].sizeDecompressed == |j.store[a.chunks[c].decompressedHash]|
            && row.hash == Bytes(a.chunks[c].decompressedHash) && row.validName
            && (row.oldOffset >= 0 <==> IsReused(a, c))
            && A.Payload(OldFile(j.tree, a), row) ==
               if IsReused(a, c) then OldBytes(OldFile(j.tree, a), a.chunks[c].oldOffset, a.chunks[c].sizeDecompressed)
               else j.store[a.chunks[c].decompressedHash]
  {
    hide Content, OldBytes;
  }

  /** The file is ready and its rows have their sizes exactly when every reused row finds an old
      file that is long enough. */
  lemma {:induction false} RowsReady(j: Job, a: Asset, dir: ChunkDir)
    requires Described(j.store, a) && ChunksRight(j, a, dir)
    ensures var rows := RowsOf(a, dir);
            A.Ready(TargetOf(j.tree, a), rows, a.size) && A.Sized(OldFile(j.tree, a), rows, |rows|) <==> AllThere(j.tree, a)
  {
    var rows := RowsOf(a, dir);
    RowsStart(a, dir, |rows|);
    StartsAreLengths(j.store, a, |a.chunks|);
    forall c: nat | c < |rows|
      ensures rows[c].oldOffset >= 0 <==> IsReused(a, c)
      ensures |A.Payload(OldFile(j.tree, a), rows[c])| == rows[c].size <==> !(IsReused(a, c) && EndsEarly(j.tree, a, c))
    {
      RowPayload(j, a, dir, c);
    }
    hide Content, Described, RowsOf, OldBytes, ChunksRight, A.Offset, A.Payload, IsReused, EndsEarly;
    if A.Ready(TargetOf(j.tree, a), rows, a.size) && A.Sized(OldFile(j.tree, a), rows, |rows|) {
      forall c | 0 <= c < |a.chunks| && IsReused(a, c) ensures a.name in j.tree && !EndsEarly(j.tree, a, c) {
        assert rows[c].oldOffset >= 0;
        assert |A.Payload(OldFile(j.tree, a), rows[c])| == rows[c].size;
      }
    }
    if AllThere(j.tree, a) {
      forall c | 0 <= c < |rows| ensures |A.Payload(OldFile(j.tree, a), rows[c])| == rows[c].size {
      }
      assert A.HasReused(rows) ==> a.name in j.tree by {
        if A.HasReused(rows) {
          var c :| 0 <= c < |rows| && rows[c].oldOffset >= 0;
          assert IsReused(a, c);
        }
      }
    }
  }

  /** When the joined payloads are the content, they are acceptable exactly when the digests hold. */
  lemma {:induction false} AcceptableExactly(j: Job, a: Asset, dir: ChunkDir)
    requires Described(j.store, a) && ChunksRight(j, a, dir) && AllReadRight(j.store, j.tree, a)
    ensures var rows, policy := RowsOf(a, dir), PolicyOf(j, a);
            && policy == A.PolicyOf(j.mode, Bytes(a.md5), rows, j.workers)
            && A.Joined(OldFile(j.tree, a), rows, |rows|) == FileContent(j.store, a)
            && (A.Acceptable(j.digest, OldFile(j.tree, a), rows, Bytes(a.md5), policy) && (policy.threadHash ==> a.size > 0) <==>
                DigestsHold(j, a))
  {
    var rows, policy := RowsOf(a, dir), PolicyOf(j, a);
    PiecesRightExactly(j.store, j.tree, a);
    RowsJoin(j, a, dir, |a.chunks|);
    RowsReady(j, a, dir);
    forall c: nat | c < |rows|
      ensures rows[c].hash == Bytes(a.chunks[c].decompressedHash) && rows[c].validName
      ensures A.Payload(OldFile(j.tree, a), rows[c]) == j.store[a.chunks[c].decompressedHash]
    {
      RowPayload(j, a, dir, c);
      assert IsReused(a, c) ==> ReadsRight(j.store, j.tree, a, c);
    }
    hide Content, Described, RowsOf, OldBytes, ChunksRight, A.Offset, A.Payload, A.Joined, AllReadRight, Bytes, HashRequired, Matches;
    assert A.AllHashed(rows) <==> AllHashed(a);
    assert A.NamesValid(rows);
    ChunksMatchExactly(j, a, rows);
  }

  lemma {:induction false} ChunksMatchExactly(j: Job, a: Asset, rows: seq<A.Row>)
    requires HasContents(j.store, a) && |rows| == |a.chunks|
    requires forall c: nat :: c < |rows| ==>
               && rows[c].hash == Bytes(a.chunks[c].decompressedHash)
               && A.Payload(OldFile(j.tree, a), rows[c]) == j.store[a.chunks[c].decompressedHash]
    ensures A.ChunksMatch(j.digest, OldFile(j.tree, a), rows, |rows|) <==>
            forall c :: 0 <= c < |a.chunks| ==> ChunkDigestHolds(j, a, c)
  {
    hide A.Payload, Bytes, HashRequired, Matches;
    if forall c :: 0 <= c < |a.chunks| ==> ChunkDigestHolds(j, a, c) {
      forall i | 0 <= i < |rows| && HashRequired(rows[i].hash)
        ensures Matches(j.digest, A.Payload(OldFile(j.tree, a), rows[i]), rows[i].hash)
      {
        assert ChunkDigestHolds(j, a, i);
      }
    }
    if A.ChunksMatch(j.digest, OldFile(j.tree, a), rows, |rows|) {
      forall c | 0 <= c < |a.chunks| ensures ChunkDigestHolds(j, a, c) {
        assert rows[c].hash == Bytes(a.chunks[c].decompressedHash);
      }
    }
  }

  lemma {:induction false} CanAssembleWhenAcceptable(j: Job, a: Asset, dir: ChunkDir)
    ensures var rows := RowsOf(a, dir);
            var policy := A.PolicyOf(j.mode, Bytes(a.md5), rows, j.workers);
            CanAssemble(j, a, dir, A.Joined(OldFile(j.tree, a), rows, |rows|)) <==>
            A.Ready(TargetOf(j.tree, a), rows, a.size) &&
            A.Acceptable(j.digest, OldFile(j.tree, a), rows, Bytes(a.md5), policy) && (policy.threadHash ==> a.size > 0)
  {
    var rows := RowsOf(a, dir);
    Parallel.CanAssembleExactly(j.digest, TargetOf(j.tree, a), rows, a.size, Bytes(a.md5), j.mode, j.workers,
                                A.Joined(OldFile(j.tree, a), rows, |rows|));
  }

  /** A file is assembled right exactly when it was taken for valid rightly, or every reused row
      reads its own chunk, the digests that are compared are true, and a hashing thread has
      something to map. What it is not assembled to leaves it as it was. */
  lemma {:induction false} AssembledRightExactly(j: Job, a: Asset, dir: ChunkDir)
    requires Described(j.store, a) && ChunksRight(j, a, dir)
    ensures var w := WriteAssembled(j, a, dir);
            && (w.ok <==> w.content.Some?)
            && (Skipped(j, a) ==> w == Written(true, Some(j.tree[a.name])))
            && (!Skipped(j, a) ==>
                  (w.content == Some(FileContent(j.store, a)) <==> AllReadRight(j.store, j.tree, a) && DigestsHold(j, a)))
  {
    var rows := RowsOf(a, dir);
    var out := A.Joined(OldFile(j.tree, a), rows, |rows|);
    assert ChunksPresent(a, dir);
    RowsReady(j, a, dir);
    RowsJoin(j, a, dir, |a.chunks|);
    PiecesRightExactly(j.store, j.tree, a);
    CanAssembleWhenAcceptable(j, a, dir);
    if AllReadRight(j.store, j.tree, a) {
      AcceptableExactly(j, a, dir);
    }
    hide Content, Described, RowsOf, ChunksRight, A.Joined, AllReadRight, AllThere, Bytes, Cache.TaskAccepts, DigestsHold, CanAssemble,
      A.Sized, A.ChunksMatch, A.NamesValid, Matches, Skipped;
  }
}
