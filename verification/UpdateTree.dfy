/** Writing one file of an update plan, eagerly or by assembly: when it comes out right, and
    what the plan of one category is worth. */
module UpdateTree {
  import opened Hex
  import opened Manifest
  import opened RangeWriter
  import opened UpdatePlan

  /** File contents by name. */
  type Tree = map<string, seq<Byte>>

  /** Chunk contents by decompressed hash. */
  type Store = map<string, seq<Byte>>

  // ---------------------------------------------------------------------------
  // What manifests describe
  // ---------------------------------------------------------------------------

  predicate HasContents(store: Store, a: Asset) {
    forall c :: 0 <= c < |a.chunks| ==> a.chunks[c].decompressedHash in store
  }

  /** The first `n` chunks of a file one after another. */
  function Content(store: Store, a: Asset, n: nat): seq<Byte>
    requires HasContents(store, a) && n <= |a.chunks|
  {
    if n == 0 then [] else Content(store, a, n - 1) + store[a.chunks[n - 1].decompressedHash]
  }

  function FileContent(store: Store, a: Asset): seq<Byte>
    requires HasContents(store, a)
  {
    Content(store, a, |a.chunks|)
  }

  /** Sizes and offsets in the manifest are those of the chunk contents. */
  ghost predicate Described(store: Store, a: Asset) {
    && HasContents(store, a)
    && a.size == |FileContent(store, a)|
    && forall c :: 0 <= c < |a.chunks| ==>
         && a.chunks[c].sizeDecompressed == |store[a.chunks[c].decompressedHash]|
         && a.chunks[c].fileOffset == |Content(store, a, c)| < 2 * I64
  }

  ghost predicate SizesOf(tree: Tree, disk: Disk) {
    disk.Keys == tree.Keys && forall n :: n in tree ==> disk[n] == |tree[n]|
  }

  /** Before the update: both manifests are described by the chunk contents, equal file
      hashes mean equal contents, and an old file of the right size holds its content. */
  ghost predicate Setting(store: Store, before: seq<Asset>, after: seq<Asset>, tree: Tree) {
    && UniqueFiles(before) && UniqueFiles(after)
    && (forall a :: a in before + after && !IsDirectory(a) ==> Described(store, a))
    && (forall a, b :: a in before && b in after && !IsDirectory(a) && !IsDirectory(b) && a.md5 == b.md5 ==>
          FileContent(store, a) == FileContent(store, b))
    && (forall a :: a in before && !IsDirectory(a) && a.name in tree && |tree[a.name]| == a.size ==>
          tree[a.name] == FileContent(store, a))
  }

  // ---------------------------------------------------------------------------
  // Writing files
  // ---------------------------------------------------------------------------

  /** What assembly puts together: reused ranges of the file as it was, the rest from chunks. */
  function AssembledBytes(store: Store, tree: Tree, a: Asset, n: nat): seq<Byte>
    requires HasContents(store, a) && n <= |a.chunks|
  {
    if n == 0 then []
    else
      var c := a.chunks[n - 1];
      AssembledBytes(store, tree, a, n - 1) +
      if c.oldOffset >= 0
      then OldBytes(OldFile(tree, a), c.oldOffset, c.sizeDecompressed)
      else store[c.decompressedHash]
  }

  /** Where row `n` of a file begins: the sizes before it added up. */
  function RowStart(a: Asset, n: nat): nat
    requires n <= |a.chunks|
  {
    if n == 0 then 0 else RowStart(a, n - 1) + a.chunks[n - 1].sizeDecompressed
  }

  /** The file as it was, or nothing. */
  function OldFile(tree: Tree, a: Asset): seq<Byte> {
    if a.name in tree then tree[a.name] else []
  }

  /** A file opened for eager writing is extended with zeros, and never cut shorter. */
  function Extended(data: seq<Byte>, size: nat): (r: seq<Byte>)
    ensures |r| == Max(|data|, size) && r[..|data|] == data
    ensures forall i :: |data| <= i < |r| ==> r[i] == 0
  {
    data + if |data| < size then seq(size - |data|, _ => 0) else []
  }

  /** Only downloaded rows are written; the rest of the file stays as it was. */
  function Overlaid(store: Store, base: seq<Byte>, a: Asset, n: nat): seq<Byte>
    requires HasContents(store, a) && n <= |a.chunks|
  {
    if n == 0 then base
    else
      var before := Overlaid(store, base, a, n - 1);
      if IsDownloaded(a.chunks[n - 1])
      then Splice(before, RowStart(a, n - 1), store[a.chunks[n - 1].decompressedHash])
      else before
  }

  /** The file after eager writing. */
  function EagerBytes(store: Store, tree: Tree, a: Asset): seq<Byte>
    requires HasContents(store, a)
  {
    Overlaid(store, Extended(OldFile(tree, a), a.size), a, |a.chunks|)
  }

  predicate IsReused(a: Asset, c: nat)
    requires c < |a.chunks|
  {
    a.chunks[c].oldOffset >= 0
  }

  predicate EndsEarly(tree: Tree, a: Asset, c: nat)
    requires c < |a.chunks| && IsReused(a, c)
  {
    |OldBytes(OldFile(tree, a), a.chunks[c].oldOffset, a.chunks[c].sizeDecompressed)| != a.chunks[c].sizeDecompressed
  }

  predicate RangeIs(data: seq<Byte>, at: nat, bytes: seq<Byte>) {
    at + |bytes| <= |data| && data[at..at + |bytes|] == bytes
  }

  /** The old file holds the chunk where the row reads it. */
  predicate ReadsRight(store: Store, tree: Tree, a: Asset, c: nat)
    requires HasContents(store, a) && c < |a.chunks| && IsReused(a, c)
  {
    a.name in tree &&
    OldBytes(tree[a.name], a.chunks[c].oldOffset, a.chunks[c].sizeDecompressed) == store[a.chunks[c].decompressedHash]
  }

  /** Row `c`'s range of the file holds its chunk. */
  predicate RowHolds(store: Store, data: seq<Byte>, a: Asset, c: nat)
    requires HasContents(store, a) && c < |a.chunks|
  {
    RangeIs(data, RowStart(a, c), store[a.chunks[c].decompressedHash])
  }

  /** The old file, extended, holds the chunk where the new file has it. */
  predicate LiesInPlace(store: Store, tree: Tree, a: Asset, c: nat)
    requires HasContents(store, a) && c < |a.chunks|
  {
    RowHolds(store, Extended(OldFile(tree, a), a.size), a, c)
  }

  predicate AllInPlace(store: Store, tree: Tree, a: Asset)
    requires HasContents(store, a)
  {
    forall c :: 0 <= c < |a.chunks| && IsReused(a, c) ==> LiesInPlace(store, tree, a, c)
  }

  predicate AllReadRight(store: Store, tree: Tree, a: Asset)
    requires HasContents(store, a)
  {
    forall c :: 0 <= c < |a.chunks| && IsReused(a, c) ==> ReadsRight(store, tree, a, c)
  }

  /** Every reused row finds an old file that is long enough. */
  predicate AllThere(tree: Tree, a: Asset) {
    forall c :: 0 <= c < |a.chunks| && IsReused(a, c) ==> a.name in tree && !EndsEarly(tree, a, c)
  }

  // ---------------------------------------------------------------------------
  // When a file is written right
  // ---------------------------------------------------------------------------

  lemma {:induction false} StartsAreLengths(store: Store, a: Asset, n: nat)
    requires Described(store, a) && n <= |a.chunks|
    ensures RowStart(a, n) == |Content(store, a, n)|
  {
    if n > 0 {
      StartsAreLengths(store, a, n - 1);
    }
  }

  lemma {:induction false} StartsGrow(a: Asset, m: nat, n: nat)
    requires m <= n <= |a.chunks|
    ensures RowStart(a, m) <= RowStart(a, n)
  {
    if m < n {
      StartsGrow(a, m, n - 1);
    }
  }

  lemma {:induction false} SplicedRange(data: seq<Byte>, at: nat, bytes: seq<Byte>, x: nat, other: seq<Byte>)
    requires at + |bytes| <= |data|
    requires x + |other| <= at || at + |bytes| <= x
    ensures RangeIs(Splice(data, at, bytes), x, other) <==> RangeIs(data, x, other)
  {
    var data' := Splice(data, at, bytes);
    assert |data'| == |data|;
    if x + |other| <= |data| {
      assert data'[x..x + |other|] == data[x..x + |other|];
    }
  }

  lemma {:induction false} SplicedHolds(data: seq<Byte>, at: nat, bytes: seq<Byte>)
    requires at + |bytes| <= |data|
    ensures |Splice(data, at, bytes)| == |data| && RangeIs(Splice(data, at, bytes), at, bytes)
  {
    var data' := Splice(data, at, bytes);
    assert data'[at..at + |bytes|] == bytes;
  }

  /** A row's chunk fills the row, and every row lies within the file. */
  lemma {:induction false} RowFits(store: Store, a: Asset, c: nat)
    requires Described(store, a) && c < |a.chunks|
    ensures |store[a.chunks[c].decompressedHash]| == a.chunks[c].sizeDecompressed
    ensures RowStart(a, c) + a.chunks[c].sizeDecompressed == RowStart(a, c + 1) <= a.size
  {
    StartsGrow(a, c + 1, |a.chunks|);
    StartsAreLengths(store, a, |a.chunks|);
  }

  /** Where two rows of a file lie: apart. */
  lemma {:induction false} RowsApart(store: Store, a: Asset, n: nat, x: nat)
    requires Described(store, a) && n < |a.chunks| && x < |a.chunks| && x != n
    ensures || RowStart(a, x) + |store[a.chunks[x].decompressedHash]| <= RowStart(a, n)
            || RowStart(a, n) + |store[a.chunks[n].decompressedHash]| <= RowStart(a, x)
  {
    hide Content;
    if x < n {
      StartsGrow(a, x + 1, n);
    } else {
      StartsGrow(a, n + 1, x);
    }
  }

  /** After the rows before `n` are written, row `x` holds its chunk exactly when it is one of
      them and downloaded, or the file held it there already. */
  lemma {:induction false} OverlaidRange(store: Store, base: seq<Byte>, a: Asset, n: nat, x: nat)
    requires Described(store, a) && |base| >= a.size && n <= |a.chunks| && x < |a.chunks|
    ensures |Overlaid(store, base, a, n)| == |base|
    ensures RowHolds(store, Overlaid(store, base, a, n), a, x) <==>
            (x < n && IsDownloaded(a.chunks[x])) || RowHolds(store, base, a, x)
  {
    hide Content;
    if n > 0 {
      OverlaidRange(store, base, a, n - 1, x);
      RowFits(store, a, n - 1);
      if x != n - 1 {
        RowsApart(store, a, n - 1, x);
      }
      hide Splice, Described, RowStart, RangeIs;
      var before, at := Overlaid(store, base, a, n - 1), RowStart(a, n - 1);
      var bytes := store[a.chunks[n - 1].decompressedHash];
      SplicedHolds(before, at, bytes);
      if x != n - 1 {
        SplicedRange(before, at, bytes, RowStart(a, x), store[a.chunks[x].decompressedHash]);
      }
    }
  }

  /** Bytes begin with the content of `n` rows exactly when each of those rows is in place. */
  lemma {:induction false} ContentByRanges(store: Store, a: Asset, data: seq<Byte>, n: nat)
    requires Described(store, a) && n <= |a.chunks| && RowStart(a, n) <= |data|
    ensures data[..RowStart(a, n)] == Content(store, a, n) <==>
            forall c :: 0 <= c < n ==> RowHolds(store, data, a, c)
  {
    hide Content;
    NoContent(store, a);
    if n > 0 {
      var at, bytes := RowStart(a, n - 1), store[a.chunks[n - 1].decompressedHash];
      RowFits(store, a, n - 1);
      StartsAreLengths(store, a, n - 1);
      NextContent(store, a, n - 1);
      hide RowStart, Described;
      ContentByRanges(store, a, data, n - 1);
      assert RowHolds(store, data, a, n - 1) <==> data[at..at + |bytes|] == bytes;
      hide RowHolds;
      JoinedExactly(data[..at], data[at..at + |bytes|], Content(store, a, n - 1), bytes);
      assert data[..at + |bytes|] == data[..at] + data[at..at + |bytes|];
    }
  }

  lemma {:induction false} JoinedExactly(a: seq<Byte>, b: seq<Byte>, c: seq<Byte>, d: seq<Byte>)
    requires |a| == |c|
    ensures a + b == c + d <==> a == c && b == d
  {
    assert (a + b)[..|a|] == a && (a + b)[|a|..] == b;
    assert (c + d)[..|c|] == c && (c + d)[|c|..] == d;
  }

  /** A file is written right eagerly exactly when it does not lie over a longer one and the
      old file holds every reused chunk where the new one has it. */
  lemma {:induction false} EagerRightExactly(store: Store, tree: Tree, a: Asset)
    requires Described(store, a)
    ensures EagerBytes(store, tree, a) == FileContent(store, a) <==>
            |OldFile(tree, a)| <= a.size && AllInPlace(store, tree, a)
  {
    var base, n := Extended(OldFile(tree, a), a.size), |a.chunks|;
    var data := Overlaid(store, base, a, n);
    StartsAreLengths(store, a, n);
    OverlaidLength(store, base, a, n);
    ContentByRanges(store, a, data, n);
    hide Overlaid, Content, RowStart, Extended;
    assert |data| == a.size ==> data[..a.size] == data;
    forall c | 0 <= c < n
      ensures RowHolds(store, data, a, c) <==> IsDownloaded(a.chunks[c]) || LiesInPlace(store, tree, a, c)
    {
      OverlaidRange(store, base, a, n, c);
    }
  }

  lemma {:induction false} OverlaidLength(store: Store, base: seq<Byte>, a: Asset, n: nat)
    requires Described(store, a) && |base| >= a.size && n <= |a.chunks|
    ensures |Overlaid(store, base, a, n)| == |base|
  {
    if |a.chunks| > 0 {
      OverlaidRange(store, base, a, n, 0);
    }
  }

  /** Pieces of the right sizes make the content exactly when every reused one is its chunk. */
  lemma {:induction false} AssembledByPieces(store: Store, tree: Tree, a: Asset, n: nat)
    requires Described(store, a) && n <= |a.chunks|
    requires forall c :: 0 <= c < n && IsReused(a, c) ==> a.name in tree && !EndsEarly(tree, a, c)
    ensures |AssembledBytes(store, tree, a, n)| == RowStart(a, n)
    ensures AssembledBytes(store, tree, a, n) == Content(store, a, n) <==>
            forall c :: 0 <= c < n && IsReused(a, c) ==> ReadsRight(store, tree, a, c)
  {
    hide Content, OldBytes;
    NoContent(store, a);
    if n > 0 {
      hide AssembledBytes;
      NextAssembled(store, tree, a, n - 1);
      NextContent(store, a, n - 1);
      StartsAreLengths(store, a, n - 1);
      RowFits(store, a, n - 1);
      hide RowStart, Described;
      AssembledByPieces(store, tree, a, n - 1);
      var c := a.chunks[n - 1];
      var piece :=
        if IsReused(a, n - 1) then OldBytes(OldFile(tree, a), c.oldOffset, c.sizeDecompressed) else store[c.decompressedHash];
      JoinedExactly(AssembledBytes(store, tree, a, n - 1), piece, Content(store, a, n - 1), store[c.decompressedHash]);
    }
  }

  /** The pieces are all there and make the content exactly when every reused row reads its
      own chunk. */
  lemma {:induction false} PiecesRightExactly(store: Store, tree: Tree, a: Asset)
    requires Described(store, a)
    ensures AllThere(tree, a) && AssembledBytes(store, tree, a, |a.chunks|) == FileContent(store, a) <==>
            AllReadRight(store, tree, a)
  {
    if AllThere(tree, a) {
      AssembledByPieces(store, tree, a, |a.chunks|);
    } else {
      var c :| 0 <= c < |a.chunks| && IsReused(a, c) && (a.name !in tree || EndsEarly(tree, a, c));
      assert !ReadsRight(store, tree, a, c);
    }
  }

  // ---------------------------------------------------------------------------
  // Reused ranges
  // ---------------------------------------------------------------------------

  lemma {:induction false} ContentPrefix(store: Store, a: Asset, m: nat, n: nat)
    requires HasContents(store, a) && m <= n <= |a.chunks|
    ensures Content(store, a, m) <= Content(store, a, n)
  {
    if m < n {
      ContentPrefix(store, a, m, n - 1);
    }
  }

  /** The range of a chunk in its file is the chunk's content. */
  lemma {:induction false} RangeIsChunk(store: Store, a: Asset, c: nat)
    requires Described(store, a) && c < |a.chunks|
    ensures var chunk := a.chunks[c];
            OldBytes(FileContent(store, a), chunk.fileOffset, chunk.sizeDecompressed) == store[chunk.decompressedHash]
  {
    hide Content;
    ContentPrefix(store, a, c + 1, |a.chunks|);
    var whole, at, bytes := FileContent(store, a), a.chunks[c].fileOffset, store[a.chunks[c].decompressedHash];
    NextContent(store, a, c);
    PrefixSlice(whole, Content(store, a, c), bytes);
  }

  lemma {:induction false} NextContent(store: Store, a: Asset, c: nat)
    requires HasContents(store, a) && c < |a.chunks|
    ensures Content(store, a, c + 1) == Content(store, a, c) + store[a.chunks[c].decompressedHash]
  {
  }

  lemma {:induction false} NoContent(store: Store, a: Asset)
    requires HasContents(store, a)
    ensures Content(store, a, 0) == []
  {
  }

  lemma {:induction false} PrefixSlice(whole: seq<Byte>, before: seq<Byte>, bytes: seq<Byte>)
    requires before + bytes <= whole
    ensures whole[|before|..|before| + |bytes|] == bytes
  {
    assert whole[..|before| + |bytes|] == before + bytes;
    assert whole[|before|..|before| + |bytes|] == whole[..|before| + |bytes|][|before|..];
  }

  /** The old file behind an entry that survived the exclusion is on disk, whole. */
  lemma {:induction false} SourceIsIntact(
      store: Store, before: seq<Asset>, after: seq<Asset>, tree: Tree, disk: Disk, key: (string, string))
    returns (o: Asset, k: nat)
    requires Setting(store, before, after, tree) && SizesOf(tree, disk)
    requires key in Without(Naive(before, |before|), CorruptedNames(before, disk))
    ensures Described(store, o) && k < |o.chunks|
    ensures key == (o.name, o.chunks[k].decompressedHash)
    ensures Without(Naive(before, |before|), CorruptedNames(before, disk))[key] == o.chunks[k].fileOffset
    ensures key.0 in tree && tree[key.0] == FileContent(store, o)
  {
    var f;
    f, k := EntrySource(before, |before|, key);
    o := before[f];
    assert o in before + after;
    hide Naive, Described;
    assert o.name !in CorruptedNames(before, disk);
  }

  /** A reused row reads its own content out of the old file. */
  lemma {:induction false} ReusedBytes(
      store: Store, before: seq<Asset>, after: seq<Asset>, tree: Tree, disk: Disk, naive: Offsets, a: Asset, c: nat)
    requires Setting(store, before, after, tree) && SizesOf(tree, disk)
    requires naive == Without(Naive(before, |before|), CorruptedNames(before, disk))
    requires Described(store, a) && c < |a.chunks|
    requires NaiveOffset(naive, a.name, a.chunks[c].decompressedHash) >= 0
    ensures a.name in tree
    ensures OldBytes(tree[a.name], NaiveOffset(naive, a.name, a.chunks[c].decompressedHash), a.chunks[c].sizeDecompressed)
            == store[a.chunks[c].decompressedHash]
  {
    hide Naive, Without, CorruptedNames, Setting, SizesOf, OldBytes, FileContent, Content;
    var o, k := SourceIsIntact(store, before, after, tree, disk, (a.name, a.chunks[c].decompressedHash));
    RangeIsChunk(store, o, k);
    assert o.chunks[k].sizeDecompressed == a.chunks[c].sizeDecompressed;
  }

  /** One more chunk: the same bytes from either source. */
  lemma {:induction false} NextBytes(
      store: Store, before: seq<Asset>, after: seq<Asset>, tree: Tree, disk: Disk, naive: Offsets, a: Asset, c: nat)
    requires Setting(store, before, after, tree) && SizesOf(tree, disk)
    requires naive == Without(Naive(before, |before|), CorruptedNames(before, disk))
    requires Described(store, a) && c < |a.chunks|
    ensures var p := AssignedFile(naive, a);
            && HasContents(store, p)
            && AssembledBytes(store, tree, p, c + 1) ==
               AssembledBytes(store, tree, p, c) + store[a.chunks[c].decompressedHash]
  {
    hide Naive, Without, CorruptedNames, Setting, SizesOf, OldBytes, FileContent, Content, AssembledBytes, NaiveOffset;
    var p := AssignedFile(naive, a);
    NextAssembled(store, tree, p, c);
    if p.chunks[c].oldOffset >= 0 {
      ReusedBytes(store, before, after, tree, disk, naive, a, c);
    }
  }

  /** With the plan's offsets assembly yields exactly the new content. */
  lemma {:induction false} AssemblyYieldsContent(
      store: Store, before: seq<Asset>, after: seq<Asset>, tree: Tree, disk: Disk, naive: Offsets, a: Asset, n: nat)
    requires Setting(store, before, after, tree) && SizesOf(tree, disk)
    requires naive == Without(Naive(before, |before|), CorruptedNames(before, disk))
    requires Described(store, a) && n <= |a.chunks|
    ensures var p := AssignedFile(naive, a); HasContents(store, p) && AssembledBytes(store, tree, p, n) == Content(store, a, n)
  {
    hide Naive, Without, CorruptedNames, Setting, SizesOf, OldBytes, NaiveOffset;
    if n > 0 {
      AssemblyYieldsContent(store, before, after, tree, disk, naive, a, n - 1);
      NextBytes(store, before, after, tree, disk, naive, a, n - 1);
      NextContent(store, a, n - 1);
      hide AssembledBytes, Content, AssignedFile;
    }
  }

  lemma {:induction false} NextAssembled(store: Store, tree: Tree, a: Asset, n: nat)
    requires HasContents(store, a) && n < |a.chunks|
    ensures var c := a.chunks[n];
            AssembledBytes(store, tree, a, n + 1) == AssembledBytes(store, tree, a, n) +
            if c.oldOffset >= 0
            then OldBytes(OldFile(tree, a), c.oldOffset, c.sizeDecompressed)
            else store[c.decompressedHash]
  {
  }

  // ---------------------------------------------------------------------------
  // The plan of one category
  // ---------------------------------------------------------------------------

  /** The plan that the installer follows for one category. */
  ghost function Plan(before: seq<Asset>, after: seq<Asset>, disk: Disk): seq<Asset> {
    var bad := CorruptedNames(before, disk);
    Assigned(Without(Naive(before, |before|), bad), DiffFiles(after, OldMd5(before, |before|) - bad))
  }

  lemma {:induction false} DiffIsUnique(after: seq<Asset>, oldMd5: map<string, string>)
    requires UniqueFiles(after)
    ensures UniqueFiles(DiffFiles(after, oldMd5))
  {
    if after != [] {
      var init, last := after[..|after| - 1], after[|after| - 1];
      DiffIsUnique(init, oldMd5);
      var d := DiffFiles(init, oldMd5);
      forall i | 0 <= i < |d| && !IsDirectory(d[i]) && !IsDirectory(last) ensures d[i].name != last.name {
        assert d[i] in d && d[i] in init;
      }
    }
  }

  /** A file that the plan leaves alone is on disk with the new content. */
  lemma {:induction false} KeptFilesAreRight(
      store: Store, before: seq<Asset>, after: seq<Asset>, tree: Tree, disk: Disk, a: Asset)
    requires Setting(store, before, after, tree) && SizesOf(tree, disk)
    requires a in after && !IsDirectory(a)
    requires !Changed(a, OldMd5(before, |before|) - CorruptedNames(before, disk))
    ensures HasContents(store, a) && a.name in tree && tree[a.name] == FileContent(store, a)
  {
    OldMd5Source(before, |before|, a.name);
    var o :| o in before && !IsDirectory(o) && o.name == a.name && o.md5 == OldMd5(before, |before|)[a.name];
    assert o in before + after && a in before + after;
    assert o.name !in CorruptedNames(before, disk);
    hide Content;
  }

  lemma {:induction false} PlanParts(before: seq<Asset>, after: seq<Asset>, disk: Disk)
    requires UniqueFiles(after)
    ensures var bad := CorruptedNames(before, disk);
            var naive, diff := Without(Naive(before, |before|), bad), DiffFiles(after, OldMd5(before, |before|) - bad);
            var plan := Plan(before, after, disk);
            && |plan| == |diff| && UniqueFiles(plan)
            && forall i :: 0 <= i < |plan| ==> plan[i] == AssignedFile(naive, diff[i]) && diff[i] in after
  {
    hide Naive, CorruptedNames, Without, Changed;
    var bad := CorruptedNames(before, disk);
    var diff := DiffFiles(after, OldMd5(before, |before|) - bad);
    DiffIsUnique(after, OldMd5(before, |before|) - bad);
    forall i | 0 <= i < |diff| ensures diff[i] in after {
      assert diff[i] in diff;
    }
  }

  /** An old file of the wrong size is never kept and never a source: its new version is
      planned, and all its chunks are downloaded. */
  lemma {:induction false} CorruptedFilesAreReplaced(before: seq<Asset>, after: seq<Asset>, disk: Disk, o: Asset, a: Asset)
    requires UniqueFiles(after) && o in before && !IsDirectory(o) && IsCorrupted(o, disk)
    requires a in after && !IsDirectory(a) && a.name == o.name
    ensures exists i :: 0 <= i < |Plan(before, after, disk)| && Plan(before, after, disk)[i].name == a.name &&
              forall c :: 0 <= c < |Plan(before, after, disk)[i].chunks| ==>
                IsDownloaded(Plan(before, after, disk)[i].chunks[c])
  {
    var bad := CorruptedNames(before, disk);
    assert a.name in bad;
    var naive, oldMd5 := Without(Naive(before, |before|), bad), OldMd5(before, |before|) - bad;
    var diff := DiffFiles(after, oldMd5);
    assert Changed(a, oldMd5) && a in diff;
    var i :| 0 <= i < |diff| && diff[i] == a;
    PlanParts(before, after, disk);
    var p := Plan(before, after, disk)[i];
    hide Naive, OldMd5, Plan;
    forall c | 0 <= c < |p.chunks| ensures IsDownloaded(p.chunks[c]) {
      assert p.chunks[c] == AssignedChunk(naive, a.name, a.chunks[c]);
    }
  }
}
