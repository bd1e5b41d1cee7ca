/** The columnar manifest: every field of every asset and chunk row reads back as it
    was, as far as the column widths allow, and the three ways of asking for a
    chunk's offset in its file agree. */
module CompactManifest {
  import opened Manifest
  import opened StringArena

  /** The columns. Rows of all files lie one after another; `chunkStart[f]` is the first
      row of file `f`. */
  datatype Compact = Compact(
    data: string,
    offsets: seq<nat>,
    fileName: seq<nat>,
    fileHash: seq<nat>,
    fileType: seq<nat>,
    fileSize: seq<nat>,
    chunkStart: seq<nat>,
    chunkName: seq<nat>,
    chunkDecompressedHash: seq<nat>,
    chunkCompressedHash: seq<nat>,
    chunkSize: seq<nat>,
    chunkSizeDecompressed: seq<nat>,
    chunkOldOffset: seq<int>
  )

  /** Row `c` of file `f` in the global order. */
  lemma {:induction false} RowOfFile(files: seq<Asset>, f: nat, c: nat)
    requires f < |files| && c < |files[f].chunks|
    ensures FirstRow(files, f) + c < |Rows(files, |files|)|
    ensures Rows(files, |files|)[FirstRow(files, f) + c] == files[f].chunks[c]
  {
    FirstRowGrows(files, f + 1, |files|);
    var r := FirstRow(files, f) + c;
    assert Rows(files, |files|)[r] == Rows(files, |files|)[..FirstRow(files, f + 1)][r];
  }

  // ---------------------------------------------------------------------------
  // Building
  // ---------------------------------------------------------------------------

  function ChunkBytes(chunks: seq<Chunk>, n: nat): nat
    requires n <= |chunks|
  {
    if n == 0 then 0
    else
      var c := chunks[n - 1];
      ChunkBytes(chunks, n - 1) + |c.name| + |c.decompressedHash| + |c.compressedHash|
  }

  /** Bytes of all texts of the first `n` files. */
  function TextBytes(files: seq<Asset>, n: nat): nat
    requires n <= |files|
  {
    if n == 0 then 0
    else
      var a := files[n - 1];
      TextBytes(files, n - 1) + |a.name| + |a.md5| + ChunkBytes(a.chunks, |a.chunks|)
  }

  lemma {:induction false} TextBytesGrow(files: seq<Asset>, m: nat, n: nat)
    requires m <= n <= |files|
    ensures TextBytes(files, m) <= TextBytes(files, n)
  {
    if m < n {
      TextBytesGrow(files, m, n - 1);
    }
  }

  lemma {:induction false} ChunkBytesGrow(chunks: seq<Chunk>, m: nat, n: nat)
    requires m <= n <= |chunks|
    ensures ChunkBytes(chunks, m) <= ChunkBytes(chunks, n)
  {
    if m < n {
      ChunkBytesGrow(chunks, m, n - 1);
    }
  }

  /** The texts and their number fit the 32-bit offsets and indices. */
  ghost predicate Fits(files: seq<Asset>) {
    TextBytes(files, |files|) < U32 && 2 * |files| + 3 * FirstRow(files, |files|) < U32
  }

  ghost predicate Reads(strings: seq<string>, idx: nat, text: string) {
    idx < |strings| && strings[idx] == text
  }

  ghost predicate FileColumns(m: Compact, strings: seq<string>, files: seq<Asset>, n: nat)
    requires n <= |files|
  {
    && |m.fileName| == |m.fileHash| == |m.fileType| == |m.fileSize| == |m.chunkStart| == n
    && forall f: nat :: f < n ==> FileFields(m, strings, files, f)
  }

  ghost predicate FileFields(m: Compact, strings: seq<string>, files: seq<Asset>, f: nat)
    requires f < |files| && f < |m.fileName| == |m.fileHash| == |m.fileType| == |m.fileSize| == |m.chunkStart|
  {
    && Reads(strings, m.fileName[f], files[f].name)
    && Reads(strings, m.fileHash[f], files[f].md5)
    && m.fileType[f] == files[f].kind % 256
    && m.fileSize[f] == files[f].size
    && m.chunkStart[f] == FirstRow(files, f)
  }

  ghost predicate ChunkColumns(m: Compact, strings: seq<string>, rows: seq<Chunk>) {
    && |m.chunkName| == |m.chunkDecompressedHash| == |m.chunkCompressedHash| == |m.chunkSize|
       == |m.chunkSizeDecompressed| == |m.chunkOldOffset| == |rows|
    && forall r: nat :: r < |rows| ==> ChunkFields(m, strings, rows[r], r)
  }

  ghost predicate ChunkFields(m: Compact, strings: seq<string>, chunk: Chunk, r: nat)
    requires r < |m.chunkName| == |m.chunkDecompressedHash| == |m.chunkCompressedHash| == |m.chunkSize|
    requires |m.chunkName| == |m.chunkSizeDecompressed| == |m.chunkOldOffset|
  {
    && Reads(strings, m.chunkName[r], chunk.name)
    && Reads(strings, m.chunkDecompressedHash[r], chunk.decompressedHash)
    && Reads(strings, m.chunkCompressedHash[r], chunk.compressedHash)
    && m.chunkSize[r] == Narrow32(chunk.size)
    && m.chunkSizeDecompressed[r] == Narrow32(chunk.sizeDecompressed)
    && m.chunkOldOffset[r] == chunk.oldOffset
  }

  /** `m` is the columnar form of `files`. */
  ghost predicate Built(m: Compact, strings: seq<string>, files: seq<Asset>) {
    && Represents(m.data, m.offsets, strings)
    && FirstRow(files, |files|) < U32
    && FileColumns(m, strings, files, |files|)
    && ChunkColumns(m, strings, Rows(files, |files|))
  }

  lemma {:induction false} ColumnsSurvive(m: Compact, strings: seq<string>, more: seq<string>, files: seq<Asset>, n: nat, rows: seq<Chunk>)
    requires n <= |files| && strings <= more
    requires FileColumns(m, strings, files, n) && ChunkColumns(m, strings, rows)
    ensures FileColumns(m, more, files, n) && ChunkColumns(m, more, rows)
  {
    hide FirstRow;
    forall f: nat | f < n ensures FileFields(m, more, files, f) {
      assert FileFields(m, strings, files, f);
    }
    forall r: nat | r < |rows| ensures ChunkFields(m, more, rows[r], r) {
      assert ChunkFields(m, strings, rows[r], r);
    }
  }

  function WithChunk(m: Compact, name: nat, decompressed: nat, compressed: nat, chunk: Chunk): Compact {
    m.(chunkName := m.chunkName + [name],
       chunkDecompressedHash := m.chunkDecompressedHash + [decompressed],
       chunkCompressedHash := m.chunkCompressedHash + [compressed],
       chunkSize := m.chunkSize + [Narrow32(chunk.size)],
       chunkSizeDecompressed := m.chunkSizeDecompressed + [Narrow32(chunk.sizeDecompressed)],
       chunkOldOffset := m.chunkOldOffset + [chunk.oldOffset])
  }

  function WithFile(m: Compact, name: nat, md5: nat, file: Asset): Compact {
    m.(fileName := m.fileName + [name],
       fileHash := m.fileHash + [md5],
       fileType := m.fileType + [file.kind % 256],
       fileSize := m.fileSize + [file.size],
       chunkStart := m.chunkStart + [Narrow32(|m.chunkName|)])
  }

  lemma {:induction false} ChunkAppended(m: Compact, strings: seq<string>, files: seq<Asset>, n: nat, rows: seq<Chunk>,
                      name: nat, decompressed: nat, compressed: nat, chunk: Chunk)
    requires n <= |files| && FileColumns(m, strings, files, n) && ChunkColumns(m, strings, rows)
    requires Reads(strings, name, chunk.name) && Reads(strings, decompressed, chunk.decompressedHash)
    requires Reads(strings, compressed, chunk.compressedHash)
    ensures var m' := WithChunk(m, name, decompressed, compressed, chunk);
            FileColumns(m', strings, files, n) && ChunkColumns(m', strings, rows + [chunk])
  {
    hide FirstRow, Reads;
    var m' := WithChunk(m, name, decompressed, compressed, chunk);
    forall f: nat | f < n ensures FileFields(m', strings, files, f) {
      assert FileFields(m, strings, files, f);
    }
    forall r: nat | r < |rows| + 1 ensures ChunkFields(m', strings, (rows + [chunk])[r], r) {
      if r < |rows| {
        assert ChunkFields(m, strings, rows[r], r);
      }
    }
  }

  lemma {:induction false} FileAppended(m: Compact, strings: seq<string>, files: seq<Asset>, n: nat, rows: seq<Chunk>, name: nat, md5: nat)
    requires n < |files| && FileColumns(m, strings, files, n) && ChunkColumns(m, strings, rows)
    requires |rows| == FirstRow(files, n) < U32
    requires Reads(strings, name, files[n].name) && Reads(strings, md5, files[n].md5)
    ensures var m' := WithFile(m, name, md5, files[n]);
            FileColumns(m', strings, files, n + 1) && ChunkColumns(m', strings, rows)
  {
    hide FirstRow, Reads;
    var m' := WithFile(m, name, md5, files[n]);
    forall f: nat | f < n + 1 ensures FileFields(m', strings, files, f) {
      if f < n {
        assert FileFields(m, strings, files, f);
      }
    }
    forall r: nat | r < |rows| ensures ChunkFields(m', strings, rows[r], r) {
      assert ChunkFields(m, strings, rows[r], r);
    }
  }

  /** Append one chunk row to the columns. */
  method PushChunk(
      arena: Arena, hash: string -> nat, m: Compact, chunk: Chunk,
      ghost files: seq<Asset>, ghost n: nat, ghost rows: seq<Chunk>) returns (m': Compact)
    requires arena.Valid() && n <= |files|
    requires |arena.data| + |chunk.name| + |chunk.decompressedHash| + |chunk.compressedHash| < U32
    requires |arena.offsets| + 3 < U32
    requires FileColumns(m, arena.strings, files, n) && ChunkColumns(m, arena.strings, rows)
    modifies arena
    ensures arena.Valid() && |arena.offsets| <= |old(arena.offsets)| + 3
    ensures |arena.data| <= |old(arena.data)| + |chunk.name| + |chunk.decompressedHash| + |chunk.compressedHash|
    ensures FileColumns(m', arena.strings, files, n) && ChunkColumns(m', arena.strings, rows + [chunk])
  {
    hide FileColumns, ChunkColumns, WithChunk;
    ArenaSizes(arena);
    var name := arena.Intern(chunk.name);
    ArenaSizes(arena);
    var decompressed := arena.InternDedup(hash, chunk.decompressedHash);
    ArenaSizes(arena);
    var compressed := arena.InternDedup(hash, chunk.compressedHash);
    ArenaSizes(arena);
    ColumnsSurvive(m, old(arena.strings), arena.strings, files, n, rows);
    ChunkAppended(m, arena.strings, files, n, rows, name, decompressed, compressed, chunk);
    m' := WithChunk(m, name, decompressed, compressed, chunk);
  }

  lemma {:induction false} ArenaSizes(arena: Arena)
    requires arena.Valid()
    ensures |arena.offsets| == |arena.strings|
  {
  }

  /** Append one file's own fields to the columns. */
  method PushFile(
      arena: Arena, hash: string -> nat, m: Compact, file: Asset,
      ghost files: seq<Asset>, ghost n: nat, ghost rows: seq<Chunk>) returns (m': Compact)
    requires arena.Valid() && n < |files| && file == files[n] && |rows| == FirstRow(files, n) < U32
    requires |arena.data| + |file.name| + |file.md5| < U32 && |arena.offsets| + 2 < U32
    requires FileColumns(m, arena.strings, files, n) && ChunkColumns(m, arena.strings, rows)
    modifies arena
    ensures arena.Valid() && |arena.offsets| <= |old(arena.offsets)| + 2
    ensures |arena.data| <= |old(arena.data)| + |file.name| + |file.md5|
    ensures FileColumns(m', arena.strings, files, n + 1) && ChunkColumns(m', arena.strings, rows)
  {
    hide FileColumns, ChunkColumns, WithFile, FirstRow;
    ArenaSizes(arena);
    var name := arena.Intern(file.name);
    ArenaSizes(arena);
    var md5 := arena.InternDedup(hash, file.md5);
    ArenaSizes(arena);
    ColumnsSurvive(m, old(arena.strings), arena.strings, files, n, rows);
    FileAppended(m, arena.strings, files, n, rows, name, md5);
    m' := WithFile(m, name, md5, file);
  }

  method PushChunks(
      arena: Arena, hash: string -> nat, m: Compact, chunks: seq<Chunk>,
      ghost files: seq<Asset>, ghost n: nat, ghost rows: seq<Chunk>) returns (m': Compact)
    requires arena.Valid() && n <= |files|
    requires |arena.data| + ChunkBytes(chunks, |chunks|) < U32 && |arena.offsets| + 3 * |chunks| < U32
    requires FileColumns(m, arena.strings, files, n) && ChunkColumns(m, arena.strings, rows)
    modifies arena
    ensures arena.Valid() && |arena.offsets| <= |old(arena.offsets)| + 3 * |chunks|
    ensures |arena.data| <= |old(arena.data)| + ChunkBytes(chunks, |chunks|)
    ensures FileColumns(m', arena.strings, files, n) && ChunkColumns(m', arena.strings, rows + chunks)
  {
    hide FileColumns, ChunkColumns;
    m' := m;
    assert rows + chunks[..0] == rows;
    for c := 0 to |chunks|
      invariant arena.Valid()
      invariant |arena.data| <= |old(arena.data)| + ChunkBytes(chunks, c)
      invariant |arena.offsets| <= |old(arena.offsets)| + 3 * c
      invariant FileColumns(m', arena.strings, files, n)
      invariant ChunkColumns(m', arena.strings, rows + chunks[..c])
    {
      ChunkBytesGrow(chunks, c + 1, |chunks|);
      m' := PushChunk(arena, hash, m', chunks[c], files, n, rows + chunks[..c]);
      assert rows + chunks[..c] + [chunks[c]] == rows + chunks[..c + 1];
    }
    assert chunks[..|chunks|] == chunks;
  }

  lemma {:induction false} RoomForFile(files: seq<Asset>, f: nat)
    requires Fits(files) && f < |files|
    ensures TextBytes(files, f + 1) < U32 && 2 * (f + 1) + 3 * FirstRow(files, f + 1) < U32
    ensures TextBytes(files, f + 1) ==
            TextBytes(files, f) + |files[f].name| + |files[f].md5| + ChunkBytes(files[f].chunks, |files[f].chunks|)
    ensures FirstRow(files, f + 1) == FirstRow(files, f) + |files[f].chunks|
    ensures Rows(files, f + 1) == Rows(files, f) + files[f].chunks
  {
    TextBytesGrow(files, f + 1, |files|);
    FirstRowGrows(files, f + 1, |files|);
  }

  lemma {:induction false} ArenaTaken(m: Compact, strings: seq<string>, files: seq<Asset>, n: nat, rows: seq<Chunk>, data: string, offsets: seq<nat>)
    requires n <= |files| && FileColumns(m, strings, files, n) && ChunkColumns(m, strings, rows)
    ensures var m' := m.(data := data, offsets := offsets);
            FileColumns(m', strings, files, n) && ChunkColumns(m', strings, rows)
  {
    hide FirstRow, Reads;
    var m' := m.(data := data, offsets := offsets);
    forall f: nat | f < n ensures FileFields(m', strings, files, f) {
      assert FileFields(m, strings, files, f);
    }
    forall r: nat | r < |rows| ensures ChunkFields(m', strings, rows[r], r) {
      assert ChunkFields(m, strings, rows[r], r);
    }
  }

  /** `m` is a columnar form of `files` over some arena. */
  ghost predicate IsCompact(m: Compact, files: seq<Asset>) {
    exists strings :: Built(m, strings, files)
  }

  method FromAssets(files: seq<Asset>, hash: string -> nat) returns (m: Compact)
    requires Fits(files)
    ensures IsCompact(m, files)
  {
    var arena := new Arena();
    m := Compact("", [], [], [], [], [], [], [], [], [], [], [], []);
    for f := 0 to |files|
      invariant arena.Valid() && fresh(arena)
      invariant |arena.data| <= TextBytes(files, f) && |arena.offsets| <= 2 * f + 3 * FirstRow(files, f)
      invariant FileColumns(m, arena.strings, files, f) && ChunkColumns(m, arena.strings, Rows(files, f))
    {
      hide FileColumns, ChunkColumns, TextBytes, ChunkBytes, FirstRow, Rows;
      RoomForFile(files, f);
      ghost var rows := Rows(files, f);
      m := PushFile(arena, hash, m, files[f], files, f, rows);
      m := PushChunks(arena, hash, m, files[f].chunks, files, f + 1, rows);
    }
    ArenaTaken(m, arena.strings, files, |files|, Rows(files, |files|), arena.data, arena.offsets);
    m := m.(data := arena.data, offsets := arena.offsets);
    assert Built(m, arena.strings, files);
  }

  // ---------------------------------------------------------------------------
  // Accessors
  // ---------------------------------------------------------------------------

  datatype ChunkView = ChunkView(
    name: string, decompressedHash: string, size: nat, sizeDecompressed: nat, compressedHash: string, oldOffset: int)

  ghost predicate HasFile(m: Compact, f: nat) {
    && f < |m.fileName| == |m.fileHash| == |m.fileType| == |m.fileSize| == |m.chunkStart|
    && CanGet(m.data, m.offsets, m.fileName[f]) && CanGet(m.data, m.offsets, m.fileHash[f])
  }

  ghost predicate HasChunk(m: Compact, r: nat) {
    && r < |m.chunkName| == |m.chunkDecompressedHash| == |m.chunkCompressedHash|
    && |m.chunkName| == |m.chunkSize| == |m.chunkSizeDecompressed| == |m.chunkOldOffset|
    && CanGet(m.data, m.offsets, m.chunkName[r]) && CanGet(m.data, m.offsets, m.chunkDecompressedHash[r])
    && CanGet(m.data, m.offsets, m.chunkCompressedHash[r])
  }

  ghost function FileName(m: Compact, f: nat): string
    requires HasFile(m, f)
  {
    Get(m.data, m.offsets, m.fileName[f])
  }

  ghost function FileHash(m: Compact, f: nat): string
    requires HasFile(m, f)
  {
    Get(m.data, m.offsets, m.fileHash[f])
  }

  ghost predicate CompactIsDirectory(m: Compact, f: nat)
    requires HasFile(m, f)
  {
    m.fileType[f] != 0 || FileHash(m, f) == ""
  }

  ghost function ChunkAt(m: Compact, r: nat): ChunkView
    requires HasChunk(m, r)
  {
    ChunkView(
      Get(m.data, m.offsets, m.chunkName[r]), Get(m.data, m.offsets, m.chunkDecompressedHash[r]),
      m.chunkSize[r], m.chunkSizeDecompressed[r],
      Get(m.data, m.offsets, m.chunkCompressedHash[r]), m.chunkOldOffset[r])
  }

  /** First row of a file and the first row after it. */
  function ChunkRange(m: Compact, f: nat): (r: (nat, nat))
    requires f < |m.chunkStart|
  {
    (m.chunkStart[f], if f + 1 < |m.chunkStart| then m.chunkStart[f + 1] else Narrow32(|m.chunkName|))
  }

  function ViewOf(c: Chunk): ChunkView {
    ChunkView(c.name, c.decompressedHash, c.size, c.sizeDecompressed, c.compressedHash, c.oldOffset)
  }

  /** A file's own fields read back; its classification differs exactly when its type code
      is a positive multiple of 256 and its hash is not empty. */
  lemma {:induction false} FilesReadBack(m: Compact, strings: seq<string>, files: seq<Asset>, f: nat)
    requires Built(m, strings, files) && f < |files|
    ensures HasFile(m, f)
    ensures FileName(m, f) == files[f].name && FileHash(m, f) == files[f].md5 && m.fileSize[f] == files[f].size
    ensures (CompactIsDirectory(m, f) <==> IsDirectory(files[f])) <==>
            !(files[f].kind > 0 && files[f].kind % 256 == 0 && files[f].md5 != "")
  {
    assert FileFields(m, strings, files, f);
    GetReturnsIt(m.data, m.offsets, strings, m.fileName[f]);
    GetReturnsIt(m.data, m.offsets, strings, m.fileHash[f]);
  }

  lemma {:induction false} StartOf(m: Compact, strings: seq<string>, files: seq<Asset>, f: nat)
    requires Built(m, strings, files) && f < |files|
    ensures |m.chunkStart| == |files| && m.chunkStart[f] == FirstRow(files, f)
    ensures |m.chunkName| == FirstRow(files, |files|) < U32
  {
    hide ChunkFields, Represents, Reads, FirstRow, Rows;
    assert FileFields(m, strings, files, f);
  }

  /** The ranges partition the rows, file by file. */
  lemma {:induction false} RangesPartition(m: Compact, strings: seq<string>, files: seq<Asset>, f: nat)
    requires Built(m, strings, files) && f < |files|
    ensures f < |m.chunkStart| && ChunkRange(m, f) == (FirstRow(files, f), FirstRow(files, f) + |files[f].chunks|)
    ensures FirstRow(files, 0) == 0 && FirstRow(files, |files|) == |m.chunkName|
  {
    NextStart(files, f);
    hide Built, FirstRow, Narrow32;
    StartOf(m, strings, files, f);
    if f + 1 < |files| {
      StartOf(m, strings, files, f + 1);
    }
  }

  lemma {:induction false} NextStart(files: seq<Asset>, f: nat)
    requires f < |files|
    ensures FirstRow(files, 0) == 0 && FirstRow(files, f + 1) == FirstRow(files, f) + |files[f].chunks|
  {
  }

  lemma {:induction false} FieldsOfRow(m: Compact, strings: seq<string>, files: seq<Asset>, f: nat, c: nat)
    requires Built(m, strings, files) && f < |files| && c < |files[f].chunks|
    ensures var r := FirstRow(files, f) + c;
            && r < |m.chunkName| == |m.chunkDecompressedHash| == |m.chunkCompressedHash|
            && |m.chunkName| == |m.chunkSize| == |m.chunkSizeDecompressed| == |m.chunkOldOffset|
            && ChunkFields(m, strings, files[f].chunks[c], r)
  {
    hide Represents, Reads, FileColumns, Rows;
    var r := FirstRow(files, f) + c;
    RowOfFile(files, f, c);
    assert ChunkFields(m, strings, Rows(files, |files|)[r], r);
  }

  /** A row reads back unchanged exactly when its two sizes fit 32 bits. */
  lemma {:induction false} ChunksReadBackExactly(m: Compact, strings: seq<string>, files: seq<Asset>, f: nat, c: nat)
    requires Built(m, strings, files) && f < |files| && c < |files[f].chunks|
    ensures var r, chunk := FirstRow(files, f) + c, files[f].chunks[c];
            && HasChunk(m, r)
            && (ChunkAt(m, r) == ViewOf(chunk) <==> chunk.size < U32 && chunk.sizeDecompressed < U32)
  {
    var r := FirstRow(files, f) + c;
    FieldsOfRow(m, strings, files, f, c);
    hide FileColumns, ChunkColumns, FirstRow, Rows;
    GetReturnsIt(m.data, m.offsets, strings, m.chunkName[r]);
    GetReturnsIt(m.data, m.offsets, strings, m.chunkDecompressedHash[r]);
    GetReturnsIt(m.data, m.offsets, strings, m.chunkCompressedHash[r]);
  }

  // ---------------------------------------------------------------------------
  // Offsets
  // ---------------------------------------------------------------------------

  function SizesBetween(m: Compact, lo: nat, hi: nat): nat
    requires hi <= |m.chunkSizeDecompressed|
    decreases hi
  {
    if hi <= lo then 0 else SizesBetween(m, lo, hi - 1) + m.chunkSizeDecompressed[hi - 1]
  }

  method SumSizes(m: Compact, lo: nat, hi: nat) returns (sum: nat)
    requires hi <= |m.chunkSizeDecompressed|
    ensures sum == SizesBetween(m, lo, hi)
  {
    sum := 0;
    var i := lo;
    while i < hi
      invariant lo <= i && (lo <= hi ==> i <= hi) && (hi < lo ==> i == lo)
      invariant sum == if i <= hi then SizesBetween(m, lo, i) else 0
    {
      sum := sum + m.chunkSizeDecompressed[i];
      i := i + 1;
    }
  }

  /** An answer of a binary search for `row` among the starts: any match, or the last
      start before it; a row before every start counts for the first file. */
  ghost predicate Found(starts: seq<nat>, row: nat, f: nat) {
    && f < |starts|
    && (|| starts[f] == row
        || (starts[f] < row && (f + 1 == |starts| || starts[f + 1] > row))
        || (f == 0 && row < starts[f]))
  }

  ghost predicate Ascending(starts: seq<nat>) {
    forall i, j :: 0 <= i <= j < |starts| ==> starts[i] <= starts[j]
  }

  method FileIdxForChunk(m: Compact, row: nat) returns (f: nat)
    requires Ascending(m.chunkStart) && row < U32
    ensures m.chunkStart != [] ==> Found(m.chunkStart, row, f)
  {
    var lo, hi := 0, |m.chunkStart|;
    while lo < hi
      invariant 0 <= lo <= hi <= |m.chunkStart|
      invariant forall k :: 0 <= k < lo ==> m.chunkStart[k] < row
      invariant forall k :: hi <= k < |m.chunkStart| ==> m.chunkStart[k] > row
    {
      var mid := (lo + hi) / 2;
      if m.chunkStart[mid] == row {
        return mid;
      } else if m.chunkStart[mid] < row {
        lo := mid + 1;
      } else {
        hi := mid;
      }
    }
    f := if lo > 0 then lo - 1 else 0;
  }

  lemma {:induction false} StartsAscend(m: Compact, strings: seq<string>, files: seq<Asset>)
    requires Built(m, strings, files)
    ensures Ascending(m.chunkStart) && (files != [] ==> m.chunkStart[0] == 0)
  {
    hide ChunkFields;
    forall i: nat, j: nat | i <= j < |files| ensures m.chunkStart[i] <= m.chunkStart[j] {
      assert FileFields(m, strings, files, i) && FileFields(m, strings, files, j);
      FirstRowGrows(files, i, j);
    }
    if files != [] {
      assert FileFields(m, strings, files, 0);
    }
  }

  /** Whatever file the search picks, the sizes before the row add up to its offset in the
      file that really owns it: a wrong pick is an empty file at the same place. */
  lemma {:induction false} AnyPickGivesTheOffset(m: Compact, strings: seq<string>, files: seq<Asset>, f: nat, c: nat, pick: nat)
    requires Built(m, strings, files) && f < |files| && c < |files[f].chunks|
    requires Found(m.chunkStart, FirstRow(files, f) + c, pick)
    ensures FirstRow(files, f) + c <= |m.chunkSizeDecompressed|
    ensures SizesBetween(m, m.chunkStart[pick], FirstRow(files, f) + c) ==
            SizesBetween(m, FirstRow(files, f), FirstRow(files, f) + c)
  {
    hide ChunkFields;
    StartsAscend(m, strings, files);
    RowOfFile(files, f, c);
    RangesPartition(m, strings, files, f);
    assert FileFields(m, strings, files, f) && FileFields(m, strings, files, pick);
    if pick < f {
      assert m.chunkStart[pick + 1] <= m.chunkStart[f];
    }
  }

  /** Offset of a row in the file that the search picks. */
  method ChunkFileOffset(
      m: Compact, row: nat, ghost strings: seq<string>, ghost files: seq<Asset>, ghost f: nat, ghost c: nat)
    returns (offset: nat)
    requires Built(m, strings, files) && f < |files| && c < |files[f].chunks| && row == FirstRow(files, f) + c
    ensures row <= |m.chunkSizeDecompressed| && offset == SizesBetween(m, FirstRow(files, f), row)
  {
    StartsAscend(m, strings, files);
    FieldsOfRow(m, strings, files, f, c);
    StartOf(m, strings, files, f);
    hide Built, FirstRow;
    var pick := FileIdxForChunk(m, row);
    AnyPickGivesTheOffset(m, strings, files, f, c, pick);
    var range := ChunkRange(m, pick);
    offset := SumSizes(m, range.0, row);
  }

  /** Offset of the row `c` of file `f`. */
  method FileChunkOffset(m: Compact, f: nat, c: nat, ghost strings: seq<string>, ghost files: seq<Asset>)
    returns (offset: nat)
    requires Built(m, strings, files) && f < |files| && c <= |files[f].chunks|
    ensures FirstRow(files, f) + c <= |m.chunkSizeDecompressed|
    ensures offset == SizesBetween(m, FirstRow(files, f), FirstRow(files, f) + c)
  {
    RangesPartition(m, strings, files, f);
    RangeInside(files, f);
    StartOf(m, strings, files, f);
    var range := ChunkRange(m, f);
    offset := SumSizes(m, range.0, range.0 + c);
  }

  /** Prefix sums over the file's rows. */
  method FileChunkOffsets(m: Compact, strings: seq<string>, files: seq<Asset>, f: nat) returns (offsets: seq<nat>)
    requires Built(m, strings, files) && f < |files|
    ensures |offsets| == |files[f].chunks| && FirstRow(files, f) + |offsets| <= |m.chunkSizeDecompressed|
    ensures forall c :: 0 <= c < |offsets| ==> offsets[c] == SizesBetween(m, FirstRow(files, f), FirstRow(files, f) + c)
  {
    RangesPartition(m, strings, files, f);
    RangeInside(files, f);
    var range := ChunkRange(m, f);
    hide Built, FirstRow;
    offsets := [];
    var acc := 0;
    for row := range.0 to range.1
      invariant |offsets| == row - range.0 && acc == SizesBetween(m, range.0, row)
      invariant forall c :: 0 <= c < |offsets| ==> offsets[c] == SizesBetween(m, range.0, range.0 + c)
    {
      offsets := offsets + [acc];
      acc := acc + m.chunkSizeDecompressed[row];
    }
  }

  lemma {:induction false} RangeInside(files: seq<Asset>, f: nat)
    requires f < |files|
    ensures FirstRow(files, f) + |files[f].chunks| <= FirstRow(files, |files|)
  {
    FirstRowGrows(files, f + 1, |files|);
  }

  function OffsetInFile(a: Asset, c: nat): nat
    requires c <= |a.chunks|
  {
    if c == 0 then 0 else OffsetInFile(a, c - 1) + a.chunks[c - 1].sizeDecompressed
  }

  /** With sizes below the limit, that offset is the sum of the manifest's own sizes. */
  lemma {:induction false} OffsetsAreTheManifests(m: Compact, strings: seq<string>, files: seq<Asset>, f: nat, c: nat)
    requires Built(m, strings, files) && f < |files| && c <= |files[f].chunks|
    requires forall k :: 0 <= k < c ==> files[f].chunks[k].sizeDecompressed < U32
    ensures FirstRow(files, f) + c <= |m.chunkSizeDecompressed|
    ensures SizesBetween(m, FirstRow(files, f), FirstRow(files, f) + c) == OffsetInFile(files[f], c)
  {
    RangeInside(files, f);
    if c > 0 {
      OffsetsAreTheManifests(m, strings, files, f, c - 1);
      FieldsOfRow(m, strings, files, f, c - 1);
    }
  }
}
