/** Planning an update: which files change, which are removed, and where in the old
    file each chunk can be found. Names and hashes are interned to small numbers;
    the result is the one that string keys would give. */
module UpdatePlan {
  import opened Manifest

  const I64: nat := 0x8000_0000_0000_0000

  type Offsets = map<(string, string), nat>
  type Ids = map<string, nat>

  /** Reinterpret 64 bits as signed. */
  function AsI64(x: nat): int {
    if x < I64 then x else x - 2 * I64
  }

  // ---------------------------------------------------------------------------
  // The string-keyed map
  // ---------------------------------------------------------------------------

  function NaiveRows(m: Offsets, a: Asset, n: nat): Offsets
    requires n <= |a.chunks|
  {
    if n == 0 then m
    else NaiveRows(m, a, n - 1)[(a.name, a.chunks[n - 1].decompressedHash) := a.chunks[n - 1].fileOffset]
  }

  /** Offset of every chunk of every old file by asset name and chunk hash; later rows win. */
  function Naive(before: seq<Asset>, n: nat): Offsets
    requires n <= |before|
  {
    if n == 0 then map[]
    else if IsDirectory(before[n - 1]) then Naive(before, n - 1)
    else NaiveRows(Naive(before, n - 1), before[n - 1], |before[n - 1].chunks|)
  }

  ghost predicate IsOldRow(before: seq<Asset>, f: nat, c: nat) {
    f < |before| && !IsDirectory(before[f]) && c < |before[f].chunks|
  }

  ghost function KeyOf(before: seq<Asset>, f: nat, c: nat): (string, string)
    requires IsOldRow(before, f, c)
  {
    (before[f].name, before[f].chunks[c].decompressedHash)
  }

  lemma {:induction false} OtherRowsKeep(m: Offsets, a: Asset, n: nat, key: (string, string))
    requires n <= |a.chunks| && forall d :: 0 <= d < n ==> (a.name, a.chunks[d].decompressedHash) != key
    ensures key in NaiveRows(m, a, n) <==> key in m
    ensures key in m ==> NaiveRows(m, a, n)[key] == m[key]
  {
    if n > 0 {
      OtherRowsKeep(m, a, n - 1, key);
    }
  }

  lemma {:induction false} LastRowOfFile(m: Offsets, a: Asset, n: nat, c: nat)
    requires c < n <= |a.chunks|
    requires forall d :: c < d < n ==> a.chunks[d].decompressedHash != a.chunks[c].decompressedHash
    ensures var key := (a.name, a.chunks[c].decompressedHash);
            key in NaiveRows(m, a, n) && NaiveRows(m, a, n)[key] == a.chunks[c].fileOffset
  {
    if c < n - 1 {
      LastRowOfFile(m, a, n - 1, c);
    }
  }

  /** The map has every name and hash of an old row, with the offset of the last such row. */
  lemma {:induction false} LaterRowsWin(before: seq<Asset>, n: nat, f: nat, c: nat)
    requires f < n <= |before| && IsOldRow(before, f, c)
    requires forall g: nat, d: nat :: IsOldRow(before, g, d) && g < n && (g > f || (g == f && d > c)) ==>
               KeyOf(before, g, d) != KeyOf(before, f, c)
    ensures KeyOf(before, f, c) in Naive(before, n)
    ensures Naive(before, n)[KeyOf(before, f, c)] == before[f].chunks[c].fileOffset
  {
    var a, key := before[n - 1], KeyOf(before, f, c);
    if f < n - 1 {
      LaterRowsWin(before, n - 1, f, c);
      if !IsDirectory(a) {
        forall d: nat | d < |a.chunks| ensures (a.name, a.chunks[d].decompressedHash) != key {
          assert IsOldRow(before, n - 1, d) && KeyOf(before, n - 1, d) != key;
        }
        OtherRowsKeep(Naive(before, n - 1), a, |a.chunks|, key);
      }
    } else {
      forall d: nat | c < d < |a.chunks| ensures a.chunks[d].decompressedHash != a.chunks[c].decompressedHash {
        assert IsOldRow(before, n - 1, d) && KeyOf(before, n - 1, d) != key;
      }
      LastRowOfFile(Naive(before, n - 1), a, |a.chunks|, c);
    }
  }

  lemma {:induction false} RowSource(m: Offsets, a: Asset, n: nat, key: (string, string)) returns (c: nat)
    requires n <= |a.chunks| && key in NaiveRows(m, a, n)
    ensures (key in m && NaiveRows(m, a, n)[key] == m[key]) ||
            (c < n && key == (a.name, a.chunks[c].decompressedHash) && NaiveRows(m, a, n)[key] == a.chunks[c].fileOffset)
  {
    if n == 0 {
      c := 0;
    } else if key == (a.name, a.chunks[n - 1].decompressedHash) {
      c := n - 1;
    } else {
      c := RowSource(m, a, n - 1, key);
    }
  }

  /** Every entry of the offset map is a row of some old file. */
  lemma {:induction false} EntrySource(before: seq<Asset>, n: nat, key: (string, string)) returns (f: nat, c: nat)
    requires n <= |before| && key in Naive(before, n)
    ensures f < n && c < |before[f].chunks| && !IsDirectory(before[f])
    ensures key == (before[f].name, before[f].chunks[c].decompressedHash)
    ensures Naive(before, n)[key] == before[f].chunks[c].fileOffset
  {
    var a := before[n - 1];
    if IsDirectory(a) {
      f, c := EntrySource(before, n - 1, key);
    } else {
      var c' := RowSource(Naive(before, n - 1), a, |a.chunks|, key);
      if key in Naive(before, n - 1) && Naive(before, n)[key] == Naive(before, n - 1)[key] {
        f, c := EntrySource(before, n - 1, key);
      } else {
        f, c := n - 1, c';
      }
    }
  }

  // ---------------------------------------------------------------------------
  // Interning
  // ---------------------------------------------------------------------------

  ghost predicate Dense(ids: Ids) {
    && (forall s :: s in ids ==> ids[s] < |ids|)
    && (forall s, t :: s in ids && t in ids && ids[s] == ids[t] ==> s == t)
  }

  method Intern(ids: Ids, s: string) returns (ids': Ids, id: nat)
    requires Dense(ids) && |ids| < U32
    ensures Dense(ids') && |ids'| <= |ids| + 1
    ensures forall t :: t in ids ==> t in ids' && ids'[t] == ids[t]
    ensures forall t :: t in ids' ==> t in ids || t == s
    ensures s in ids' && ids'[s] == id && (s !in ids ==> id == |ids|)
    ensures |ids| <= |ids'|
  {
    hide Narrow32;
    if s in ids {
      return ids, ids[s];
    }
    id := Narrow32(|ids|);
    ids' := ids[s := id];
    assert ids'.Keys == ids.Keys + {s};
  }

  /** Ids are 0, 1, 2, ... without a gap. */
  lemma {:induction false} DenseIsOnto(ids: Ids, i: nat)
    requires Dense(ids) && i < |ids|
    ensures exists s :: s in ids && ids[s] == i
  {
    var used := set s | s in ids :: ids[s];
    UsedCardinality(ids, ids.Keys);
    assert used == (set s | s in ids.Keys :: ids[s]);
    SubsetCardinality(used, Below(|ids|));
    assert i in used;
  }

  lemma {:induction false} UsedCardinality(ids: Ids, keys: set<string>)
    requires Dense(ids) && keys <= ids.Keys
    ensures |set s | s in keys :: ids[s]| == |keys|
  {
    if keys != {} {
      var k :| k in keys;
      UsedCardinality(ids, keys - {k});
      assert (set s | s in keys :: ids[s]) == (set s | s in keys - {k} :: ids[s]) + {ids[k]};
      assert ids[k] !in (set s | s in keys - {k} :: ids[s]);
    }
  }

  /** The interned tables say what the string-keyed map says. */
  ghost predicate Refines(offsets: map<(nat, nat), nat>, names: Ids, hashes: Ids, naive: Offsets) {
    && Dense(names) && Dense(hashes)
    && (forall k :: k in offsets ==> k.0 < |names| && k.1 < |hashes|)
    && (forall k :: k in naive ==> k.0 in names && k.1 in hashes)
    && (forall n, h :: n in names && h in hashes ==>
          ((names[n], hashes[h]) in offsets <==> (n, h) in naive))
    && (forall n, h :: n in names && h in hashes && (n, h) in naive ==> offsets[(names[n], hashes[h])] == naive[(n, h)])
  }

  /** Interning a text that no entry uses yet changes no answer. */
  lemma {:induction false} InternKeepsRefines(
      offsets: map<(nat, nat), nat>, names: Ids, hashes: Ids, naive: Offsets, names': Ids, hashes': Ids, s: string)
    requires Refines(offsets, names, hashes, naive) && Dense(names') && Dense(hashes')
    requires |names| <= |names'| && |hashes| <= |hashes'|
    requires forall t :: t in names ==> t in names' && names'[t] == names[t]
    requires forall t :: t in names' && t !in names ==> names'[t] >= |names|
    requires forall t :: t in hashes ==> t in hashes' && hashes'[t] == hashes[t]
    requires forall t :: t in hashes' && t !in hashes ==> hashes'[t] >= |hashes|
    ensures Refines(offsets, names', hashes', naive)
  {
  }

  lemma {:induction false} InsertKeepsRefines(
      offsets: map<(nat, nat), nat>, names: Ids, hashes: Ids, naive: Offsets, name: string, hash: string, at: nat)
    requires Refines(offsets, names, hashes, naive) && name in names && hash in hashes
    ensures Refines(offsets[(names[name], hashes[hash]) := at], names, hashes, naive[(name, hash) := at])
  {
    var k, k' := (names[name], hashes[hash]), (name, hash);
    forall n, h | n in names && h in hashes ensures (names[n], hashes[h]) == k <==> (n, h) == k' {
    }
  }

  method InternName(
      ghost offsets: map<(nat, nat), nat>, names: Ids, ghost hashes: Ids, ghost naive: Offsets, s: string)
    returns (names': Ids, id: nat)
    requires Refines(offsets, names, hashes, naive) && |names| < U32
    ensures Refines(offsets, names', hashes, naive)
    ensures s in names' && names'[s] == id && |names'| <= |names| + 1
  {
    names', id := Intern(names, s);
    InternKeepsRefines(offsets, names, hashes, naive, names', hashes, s);
  }

  method InternHash(
      ghost offsets: map<(nat, nat), nat>, ghost names: Ids, hashes: Ids, ghost naive: Offsets, s: string)
    returns (hashes': Ids, id: nat)
    requires Refines(offsets, names, hashes, naive) && |hashes| < U32
    ensures Refines(offsets, names, hashes', naive)
    ensures s in hashes' && hashes'[s] == id && |hashes'| <= |hashes| + 1
  {
    hashes', id := Intern(hashes, s);
    InternKeepsRefines(offsets, names, hashes, naive, names, hashes', s);
  }

  /** One chunk row of a file whose name is interned. */
  method InternRow(
      offsets: map<(nat, nat), nat>, names: Ids, nameId: nat, hashes: Ids, ghost naive: Offsets, name: string, chunk: Chunk)
    returns (offsets': map<(nat, nat), nat>, hashes': Ids)
    requires Refines(offsets, names, hashes, naive) && |hashes| < U32 && name in names && names[name] == nameId
    ensures Refines(offsets', names, hashes', naive[(name, chunk.decompressedHash) := chunk.fileOffset])
    ensures |hashes'| <= |hashes| + 1
  {
    hide Refines;
    var hashId;
    hashes', hashId := InternHash(offsets, names, hashes, naive, chunk.decompressedHash);
    InsertKeepsRefines(offsets, names, hashes', naive, name, chunk.decompressedHash, chunk.fileOffset);
    offsets' := offsets[(nameId, hashId) := chunk.fileOffset];
  }

  method InternRows(offsets: map<(nat, nat), nat>, names: Ids, hashes: Ids, ghost naive: Offsets, a: Asset)
    returns (offsets': map<(nat, nat), nat>, names': Ids, hashes': Ids)
    requires Refines(offsets, names, hashes, naive) && |names| < U32 && |hashes| + |a.chunks| < U32
    ensures Refines(offsets', names', hashes', NaiveRows(naive, a, |a.chunks|))
    ensures |names'| <= |names| + 1 && |hashes'| <= |hashes| + |a.chunks|
  {
    hide Refines;
    var nameId;
    names', nameId := InternName(offsets, names, hashes, naive, a.name);
    offsets', hashes' := offsets, hashes;
    for c := 0 to |a.chunks|
      invariant Refines(offsets', names', hashes', NaiveRows(naive, a, c))
      invariant |hashes'| <= |hashes| + c
    {
      offsets', hashes' := InternRow(offsets', names', nameId, hashes', NaiveRows(naive, a, c), a.name, a.chunks[c]);
    }
  }

  method InternFile(offsets: map<(nat, nat), nat>, names: Ids, hashes: Ids, ghost naive: Offsets, a: Asset)
    returns (offsets': map<(nat, nat), nat>, names': Ids, hashes': Ids)
    requires Refines(offsets, names, hashes, naive) && |names| < U32 && |hashes| + |a.chunks| < U32
    ensures Refines(offsets', names', hashes', if IsDirectory(a) then naive else NaiveRows(naive, a, |a.chunks|))
    ensures |names'| <= |names| + 1 && |hashes'| <= |hashes| + |a.chunks|
  {
    if IsDirectory(a) {
      return offsets, names, hashes;
    }
    offsets', names', hashes' := InternRows(offsets, names, hashes, naive, a);
  }

  lemma {:induction false} StartRefines()
    ensures Refines(map[], map[], map[], map[])
  {
  }

  /** Interned ids and offsets of every old file's chunks. */
  method InternOldChunkOffsets(before: seq<Asset>)
    returns (offsets: map<(nat, nat), nat>, names: Ids, hashes: Ids)
    requires |before| < U32 && FirstRow(before, |before|) < U32
    ensures Refines(offsets, names, hashes, Naive(before, |before|))
  {
    offsets, names, hashes := map[], map[], map[];
    hide FirstRow, NaiveRows, Refines;
    StartRefines();
    for f := 0 to |before|
      invariant Refines(offsets, names, hashes, Naive(before, f))
      invariant |names| <= f && |hashes| <= FirstRow(before, f)
    {
      FirstRowBelow(before, f);
      offsets, names, hashes := InternFile(offsets, names, hashes, Naive(before, f), before[f]);
    }
  }

  lemma {:induction false} FirstRowBelow(files: seq<Asset>, f: nat)
    requires f < |files|
    ensures FirstRow(files, f) + |files[f].chunks| == FirstRow(files, f + 1) <= FirstRow(files, |files|)
  {
    FirstRowGrows(files, f + 1, |files|);
  }

  // ---------------------------------------------------------------------------
  // Corrupted files
  // ---------------------------------------------------------------------------

  ghost function Without(naive: Offsets, corrupted: set<string>): Offsets {
    map k | k in naive && k.0 !in corrupted :: naive[k]
  }

  /** Drop the offsets of corrupted files by id. Because ids are injective this drops the
      entries of those names and no others. */
  method ExcludeCorrupted(
      offsets: map<(nat, nat), nat>, names: Ids, hashes: Ids, ghost naive: Offsets, corrupted: set<string>)
    returns (kept: map<(nat, nat), nat>)
    requires Refines(offsets, names, hashes, naive)
    ensures Refines(kept, names, hashes, Without(naive, corrupted))
  {
    var todo, bad: set<nat> := corrupted, {};
    while todo != {}
      invariant todo <= corrupted
      invariant forall n :: n in names ==> (names[n] in bad <==> n in corrupted && n !in todo)
      decreases |todo|
    {
      var name :| name in todo;
      if name in names {
        bad := bad + {names[name]};
      }
      todo := todo - {name};
    }
    kept := map k | k in offsets && k.0 !in bad :: offsets[k];
  }

  // ---------------------------------------------------------------------------
  // Assigning offsets
  // ---------------------------------------------------------------------------

  function NaiveOffset(naive: Offsets, name: string, hash: string): int {
    if (name, hash) in naive then AsI64(naive[(name, hash)]) else -1
  }

  function AssignedChunk(naive: Offsets, name: string, c: Chunk): Chunk {
    c.(oldOffset := NaiveOffset(naive, name, c.decompressedHash))
  }

  /** The diff files with each chunk's offset as the string-keyed map gives it. */
  function AssignedFile(naive: Offsets, a: Asset): (r: Asset)
    ensures |r.chunks| == |a.chunks| && forall c :: 0 <= c < |a.chunks| ==> r.chunks[c] == AssignedChunk(naive, a.name, a.chunks[c])
    ensures r == a.(chunks := r.chunks)
  {
    a.(chunks := seq(|a.chunks|, c requires 0 <= c < |a.chunks| => AssignedChunk(naive, a.name, a.chunks[c])))
  }

  function Assigned(naive: Offsets, files: seq<Asset>): (r: seq<Asset>)
    ensures |r| == |files| && forall f :: 0 <= f < |files| ==> r[f] == AssignedFile(naive, files[f])
  {
    seq(|files|, f requires 0 <= f < |files| => AssignedFile(naive, files[f]))
  }

  method AssignFile(
      file: Asset, offsets: map<(nat, nat), nat>, names: Ids, hashes: Ids, ghost naive: Offsets) returns (r: Asset)
    requires Refines(offsets, names, hashes, naive)
    ensures r == AssignedFile(naive, file)
  {
    var chunks := file.chunks;
    for c := 0 to |file.chunks|
      invariant |chunks| == |file.chunks|
      invariant forall k :: 0 <= k < c ==> chunks[k] == AssignedChunk(naive, file.name, file.chunks[k])
      invariant forall k :: c <= k < |chunks| ==> chunks[k] == file.chunks[k]
    {
      var hash := chunks[c].decompressedHash;
      var at := -1;
      if file.name in names && hash in hashes && (names[file.name], hashes[hash]) in offsets {
        at := AsI64(offsets[(names[file.name], hashes[hash])]);
      }
      assert at == NaiveOffset(naive, file.name, hash);
      chunks := chunks[c := chunks[c].(oldOffset := at)];
    }
    r := file.(chunks := chunks);
    assert r.chunks == AssignedFile(naive, file).chunks;
  }

  /** A row is reused exactly when the map has an offset for it that fits a signed 64-bit number,
      and then with that offset; a larger one turns negative, so that the chunk is downloaded. */
  ghost predicate OffsetKept(naive: Offsets, name: string, c: Chunk, at: int) {
    var key := (name, c.decompressedHash);
    && (key !in naive ==> at == -1)
    && (key in naive && naive[key] < 2 * I64 ==> (at >= 0 <==> naive[key] < I64) && (at >= 0 ==> at == naive[key]))
  }

  method AssignChunkOffsets(
      files: seq<Asset>, offsets: map<(nat, nat), nat>, names: Ids, hashes: Ids, ghost naive: Offsets)
    returns (r: seq<Asset>)
    requires Refines(offsets, names, hashes, naive)
    ensures r == Assigned(naive, files)
    ensures forall f, c :: 0 <= f < |r| && 0 <= c < |r[f].chunks| ==>
              OffsetKept(naive, r[f].name, r[f].chunks[c], r[f].chunks[c].oldOffset)
  {
    r := files;
    for f := 0 to |files|
      invariant |r| == |files|
      invariant forall k :: 0 <= k < f ==> r[k] == AssignedFile(naive, files[k])
      invariant forall k :: f <= k < |files| ==> r[k] == files[k]
    {
      var file := AssignFile(files[f], offsets, names, hashes, naive);
      r := r[f := file];
    }
  }

  // ---------------------------------------------------------------------------
  // The plan
  // ---------------------------------------------------------------------------

  /** MD5 of every old file by name; later entries win. */
  function OldMd5(before: seq<Asset>, n: nat): map<string, string>
    requires n <= |before|
  {
    if n == 0 then map[]
    else if IsDirectory(before[n - 1]) then OldMd5(before, n - 1)
    else OldMd5(before, n - 1)[before[n - 1].name := before[n - 1].md5]
  }

  predicate Changed(a: Asset, oldMd5: map<string, string>) {
    IsDirectory(a) || a.name !in oldMd5 || oldMd5[a.name] != a.md5
  }

  function DiffFiles(after: seq<Asset>, oldMd5: map<string, string>): (r: seq<Asset>)
    ensures forall a :: a in r <==> a in after && Changed(a, oldMd5)
  {
    if after == [] then []
    else
      var last := after[|after| - 1];
      DiffFiles(after[..|after| - 1], oldMd5) + if Changed(last, oldMd5) then [last] else []
  }

  function Names(files: seq<Asset>): set<string> {
    set a | a in files :: a.name
  }

  function DeletedFiles(before: seq<Asset>, newNames: set<string>): (r: seq<string>)
    ensures forall n :: n in r <==> n !in newNames && exists a :: a in before && !IsDirectory(a) && a.name == n
  {
    if before == [] then []
    else
      var last := before[|before| - 1];
      DeletedFiles(before[..|before| - 1], newNames) +
      if !IsDirectory(last) && last.name !in newNames then [last.name] else []
  }

  /** Sizes on disk of the files that are there. */
  type Disk = map<string, nat>

  predicate IsCorrupted(a: Asset, disk: Disk) {
    a.name !in disk || disk[a.name] != a.size
  }

  function CorruptedNames(before: seq<Asset>, disk: Disk): set<string> {
    set a | a in before && !IsDirectory(a) && IsCorrupted(a, disk) :: a.name
  }

  method FindCorrupted(before: seq<Asset>, disk: Disk) returns (bad: set<string>)
    ensures bad == CorruptedNames(before, disk)
  {
    bad := {};
    for i := 0 to |before|
      invariant bad == CorruptedNames(before[..i], disk)
    {
      assert before[..i + 1] == before[..i] + [before[i]];
      if !IsDirectory(before[i]) && IsCorrupted(before[i], disk) {
        bad := bad + {before[i].name};
      }
    }
    assert before[..|before|] == before;
  }

  // ---------------------------------------------------------------------------
  // What the plan says of the manifests
  // ---------------------------------------------------------------------------

  ghost predicate UniqueFiles(files: seq<Asset>) {
    forall i, j :: 0 <= i < j < |files| && !IsDirectory(files[i]) && !IsDirectory(files[j]) ==> files[i].name != files[j].name
  }

  lemma {:induction false} SameNameSameFile(files: seq<Asset>, a: Asset, b: Asset)
    requires UniqueFiles(files) && a in files && b in files && !IsDirectory(a) && !IsDirectory(b)
    ensures a.name == b.name ==> a == b
  {
    var i :| 0 <= i < |files| && files[i] == a;
    var j :| 0 <= j < |files| && files[j] == b;
    assert i < j ==> files[i].name != files[j].name;
    assert j < i ==> files[j].name != files[i].name;
  }

  lemma {:induction false} OldMd5Source(before: seq<Asset>, n: nat, name: string)
    requires n <= |before| && name in OldMd5(before, n)
    ensures exists o :: o in before && !IsDirectory(o) && o.name == name && o.md5 == OldMd5(before, n)[name]
  {
    if IsDirectory(before[n - 1]) || before[n - 1].name != name {
      OldMd5Source(before, n - 1, name);
    } else {
      assert before[n - 1] in before;
    }
  }

  /** An old file of that name whose size on disk is right. */
  ghost predicate Intact(o: Asset, name: string, disk: Disk) {
    o.kind == 0 && o.md5 != "" && o.name == name && name in disk && disk[name] == o.size
  }

  /** Row `(f, d)` of the old manifest belongs to an intact file of that name and has that hash. */
  ghost predicate Offers(before: seq<Asset>, disk: Disk, f: nat, d: nat, name: string, hash: string) {
    f < |before| && d < |before[f].chunks| && Intact(before[f], name, disk) && before[f].chunks[d].decompressedHash == hash
  }

  /** The offset in the row is the one offered, if that is a 64-bit number at all. */
  ghost predicate OffersAt(before: seq<Asset>, disk: Disk, f: nat, d: nat, name: string, row: Chunk) {
    && Offers(before, disk, f, d, name, row.decompressedHash)
    && (before[f].chunks[d].fileOffset < 0x1_0000_0000_0000_0000 ==> row.oldOffset == before[f].chunks[d].fileOffset)
  }

  ghost predicate LastOffer(before: seq<Asset>, disk: Disk, f: nat, d: nat, name: string, hash: string) {
    Offers(before, disk, f, d, name, hash) && forall e: nat :: e > d ==> !Offers(before, disk, f, e, name, hash)
  }

  /** The row is reused with the offset of the last old row that offers its chunk, if that offset
      fits a signed 64-bit number, and is downloaded otherwise. */
  ghost predicate RowPlanned(before: seq<Asset>, disk: Disk, name: string, row: Chunk) {
    && (row.oldOffset >= 0 ==> exists f: nat, d: nat :: OffersAt(before, disk, f, d, name, row))
    && forall f: nat, d: nat :: LastOffer(before, disk, f, d, name, row.decompressedHash) ==>
         && (before[f].chunks[d].fileOffset < 0x8000_0000_0000_0000 ==> row.oldOffset == before[f].chunks[d].fileOffset)
         && (0x8000_0000_0000_0000 <= before[f].chunks[d].fileOffset < 0x1_0000_0000_0000_0000 ==> row.oldOffset < 0)
  }

  /** Some intact old file of the same name has the same digest. */
  ghost predicate Unchanged(before: seq<Asset>, disk: Disk, a: Asset) {
    exists o :: o in before && Intact(o, a.name, disk) && o.md5 == a.md5
  }

  /** With one old file of a name, corruption and intactness are opposites. */
  lemma {:induction false} IntactExactly(before: seq<Asset>, disk: Disk, o: Asset)
    requires UniqueFiles(before) && o in before && !IsDirectory(o)
    ensures o.name !in CorruptedNames(before, disk) <==> Intact(o, o.name, disk)
  {
    forall b | b in before && !IsDirectory(b) && b.name == o.name ensures b == o {
      SameNameSameFile(before, b, o);
    }
  }

  lemma {:induction false} OldMd5Has(before: seq<Asset>, n: nat, o: Asset)
    requires UniqueFiles(before) && n <= |before| && o in before[..n] && !IsDirectory(o)
    ensures o.name in OldMd5(before, n) && OldMd5(before, n)[o.name] == o.md5
  {
    var last := before[n - 1];
    if o != last || IsDirectory(last) {
      assert o in before[..n - 1];
      OldMd5Has(before, n - 1, o);
      if !IsDirectory(last) {
        SameNameSameFile(before, o, last);
      }
    }
  }

  /** A new file is planned exactly when no intact old file of its name has its digest. */
  lemma {:induction false} ChangedExactly(before: seq<Asset>, disk: Disk, a: Asset)
    requires UniqueFiles(before) && a.kind == 0 && a.md5 != ""
    ensures Changed(a, OldMd5(before, |before|) - CorruptedNames(before, disk)) <==> !Unchanged(before, disk, a)
  {
    var oldMd5, bad := OldMd5(before, |before|), CorruptedNames(before, disk);
    hide OldMd5, CorruptedNames;
    if a.name in oldMd5 {
      OldMd5Source(before, |before|, a.name);
      var o :| o in before && !IsDirectory(o) && o.name == a.name && o.md5 == oldMd5[a.name];
      IntactExactly(before, disk, o);
    }
    if Unchanged(before, disk, a) {
      var o :| o in before && Intact(o, a.name, disk) && o.md5 == a.md5;
      assert before[..|before|] == before;
      OldMd5Has(before, |before|, o);
      IntactExactly(before, disk, o);
    }
  }

  lemma {:induction false} OfferIsUsed(before: seq<Asset>, disk: Disk, f: nat, d: nat, name: string, hash: string)
    requires UniqueFiles(before) && LastOffer(before, disk, f, d, name, hash)
    ensures var naive := Without(Naive(before, |before|), CorruptedNames(before, disk));
            (name, hash) in naive && naive[(name, hash)] == before[f].chunks[d].fileOffset
  {
    assert IsOldRow(before, f, d) && KeyOf(before, f, d) == (name, hash);
    forall g: nat, e: nat | IsOldRow(before, g, e) && g < |before| && (g > f || (g == f && e > d))
      ensures KeyOf(before, g, e) != KeyOf(before, f, d)
    {
      if g == f {
        assert !Offers(before, disk, f, e, name, hash);
      }
    }
    LaterRowsWin(before, |before|, f, d);
    IntactExactly(before, disk, before[f]);
    hide Naive, CorruptedNames;
  }

  lemma {:induction false} UsedIsOffered(before: seq<Asset>, disk: Disk, name: string, hash: string) returns (f: nat, d: nat)
    requires UniqueFiles(before) && (name, hash) in Without(Naive(before, |before|), CorruptedNames(before, disk))
    ensures Offers(before, disk, f, d, name, hash)
    ensures Without(Naive(before, |before|), CorruptedNames(before, disk))[(name, hash)] == before[f].chunks[d].fileOffset
  {
    f, d := EntrySource(before, |before|, (name, hash));
    IntactExactly(before, disk, before[f]);
    hide Naive, CorruptedNames;
  }

  lemma {:induction false} RowIsPlanned(before: seq<Asset>, disk: Disk, name: string, c: Chunk)
    requires UniqueFiles(before)
    ensures RowPlanned(before, disk, name,
                       AssignedChunk(Without(Naive(before, |before|), CorruptedNames(before, disk)), name, c))
  {
    var naive, hash := Without(Naive(before, |before|), CorruptedNames(before, disk)), c.decompressedHash;
    forall f: nat, d: nat | LastOffer(before, disk, f, d, name, hash)
      ensures (name, hash) in naive && naive[(name, hash)] == before[f].chunks[d].fileOffset
    {
      OfferIsUsed(before, disk, f, d, name, hash);
    }
    var row := AssignedChunk(naive, name, c);
    if (name, hash) in naive {
      var f, d := UsedIsOffered(before, disk, name, hash);
      assert row.oldOffset >= 0 ==> OffersAt(before, disk, f, d, name, row);
    }
    hide Naive, CorruptedNames, Without, LastOffer, Offers;
  }

  /** `p` is `a` but for the offsets of its rows. */
  ghost predicate Version(a: Asset, p: Asset) {
    && p == a.(chunks := p.chunks) && |p.chunks| == |a.chunks|
    && forall c :: 0 <= c < |a.chunks| ==> p.chunks[c] == a.chunks[c].(oldOffset := p.chunks[c].oldOffset)
  }

  lemma {:induction false} AssignedIsVersion(naive: Offsets, a: Asset)
    ensures Version(a, AssignedFile(naive, a))
  {
  }

  ghost predicate HasVersion(diff: seq<Asset>, a: Asset) {
    exists p :: p in diff && Version(a, p)
  }

  ghost predicate RowsPlanned(before: seq<Asset>, disk: Disk, p: Asset) {
    forall c :: 0 <= c < |p.chunks| ==> RowPlanned(before, disk, p.name, p.chunks[c])
  }

  /** The planned files are versions of new ones: of every directory, and of exactly those files
      that no intact old file equals; and each of their rows is planned as it should be. */
  ghost predicate PlanIsExact(before: seq<Asset>, after: seq<Asset>, disk: Disk, diff: seq<Asset>) {
    && (forall p :: p in diff ==> RowsPlanned(before, disk, p) && exists a :: a in after && Version(a, p))
    && (forall a :: a in after ==> (HasVersion(diff, a) <==> a.kind != 0 || a.md5 == "" || !Unchanged(before, disk, a)))
  }

  lemma {:induction false} DiffExactly(before: seq<Asset>, after: seq<Asset>, disk: Disk, a: Asset)
    requires UniqueFiles(before)
    ensures a in DiffFiles(after, OldMd5(before, |before|) - CorruptedNames(before, disk)) <==>
            a in after && (a.kind != 0 || a.md5 == "" || !Unchanged(before, disk, a))
  {
    if a.kind == 0 && a.md5 != "" {
      ChangedExactly(before, disk, a);
    }
    hide Unchanged, OldMd5, CorruptedNames;
  }

  /** `r` is what stands at the positions `at` of `files`, in this order. */
  ghost predicate PickedAt(files: seq<Asset>, r: seq<Asset>, at: seq<nat>) {
    && |at| == |r|
    && (forall i :: 0 <= i < |at| ==> at[i] < |files| && r[i] == files[at[i]])
    && forall i, k :: 0 <= i < k < |at| ==> at[i] < at[k]
  }

  lemma {:induction false} PickOneMore(files: seq<Asset>, r: seq<Asset>, at: seq<nat>, last: Asset)
    requires PickedAt(files, r, at)
    ensures PickedAt(files + [last], r, at)
    ensures PickedAt(files + [last], r + [last], at + [|files|])
  {
  }

  /** The planned files are picked from the new manifest in its order, each position at most once. */
  lemma {:induction false} DiffKeepsOrder(after: seq<Asset>, oldMd5: map<string, string>) returns (at: seq<nat>)
    ensures PickedAt(after, DiffFiles(after, oldMd5), at)
  {
    if after == [] {
      at := [];
    } else {
      var init, last := after[..|after| - 1], after[|after| - 1];
      at := DiffKeepsOrder(init, oldMd5);
      PickOneMore(init, DiffFiles(init, oldMd5), at, last);
      assert after == init + [last];
      if Changed(last, oldMd5) {
        at := at + [|init|];
      } else {
        assert DiffFiles(init, oldMd5) + [] == DiffFiles(init, oldMd5);
      }
      hide PickedAt, Changed;
    }
  }

  /** Whether a file is planned does not depend on its offsets. */
  lemma {:induction false} VersionsPlanned(naive: Offsets, files: seq<Asset>, oldMd5: map<string, string>, after: seq<Asset>, a: Asset)
    requires files == DiffFiles(after, oldMd5) && a in after
    ensures HasVersion(Assigned(naive, files), a) <==> a in files
  {
    var diff := Assigned(naive, files);
    forall i | 0 <= i < |diff| ensures Version(files[i], diff[i]) {
      AssignedIsVersion(naive, files[i]);
    }
    hide AssignedFile;
    if a in files {
      var i :| 0 <= i < |files| && files[i] == a;
      assert diff[i] in diff && Version(a, diff[i]);
    }
    if HasVersion(diff, a) {
      var p :| p in diff && Version(a, p);
      var i :| 0 <= i < |diff| && diff[i] == p;
      assert files[i] in files && Version(files[i], p);
      assert Changed(files[i], oldMd5) <==> Changed(a, oldMd5);
    }
  }

  lemma {:induction false} PlannedExactly(before: seq<Asset>, after: seq<Asset>, disk: Disk)
    requires UniqueFiles(before)
    ensures var bad := CorruptedNames(before, disk);
            PlanIsExact(before, after, disk,
                        Assigned(Without(Naive(before, |before|), bad), DiffFiles(after, OldMd5(before, |before|) - bad)))
  {
    hide Naive, CorruptedNames, Without, OldMd5, Unchanged, RowPlanned, Changed, DiffFiles, AssignedFile, UniqueFiles, Version, HasVersion;
    var bad := CorruptedNames(before, disk);
    var naive, oldMd5 := Without(Naive(before, |before|), bad), OldMd5(before, |before|) - bad;
    var files := DiffFiles(after, oldMd5);
    var diff := Assigned(naive, files);
    forall a | a in after
      ensures HasVersion(diff, a) <==> a.kind != 0 || a.md5 == "" || !Unchanged(before, disk, a)
    {
      VersionsPlanned(naive, files, oldMd5, after, a);
      DiffExactly(before, after, disk, a);
    }
    forall p | p in diff ensures RowsPlanned(before, disk, p) && exists a :: a in after && Version(a, p) {
      var i :| 0 <= i < |diff| && diff[i] == p;
      AssignedIsVersion(naive, files[i]);
      assert files[i] in files;
      forall c | 0 <= c < |p.chunks| ensures RowPlanned(before, disk, p.name, p.chunks[c]) {
        RowIsPlanned(before, disk, files[i].name, files[i].chunks[c]);
      }
    }
  }

  lemma {:induction false} DeletedExactly(before: seq<Asset>, after: seq<Asset>)
    ensures forall n :: n in DeletedFiles(before, Names(after)) <==>
              (exists o :: o in before && o.kind == 0 && o.md5 != "" && o.name == n) && forall a :: a in after ==> a.name != n
  {
  }

  lemma {:induction false} NothingExcluded(naive: Offsets, oldMd5: map<string, string>)
    ensures Without(naive, {}) == naive && oldMd5 - {} == oldMd5
  {
  }

  /** The plan for one category that both builds have. */
  method PlanCategory(before: seq<Asset>, after: seq<Asset>, disk: Disk)
    returns (diff: seq<Asset>, deleted: seq<string>)
    requires |before| < U32 && FirstRow(before, |before|) < U32
    ensures var bad := CorruptedNames(before, disk);
            diff == Assigned(Without(Naive(before, |before|), bad), DiffFiles(after, OldMd5(before, |before|) - bad))
    ensures UniqueFiles(before) ==> PlanIsExact(before, after, disk, diff)
    ensures deleted == DeletedFiles(before, Names(after))
    ensures forall n :: n in deleted <==>
              (exists o :: o in before && o.kind == 0 && o.md5 != "" && o.name == n) && forall a :: a in after ==> a.name != n
  {
    deleted := DeletedFiles(before, Names(after));
    DeletedExactly(before, after);
    hide PlanIsExact, UniqueFiles, DeletedFiles, Names, CorruptedNames, Naive, Without, Refines, OldMd5, DiffFiles;
    var bad := FindCorrupted(before, disk);
    var oldMd5 := OldMd5(before, |before|);
    var offsets, names, hashes := InternOldChunkOffsets(before);
    if bad != {} {
      oldMd5 := oldMd5 - bad;
      offsets := ExcludeCorrupted(offsets, names, hashes, Naive(before, |before|), bad);
    } else {
      NothingExcluded(Naive(before, |before|), oldMd5);
    }
    diff := DiffFiles(after, oldMd5);
    diff := AssignChunkOffsets(diff, offsets, names, hashes, Without(Naive(before, |before|), bad));
    if UniqueFiles(before) {
      PlannedExactly(before, after, disk);
    }
  }

  /** The plan for a category that only the new build has: its rows keep whatever offset
      their manifest carried. */
  function PlanNewCategory(after: seq<Asset>): (diff: seq<Asset>)
    ensures forall a :: a in diff <==> a in after
  {
    DiffFiles(after, map[])
  }
}
