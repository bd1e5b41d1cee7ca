/** Manifest records shared by the whole model: one asset per file or directory,
    one chunk row per piece of a file. Integers are unbounded here; the places
    where the program narrows them say so. */
module Manifest {

  datatype Option<+T> = None | Some(value: T)

  /** One chunk row. `oldOffset >= 0` marks a row copied out of the old file,
      a negative one a row that has to be downloaded. */
  datatype Chunk = Chunk(
    name: string,
    decompressedHash: string,
    fileOffset: nat,
    size: nat,
    sizeDecompressed: nat,
    compressedHash: string,
    oldOffset: int
  )

  datatype Asset = Asset(name: string, chunks: seq<Chunk>, kind: nat, size: nat, md5: string)

  predicate IsDirectory(a: Asset) {
    a.kind != 0 || a.md5 == ""
  }

  predicate IsDownloaded(c: Chunk) {
    c.oldOffset < 0
  }

  /** Global index of the first chunk row of file `f`. */
  function FirstRow(files: seq<Asset>, f: nat): nat
    requires f <= |files|
  {
    if f == 0 then 0 else FirstRow(files, f - 1) + |files[f - 1].chunks|
  }

  /** All rows of the first `n` files. */
  function Rows(files: seq<Asset>, n: nat): (r: seq<Chunk>)
    requires n <= |files|
    ensures |r| == FirstRow(files, n)
  {
    if n == 0 then [] else Rows(files, n - 1) + files[n - 1].chunks
  }

  lemma {:induction false} FirstRowGrows(files: seq<Asset>, m: nat, n: nat)
    requires m <= n <= |files|
    ensures FirstRow(files, m) <= FirstRow(files, n)
    ensures Rows(files, n)[..FirstRow(files, m)] == Rows(files, m)
  {
    if m < n {
      FirstRowGrows(files, m, n - 1);
    }
  }

  const U32: nat := 0x1_0000_0000

  /** Cast to 32 bits. */
  function Narrow32(x: nat): (r: nat)
    ensures r < U32
    ensures r == x <==> x < U32
    ensures (x - r) % 0x1_0000_0000 == 0
  {
    x % U32
  }

  ghost predicate NoDuplicates<T>(s: seq<T>) {
    forall i, j :: 0 <= i < j < |s| ==> s[i] != s[j]
  }

  /** A duplicate-free sequence has as many elements as its set of elements. */
  lemma {:induction false} NoDuplicatesCardinality<T>(s: seq<T>)
    requires NoDuplicates(s)
    ensures |set x | x in s| == |s|
  {
    if s != [] {
      var init, last := s[..|s| - 1], s[|s| - 1];
      NoDuplicatesCardinality(init);
      assert last !in init;
      assert (set x | x in s) == (set x | x in init) + {last};
    }
  }

  lemma {:induction false} SubsetCardinality<T>(a: set<T>, b: set<T>)
    requires a <= b
    ensures |a| <= |b|
    ensures |a| == |b| ==> a == b
  {
    if a != {} {
      var x :| x in a;
      SubsetCardinality(a - {x}, b - {x});
    }
  }

  /** The numbers below `n`. */
  ghost function Below(n: nat): (s: set<nat>)
    ensures |s| == n
    ensures forall i :: i in s <==> 0 <= i < n
  {
    if n == 0 then {} else Below(n - 1) + {n - 1}
  }
}
