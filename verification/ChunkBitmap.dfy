/** The completion bitmap: one bit a chunk in 64-bit words, saved with an eight-byte
    header. It is a set of chunk indices, and an image of it reads back as that set. */
module ChunkBitmap {
  import opened Hex
  import opened Manifest

  const MAGIC: nat := 0x4952_4D42

  // ---------------------------------------------------------------------------
  // Words
  // ---------------------------------------------------------------------------

  function MaskAt(b: bv6): bv64 {
    (1 as bv64) << b
  }

  predicate BitAt(w: bv64, b: bv6) {
    (w >> b) & 1 == 1
  }

  function Index(b: nat): bv6
    requires b < 64
  {
    b as bv6
  }

  predicate Bit(w: bv64, b: nat)
    requires b < 64
  {
    BitAt(w, Index(b))
  }

  function OrBit(w: bv64, b: bv6): bv64 {
    w | MaskAt(b)
  }

  function AndNotBit(w: bv64, b: bv6): bv64 {
    w & !MaskAt(b)
  }

  lemma {:induction false} OrSetsOneBit(w: bv64, b: bv6, c: bv6)
    ensures BitAt(OrBit(w, b), c) <==> BitAt(w, c) || b == c
  {
  }

  lemma {:induction false} AndClearsOneBit(w: bv64, b: bv6, c: bv6)
    ensures BitAt(AndNotBit(w, b), c) <==> BitAt(w, c) && b != c
  {
  }

  lemma {:induction false} IndexTrip(b: nat)
    requires b < 64
    ensures Index(b) as int == b
  {
  }

  lemma {:induction false} IndexIsInjective(b: nat, c: nat)
    requires b < 64 && c < 64 && Index(b) == Index(c)
    ensures b == c
  {
    IndexTrip(b);
    IndexTrip(c);
  }

  function WithBit(w: bv64, b: nat): bv64
    requires b < 64
  {
    OrBit(w, Index(b))
  }

  function WithoutBit(w: bv64, b: nat): bv64
    requires b < 64
  {
    AndNotBit(w, Index(b))
  }

  lemma {:induction false} ChangeBit(w: bv64, b: nat, c: nat)
    requires b < 64 && c < 64
    ensures Bit(WithBit(w, b), c) <==> Bit(w, c) || b == c
    ensures Bit(WithoutBit(w, b), c) <==> Bit(w, c) && b != c
  {
    hide Index, BitAt, OrBit, AndNotBit;
    OrSetsOneBit(w, Index(b), Index(c));
    AndClearsOneBit(w, Index(b), Index(c));
    if Index(b) == Index(c) {
      IndexIsInjective(b, c);
    }
  }

  lemma {:induction false} NoBitInZero(b: nat)
    requires b < 64
    ensures !Bit(0, b)
  {
  }

  /** Population count of the low `n` bits. */
  function Ones(w: bv64, n: nat): nat
    requires n <= 64
  {
    if n == 0 then 0 else Ones(w, n - 1) + if Bit(w, n - 1) then 1 else 0
  }

  function ByteAt(w: bv64, k: bv64): bv8
    requires k < 8
  {
    ((w >> (k * 8)) & 0xff) as bv8
  }

  /** The bytes of a word, least significant first. */
  function WordBytes(w: bv64): (r: seq<Byte>)
    ensures |r| == 8
  {
    [ByteAt(w, 0) as int, ByteAt(w, 1) as int, ByteAt(w, 2) as int, ByteAt(w, 3) as int,
     ByteAt(w, 4) as int, ByteAt(w, 5) as int, ByteAt(w, 6) as int, ByteAt(w, 7) as int]
  }

  function Join(a: bv8, b: bv8, c: bv8, d: bv8, e: bv8, f: bv8, g: bv8, h: bv8): bv64 {
    (a as bv64) | ((b as bv64) << 8) | ((c as bv64) << 16) | ((d as bv64) << 24) |
    ((e as bv64) << 32) | ((f as bv64) << 40) | ((g as bv64) << 48) | ((h as bv64) << 56)
  }

  function BytesWord(r: seq<Byte>): bv64
    requires |r| == 8
  {
    Join(r[0] as bv8, r[1] as bv8, r[2] as bv8, r[3] as bv8, r[4] as bv8, r[5] as bv8, r[6] as bv8, r[7] as bv8)
  }

  lemma {:induction false} ByteTrip(x: bv8)
    ensures (x as int) as bv8 == x
  {
  }

  lemma {:induction false} JoinTrip(w: bv64)
    ensures Join(ByteAt(w, 0), ByteAt(w, 1), ByteAt(w, 2), ByteAt(w, 3),
                 ByteAt(w, 4), ByteAt(w, 5), ByteAt(w, 6), ByteAt(w, 7)) == w
  {
  }

  lemma {:induction false} WordRoundTrip(w: bv64)
    ensures BytesWord(WordBytes(w)) == w
  {
    hide ByteAt, Join;
    ByteTrip(ByteAt(w, 0));
    ByteTrip(ByteAt(w, 1));
    ByteTrip(ByteAt(w, 2));
    ByteTrip(ByteAt(w, 3));
    ByteTrip(ByteAt(w, 4));
    ByteTrip(ByteAt(w, 5));
    ByteTrip(ByteAt(w, 6));
    ByteTrip(ByteAt(w, 7));
    JoinTrip(w);
  }

  function U32Bytes(n: nat): (r: seq<Byte>)
    requires n < U32
    ensures |r| == 4
  {
    [n % 256, n / 256 % 256, n / 256 / 256 % 256, n / 256 / 256 / 256]
  }

  function BytesU32(r: seq<Byte>): (n: nat)
    requires |r| == 4
    ensures n < U32
  {
    r[0] as int + 256 * (r[1] as int + 256 * (r[2] as int + 256 * (r[3] as int)))
  }

  lemma {:induction false} U32RoundTrip(n: nat)
    requires n < U32
    ensures BytesU32(U32Bytes(n)) == n
  {
  }

  // ---------------------------------------------------------------------------
  // The bitmap as a set
  // ---------------------------------------------------------------------------

  function WordCount(total: nat): nat {
    (total + 63) / 64
  }

  predicate Marked(words: seq<bv64>, i: nat) {
    i / 64 < |words| && Bit(words[i / 64], i % 64)
  }

  /** The chunk indices that are complete. */
  ghost function Completed(words: seq<bv64>, total: nat): set<nat> {
    set i: nat | i < total && Marked(words, i)
  }

  ghost predicate PaddingClear(words: seq<bv64>, total: nat) {
    forall i: nat :: total <= i < 64 * |words| ==> !Marked(words, i)
  }

  function AfterMark(words: seq<bv64>, i: nat): seq<bv64>
    requires i / 64 < |words|
  {
    words[i / 64 := WithBit(words[i / 64], i % 64)]
  }

  function AfterClear(words: seq<bv64>, i: nat): seq<bv64>
    requires i / 64 < |words|
  {
    words[i / 64 := WithoutBit(words[i / 64], i % 64)]
  }

  /** Marking or clearing one bit changes that index and no other, in any word. */
  lemma {:induction false} OneIndexChanges(words: seq<bv64>, i: nat, j: nat)
    requires i / 64 < |words|
    ensures Marked(AfterMark(words, i), j) <==> Marked(words, j) || j == i
    ensures Marked(AfterClear(words, i), j) <==> Marked(words, j) && j != i
  {
    hide Bit, WithBit, WithoutBit;
    if j / 64 == i / 64 {
      ChangeBit(words[i / 64], i % 64, j % 64);
    }
  }

  lemma {:induction false} MarkedFits(words: seq<bv64>, total: nat, i: nat)
    requires |words| == WordCount(total) && i < total
    ensures i / 64 < |words|
  {
  }

  /** Marks commute, so the order in which workers set their bits does not matter. */
  lemma {:induction false} MarksCommute(words: seq<bv64>, i: nat, j: nat)
    requires i / 64 < |words| && j / 64 < |words|
    ensures AfterMark(AfterMark(words, i), j) == AfterMark(AfterMark(words, j), i)
  {
    hide WithBit;
    if i / 64 == j / 64 {
      BitsCommute(words[i / 64], i % 64, j % 64);
    }
  }

  lemma {:induction false} BitsCommute(w: bv64, a: nat, b: nat)
    requires a < 64 && b < 64
    ensures WithBit(WithBit(w, a), b) == WithBit(WithBit(w, b), a)
  {
    hide Index, MaskAt;
    OrsCommute(w, MaskAt(Index(a)), MaskAt(Index(b)));
  }

  lemma {:induction false} OrsCommute(w: bv64, a: bv64, b: bv64)
    ensures (w | a) | b == (w | b) | a
  {
  }

  // ---------------------------------------------------------------------------
  // The saved image
  // ---------------------------------------------------------------------------

  function WordsBytes(words: seq<bv64>): (r: seq<Byte>)
    ensures |r| == 8 * |words|
  {
    if words == [] then [] else WordsBytes(words[..|words| - 1]) + WordBytes(words[|words| - 1])
  }

  function Image(words: seq<bv64>, total: nat): seq<Byte> {
    U32Bytes(MAGIC) + U32Bytes(Narrow32(total)) + WordsBytes(words)
  }

  datatype Loaded = Loaded(words: seq<bv64>, total: nat) | Rejected

  /** The first `n` words of a body. */
  function WordsAt(body: seq<Byte>, n: nat): (r: seq<bv64>)
    requires 8 * n <= |body|
    ensures |r| == n
  {
    if n == 0 then [] else WordsAt(body, n - 1) + [BytesWord(body[8 * (n - 1)..8 * (n - 1) + 8])]
  }

  /** What reading a file gives. */
  function Load(data: seq<Byte>): Loaded {
    if |data| < 8 || BytesU32(data[..4]) != MAGIC then Rejected
    else
      var total := BytesU32(data[4..8]);
      if |data| < 8 + 8 * WordCount(total) then Rejected
      else Loaded(WordsAt(data[8..8 + 8 * WordCount(total)], WordCount(total)), total)
  }

  lemma {:induction false} WordReadsBack(words: seq<bv64>, n: nat)
    requires n < |words|
    ensures BytesWord(WordsBytes(words)[8 * n..8 * n + 8]) == words[n]
  {
    hide BytesWord, WordBytes, WordsBytes;
    WordBytesAt(words, n);
    WordRoundTrip(words[n]);
  }

  lemma {:induction false} WordsReadBack(words: seq<bv64>, n: nat)
    requires n <= |words|
    ensures WordsAt(WordsBytes(words), n) == words[..n]
  {
    if n > 0 {
      hide BytesWord, WordsBytes;
      var m, body := n - 1, WordsBytes(words);
      assert WordsAt(body, n) == WordsAt(body, m) + [BytesWord(body[8 * m..8 * m + 8])];
      hide WordsAt;
      WordsReadBack(words, m);
      WordReadsBack(words, m);
      assert words[..n] == words[..m] + [words[m]];
    }
  }

  lemma {:induction false} SliceOfSlice(data: seq<Byte>, at: nat, len: nat, lo: nat, hi: nat)
    requires at + len <= |data| && lo <= hi <= len
    ensures data[at..at + len][lo..hi] == data[at + lo..at + hi]
  {
    var s := data[at..at + len];
    forall x | 0 <= x < hi - lo ensures s[lo..hi][x] == data[at + lo..at + hi][x] {
      assert s[lo..hi][x] == s[lo + x];
    }
  }

  lemma {:induction false} WordBytesAt(words: seq<bv64>, k: nat)
    requires k < |words|
    ensures WordsBytes(words)[8 * k..8 * k + 8] == WordBytes(words[k])
  {
    hide WordBytes;
    var n := |words| - 1;
    if k < n {
      WordBytesAt(words[..n], k);
      assert WordsBytes(words)[8 * k..8 * k + 8] == WordsBytes(words[..n])[8 * k..8 * k + 8];
    }
  }

  lemma {:induction false} ImageParts(words: seq<bv64>, total: nat)
    ensures var m := Image(words, total);
            && |m| == 8 + 8 * |words| && m[..4] == U32Bytes(MAGIC) && m[4..8] == U32Bytes(Narrow32(total))
            && m[8..8 + 8 * |words|] == WordsBytes(words)
  {
    hide U32Bytes, WordsBytes;
  }

  lemma {:induction false} StrictPrefixesAreRejected(words: seq<bv64>, total: nat, n: nat)
    requires |words| == WordCount(total) && total < U32 && n < |Image(words, total)|
    ensures Load(Image(words, total)[..n]) == Rejected
  {
    hide U32Bytes, BytesU32, WordsBytes, WordsAt;
    var m := Image(words, total);
    ImageParts(words, total);
    if n >= 8 {
      U32RoundTrip(total);
      assert m[..n][4..8] == m[4..8];
    }
  }

  /** A saved bitmap reads back exactly when its size fits the header's 32 bits; bytes
      after the image do no harm, and a save cut short is never taken for a bitmap. */
  lemma {:induction false} ImageReadsBackExactly(words: seq<bv64>, total: nat, extra: seq<Byte>)
    requires |words| == WordCount(total)
    ensures Load(Image(words, total) + extra) == Loaded(words, total) <==> total < U32
    ensures total < U32 ==> forall n :: 0 <= n < |Image(words, total)| ==> Load(Image(words, total)[..n]) == Rejected
  {
    hide U32Bytes, BytesU32, WordsBytes, WordsAt;
    var m := Image(words, total);
    var data := m + extra;
    ImageParts(words, total);
    U32RoundTrip(MAGIC);
    U32RoundTrip(Narrow32(total));
    assert data[..4] == m[..4] && data[4..8] == m[4..8] && data[8..8 + 8 * |words|] == m[8..8 + 8 * |words|];
    if total < U32 {
      WordsReadBack(words, |words|);
      assert words[..|words|] == words;
      forall n: nat | n < |m| ensures Load(m[..n]) == Rejected {
        StrictPrefixesAreRejected(words, total, n);
      }
    }
  }

  // ---------------------------------------------------------------------------
  // The layout of the image
  // ---------------------------------------------------------------------------

  /** Bit `b` of a byte, the lowest first. */
  predicate ByteBit(x: Byte, b: nat)
    requires b < 8
  {
    ((x as bv8) >> (b as bv3)) & 1 == 1
  }

  lemma {:induction false} HalvesOfIndex(q: bv6)
    ensures (q as int) / 8 == (q >> 3) as int < 8
    ensures (q as int) % 8 == (q & 7) as int
    ensures ((q & 7) as int) as bv3 == (q & 7) as bv3
  {
  }

  lemma {:induction false} BitOfByte(w: bv64, q: bv6)
    ensures BitAt(w, q) <==> (ByteAt(w, (q >> 3) as bv64) >> ((q & 7) as bv3)) & 1 == 1
  {
  }

  lemma {:induction false} ByteNumber(w: bv64, k: bv6)
    requires k < 8
    ensures k as int < 8 && WordBytes(w)[k as int] == ByteAt(w, k as bv64) as int
  {
  }

  /** Bit `b` of a word is bit `b % 8` of its byte `b / 8`. */
  lemma {:induction false} BitInBytes(w: bv64, b: nat)
    requires b < 64
    ensures Bit(w, b) <==> ByteBit(WordBytes(w)[b / 8], b % 8)
  {
    hide ByteAt, WordBytes, BitAt, Index;
    var q := Index(b);
    IndexTrip(b);
    HalvesOfIndex(q);
    BitOfByte(w, q);
    ByteNumber(w, q >> 3);
    ByteTrip(ByteAt(w, (q >> 3) as bv64));
  }

  /** The saved file, byte by byte: the four magic bytes, the number of chunks with the lowest
      byte first, and from the ninth byte on one bit a chunk, lowest bit first. */
  lemma {:induction false} ImageLayout(words: seq<bv64>, total: nat, i: nat)
    requires i < 64 * |words|
    ensures var m := Image(words, total);
            && |m| == 8 + 8 * |words|
            && m[..4] == [0x42, 0x4D, 0x52, 0x49]
            && m[4] as int + 0x100 * (m[5] as int) + 0x1_0000 * (m[6] as int) + 0x100_0000 * (m[7] as int) == total % 0x1_0000_0000
            && (Marked(words, i) <==> ByteBit(m[8 + i / 8], i % 8))
  {
    hide WordBytes, WordsBytes, ByteBit, Bit;
    var m, n, b := Image(words, total), i / 64, i % 64;
    ImageParts(words, total);
    WordBytesAt(words, n);
    BitInBytes(words[n], b);
    assert m[8 + i / 8] == m[8..8 + 8 * |words|][8 * n..8 * n + 8][b / 8];
    assert m[4..8] == [m[4], m[5], m[6], m[7]];
  }

  // ---------------------------------------------------------------------------
  // Counting
  // ---------------------------------------------------------------------------

  function CountWords(words: seq<bv64>): nat {
    if words == [] then 0 else CountWords(words[..|words| - 1]) + Ones(words[|words| - 1], 64)
  }

  /** Marked indices below `n`. */
  ghost function MarkedBelow(words: seq<bv64>, n: nat): set<nat> {
    set i: nat | i < n && Marked(words, i)
  }

  lemma {:induction false} OnesCount(words: seq<bv64>, base: nat, n: nat)
    requires base < |words| && n <= 64
    ensures |MarkedBelow(words, 64 * base + n)| == |MarkedBelow(words, 64 * base)| + Ones(words[base], n)
  {
    hide Bit;
    if n == 0 {
      assert MarkedBelow(words, 64 * base + n) == MarkedBelow(words, 64 * base);
    } else {
      OnesCount(words, base, n - 1);
      var i := 64 * base + (n - 1);
      assert i / 64 == base && i % 64 == n - 1;
      var before, now := MarkedBelow(words, i), MarkedBelow(words, 64 * base + n);
      assert now == if Marked(words, i) then before + {i} else before;
    }
  }

  lemma {:induction false} CountIsMarkedBelow(words: seq<bv64>, m: nat)
    requires m <= |words|
    ensures CountWords(words[..m]) == |MarkedBelow(words, 64 * m)|
  {
    hide Ones;
    if m == 0 {
      assert MarkedBelow(words, 0) == {};
    } else {
      CountIsMarkedBelow(words, m - 1);
      OnesCount(words, m - 1, 64);
      assert words[..m][..m - 1] == words[..m - 1];
    }
  }

  /** The count is the size of the set exactly when no bit beyond the last index is set. */
  lemma {:induction false} CountIsExactWhenPaddingClear(words: seq<bv64>, total: nat)
    requires |words| == WordCount(total)
    ensures CountWords(words) == |Completed(words, total)| <==> PaddingClear(words, total)
  {
    CountIsMarkedBelow(words, |words|);
    assert words[..|words|] == words;
    var all, inside := MarkedBelow(words, 64 * |words|), Completed(words, total);
    assert inside <= all;
    SubsetCardinality(inside, all);
    if PaddingClear(words, total) {
      assert forall i: nat :: i in all ==> i in inside;
      assert all == inside;
    }
    if |inside| == |all| {
      forall i: nat | total <= i < 64 * |words| ensures !Marked(words, i) {
        assert i !in inside;
      }
    }
  }

  // ---------------------------------------------------------------------------
  // The object
  // ---------------------------------------------------------------------------

  /** The file that the bitmap is saved in. */
  class BitmapFile {
    var data: seq<Byte>

    constructor ()
      ensures data == []
    {
      data := [];
    }
  }

  class ChunkBitmap {
    const bits: array<bv64>
    const total: nat
    const file: BitmapFile

    ghost predicate Valid()
      reads this, bits
    {
      bits.Length == WordCount(total)
    }

    ghost function Indices(): set<nat>
      reads this, bits
    {
      Completed(bits[..], total)
    }

    /** A new, empty bitmap, saved at once. */
    constructor (file: BitmapFile, total: nat)
      modifies file
      ensures Valid() && this.total == total && this.file == file && fresh(bits)
      ensures Indices() == {} && PaddingClear(bits[..], total)
      ensures file.data == Image(bits[..], total)
    {
      this.total, this.file := total, file;
      bits := new bv64[WordCount(total)](_ => 0);
      new;
      ghost var words := bits[..];
      forall i: nat ensures !Marked(words, i) {
        if i / 64 < |words| {
          NoBitInZero(i % 64);
        }
      }
      Save();
    }

    /** Take the words of a loaded image. */
    constructor FromWords(file: BitmapFile, words: seq<bv64>, total: nat)
      requires |words| == WordCount(total)
      ensures Valid() && this.total == total && this.file == file && fresh(bits) && bits[..] == words
    {
      this.total, this.file := total, file;
      bits := new bv64[|words|](i requires 0 <= i < |words| => words[i]);
    }

    /** Indices beyond the last chunk are ignored. */
    method MarkComplete(i: nat)
      requires Valid()
      modifies bits
      ensures Indices() == if i < total then old(Indices()) + {i} else old(Indices())
      ensures PaddingClear(old(bits[..]), total) ==> PaddingClear(bits[..], total)
    {
      if i >= total {
        return;
      }
      MarkedFits(bits[..], total, i);
      bits[i / 64] := WithBit(bits[i / 64], i % 64);
      assert bits[..] == AfterMark(old(bits[..]), i);
      forall j: nat ensures Marked(bits[..], j) <==> Marked(old(bits[..]), j) || j == i {
        OneIndexChanges(old(bits[..]), i, j);
      }
    }

    method IsComplete(i: nat) returns (complete: bool)
      requires Valid()
      ensures complete <==> i in Indices()
    {
      if i >= total {
        return false;
      }
      MarkedFits(bits[..], total, i);
      complete := Bit(bits[i / 64], i % 64);
    }

    method AllCompleteForRange(start: nat, end: nat) returns (all: bool)
      requires Valid()
      ensures all <==> forall i: nat :: start <= i < end ==> i in Indices()
    {
      var i := start;
      while i < end
        invariant start <= i
        invariant forall k: nat :: start <= k < i && k < end ==> k in Indices()
      {
        var complete := IsComplete(i);
        if !complete {
          return false;
        }
        i := i + 1;
      }
      return true;
    }

    /** Clears word by word, in the padding too; beyond the last word the program stops. */
    method ClearRange(start: nat, end: nat)
      requires Valid() && (start < end ==> end <= 64 * bits.Length)
      modifies bits
      ensures forall i: nat :: i in Indices() <==> i in old(Indices()) && !(start <= i < end)
      ensures PaddingClear(old(bits[..]), total) ==> PaddingClear(bits[..], total)
    {
      var i := start;
      while i < end
        invariant start <= i && (if start < end then i <= end else i == start)
        invariant forall j: nat :: Marked(bits[..], j) <==> Marked(old(bits[..]), j) && !(start <= j < i)
      {
        ghost var words := bits[..];
        bits[i / 64] := WithoutBit(bits[i / 64], i % 64);
        assert bits[..] == AfterClear(words, i);
        forall j: nat ensures Marked(bits[..], j) <==> Marked(words, j) && j != i {
          OneIndexChanges(words, i, j);
        }
        i := i + 1;
      }
      forall j: nat ensures j in Indices() <==> j in old(Indices()) && !(start <= j < end) {
        assert Marked(bits[..], j) <==> Marked(old(bits[..]), j) && !(start <= j < i);
      }
    }

    /** Rewrite the file with the header and the words. */
    method Save()
      requires Valid()
      modifies file
      ensures file.data == Image(bits[..], total)
    {
      hide U32Bytes, WordBytes;
      var buf := U32Bytes(MAGIC);
      buf := buf + U32Bytes(Narrow32(total));
      for i := 0 to bits.Length
        invariant buf == U32Bytes(MAGIC) + U32Bytes(Narrow32(total)) + WordsBytes(bits[..i])
      {
        assert bits[..i + 1][..i] == bits[..i];
        buf := buf + WordBytes(bits[i]);
      }
      assert bits[..bits.Length] == bits[..];
      file.data := buf;
    }

    method CountComplete() returns (count: nat)
      requires Valid()
      ensures count == |Indices()| <==> PaddingClear(bits[..], total)
    {
      hide Ones;
      count := 0;
      for i := 0 to bits.Length
        invariant count == CountWords(bits[..i])
      {
        assert bits[..i + 1][..i] == bits[..i];
        count := count + Ones(bits[i], 64);
      }
      assert bits[..bits.Length] == bits[..];
      CountIsExactWhenPaddingClear(bits[..], total);
    }
  }

  method LoadBitmap(file: BitmapFile) returns (loaded: Option<ChunkBitmap>)
    ensures Load(file.data).Rejected? <==> loaded.None?
    ensures loaded.Some? ==> loaded.value.Valid() && loaded.value.file == file && fresh(loaded.value)
    ensures loaded.Some? ==> Load(file.data) == Loaded(loaded.value.bits[..], loaded.value.total)
  {
    hide BytesU32, BytesWord;
    var data := file.data;
    if |data| < 8 {
      return None;
    }
    if BytesU32(data[..4]) != MAGIC {
      return None;
    }
    var total := BytesU32(data[4..8]);
    var count := WordCount(total);
    if |data| < 8 + count * 8 {
      return None;
    }
    var words: seq<bv64> := [];
    for i := 0 to count
      invariant words == WordsAt(data[8..8 + 8 * count], i)
    {
      SliceOfSlice(data, 8, 8 * count, 8 * i, 8 * i + 8);
      words := words + [BytesWord(data[8 + i * 8..8 + i * 8 + 8])];
    }
    var b := new ChunkBitmap.FromWords(file, words, total);
    return Some(b);
  }
}
