/** Writers that fill one chunk's range of an output file: from the old file or
    from a compressed chunk. Reads may be short, any call may fail, and a failed
    write may leave a part behind; a writer that reports success has put exactly
    the chunk's bytes in place and compared the digest it had to compare. A call that is
    made `calm` meets no input/output error, so that it fails only for what is wrong with
    the chunk. */
module RangeWriter {
  import opened Hex

  /** `WindowTooSmall` is the decoder's refusal of a frame, raised on its first read. */
  datatype Error =
    | Io
    | WindowTooSmall
    | SizeMismatch(expected: nat, actual: nat)
    | Md5Mismatch
    | PathTraversal

  datatype Outcome = Wrote(bytes: nat) | Failed(error: Error)

  const FILE_WRITE_BUFFER_SIZE := 256 * 1024
  const ASSEMBLY_BUFFER_SIZE := 1024 * 1024
  const ONESHOT_MAX_SIZE := 64 * 1024 * 1024
  const MMA_THRESHOLD := 1024 * 1024

  // ---------------------------------------------------------------------------
  // Files
  // ---------------------------------------------------------------------------

  /** A file after `bytes` were written at `at`; a gap before them reads as zeros. */
  function Splice(data: seq<Byte>, at: nat, bytes: seq<Byte>): (r: seq<Byte>)
    ensures bytes == [] ==> r == data
    ensures bytes != [] ==> |r| == if at + |bytes| > |data| then at + |bytes| else |data|
    ensures forall i :: 0 <= i < |r| ==>
      r[i] == if at <= i < at + |bytes| then bytes[i - at] else if i < |data| then data[i] else 0
  {
    if bytes == [] then data
    else
      var padded := if at > |data| then data + seq(at - |data|, _ => 0) else data;
      padded[..at] + bytes + if at + |bytes| < |padded| then padded[at + |bytes|..] else []
  }

  lemma {:induction false} SpliceContinues(data: seq<Byte>, at: nat, a: seq<Byte>, b: seq<Byte>)
    ensures Splice(Splice(data, at, a), at + |a|, b) == Splice(data, at, a + b)
  {
    if a == [] {
      assert a + b == b;
    } else if b == [] {
      assert a + b == a;
    }
  }

  /** Bytes at least as long cover what was written there before. */
  lemma {:induction false} SpliceCovers(data: seq<Byte>, at: nat, a: seq<Byte>, b: seq<Byte>)
    requires |a| <= |b|
    ensures Splice(Splice(data, at, a), at, b) == Splice(data, at, b)
  {
  }

  lemma {:induction false} SpliceOver(data: seq<Byte>, at: nat, a: seq<Byte>, b: seq<Byte>)
    requires |b| < |a|
    ensures Splice(Splice(data, at, a), at, b) == Splice(data, at, b + a[|b|..])
  {
  }

  class OutFile {
    var data: seq<Byte>

    constructor (size: nat)
      ensures data == seq(size, _ => 0)
    {
      data := seq(size, _ => 0);
    }

    /** A failing call may have written a part. */
    method WriteAllAt(bytes: seq<Byte>, at: nat, calm: bool) returns (ok: bool)
      modifies this
      ensures calm ==> ok
      ensures ok ==> data == Splice(old(data), at, bytes)
      ensures !ok ==> exists k :: 0 <= k <= |bytes| && data == Splice(old(data), at, bytes[..k])
    {
      var k := |bytes|;
      if !calm {
        k :| 0 <= k <= |bytes|;
      }
      data := Splice(data, at, bytes[..k]);
      ok := k == |bytes|;
      assert ok ==> bytes[..k] == bytes;
    }
  }

  class Md5 {
    var fed: seq<Byte>

    constructor ()
      ensures fed == []
    {
      fed := [];
    }

    method Update(bytes: seq<Byte>)
      modifies this
      ensures fed == old(fed) + bytes
    {
      fed := fed + bytes;
    }
  }

  /** Positioned read: short unless at the end, and possibly failing. */
  method ReadAt(source: seq<Byte>, at: nat, len: nat, calm: bool) returns (ok: bool, bytes: seq<Byte>)
    requires len > 0
    ensures calm ==> ok
    ensures ok ==> |bytes| <= len && at + |bytes| <= (if at > |source| then at else |source|)
    ensures ok ==> (bytes == [] <==> at >= |source|)
    ensures ok ==> bytes == if at <= |source| then source[at..at + |bytes|] else []
  {
    if !calm {
      if * {
        return false, [];
      }
    }
    if at >= |source| {
      return true, [];
    }
    var n: nat :| 0 < n <= len && at + n <= |source|;
    return true, source[at..at + n];
  }

  // ---------------------------------------------------------------------------
  // What a writer promises
  // ---------------------------------------------------------------------------

  ghost predicate IsDigest(digest: seq<Byte> -> seq<Byte>) {
    forall s :: |digest(s)| == DIGEST_LENGTH
  }

  ghost predicate Matches(digest: seq<Byte> -> seq<Byte>, bytes: seq<Byte>, expected: seq<Byte>) {
    Lower(expected) == Encode(digest(bytes))
  }

  ghost predicate ConfinedTo(before: seq<Byte>, after: seq<Byte>, at: nat, limit: nat) {
    exists bytes: seq<Byte> :: |bytes| <= limit && after == Splice(before, at, bytes)
  }

  function Max(a: nat, b: nat): nat {
    if a > b then a else b
  }

  /** `source` is all the bytes the chunk's source yields and `size` the bytes the manifest
      promises. Success means that they agree, that the range holds them and that a
      required digest matched; failure leaves a part behind, never before the range. */
  ghost predicate Delivered(
      digest: seq<Byte> -> seq<Byte>, before: seq<Byte>, after: seq<Byte>, at: nat,
      source: seq<Byte>, size: nat, expected: seq<Byte>, r: Outcome)
  {
    match r
    case Wrote(n) =>
      && n == size == |source|
      && after == Splice(before, at, source)
      && (HashRequired(expected) ==> Matches(digest, source, expected))
    case Failed(e) =>
      && ConfinedTo(before, after, at, Max(size, |source|)) && !e.PathTraversal?
      && (e.SizeMismatch? ==> |source| != size && e.expected == size && e.actual == |source|)
      && (e.Md5Mismatch? ==> |source| == size && HashRequired(expected) && !Matches(digest, source, expected))
  }

  /** What delivery means for the digest, character by character: a text of 32 characters that
      are not all '0' is compared, so that a chunk of another digest than the one it spells is
      never accepted, and no other text is. */
  lemma {:induction false} DeliveredIsCompared(
      digest: seq<Byte> -> seq<Byte>, before: seq<Byte>, after: seq<Byte>, at: nat,
      source: seq<Byte>, size: nat, expected: seq<Byte>, r: Outcome)
    requires IsDigest(digest) && Delivered(digest, before, after, at, source, size, expected, r)
    ensures r.Wrote? && |expected| == 32 && (exists i :: 0 <= i < 32 && expected[i] != '0' as int) ==>
              Lower(expected) == Encode(digest(source))
    ensures r == Failed(Md5Mismatch) ==> |expected| == 32 && exists i :: 0 <= i < 32 && expected[i] != '0' as int
    ensures r.Wrote? && (exists i :: 0 <= i < |expected| && expected[i] != '0' as int) ==>
              forall e :: |e| == 16 && expected == Encode(e) ==> e == digest(source)
  {
    hide Splice, ConfinedTo;
    if r.Wrote? && exists i :: 0 <= i < |expected| && expected[i] != '0' as int {
      forall e | |e| == 16 && expected == Encode(e) ensures e == digest(source) {
        ExpectedNamesOneDigest(e, digest(source), expected);
      }
    }
  }

  /** What the old file holds of a reused range: it may end early. */
  function OldBytes(oldFile: seq<Byte>, at: nat, size: nat): (r: seq<Byte>)
    ensures |r| <= size
    ensures |r| == size <==> at + size <= |oldFile| || size == 0
    ensures at + size > |oldFile| ==> |r| == if |oldFile| > at then |oldFile| - at else 0
  {
    if at >= |oldFile| then []
    else if at + size <= |oldFile| then oldFile[at..at + size]
    else oldFile[at..]
  }

  method DigestMatches(digest: seq<Byte> -> seq<Byte>, bytes: seq<Byte>, expected: seq<Byte>) returns (ok: bool)
    requires IsDigest(digest)
    ensures ok <==> Matches(digest, bytes, expected)
  {
    ok := Md5HexEq(digest(bytes), expected);
  }

  // ---------------------------------------------------------------------------
  // One piece
  // ---------------------------------------------------------------------------

  ghost function Fed(hasher: Md5?): seq<Byte>
    reads hasher
  {
    if hasher == null then [] else hasher.fed
  }

  /** Part of `source` has been written at `at` and, if there is a hasher, fed to it. */
  ghost predicate Along(before: seq<Byte>, after: seq<Byte>, at: nat, source: seq<Byte>, written: nat) {
    written <= |source| && after == Splice(before, at, source[..written])
  }

  ghost predicate FedAlong(hasher: Md5?, fed: seq<Byte>, source: seq<Byte>, written: nat)
    reads hasher
  {
    hasher != null ==> written <= |source| && hasher.fed == fed + source[..written]
  }

  lemma {:induction false} TakeMore(fed: seq<Byte>, source: seq<Byte>, written: nat, bytes: seq<Byte>)
    requires written + |bytes| <= |source| && bytes == source[written..written + |bytes|]
    ensures fed + source[..written] + bytes == fed + source[..written + |bytes|]
    ensures source[..written] + bytes == source[..written + |bytes|]
  {
  }

  lemma {:induction false} AlongContinues(before: seq<Byte>, after: seq<Byte>, at: nat, source: seq<Byte>, written: nat, bytes: seq<Byte>)
    requires Along(before, after, at, source, written)
    requires written + |bytes| <= |source| && bytes == source[written..written + |bytes|]
    ensures Along(before, Splice(after, at + written, bytes), at, source, written + |bytes|)
  {
    hide Splice;
    TakeMore([], source, written, bytes);
    SpliceContinues(before, at, source[..written], bytes);
  }

  lemma {:induction false} AlongStart(before: seq<Byte>, at: nat, source: seq<Byte>)
    ensures Along(before, before, at, source, 0)
  {
    assert source[..0] == [];
  }

  lemma {:induction false} AlongIsConfined(before: seq<Byte>, after: seq<Byte>, at: nat, source: seq<Byte>, written: nat, limit: nat)
    requires Along(before, after, at, source, written) && |source| <= limit
    ensures ConfinedTo(before, after, at, limit)
  {
    assert |source[..written]| <= limit;
  }

  /** Hash a piece, then write it, as every copying loop does. A failing write leaves
      the output within the range. */
  method Deliver(
      out: OutFile, hasher: Md5?, bytes: seq<Byte>, at: nat,
      ghost before: seq<Byte>, ghost fed: seq<Byte>, ghost source: seq<Byte>, written: nat, calm: bool) returns (ok: bool)
    requires Along(before, out.data, at, source, written) && FedAlong(hasher, fed, source, written)
    requires written + |bytes| <= |source| && bytes == source[written..written + |bytes|]
    modifies out, hasher
    ensures ok ==> Along(before, out.data, at, source, written + |bytes|)
    ensures ok ==> FedAlong(hasher, fed, source, written + |bytes|)
    ensures !ok ==> ConfinedTo(before, out.data, at, |source|)
    ensures calm ==> ok
  {
    hide Splice, Along;
    ghost var was := out.data;
    if hasher != null {
      hasher.Update(bytes);
      TakeMore(fed, source, written, bytes);
    }
    ok := out.WriteAllAt(bytes, at + written, calm);
    if ok {
      AlongContinues(before, was, at, source, written, bytes);
    } else {
      ghost var k :| 0 <= k <= |bytes| && out.data == Splice(was, at + written, bytes[..k]);
      AlongContinues(before, was, at, source, written, bytes[..k]);
      AlongIsConfined(before, out.data, at, source, written + k, |source|);
    }
  }

  /** The checks after the last piece: the size, then a required digest. */
  method Conclude(
      digest: seq<Byte> -> seq<Byte>, ghost before: seq<Byte>, ghost after: seq<Byte>, ghost at: nat,
      ghost source: seq<Byte>, written: nat, size: nat, chunk: seq<Byte>, expected: seq<Byte>) returns (r: Outcome)
    requires IsDigest(digest) && written == |source|
    requires Along(before, after, at, source, |source|) && (HashRequired(expected) ==> chunk == source)
    ensures Delivered(digest, before, after, at, source, size, expected, r)
    ensures r.Failed? ==> !r.error.Io? && !r.error.WindowTooSmall?
  {
    hide Splice, HashRequired, Matches;
    assert source[..|source|] == source;
    AlongIsConfined(before, after, at, source, |source|, Max(size, |source|));
    if written != size {
      return Failed(SizeMismatch(size, written));
    }
    if HashRequired(expected) {
      var same := DigestMatches(digest, chunk, expected);
      if !same {
        return Failed(Md5Mismatch);
      }
    }
    return Wrote(written);
  }

  // ---------------------------------------------------------------------------
  // From the old file
  // ---------------------------------------------------------------------------

  lemma {:induction false} OldPiece(oldFile: seq<Byte>, at: nat, size: nat, written: nat, n: nat)
    requires written + n <= size && at + written + n <= |oldFile|
    ensures written + n <= |OldBytes(oldFile, at, size)|
    ensures oldFile[at + written..at + written + n] == OldBytes(oldFile, at, size)[written..written + n]
  {
  }

  lemma {:induction false} OldEnd(oldFile: seq<Byte>, at: nat, size: nat, written: nat)
    requires written <= |OldBytes(oldFile, at, size)| && (written == size || at + written >= |oldFile|)
    ensures written == |OldBytes(oldFile, at, size)|
  {
  }

  /** Small chunks: read and write piece by piece until the size is reached or the file ends. */
  method CopySmall(
      digest: seq<Byte> -> seq<Byte>, oldFile: seq<Byte>, out: OutFile, newOffset: nat, oldOffset: nat,
      size: nat, hasher: Md5?, expected: seq<Byte>, calm: bool) returns (r: Outcome)
    requires IsDigest(digest)
    modifies out, hasher
    ensures Delivered(digest, old(out.data), out.data, newOffset, OldBytes(oldFile, oldOffset, size), size, expected, r)
    ensures r.Wrote? ==> FedAlong(hasher, old(Fed(hasher)), OldBytes(oldFile, oldOffset, size), size)
    ensures calm && r.Failed? ==> !r.error.Io? && !r.error.WindowTooSmall?
  {
    hide Splice, Along, HashRequired, Matches, OldBytes;
    ghost var source := OldBytes(oldFile, oldOffset, size);
    var needed := HashRequired(expected);
    var chunk: seq<Byte> := [];
    var written, remaining := 0, size;
    AlongStart(out.data, newOffset, source);
    while remaining > 0
      invariant written + remaining == size && written <= |source|
      invariant Along(old(out.data), out.data, newOffset, source, written)
      invariant FedAlong(hasher, old(Fed(hasher)), source, written)
      invariant needed ==> chunk == source[..written]
      decreases remaining
    {
      var toRead := if remaining < FILE_WRITE_BUFFER_SIZE then remaining else FILE_WRITE_BUFFER_SIZE;
      var ok, bytes := ReadAt(oldFile, oldOffset + written, toRead, calm);
      if !ok {
        AlongIsConfined(old(out.data), out.data, newOffset, source, written, Max(size, |source|));
        return Failed(Io);
      }
      if bytes == [] {
        break;
      }
      OldPiece(oldFile, oldOffset, size, written, |bytes|);
      TakeMore([], source, written, bytes);
      if needed {
        chunk := chunk + bytes;
      }
      ok := Deliver(out, hasher, bytes, newOffset, old(out.data), old(Fed(hasher)), source, written, calm);
      if !ok {
        return Failed(Io);
      }
      written, remaining := written + |bytes|, remaining - |bytes|;
    }
    OldEnd(oldFile, oldOffset, size, written);
    assert source[..written] == source;
    r := Conclude(digest, old(out.data), out.data, newOffset, source, written, size, chunk, expected);
  }

  /** The kernel's range copy: any number of bytes each time, until done or the file ends. */
  method CopyRange(oldFile: seq<Byte>, out: OutFile, newOffset: nat, oldOffset: nat, size: nat, calm: bool)
    returns (ok: bool, copied: nat)
    modifies out
    ensures calm ==> ok
    ensures ok ==> copied == |OldBytes(oldFile, oldOffset, size)|
    ensures ok ==> Along(old(out.data), out.data, newOffset, OldBytes(oldFile, oldOffset, size), copied)
    ensures !ok ==> ConfinedTo(old(out.data), out.data, newOffset, size)
  {
    hide Splice, Along, OldBytes;
    ghost var source := OldBytes(oldFile, oldOffset, size);
    copied := 0;
    AlongStart(out.data, newOffset, source);
    while copied < size
      invariant copied <= |source|
      invariant Along(old(out.data), out.data, newOffset, source, copied)
    {
      var got, bytes := ReadAt(oldFile, oldOffset + copied, size - copied, calm);
      if !got {
        AlongIsConfined(old(out.data), out.data, newOffset, source, copied, size);
        return false, copied;
      }
      if bytes == [] {
        break;
      }
      OldPiece(oldFile, oldOffset, size, copied, |bytes|);
      var put := Deliver(out, null, bytes, newOffset, old(out.data), [], source, copied, calm);
      if !put {
        ConfinedMore(old(out.data), out.data, newOffset, |source|, size);
        return false, copied;
      }
      copied := copied + |bytes|;
    }
    OldEnd(oldFile, oldOffset, size, copied);
    ok := true;
  }

  lemma {:induction false} ConfinedMore(before: seq<Byte>, after: seq<Byte>, at: nat, limit: nat, more: nat)
    requires ConfinedTo(before, after, at, limit) && limit <= more
    ensures ConfinedTo(before, after, at, more)
  {
  }

  /** Large chunks: a range copy when nothing has to be hashed, otherwise the bounds are
      checked before anything is written and the range is streamed. */
  method CopyLarge(
      digest: seq<Byte> -> seq<Byte>, oldFile: seq<Byte>, out: OutFile, newOffset: nat, oldOffset: nat,
      size: nat, hasher: Md5?, expected: seq<Byte>, calm: bool) returns (r: Outcome)
    requires IsDigest(digest) && size > 0
    modifies out, hasher
    ensures Delivered(digest, old(out.data), out.data, newOffset, OldBytes(oldFile, oldOffset, size), size, expected, r)
    ensures r.Wrote? ==> FedAlong(hasher, old(Fed(hasher)), OldBytes(oldFile, oldOffset, size), size)
    ensures calm && r.Failed? ==> !r.error.Io? && !r.error.WindowTooSmall?
    ensures (hasher != null || HashRequired(expected)) && oldOffset + size > |oldFile| ==>
              r.Failed? && out.data == old(out.data) && Fed(hasher) == old(Fed(hasher))
  {
    hide Splice, Along, HashRequired, Matches, OldBytes;
    ghost var source := OldBytes(oldFile, oldOffset, size);
    var needed := HashRequired(expected);
    if hasher == null && !needed {
      var copied;
      var ok;
      ok, copied := CopyRange(oldFile, out, newOffset, oldOffset, size, calm);
      if !ok {
        return Failed(Io);
      }
      r := Conclude(digest, old(out.data), out.data, newOffset, source, copied, size, [], expected);
      return;
    }
    AlongStart(out.data, newOffset, source);
    if oldOffset + size > |oldFile| {
      AlongIsConfined(old(out.data), out.data, newOffset, source, 0, Max(size, |source|));
      return Failed(SizeMismatch(size, if |oldFile| > oldOffset then |oldFile| - oldOffset else 0));
    }
    var chunk: seq<Byte> := [];
    var remaining := size;
    while remaining > 0
      invariant remaining <= size && size - remaining <= |source|
      invariant Along(old(out.data), out.data, newOffset, source, size - remaining)
      invariant FedAlong(hasher, old(Fed(hasher)), source, size - remaining)
      invariant needed ==> chunk == source[..size - remaining]
      decreases remaining
    {
      var toRead := if remaining < ASSEMBLY_BUFFER_SIZE then remaining else ASSEMBLY_BUFFER_SIZE;
      var written := size - remaining;
      var ok, bytes := ReadAt(oldFile, oldOffset + written, toRead, calm);
      if !ok {
        AlongIsConfined(old(out.data), out.data, newOffset, source, written, Max(size, |source|));
        return Failed(Io);
      }
      if bytes == [] {
        break;
      }
      OldPiece(oldFile, oldOffset, size, written, |bytes|);
      TakeMore([], source, written, bytes);
      if needed {
        chunk := chunk + bytes;
      }
      ok := Deliver(out, hasher, bytes, newOffset, old(out.data), old(Fed(hasher)), source, written, calm);
      if !ok {
        return Failed(Io);
      }
      remaining := remaining - |bytes|;
    }
    OldEnd(oldFile, oldOffset, size, size - remaining);
    assert source[..size - remaining] == source;
    r := Conclude(digest, old(out.data), out.data, newOffset, source, size - remaining, size, chunk, expected);
  }

  method WriteFromOldFile(
      digest: seq<Byte> -> seq<Byte>, oldFile: seq<Byte>, out: OutFile, newOffset: nat, oldOffset: nat,
      size: nat, hasher: Md5?, expected: seq<Byte>, calm: bool) returns (r: Outcome)
    requires IsDigest(digest)
    modifies out, hasher
    ensures Delivered(digest, old(out.data), out.data, newOffset, OldBytes(oldFile, oldOffset, size), size, expected, r)
    ensures r.Wrote? ==> FedAlong(hasher, old(Fed(hasher)), OldBytes(oldFile, oldOffset, size), size)
    ensures calm && r.Failed? ==> !r.error.Io? && !r.error.WindowTooSmall?
    ensures r.Wrote? && |expected| == 32 && (exists i :: 0 <= i < 32 && expected[i] != '0' as int) ==>
              Lower(expected) == Encode(digest(OldBytes(oldFile, oldOffset, size)))
    ensures r == Failed(Md5Mismatch) ==> |expected| == 32 && exists i :: 0 <= i < 32 && expected[i] != '0' as int
    ensures r.Wrote? && (exists i :: 0 <= i < |expected| && expected[i] != '0' as int) ==>
              forall e :: |e| == 16 && expected == Encode(e) ==> e == digest(OldBytes(oldFile, oldOffset, size))
  {
    hide Delivered, OldBytes;
    if size >= MMA_THRESHOLD {
      r := CopyLarge(digest, oldFile, out, newOffset, oldOffset, size, hasher, expected, calm);
    } else {
      r := CopySmall(digest, oldFile, out, newOffset, oldOffset, size, hasher, expected, calm);
    }
    DeliveredIsCompared(digest, old(out.data), out.data, newOffset, OldBytes(oldFile, oldOffset, size), size, expected, r);
  }

  // ---------------------------------------------------------------------------
  // From a compressed chunk
  // ---------------------------------------------------------------------------

  const MIN_WINDOW_LOG := 10
  const MAX_WINDOW_LOG := 26

  function Pow2(n: nat): (r: nat)
    ensures r > 0
  {
    if n == 0 then 1 else 2 * Pow2(n - 1)
  }

  /** The exponent of the next power of two. */
  function CeilLog(n: nat): nat {
    if n <= 1 then 0 else 1 + CeilLog((n + 1) / 2)
  }

  /** The window that a frame of so many bytes is first tried with. */
  function WindowLogFor(size: nat): nat {
    var log := CeilLog(size);
    if log < MIN_WINDOW_LOG then MIN_WINDOW_LOG else if log > MAX_WINDOW_LOG then MAX_WINDOW_LOG else log
  }

  lemma {:induction false} CeilLogIsLeast(n: nat)
    ensures n <= Pow2(CeilLog(n)) && (CeilLog(n) > 0 ==> Pow2(CeilLog(n) - 1) < n)
  {
    if n > 1 {
      CeilLogIsLeast((n + 1) / 2);
    }
  }

  /** The first window is the least power of two that holds the chunk, but at least 2^10 bytes
      and at most 2^26. */
  lemma {:induction false} WindowIsLeast(size: nat, log: nat)
    ensures 10 <= WindowLogFor(size) <= 26
    ensures size <= Pow2(26) ==> size <= Pow2(WindowLogFor(size))
    ensures 10 <= log <= 26 && size <= Pow2(log) ==> WindowLogFor(size) <= log
  {
    CeilLogIsLeast(size);
    var least := CeilLog(size);
    if least > 26 {
      PowersGrow(26, least - 1);
    } else if least < 10 {
      PowersGrow(least, 10);
    }
    if least > log {
      PowersGrow(log, least - 1);
    }
  }

  lemma {:induction false} PowersGrow(m: nat, n: nat)
    requires m <= n
    ensures Pow2(m) <= Pow2(n)
  {
    if m < n {
      PowersGrow(m, n - 1);
    }
  }

  datatype ReadResult = Got(bytes: seq<Byte>) | Broken | Refused

  /** A streaming decoder, with windows of up to 2^`windowLog` bytes, over a chunk that decodes
      to `plain` and whose frame needs a window of 2^`frameLog`. */
  class Decoder {
    const plain: seq<Byte>
    const frameLog: nat
    const windowLog: nat
    var at: nat

    constructor (plain: seq<Byte>, frameLog: nat, windowLog: nat)
      ensures this.plain == plain && this.frameLog == frameLog && this.windowLog == windowLog && at == 0
    {
      this.plain, this.frameLog, this.windowLog, at := plain, frameLog, windowLog, 0;
    }

    /** A refused window surfaces on the first read, before any byte comes out. */
    method Read(len: nat, calm: bool) returns (r: ReadResult)
      requires len > 0 && at <= |plain| && (at > 0 ==> frameLog <= windowLog)
      modifies this
      ensures r.Refused? ==> old(at) == 0 && frameLog > windowLog
      ensures r.Got? ==> frameLog <= windowLog
      ensures r.Broken? ==> !calm
      ensures r.Got? ==> at == old(at) + |r.bytes| <= |plain| && r.bytes == plain[old(at)..at]
      ensures r.Got? ==> (r.bytes == [] <==> old(at) == |plain|)
    {
      if !calm {
        if * {
          return Broken;
        }
      }
      if frameLog > windowLog {
        return Refused;
      }
      if at == |plain| {
        return Got([]);
      }
      var n: nat :| 0 < n <= len && at + n <= |plain|;
      r := Got(plain[at..at + n]);
      at := at + n;
    }
  }

  /** Stream the whole decoded chunk, even past the promised size; check the size after. */
  method DecompressStreaming(
      digest: seq<Byte> -> seq<Byte>, plain: seq<Byte>, out: OutFile, offset: nat,
      size: nat, hasher: Md5?, expected: seq<Byte>, frameLog: nat, windowLog: nat, calm: bool) returns (r: Outcome)
    requires IsDigest(digest)
    modifies out, hasher
    ensures Delivered(digest, old(out.data), out.data, offset, plain, size, expected, r)
    ensures r.Wrote? ==> FedAlong(hasher, old(Fed(hasher)), plain, size)
    ensures calm && r.Failed? ==> !r.error.Io?
    ensures frameLog > windowLog ==> r.Failed? && (r.error.Io? || r.error.WindowTooSmall?)
    ensures r == Failed(WindowTooSmall) ==> frameLog > windowLog
    ensures r == Failed(WindowTooSmall) ==> out.data == old(out.data) && Fed(hasher) == old(Fed(hasher))
  {
    hide Splice, Along, HashRequired, Matches;
    if !calm {
      if * {
        AlongStart(out.data, offset, plain);
        AlongIsConfined(out.data, out.data, offset, plain, 0, Max(size, |plain|));
        return Failed(Io);
      }
    }
    var decoder := new Decoder(plain, frameLog, windowLog);
    var needed := HashRequired(expected);
    var chunk: seq<Byte> := [];
    var written := 0;
    AlongStart(out.data, offset, plain);
    while true
      invariant decoder.frameLog == frameLog && decoder.windowLog == windowLog && (written > 0 ==> frameLog <= windowLog)
      invariant decoder.plain == plain && decoder.at == written <= |plain| && fresh(decoder)
      invariant written == 0 ==> out.data == old(out.data) && Fed(hasher) == old(Fed(hasher))
      invariant Along(old(out.data), out.data, offset, plain, written)
      invariant FedAlong(hasher, old(Fed(hasher)), plain, written)
      invariant needed ==> chunk == plain[..written]
      decreases |plain| - written
    {
      var got := decoder.Read(ASSEMBLY_BUFFER_SIZE, calm);
      if !got.Got? {
        AlongIsConfined(old(out.data), out.data, offset, plain, written, Max(size, |plain|));
        return Failed(if got.Refused? then WindowTooSmall else Io);
      }
      if got.bytes == [] {
        break;
      }
      TakeMore([], plain, written, got.bytes);
      if needed {
        chunk := chunk + got.bytes;
      }
      var ok := Deliver(out, hasher, got.bytes, offset, old(out.data), old(Fed(hasher)), plain, written, calm);
      if !ok {
        ConfinedMore(old(out.data), out.data, offset, |plain|, Max(size, |plain|));
        return Failed(Io);
      }
      written := written + |got.bytes|;
    }
    assert plain[..written] == plain;
    r := Conclude(digest, old(out.data), out.data, offset, plain, written, size, chunk, expected);
  }

  /** Decode straight into the mapped range. A failing decoder leaves anything there, but
      nothing outside it and nothing in the file's hasher. */
  method DecompressOneshot(
      digest: seq<Byte> -> seq<Byte>, plain: seq<Byte>, out: OutFile, offset: nat,
      size: nat, hasher: Md5?, expected: seq<Byte>, calm: bool) returns (r: Outcome)
    requires IsDigest(digest) && size > 0
    modifies out, hasher
    ensures Delivered(digest, old(out.data), out.data, offset, plain, size, expected, r)
    ensures r.Wrote? ==> FedAlong(hasher, old(Fed(hasher)), plain, size)
    ensures calm && |plain| <= size && r.Failed? ==> !r.error.Io?
    ensures r.Failed? ==> ConfinedTo(old(out.data), out.data, offset, size) && Fed(hasher) == old(Fed(hasher))
    ensures r.Failed? ==> r.error.Io? || r.error.SizeMismatch? || r.error.Md5Mismatch?
  {
    hide Splice, HashRequired, Matches;
    var junk: seq<Byte> := *;
    if |junk| > size {
      junk := [];
    }
    if * {
      junk := [];
    }
    out.data := Splice(out.data, offset, junk);
    SpliceIsConfined(old(out.data), offset, junk, size);
    ConfinedMore(old(out.data), out.data, offset, size, Max(size, |plain|));
    if |plain| > size {
      return Failed(Io);
    }
    if !calm {
      if * {
        return Failed(Io);
      }
    }
    SpliceCoversOrLeaves(old(out.data), offset, junk, plain, size);
    out.data := Splice(out.data, offset, plain);
    ConfinedMore(old(out.data), out.data, offset, size, Max(size, |plain|));
    if |plain| != size {
      return Failed(SizeMismatch(size, |plain|));
    }
    SpliceCovers(old(out.data), offset, junk, plain);
    if HashRequired(expected) {
      var same := DigestMatches(digest, plain, expected);
      if !same {
        return Failed(Md5Mismatch);
      }
    }
    if hasher != null {
      hasher.Update(plain);
    }
    assert plain[..size] == plain;
    return Wrote(size);
  }

  lemma {:induction false} SpliceCoversOrLeaves(data: seq<Byte>, at: nat, a: seq<Byte>, b: seq<Byte>, limit: nat)
    requires |a| <= limit && |b| <= limit
    ensures ConfinedTo(data, Splice(Splice(data, at, a), at, b), at, limit)
  {
    if |a| <= |b| {
      SpliceCovers(data, at, a, b);
    } else {
      SpliceOver(data, at, a, b);
      assert |b + a[|b|..]| <= limit;
    }
  }

  /** A first attempt that stayed within the range does not show in the second one. */
  lemma {:induction false} SecondAttempt(
      digest: seq<Byte> -> seq<Byte>, before: seq<Byte>, mid: seq<Byte>, after: seq<Byte>, at: nat,
      source: seq<Byte>, size: nat, expected: seq<Byte>, r: Outcome)
    requires ConfinedTo(before, mid, at, size) && Delivered(digest, mid, after, at, source, size, expected, r)
    ensures Delivered(digest, before, after, at, source, size, expected, r)
  {
    hide Splice, HashRequired, Matches;
    var junk: seq<Byte> :| |junk| <= size && mid == Splice(before, at, junk);
    match r
    case Wrote(_) => SpliceCovers(before, at, junk, source);
    case Failed(_) =>
      var bytes: seq<Byte> :| |bytes| <= Max(size, |source|) && after == Splice(mid, at, bytes);
      SpliceCoversOrLeaves(before, at, junk, bytes, Max(size, |source|));
  }

  /** One-shot for moderate sizes, then streaming with the tight window, then with the widest one;
      a mismatch is final. A calm call meets an accident only if the frame needs more than the
      widest window, and a chunk that is too large for one shot, or empty, then always does. */
  method DecompressChunk(
      digest: seq<Byte> -> seq<Byte>, plain: seq<Byte>, out: OutFile, offset: nat,
      size: nat, hasher: Md5?, expected: seq<Byte>, frameLog: nat, calm: bool) returns (r: Outcome)
    requires IsDigest(digest)
    modifies out, hasher
    ensures Delivered(digest, old(out.data), out.data, offset, plain, size, expected, r)
    ensures r.Wrote? ==> FedAlong(hasher, old(Fed(hasher)), plain, size)
    ensures calm && frameLog <= 26 && r.Failed? ==> !r.error.Io? && !r.error.WindowTooSmall?
    ensures calm && frameLog > 26 && (size == 0 || size > 0x400_0000) ==> r == Failed(WindowTooSmall)
    ensures r.Wrote? && |expected| == 32 && (exists i :: 0 <= i < 32 && expected[i] != '0' as int) ==>
              Lower(expected) == Encode(digest(plain))
    ensures r == Failed(Md5Mismatch) ==> |expected| == 32 && exists i :: 0 <= i < 32 && expected[i] != '0' as int
    ensures r.Wrote? && (exists i :: 0 <= i < |expected| && expected[i] != '0' as int) ==>
              forall e :: |e| == 16 && expected == Encode(e) ==> e == digest(plain)
  {
    hide Delivered, WindowLogFor, Pow2;
    AnythingIsConfined(out.data, offset, size);
    if 0 < size <= ONESHOT_MAX_SIZE {
      r := DecompressOneshot(digest, plain, out, offset, size, hasher, expected, calm);
      if r.Wrote? || r.error.Md5Mismatch? || r.error.SizeMismatch? {
        DeliveredIsCompared(digest, old(out.data), out.data, offset, plain, size, expected, r);
        return;
      }
    }
    ghost var mid := out.data;
    var tight := WindowLogFor(size);
    WindowIsLeast(size, 26);
    r := DecompressStreaming(digest, plain, out, offset, size, hasher, expected, frameLog, tight, calm);
    SecondAttempt(digest, old(out.data), mid, out.data, offset, plain, size, expected, r);
    if r == Failed(WindowTooSmall) {
      r := DecompressStreaming(digest, plain, out, offset, size, hasher, expected, frameLog, MAX_WINDOW_LOG, calm);
      SecondAttempt(digest, old(out.data), mid, out.data, offset, plain, size, expected, r);
    }
    DeliveredIsCompared(digest, old(out.data), out.data, offset, plain, size, expected, r);
  }

  lemma {:induction false} SpliceIsConfined(data: seq<Byte>, at: nat, bytes: seq<Byte>, limit: nat)
    requires |bytes| <= limit
    ensures ConfinedTo(data, Splice(data, at, bytes), at, limit)
  {
  }

  lemma {:induction false} AnythingIsConfined(data: seq<Byte>, at: nat, limit: nat)
    ensures ConfinedTo(data, data, at, limit)
  {
    assert data == Splice(data, at, []);
  }

  // ---------------------------------------------------------------------------
  // Eagerly, from the downloaded bytes
  // ---------------------------------------------------------------------------

  /** What an eager chunk needs of its content: it cannot be empty, it has the promised size,
      and a text of 32 characters that are not all '0' spells its digest. */
  ghost predicate EagerAccepts(digest: seq<Byte> -> seq<Byte>, plain: seq<Byte>, size: nat, expected: seq<Byte>) {
    && |plain| == size > 0
    && (|expected| == 32 && (exists i :: 0 <= i < 32 && expected[i] != '0' as int) ==>
          Lower(expected) == Encode(digest(plain)))
  }

  /** The digest of the compressed bytes: of 32 characters an MD5, of 16 an XXH64, and a text of
      any other length is not looked at. */
  ghost predicate CompressedAccepts(
      digest: seq<Byte> -> seq<Byte>, xxh64: seq<Byte> -> nat, compressed: seq<Byte>, expected: seq<Byte>)
  {
    && (|expected| == 32 ==> Lower(expected) == Encode(digest(compressed)))
    && (|expected| == 16 ==> Lower(expected) == HexText(xxh64(compressed), 16))
  }

  ghost predicate IsXxh64(xxh64: seq<Byte> -> nat) {
    forall s :: xxh64(s) < 0x1_0000_0000_0000_0000
  }

  method CompressedMatches(
      digest: seq<Byte> -> seq<Byte>, xxh64: seq<Byte> -> nat, compressed: seq<Byte>, expected: seq<Byte>)
    returns (ok: bool)
    requires IsDigest(digest) && IsXxh64(xxh64)
    ensures ok <==> CompressedAccepts(digest, xxh64, compressed, expected)
  {
    ok := true;
    if |expected| == 32 {
      ok := Md5HexEq(digest(compressed), expected);
    } else if |expected| == 16 {
      ok := Xxh64HexEq(xxh64(compressed), expected);
    }
  }

  /** Check the compressed digest, map the range, decode straight into it, check size and
      digest. Nothing is written unless the compressed digest holds, nothing ever outside the
      range, and short of an accident the chunk is accepted exactly when both digests and the
      size are right; an empty one never is. */
  method EagerDecompressChunk(
      digest: seq<Byte> -> seq<Byte>, xxh64: seq<Byte> -> nat, compressed: seq<Byte>, plain: seq<Byte>,
      out: OutFile, offset: nat, size: nat, compressedHash: seq<Byte>, expected: seq<Byte>, calm: bool) returns (r: Outcome)
    requires IsDigest(digest) && IsXxh64(xxh64)
    modifies out
    ensures r.Wrote? ==>
              && CompressedAccepts(digest, xxh64, compressed, compressedHash) && EagerAccepts(digest, plain, size, expected)
              && r.bytes == size && out.data == Splice(old(out.data), offset, plain)
    ensures r.Failed? && !r.error.Io? ==>
              !(CompressedAccepts(digest, xxh64, compressed, compressedHash) && EagerAccepts(digest, plain, size, expected))
    ensures calm ==> (r.Wrote? <==>
              CompressedAccepts(digest, xxh64, compressed, compressedHash) && EagerAccepts(digest, plain, size, expected))
    ensures r.Failed? ==> ConfinedTo(old(out.data), out.data, offset, size)
    ensures !CompressedAccepts(digest, xxh64, compressed, compressedHash) || size == 0 ==>
              r.Failed? && out.data == old(out.data)
    ensures |plain| != size ==> r.Failed?
  {
    AnythingIsConfined(out.data, offset, size);
    var ok := CompressedMatches(digest, xxh64, compressed, compressedHash);
    if !ok {
      return Failed(Md5Mismatch);
    }
    if size == 0 {
      return Failed(Io);
    }
    hide Splice, HashRequired, Matches, CompressedAccepts;
    r := DecompressOneshot(digest, plain, out, offset, size, null, expected, calm);
    EagerExactly(digest, old(out.data), out.data, offset, plain, size, expected, r);
  }

  lemma {:induction false} EagerExactly(
      digest: seq<Byte> -> seq<Byte>, before: seq<Byte>, after: seq<Byte>, at: nat,
      plain: seq<Byte>, size: nat, expected: seq<Byte>, r: Outcome)
    requires Delivered(digest, before, after, at, plain, size, expected, r) && size > 0
    ensures r.Wrote? ==> EagerAccepts(digest, plain, size, expected) && r.bytes == size && after == Splice(before, at, plain)
    ensures r.Failed? && (r.error.Md5Mismatch? || r.error.SizeMismatch?) ==> !EagerAccepts(digest, plain, size, expected)
  {
    hide Splice, ConfinedTo;
  }
}
