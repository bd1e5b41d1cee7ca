/** Assembling one file from its chunk rows: which digest is checked, and the path
    that writes the rows one after another. */
module Assembly {
  import opened Hex
  import opened Manifest
  import opened RangeWriter

  datatype VerifyMode = Full | Deferred | NoVerification

  /** A chunk row of the file. `plain` is what its stored chunk decodes to; a row with
      `oldOffset >= 0` is copied from the old file instead. */
  datatype Row = Row(size: nat, oldOffset: int, hash: seq<Byte>, validName: bool, plain: seq<Byte>)

  const U64_LIMIT := 0x1_0000_0000_0000_0000

  /** All the bytes that the row's source yields. */
  function Payload(oldFile: seq<Byte>, row: Row): seq<Byte> {
    if row.oldOffset >= 0 then OldBytes(oldFile, row.oldOffset, row.size) else row.plain
  }

  /** Where row `n` starts: the sizes before it added up. */
  function Offset(rows: seq<Row>, n: nat): nat
    requires n <= |rows|
  {
    if n == 0 then 0 else Offset(rows, n - 1) + rows[n - 1].size
  }

  /** The payloads of the first `n` rows in manifest order. */
  function Joined(oldFile: seq<Byte>, rows: seq<Row>, n: nat): seq<Byte>
    requires n <= |rows|
  {
    if n == 0 then [] else Joined(oldFile, rows, n - 1) + Payload(oldFile, rows[n - 1])
  }

  /** The first `n` rows deliver what the manifest promises of their size. */
  ghost predicate Sized(oldFile: seq<Byte>, rows: seq<Row>, n: nat)
    requires n <= |rows|
  {
    forall i :: 0 <= i < n ==> |Payload(oldFile, rows[i])| == rows[i].size
  }

  lemma {:induction false} JoinedLength(oldFile: seq<Byte>, rows: seq<Row>, n: nat)
    requires n <= |rows| && Sized(oldFile, rows, n)
    ensures |Joined(oldFile, rows, n)| == Offset(rows, n)
  {
    if n > 0 {
      JoinedLength(oldFile, rows, n - 1);
    }
  }

  lemma {:induction false} OffsetsGrow(rows: seq<Row>, m: nat, n: nat)
    requires m <= n <= |rows|
    ensures Offset(rows, m) <= Offset(rows, n)
  {
    if m < n {
      OffsetsGrow(rows, m, n - 1);
    }
  }

  /** The ranges tile the file: every byte belongs to exactly one row's range. */
  lemma {:induction false} RangesTile(rows: seq<Row>, n: nat, x: nat) returns (i: nat)
    requires n <= |rows| && x < Offset(rows, n)
    ensures i < n && Offset(rows, i) <= x < Offset(rows, i + 1)
    ensures forall j :: 0 <= j < n && Offset(rows, j) <= x < Offset(rows, j + 1) ==> j == i
  {
    if x < Offset(rows, n - 1) {
      i := RangesTile(rows, n - 1, x);
    } else {
      i := n - 1;
      forall j | 0 <= j < n && Offset(rows, j) <= x < Offset(rows, j + 1) ensures j == i {
        OffsetsGrow(rows, j + 1, n);
        if j < i {
          OffsetsGrow(rows, j + 1, i);
        }
      }
    }
  }

  // ---------------------------------------------------------------------------
  // What is checked
  // ---------------------------------------------------------------------------

  /** `streamHash`: the file is hashed while it is written. `threadHash`: a thread of its own
      hashes it. `chunkHash`: required chunk digests are compared. */
  datatype Policy = Policy(parallel: bool, streamHash: bool, threadHash: bool, chunkHash: bool)

  function Decide(mode: VerifyMode, fileHash: seq<Byte>, allHashed: bool, rows: nat, workers: nat): Policy {
    var hasFileHash := fileHash != [];
    var parallel := workers > 1 && rows >= 4 && (allHashed || hasFileHash);
    var streamHash :=
      if mode.NoVerification? || !hasFileHash then false
      else if mode.Deferred? then !parallel
      else !(allHashed || parallel);
    Policy(parallel, streamHash, parallel && hasFileHash && (!allHashed || mode.Deferred?), mode.Full?)
  }

  ghost predicate AllHashed(rows: seq<Row>) {
    forall i :: 0 <= i < |rows| ==> HashRequired(rows[i].hash)
  }

  ghost predicate ChunksMatch(digest: seq<Byte> -> seq<Byte>, oldFile: seq<Byte>, rows: seq<Row>, n: nat)
    requires n <= |rows|
  {
    forall i :: 0 <= i < n && HashRequired(rows[i].hash) ==> Matches(digest, Payload(oldFile, rows[i]), rows[i].hash)
  }

  /** The whole file's digest was compared, or the required digest of every chunk. */
  ghost predicate Checked(digest: seq<Byte> -> seq<Byte>, oldFile: seq<Byte>, rows: seq<Row>, fileHash: seq<Byte>) {
    || Matches(digest, Joined(oldFile, rows, |rows|), fileHash)
    || (AllHashed(rows) && ChunksMatch(digest, oldFile, rows, |rows|))
  }

  /** What either path establishes before it reports success. */
  ghost predicate Assembled(
      digest: seq<Byte> -> seq<Byte>, oldFile: seq<Byte>, rows: seq<Row>, fileHash: seq<Byte>,
      policy: Policy, out: seq<Byte>)
  {
    && Sized(oldFile, rows, |rows|)
    && out == Joined(oldFile, rows, |rows|)
    && (policy.chunkHash ==> ChunksMatch(digest, oldFile, rows, |rows|))
    && (policy.streamHash || policy.threadHash ==> Matches(digest, out, fileHash))
  }

  /** Some digest covers the file exactly when verification is on or the file is hashed by
      the thread because a chunk digest is missing. */
  lemma {:induction false} DecideCovers(mode: VerifyMode, fileHash: seq<Byte>, allHashed: bool, rows: nat, workers: nat)
    requires fileHash != []
    ensures var p := Decide(mode, fileHash, allHashed, rows, workers);
            && (p.streamHash || p.threadHash || (p.chunkHash && allHashed)
                <==> !mode.NoVerification? || (p.parallel && !allHashed))
            && (p.streamHash ==> !p.parallel) && (p.threadHash ==> p.parallel)
  {
  }

  /** Success means checked, for every mode but None, every path and every set of hashes. */
  lemma {:induction false} AssembledIsChecked(
      digest: seq<Byte> -> seq<Byte>, oldFile: seq<Byte>, rows: seq<Row>, fileHash: seq<Byte>,
      mode: VerifyMode, workers: nat, out: seq<Byte>)
    requires fileHash != [] && !mode.NoVerification?
    requires Assembled(digest, oldFile, rows, fileHash, Decide(mode, fileHash, AllHashed(rows), |rows|, workers), out)
    ensures Checked(digest, oldFile, rows, fileHash)
  {
    DecideCovers(mode, fileHash, AllHashed(rows), |rows|, workers);
  }

  /** No downloaded row has a name that leads out of the chunk directory. */
  ghost predicate NamesValid(rows: seq<Row>) {
    forall i :: 0 <= i < |rows| && rows[i].oldOffset < 0 ==> rows[i].validName
  }

  /** Everything that is looked at is in order: names, sizes, and the digests that are due. */
  ghost predicate Acceptable(
      digest: seq<Byte> -> seq<Byte>, oldFile: seq<Byte>, rows: seq<Row>, fileHash: seq<Byte>, policy: Policy)
  {
    && NamesValid(rows)
    && Sized(oldFile, rows, |rows|)
    && (policy.chunkHash ==> ChunksMatch(digest, oldFile, rows, |rows|))
    && (policy.streamHash || policy.threadHash ==> Matches(digest, Joined(oldFile, rows, |rows|), fileHash))
  }

  // ---------------------------------------------------------------------------
  // The pass over the rows
  // ---------------------------------------------------------------------------

  /** Add up the sizes and look for hashes and reused rows, in one pass. */
  method SurveyRows(rows: seq<Row>, fileSize: nat) returns (ok: bool, total: nat, allHashed: bool, hasOld: bool)
    requires fileSize < U64_LIMIT
    ensures ok <==> Offset(rows, |rows|) == fileSize
    ensures ok ==> (allHashed <==> AllHashed(rows))
    ensures ok ==> (hasOld <==> exists i :: 0 <= i < |rows| && rows[i].oldOffset >= 0)
  {
    total, allHashed, hasOld := 0, true, false;
    for i := 0 to |rows|
      invariant total == Offset(rows, i) < U64_LIMIT
      invariant allHashed <==> forall k :: 0 <= k < i ==> HashRequired(rows[k].hash)
      invariant hasOld <==> exists k :: 0 <= k < i && rows[k].oldOffset >= 0
    {
      OffsetsGrow(rows, i + 1, |rows|);
      if total + rows[i].size >= U64_LIMIT {
        return false, total, allHashed, hasOld;
      }
      total := total + rows[i].size;
      if allHashed && !HashRequired(rows[i].hash) {
        allHashed := false;
      }
      if rows[i].oldOffset >= 0 {
        hasOld := true;
      }
    }
    ok := total == fileSize;
  }

  /** The rows whose downloaded chunk has been used, in order. */
  function DownloadedRows(rows: seq<Row>, n: nat): (r: seq<nat>)
    requires n <= |rows|
    ensures forall i :: i in r <==> 0 <= i < n && rows[i].oldOffset < 0
    ensures forall a :: 0 <= a < |r| ==> r[a] < n
    ensures forall a, b :: 0 <= a < b < |r| ==> r[a] < r[b]
  {
    if n == 0 then []
    else if rows[n - 1].oldOffset < 0 then DownloadedRows(rows, n - 1) + [n - 1]
    else DownloadedRows(rows, n - 1)
  }

  /** The output after `n` rows: their payloads, then the zeros that the file was sized with. */
  ghost predicate WrittenSoFar(oldFile: seq<Byte>, rows: seq<Row>, n: nat, data: seq<Byte>)
    requires n <= |rows|
  {
    && |data| == Offset(rows, |rows|)
    && Offset(rows, n) <= |data|
    && data[..Offset(rows, n)] == Joined(oldFile, rows, n)
  }

  lemma {:induction false} OneMoreRow(oldFile: seq<Byte>, rows: seq<Row>, n: nat, data: seq<Byte>)
    requires n < |rows| && WrittenSoFar(oldFile, rows, n, data)
    requires |Payload(oldFile, rows[n])| == rows[n].size
    ensures WrittenSoFar(oldFile, rows, n + 1, Splice(data, Offset(rows, n), Payload(oldFile, rows[n])))
  {
    OffsetsGrow(rows, n + 1, |rows|);
    var bytes, at := Payload(oldFile, rows[n]), Offset(rows, n);
    var data' := Splice(data, at, bytes);
    assert data'[..at] == data[..at];
    assert data'[at..at + |bytes|] == bytes;
    assert data'[..Offset(rows, n + 1)] == data'[..at] + data'[at..at + |bytes|];
  }

  predicate NameValid(row: Row) {
    row.oldOffset >= 0 || row.validName
  }

  /** An error that says nothing about the bytes: input/output, or a refused window. */
  predicate Accident(e: Error) {
    e.Io? || e.WindowTooSmall?
  }

  ghost predicate RowDone(digest: seq<Byte> -> seq<Byte>, oldFile: seq<Byte>, row: Row, chunkHash: bool) {
    && |Payload(oldFile, row)| == row.size
    && (chunkHash && HashRequired(row.hash) ==> Matches(digest, Payload(oldFile, row), row.hash))
  }

  /** What writing one row may come to. */
  ghost predicate RowOutcome(
      digest: seq<Byte> -> seq<Byte>, oldFile: seq<Byte>, row: Row, chunkHash: bool,
      before: seq<Byte>, after: seq<Byte>, at: nat, r: Outcome)
  {
    match r
    case Wrote(_) =>
      NameValid(row) && RowDone(digest, oldFile, row, chunkHash) && after == Splice(before, at, Payload(oldFile, row))
    case Failed(e) =>
      && ConfinedTo(before, after, at, Max(row.size, |Payload(oldFile, row)|))
      && (!Accident(e) ==> !(NameValid(row) && RowDone(digest, oldFile, row, chunkHash)))
      && (!NameValid(row) ==> after == before)
  }

  /** One row, from whichever source it has. A calm call also means that the chunk's frame fits the
      widest window. */
  method WriteRow(
      digest: seq<Byte> -> seq<Byte>, oldFile: seq<Byte>, row: Row, out: OutFile, at: nat,
      hasher: Md5?, chunkHash: bool, calm: bool) returns (r: Outcome)
    requires IsDigest(digest)
    modifies out, hasher
    ensures RowOutcome(digest, oldFile, row, chunkHash, old(out.data), out.data, at, r)
    ensures r.Wrote? ==> r.bytes == row.size == |Payload(oldFile, row)|
    ensures r.Wrote? && hasher != null ==> hasher.fed == old(Fed(hasher)) + Payload(oldFile, row)
    ensures !NameValid(row) ==> r == Failed(PathTraversal)
    ensures calm ==> (r.Wrote? <==> NameValid(row) && RowDone(digest, oldFile, row, chunkHash))
    ensures r.Wrote? && chunkHash && |row.hash| == 32 && (exists i :: 0 <= i < 32 && row.hash[i] != '0' as int) ==>
              Lower(row.hash) == Encode(digest(Payload(oldFile, row)))
    ensures r == Failed(Md5Mismatch) ==> chunkHash && |row.hash| == 32 && exists i :: 0 <= i < 32 && row.hash[i] != '0' as int
  {
    hide Splice, HashRequired, Matches, OldBytes;
    var expected := if chunkHash then row.hash else [];
    NothingRequired();
    AnythingIsConfined(out.data, at, Max(row.size, |Payload(oldFile, row)|));
    if row.oldOffset >= 0 {
      r := WriteFromOldFile(digest, oldFile, out, at, row.oldOffset, row.size, hasher, expected, calm);
    } else if !row.validName {
      return Failed(PathTraversal);
    } else {
      var frameLog: nat :| calm ==> frameLog <= MAX_WINDOW_LOG;
      r := DecompressChunk(digest, row.plain, out, at, row.size, hasher, expected, frameLog, calm);
    }
    if r.Wrote? {
      assert Payload(oldFile, row)[..row.size] == Payload(oldFile, row);
    }
  }

  lemma {:induction false} NothingRequired()
    ensures !HashRequired([])
  {
  }

  ghost predicate RowsDone(digest: seq<Byte> -> seq<Byte>, oldFile: seq<Byte>, rows: seq<Row>, n: nat, chunkHash: bool)
    requires n <= |rows|
  {
    forall i :: 0 <= i < n ==> RowDone(digest, oldFile, rows[i], chunkHash) && NameValid(rows[i])
  }

  /** All rows done is what is acceptable of the rows. */
  lemma {:induction false} RowsDoneExactly(
      digest: seq<Byte> -> seq<Byte>, oldFile: seq<Byte>, rows: seq<Row>, fileHash: seq<Byte>, policy: Policy)
    ensures Acceptable(digest, oldFile, rows, fileHash, policy) <==>
            RowsDone(digest, oldFile, rows, |rows|, policy.chunkHash) &&
            (policy.streamHash || policy.threadHash ==> Matches(digest, Joined(oldFile, rows, |rows|), fileHash))
    ensures RowsDone(digest, oldFile, rows, |rows|, policy.chunkHash) ==>
              Sized(oldFile, rows, |rows|) && (policy.chunkHash ==> ChunksMatch(digest, oldFile, rows, |rows|))
  {
    hide HashRequired, Matches, Payload, Joined;
    if Acceptable(digest, oldFile, rows, fileHash, policy) {
      forall i | 0 <= i < |rows| ensures RowDone(digest, oldFile, rows[i], policy.chunkHash) && NameValid(rows[i]) {
        assert |Payload(oldFile, rows[i])| == rows[i].size;
      }
    }
    if RowsDone(digest, oldFile, rows, |rows|, policy.chunkHash) {
      forall i | 0 <= i < |rows|
        ensures |Payload(oldFile, rows[i])| == rows[i].size
        ensures policy.chunkHash && HashRequired(rows[i].hash) ==> Matches(digest, Payload(oldFile, rows[i]), rows[i].hash)
        ensures rows[i].oldOffset < 0 ==> rows[i].validName
      {
        assert RowDone(digest, oldFile, rows[i], policy.chunkHash) && NameValid(rows[i]);
      }
    }
  }

  /** The rows before `n` were written and row `n`, if there is one, failed, short of an accident
      for what is wrong with it. */
  ghost predicate StoppedAt(
      digest: seq<Byte> -> seq<Byte>, oldFile: seq<Byte>, rows: seq<Row>, chunkHash: bool, n: nat, error: Error)
    requires n <= |rows|
  {
    && RowsDone(digest, oldFile, rows, n, chunkHash)
    && (n < |rows| && !Accident(error) ==> !(NameValid(rows[n]) && RowDone(digest, oldFile, rows[n], chunkHash)))
  }

  /** What assembling a file comes to. */
  datatype Result = Done(out: seq<Byte>) | GaveUp(error: Error)

  /** The sequential path. `held` are the rows whose stored chunk is released afterwards. Short
      of an accident it accepts exactly what is acceptable. */
  method AssembleSequentially(
      digest: seq<Byte> -> seq<Byte>, oldFile: seq<Byte>, rows: seq<Row>, fileSize: nat, fileHash: seq<Byte>,
      policy: Policy, calm: bool) returns (r: Result, held: seq<nat>)
    requires IsDigest(digest) && Offset(rows, |rows|) == fileSize && !policy.threadHash
    ensures r.Done? ==> Assembled(digest, oldFile, rows, fileHash, policy, r.out) && held == DownloadedRows(rows, |rows|)
    ensures r.Done? ==> Acceptable(digest, oldFile, rows, fileHash, policy)
    ensures r.GaveUp? ==> exists n :: 0 <= n <= |rows| && StoppedAt(digest, oldFile, rows, policy.chunkHash, n, r.error) &&
                                        held == DownloadedRows(rows, n)
    ensures r.GaveUp? && !Accident(r.error) ==> !Acceptable(digest, oldFile, rows, fileHash, policy)
    ensures calm ==> (r.Done? <==> Acceptable(digest, oldFile, rows, fileHash, policy))
  {
    hide Splice, Matches, Payload, HashRequired, RowDone, NameValid, ConfinedTo, Acceptable, Sized, ChunksMatch;
    RowsDoneExactly(digest, oldFile, rows, fileHash, policy);
    held := [];
    var out := new OutFile(fileSize);
    var hasher: Md5? := null;
    if policy.streamHash {
      hasher := new Md5();
    }
    var total: nat := 0;
    for n := 0 to |rows|
      invariant fresh(out) && (hasher != null ==> fresh(hasher)) && (hasher != null <==> policy.streamHash)
      invariant WrittenSoFar(oldFile, rows, n, out.data) && total == Offset(rows, n)
      invariant hasher != null ==> hasher.fed == Joined(oldFile, rows, n)
      invariant RowsDone(digest, oldFile, rows, n, policy.chunkHash)
      invariant held == DownloadedRows(rows, n)
    {
      ghost var before := out.data;
      var w := WriteRow(digest, oldFile, rows[n], out, total, hasher, policy.chunkHash, calm);
      if w.Failed? {
        return GaveUp(w.error), held;
      }
      OneMoreRow(oldFile, rows, n, before);
      total := total + w.bytes;
      if rows[n].oldOffset < 0 {
        held := held + [n];
      }
    }
    var result := out.data;
    assert result[..fileSize] == result;
    if total != fileSize {
      return GaveUp(SizeMismatch(fileSize, total)), held;
    }
    if hasher != null {
      var ok := DigestMatches(digest, hasher.fed, fileHash);
      if !ok {
        return GaveUp(Md5Mismatch), held;
      }
    }
    return Done(result), held;
  }

  // ---------------------------------------------------------------------------
  // One file
  // ---------------------------------------------------------------------------

  ghost predicate HasReused(rows: seq<Row>) {
    exists i :: 0 <= i < |rows| && rows[i].oldOffset >= 0
  }

  /** The old file, which reused rows cannot do without. */
  function OldOf(target: Option<seq<Byte>>): seq<Byte> {
    if target.Some? then target.value else []
  }

  /** The sizes add up, and the old file is there if a row is reused. */
  ghost predicate Ready(target: Option<seq<Byte>>, rows: seq<Row>, fileSize: nat) {
    Offset(rows, |rows|) == fileSize && (HasReused(rows) ==> target.Some?)
  }

  ghost function PolicyOf(mode: VerifyMode, fileHash: seq<Byte>, rows: seq<Row>, workers: nat): Policy {
    Decide(mode, fileHash, AllHashed(rows), |rows|, workers)
  }

  /** A whole file whose rows are written one after another: survey, decision, old file, rows and
      digests. Short of an accident the file is put together exactly when it is ready and what is
      looked at is in order; a success in a verifying mode has compared a digest that covers it,
      and with verification off any bytes of the right sizes are accepted. */
  method AssembleFile(
      digest: seq<Byte> -> seq<Byte>, target: Option<seq<Byte>>, rows: seq<Row>, fileSize: nat, fileHash: seq<Byte>,
      mode: VerifyMode, workers: nat, calm: bool) returns (r: Result, held: seq<nat>)
    requires IsDigest(digest) && fileSize < U64_LIMIT && !PolicyOf(mode, fileHash, rows, workers).parallel
    ensures r.Done? ==>
              && Ready(target, rows, fileSize)
              && Acceptable(digest, OldOf(target), rows, fileHash, PolicyOf(mode, fileHash, rows, workers))
              && r.out == Joined(OldOf(target), rows, |rows|) && held == DownloadedRows(rows, |rows|)
              && (fileHash != [] && !mode.NoVerification? ==> Checked(digest, OldOf(target), rows, fileHash))
    ensures r.GaveUp? && !Accident(r.error) ==>
              !(Ready(target, rows, fileSize) &&
                Acceptable(digest, OldOf(target), rows, fileHash, PolicyOf(mode, fileHash, rows, workers)))
    ensures calm ==>
              (r.Done? <==> Ready(target, rows, fileSize) &&
                            Acceptable(digest, OldOf(target), rows, fileHash, PolicyOf(mode, fileHash, rows, workers)))
    ensures r.GaveUp? && (held != [] || (calm && Ready(target, rows, fileSize))) ==>
              exists n :: 0 <= n <= |rows| && held == DownloadedRows(rows, n) &&
                StoppedAt(digest, OldOf(target), rows, mode.Full?, n, r.error)
    ensures mode.NoVerification? && Ready(target, rows, fileSize) && NamesValid(rows) && Sized(OldOf(target), rows, |rows|) ==>
              r.Done? || Accident(r.error)
    ensures r.Done? && mode.Full? ==>
              forall n :: 0 <= n < |rows| && |rows[n].hash| == 32 && (exists i :: 0 <= i < 32 && rows[n].hash[i] != '0' as int) ==>
                Lower(rows[n].hash) == Encode(digest(Payload(OldOf(target), rows[n])))
    ensures r.Done? && fileHash != [] && (mode.Deferred? || (mode.Full? && !AllHashed(rows))) ==>
              Lower(fileHash) == Encode(digest(r.out))
    ensures !Ready(target, rows, fileSize) ==> r.GaveUp? && held == []
    ensures Offset(rows, |rows|) == fileSize && HasReused(rows) && target.None? ==> r == GaveUp(Io)
  {
    held := [];
    if !calm {
      if * {
        return GaveUp(Io), held;
      }
    }
    var ok, total, allHashed, hasOld := SurveyRows(rows, fileSize);
    if !ok {
      return GaveUp(SizeMismatch(fileSize, total)), held;
    }
    var policy := Decide(mode, fileHash, allHashed, |rows|, workers);
    if hasOld && target.None? {
      return GaveUp(Io), held;
    }
    hide Decide, AllHashed, Offset;
    r, held := AssembleSequentially(digest, OldOf(target), rows, fileSize, fileHash, policy, calm);
    if r.Done? && fileHash != [] && !mode.NoVerification? {
      AssembledIsChecked(digest, OldOf(target), rows, fileHash, mode, workers, r.out);
    }
  }
}
