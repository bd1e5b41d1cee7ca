/** What the finished plan promises the rest of the installer. */
module PlanTheorems {
  import opened Manifest
  import opened Plan
  import opened PlanFacts

  ghost function FinalTables(files: seq<Asset>, u: Setup): (t: Tables)
    requires |files| == |u.installers|
    ensures t.Aligned()
  {
    RegisterAll(files, u, |files|)
  }

  ghost function FinalItems(files: seq<Asset>, u: Setup): (r: seq<Item>)
    requires |files| == |u.installers|
    ensures |r| == |FinalTables(files, u).items|
  {
    var t := FinalTables(files, u);
    if u.forceEager then t.items else TaintPass(t.items, t.tainted)
  }

  ghost function Registered(files: seq<Asset>, u: Setup): seq<Occurrence>
    requires |files| == |u.installers|
  {
    AllRows(files, u, |files|)
  }

  ghost predicate IsRegistered(files: seq<Asset>, u: Setup, f: int, c: int) {
    0 <= f < |files| && f !in u.completed && 0 <= c < |files[f].chunks| && IsDownloaded(files[f].chunks[c])
  }

  // ---------------------------------------------------------------------------
  // The registered rows are the downloaded rows of the open files, once each
  // ---------------------------------------------------------------------------

  lemma {:induction false} RowsAreRegistered(files: seq<Asset>, u: Setup, n: nat, o: nat)
    requires n <= |files| == |u.installers| && o < |AllRows(files, u, n)|
    ensures var x := AllRows(files, u, n)[o];
            IsRegistered(files, u, x.file, x.chunk) && x.file < n && x == OccurrenceAt(files, u, x.file, x.chunk, x.pending)
  {
    var before := AllRows(files, u, n - 1);
    if o < |before| {
      RowsAreRegistered(files, u, n - 1, o);
    }
  }

  lemma {:induction false} DownloadedRowIn(files: seq<Asset>, u: Setup, f: nat, slot: nat, c: nat) returns (k: nat)
    requires f < |files| && f < |u.installers| && c < |files[f].chunks| && IsDownloaded(files[f].chunks[c])
    ensures var rows := RowsOf(files, u, f, slot, |files[f].chunks|);
            k < |rows| && rows[k] == OccurrenceAt(files, u, f, c, slot)
  {
    k :| 0 <= k < |RowsOf(files, u, f, slot, |files[f].chunks|)| &&
      RowsOf(files, u, f, slot, |files[f].chunks|)[k] == OccurrenceAt(files, u, f, c, slot);
  }

  lemma {:induction false} RegisteredRowsAppear(files: seq<Asset>, u: Setup, n: nat, f: nat, c: nat) returns (o: nat)
    requires n <= |files| == |u.installers| && f < n && IsRegistered(files, u, f, c)
    ensures o < |AllRows(files, u, n)| && AllRows(files, u, n)[o].file == f && AllRows(files, u, n)[o].chunk == c
  {
    hide RowsOf, SlotFiles;
    if f == n - 1 {
      var k := DownloadedRowIn(files, u, f, |SlotFiles(files, u, f)|, c);
      o := |AllRows(files, u, f)| + k;
    } else {
      o := RegisteredRowsAppear(files, u, n - 1, f, c);
    }
  }

  lemma {:induction false} RowsAreDistinct(files: seq<Asset>, u: Setup, n: nat, a: nat, b: nat)
    requires n <= |files| == |u.installers| && a < b < |AllRows(files, u, n)|
    ensures var r := AllRows(files, u, n); (r[a].file, r[a].chunk) != (r[b].file, r[b].chunk)
  {
    var before := AllRows(files, u, n - 1);
    if b < |before| {
      RowsAreDistinct(files, u, n - 1, a, b);
    } else if a < |before| {
      RowsAreRegistered(files, u, n - 1, a);
    }
  }

  // ---------------------------------------------------------------------------
  // Reference counts
  // ---------------------------------------------------------------------------

  /** The downloaded rows of open files that use chunk `n`. */
  ghost function Users(files: seq<Asset>, u: Setup, n: string): set<(nat, nat)> {
    set f: nat, c: nat | f < |files| && f !in u.completed && c < |files[f].chunks| &&
                         IsDownloaded(files[f].chunks[c]) && files[f].chunks[c].name == n :: (f, c)
  }

  ghost function RowPairs(occ: seq<Occurrence>, n: string): set<(nat, nat)> {
    set o | 0 <= o < |occ| && occ[o].name == n :: (occ[o].file, occ[o].chunk)
  }

  lemma {:induction false} RowPairsAppend(occ: seq<Occurrence>, o: Occurrence, n: string)
    ensures RowPairs(occ + [o], n) == RowPairs(occ, n) + if o.name == n then {(o.file, o.chunk)} else {}
  {
    var occ' := occ + [o];
    forall y | y in RowPairs(occ, n) ensures y in RowPairs(occ', n) {
      var k :| 0 <= k < |occ| && occ[k].name == n && y == (occ[k].file, occ[k].chunk);
      assert occ'[k] == occ[k];
    }
    assert occ'[|occ|] == o;
  }

  ghost predicate DistinctRows(occ: seq<Occurrence>) {
    forall a, b :: 0 <= a < b < |occ| ==> (occ[a].file, occ[a].chunk) != (occ[b].file, occ[b].chunk)
  }

  lemma {:induction false} LastPairIsNew(occ: seq<Occurrence>, o: Occurrence, n: string)
    requires DistinctRows(occ + [o])
    ensures DistinctRows(occ) && (o.file, o.chunk) !in RowPairs(occ, n)
  {
    var occ' := occ + [o];
    forall k | 0 <= k < |occ| ensures (occ[k].file, occ[k].chunk) != (o.file, o.chunk) {
      assert occ'[k] == occ[k] && occ'[|occ|] == o;
    }
    forall a, b | 0 <= a < b < |occ| ensures (occ[a].file, occ[a].chunk) != (occ[b].file, occ[b].chunk) {
      assert occ'[a] == occ[a] && occ'[b] == occ[b];
    }
  }

  lemma {:induction false} EntriesCountPairs(occ: seq<Occurrence>, n: string)
    requires DistinctRows(occ)
    ensures |EntriesNamed(occ, n)| == |RowPairs(occ, n)|
  {
    if occ != [] {
      hide DistinctRows, RowPairs;
      var init, last := occ[..|occ| - 1], occ[|occ| - 1];
      assert occ == init + [last];
      LastPairIsNew(init, last, n);
      EntriesCountPairs(init, n);
      RowPairsAppend(init, last, n);
    }
  }

  lemma {:induction false} UsersAreRows(files: seq<Asset>, u: Setup, n: string)
    requires |files| == |u.installers|
    ensures RowPairs(Registered(files, u), n) == Users(files, u, n)
    ensures |EntriesNamed(Registered(files, u), n)| == |Users(files, u, n)|
  {
    var occ := Registered(files, u);
    assert DistinctRows(occ) by {
      forall a, b | 0 <= a < b < |occ| ensures (occ[a].file, occ[a].chunk) != (occ[b].file, occ[b].chunk) {
        RowsAreDistinct(files, u, |files|, a, b);
      }
    }
    EntriesCountPairs(occ, n);
    forall o | 0 <= o < |occ| && occ[o].name == n ensures (occ[o].file, occ[o].chunk) in Users(files, u, n) {
      RowsAreRegistered(files, u, |files|, o);
    }
    forall x | x in Users(files, u, n) ensures x in RowPairs(occ, n) {
      var o := RegisteredRowsAppear(files, u, |files|, x.0, x.1);
      RowsAreRegistered(files, u, |files|, o);
    }
  }

  ghost function ItemName(files: seq<Asset>, it: Item): string
    requires it.file < |files| && it.chunk < |files[it.file].chunks|
  {
    files[it.file].chunks[it.chunk].name
  }

  /** With deduplication on, item names are distinct, name `i` indexes item `i`, an
      entry list holds exactly the consumers of its chunk, and the reference count
      of a chunk is the number of downloaded rows that use it. */
  lemma {:induction false} DeduplicatedItems(files: seq<Asset>, u: Setup, i: nat)
    requires |files| == |u.installers| && !u.forceEager && i < |FinalItems(files, u)|
    ensures var t, it := FinalTables(files, u), FinalItems(files, u)[i];
            && IsRegistered(files, u, it.file, it.chunk)
            && i < |Names(Registered(files, u))| && ItemName(files, it) == Names(Registered(files, u))[i]
            && ItemName(files, it) in t.index && t.index[ItemName(files, it)] == i
            && t.entries[i] == EntriesNamed(Registered(files, u), ItemName(files, it))
            && t.refcounts[i] == |t.entries[i]| == |Users(files, u, ItemName(files, it))|
  {
    RegisterAllAccounts(files, u, |files|);
    var occ := Registered(files, u);
    var n := Names(occ)[i];
    assert Occurs(occ, n);
    RowsAreRegistered(files, u, |files|, First(occ, n));
    UsersAreRows(files, u, n);
  }

  // ---------------------------------------------------------------------------
  // A file goes wholly eager or wholly through assembly
  // ---------------------------------------------------------------------------

  lemma {:induction false} LoneOccurrence(occ: seq<Occurrence>, n: string)
    requires Occurs(occ, n) && !Shared(occ, First(occ, n))
    ensures |EntriesNamed(occ, n)| == 1
  {
    var init, last := occ[..|occ| - 1], |occ| - 1;
    var f := First(occ, n);
    if f == last {
      assert !Occurs(init, n);
      FreshEntries(init, n);
    } else {
      assert init[f].name == n;
      assert occ[last].name != n;
      forall k | 0 <= k < |init| && k != f ensures init[k].name != n {
        assert occ[k].name != occ[f].name;
      }
      LoneOccurrence(init, n);
    }
  }

  lemma {:induction false} SameNameShares(occ: seq<Occurrence>, a: nat, b: nat)
    requires a < |occ| && b < |occ| && occ[a].name == occ[b].name
    ensures a == b || Shared(occ, a)
  {
  }

  /** With deduplication on, whether an item is eager depends only on any one of
      its consumers: that file has no reused row and shares no chunk. */
  lemma {:induction false} EagerIffPureAndUnshared(files: seq<Asset>, u: Setup, i: nat, k: nat)
    requires |files| == |u.installers| && !u.forceEager
    requires i < |FinalTables(files, u).entries| && k < |FinalTables(files, u).entries[i]|
    ensures i < |FinalItems(files, u)|
    ensures var f := FinalTables(files, u).entries[i][k].file;
            f < |files| &&
            (FinalItems(files, u)[i].useEager <==> Pure(files[f]) && f !in SharingFiles(Registered(files, u)))
  {
    RegisterAllAccounts(files, u, |files|);
    var occ := Registered(files, u);
    var n := Names(occ)[i];
    assert Occurs(occ, n);
    var o := EntriesNamedSource(occ, n, k);
    var first := First(occ, n);
    RowsAreRegistered(files, u, |files|, o);
    RowsAreRegistered(files, u, |files|, first);
    if o != first {
      assert occ[o].name == occ[first].name;
      assert Shared(occ, o) && Shared(occ, first);
      assert occ[o].file in SharingFiles(occ) && occ[first].file in SharingFiles(occ);
    }
  }

  /** Two items that feed the same file agree on the eager flag, in every mode. */
  lemma {:induction false} OneRoutePerFile(files: seq<Asset>, u: Setup, i: nat, k: nat, i': nat, k': nat)
    requires |files| == |u.installers|
    requires var e := FinalTables(files, u).entries;
             i < |e| && k < |e[i]| && i' < |e| && k' < |e[i']| && e[i][k].file == e[i'][k'].file
    ensures i < |FinalItems(files, u)| && i' < |FinalItems(files, u)|
    ensures FinalItems(files, u)[i].useEager == FinalItems(files, u)[i'].useEager
  {
    RegisterAllAccounts(files, u, |files|);
    if !u.forceEager {
      EagerIffPureAndUnshared(files, u, i, k);
      EagerIffPureAndUnshared(files, u, i', k');
    }
  }

  /** An eager item has one consumer, its own file; with deduplication on that file
      has no reused row, so nothing of it is left to assembly. */
  lemma {:induction false} EagerItemsAreExclusive(files: seq<Asset>, u: Setup, i: nat)
    requires |files| == |u.installers| && i < |FinalItems(files, u)| && FinalItems(files, u)[i].useEager
    ensures var e, it := FinalTables(files, u).entries[i], FinalItems(files, u)[i];
            && |e| == 1 && e[0].file == it.file < |files|
            && (!u.forceEager ==> Pure(files[it.file]))
  {
    RegisterAllAccounts(files, u, |files|);
    var occ := Registered(files, u);
    if u.forceEager {
      RowsAreRegistered(files, u, |files|, i);
    } else {
      var n := Names(occ)[i];
      assert Occurs(occ, n);
      var first := First(occ, n);
      RowsAreRegistered(files, u, |files|, first);
      assert Shared(occ, first) ==> occ[first].file in SharingFiles(occ);
      LoneOccurrence(occ, n);
      var o := EntriesNamedSource(occ, n, 0);
      SameNameShares(occ, first, o);
    }
  }

  /** No file with a reused row is fed by an eager item. */
  ghost predicate EagerFilesArePure(files: seq<Asset>, u: Setup)
    requires |files| == |u.installers|
  {
    forall i :: 0 <= i < |FinalItems(files, u)| && FinalItems(files, u)[i].useEager ==>
      var f := FinalItems(files, u)[i].file; f < |files| && Pure(files[f])
  }

  /** Without deduplication every item is forced eager, so the guarantee holds
      exactly when no open file mixes downloaded and reused rows. */
  lemma {:induction false} EagerFilesArePureExactly(files: seq<Asset>, u: Setup)
    requires |files| == |u.installers|
    ensures EagerFilesArePure(files, u) <==>
            !u.forceEager || forall f :: 0 <= f < |files| && f !in u.completed && HasDownloads(files[f]) ==> Pure(files[f])
  {
    RegisterAllAccounts(files, u, |files|);
    var occ, items := Registered(files, u), FinalItems(files, u);
    if !u.forceEager {
      forall i | 0 <= i < |items| && items[i].useEager ensures items[i].file < |files| && Pure(files[items[i].file]) {
        EagerItemsAreExclusive(files, u, i);
      }
    } else {
      forall i | 0 <= i < |items|
        ensures items[i].useEager && IsRegistered(files, u, items[i].file, items[i].chunk)
      {
        RowsAreRegistered(files, u, |files|, i);
      }
      forall f | EagerFilesArePure(files, u) && 0 <= f < |files| && f !in u.completed && HasDownloads(files[f])
        ensures Pure(files[f])
      {
        var c :| 0 <= c < |files[f].chunks| && IsDownloaded(files[f].chunks[c]);
        var o := RegisteredRowsAppear(files, u, |files|, f, c);
        assert items[o].file == f;
      }
    }
  }

  // ---------------------------------------------------------------------------
  // The flattened entry table
  // ---------------------------------------------------------------------------

  lemma {:induction false} ConcatSlice(entries: seq<seq<Entry>>, i: nat)
    requires i < |entries|
    ensures |Concat(entries[..i])| + |entries[i]| == |Concat(entries[..i + 1])| <= |Concat(entries)|
    ensures Concat(entries)[|Concat(entries[..i])|..|Concat(entries[..i + 1])|] == entries[i]
  {
    var init := entries[..|entries| - 1];
    assert entries[..i + 1][..i] == entries[..i];
    if i < |init| {
      ConcatSlice(init, i);
      assert init[..i] == entries[..i] && init[..i + 1] == entries[..i + 1];
      var lo, hi := |Concat(entries[..i])|, |Concat(entries[..i + 1])|;
      assert Concat(entries)[lo..hi] == Concat(init)[lo..hi];
    } else {
      assert entries[..i] == init && entries[..i + 1] == entries;
    }
  }

  /** The slice the completion protocol reads for item `i` is exactly its entry list. */
  lemma {:induction false} FlatSlices(flat: seq<Entry>, offsets: seq<nat>, entries: seq<seq<Entry>>, i: nat)
    requires FlattenedFrom(flat, offsets, entries) && i < |entries|
    ensures offsets[i] <= offsets[i + 1] <= |flat| && flat[offsets[i]..offsets[i + 1]] == entries[i]
  {
    ConcatSlice(entries, i);
  }

  // ---------------------------------------------------------------------------
  // The plan that is handed on
  // ---------------------------------------------------------------------------

  /** A downloaded row of an open file that uses this chunk and is on disk already. Rows are
      numbered through all files. */
  ghost predicate OnDiskRow(files: seq<Asset>, u: Setup, n: string, f: nat, c: nat) {
    && f < |files| && f !in u.completed && c < |files[f].chunks|
    && files[f].chunks[c].oldOffset < 0 && files[f].chunks[c].name == n
    && FirstRow(files, f) + c in u.pre
  }

  lemma {:induction false} AnyPreExactly(files: seq<Asset>, u: Setup, n: string)
    requires |files| == |u.installers|
    ensures AnyPre(Registered(files, u), n) <==> exists f: nat, c: nat :: OnDiskRow(files, u, n, f, c)
  {
    var occ := Registered(files, u);
    if AnyPre(occ, n) {
      var o :| 0 <= o < |occ| && occ[o].name == n && occ[o].pre;
      RowsAreRegistered(files, u, |files|, o);
      assert OnDiskRow(files, u, n, occ[o].file, occ[o].chunk);
    }
    if f: nat, c: nat :| OnDiskRow(files, u, n, f, c) {
      var o := RegisteredRowsAppear(files, u, |files|, f, c);
      RowsAreRegistered(files, u, |files|, o);
      assert occ[o].name == n && occ[o].pre;
    }
  }

  lemma {:induction false} MarkedAlone(files: seq<Asset>, u: Setup, i: nat)
    requires |files| == |u.installers| && u.forceEager && i < |FinalItems(files, u)|
    ensures var it := FinalItems(files, u)[i];
            && IsRegistered(files, u, it.file, it.chunk)
            && it.installer == u.installers[it.file]
            && (it.preDownloaded <==> FirstRow(files, it.file) + it.chunk in u.pre)
  {
    hide FirstRow, AllRows, RegisterAll;
    RegisterAllAccounts(files, u, |files|);
    RowsAreRegistered(files, u, |files|, i);
  }

  /** With deduplication on, an item is the first row of its name, marked if any row of it is. */
  lemma {:induction false} ItemIsFirstRow(files: seq<Asset>, u: Setup, i: nat) returns (n: string, o: nat)
    requires |files| == |u.installers| && !u.forceEager && i < |FinalItems(files, u)|
    ensures o < |Registered(files, u)| && Registered(files, u)[o].name == n
    ensures var it, x := FinalItems(files, u)[i], Registered(files, u)[o];
            && it.file == x.file && it.chunk == x.chunk && it.installer == x.installer
            && (it.preDownloaded <==> AnyPre(Registered(files, u), n))
  {
    hide FirstRow, AllRows, RegisterAll, Counted, EntriesNamed, SharingFiles, AnyPre;
    RegisterAllAccounts(files, u, |files|);
    n := Names(Registered(files, u))[i];
    assert Occurs(Registered(files, u), n);
    o := First(Registered(files, u), n);
  }

  lemma {:induction false} MarkedTogether(files: seq<Asset>, u: Setup, i: nat)
    requires |files| == |u.installers| && !u.forceEager && i < |FinalItems(files, u)|
    ensures var it := FinalItems(files, u)[i];
            && IsRegistered(files, u, it.file, it.chunk)
            && it.installer == u.installers[it.file]
            && (it.preDownloaded <==> exists f: nat, c: nat :: OnDiskRow(files, u, files[it.file].chunks[it.chunk].name, f, c))
  {
    var n, o := ItemIsFirstRow(files, u, i);
    RowsAreRegistered(files, u, |files|, o);
    AnyPreExactly(files, u, n);
    hide FirstRow, AllRows, FinalItems, OnDiskRow, AnyPre;
  }

  /** Every item that is handed on is a downloaded row of an open file, with that file's
      installer. It is marked as downloaded exactly when some downloaded row that uses its chunk
      is on disk already; with deduplication off, exactly when its own row is. */
  lemma {:induction false} ItemsOfPlan(d: DownloadPlan, files: seq<Asset>, u: Setup, i: nat)
    requires |files| == |u.installers| && IsPlanOf(d, files, u) && i < |d.items|
    ensures var it := d.items[i];
            && IsRegistered(files, u, it.file, it.chunk)
            && it.installer == u.installers[it.file]
            && (u.forceEager ==> (it.preDownloaded <==> FirstRow(files, it.file) + it.chunk in u.pre))
            && (!u.forceEager ==>
                  (it.preDownloaded <==> exists f: nat, c: nat :: OnDiskRow(files, u, files[it.file].chunks[it.chunk].name, f, c)))
  {
    assert d.items == FinalItems(files, u);
    hide FinalItems, IsPlanOf, OnDiskRow;
    if u.forceEager {
      MarkedAlone(files, u, i);
    } else {
      MarkedTogether(files, u, i);
    }
  }

  lemma {:induction false} EntryNamesItsDirectory(files: seq<Asset>, u: Setup, i: nat, k: nat)
    requires |files| == |u.installers| && i < |FinalTables(files, u).entries| && k < |FinalTables(files, u).entries[i]|
    ensures var e := FinalTables(files, u).entries[i][k]; e.file < |files| && e.tmpDir == u.installers[e.file]
  {
    hide FirstRow, AllRows, RegisterAll, Accounts;
    RegisterAllAccounts(files, u, |files|);
    var t, occ := FinalTables(files, u), Registered(files, u);
    EntriesComeFromRows(t, occ, SlotFiles(files, u, |files|), u.forceEager, i, k);
    var o :| 0 <= o < |occ| && t.entries[i][k] == EntryOf(occ[o]);
    RowsAreRegistered(files, u, |files|, o);
  }

  /** Every item has an entry. */
  lemma {:induction false} ItemsHaveEntries(files: seq<Asset>, u: Setup, i: nat)
    requires |files| == |u.installers| && i < |FinalItems(files, u)|
    ensures i < |FinalTables(files, u).entries| && FinalTables(files, u).entries[i] != []
  {
    RegisterAllAccounts(files, u, |files|);
    if !u.forceEager {
      DeduplicatedItems(files, u, i);
      var it := FinalItems(files, u)[i];
      assert (it.file, it.chunk) in Users(files, u, ItemName(files, it));
    }
  }

  /** Every item is handed on with entries, and each of them names the installer of its file,
      in whose temporary directory the file is assembled. */
  lemma {:induction false} EntriesOfPlan(d: DownloadPlan, files: seq<Asset>, u: Setup, i: nat)
    requires |files| == |u.installers| && IsPlanOf(d, files, u) && i < |d.items|
    ensures i + 1 < |d.offsets| && d.offsets[i] < d.offsets[i + 1] <= |d.flat|
    ensures forall x :: d.offsets[i] <= x < d.offsets[i + 1] ==>
              d.flat[x].file < |files| && d.flat[x].tmpDir == u.installers[d.flat[x].file]
  {
    var entries: seq<seq<Entry>> := FinalTables(files, u).entries;
    assert d.items == FinalItems(files, u) && FlattenedFrom(d.flat, d.offsets, entries);
    ItemsHaveEntries(files, u, i);
    FlatSlices(d.flat, d.offsets, entries, i);
    hide FlattenedFrom, IsPlanOf, FinalTables, FinalItems;
    var at := d.offsets[i];
    forall x | at <= x < d.offsets[i + 1]
      ensures d.flat[x].file < |files| && d.flat[x].tmpDir == u.installers[d.flat[x].file]
    {
      assert d.flat[x] == d.flat[at..d.offsets[i + 1]][x - at];
      EntryNamesItsDirectory(files, u, i, x - at);
    }
  }

  // ---------------------------------------------------------------------------
  // Two dedup passes agree on the number of bytes
  // ---------------------------------------------------------------------------

  const U64: nat := 0x1_0000_0000_0000_0000

  function SaturatingAdd(a: nat, b: nat): nat {
    if a + b < U64 then a + b else U64 - 1
  }

  /** The progress total: the sizes of downloaded rows, each name counted at its
      first row, in 64-bit saturating arithmetic; and the names seen. */
  function ComputeTotal(rows: seq<Chunk>): (nat, set<string>) {
    if rows == [] then (0, {})
    else
      var (sum, seen) := ComputeTotal(rows[..|rows| - 1]);
      var c := rows[|rows| - 1];
      if c.oldOffset < 0 && c.name !in seen then (SaturatingAdd(sum, c.size), seen + {c.name}) else (sum, seen)
  }

  function ItemBytes(files: seq<Asset>, items: seq<Item>): nat {
    if items == [] then 0
    else
      var it := items[|items| - 1];
      ItemBytes(files, items[..|items| - 1]) +
      if it.file < |files| && it.chunk < |files[it.file].chunks| then files[it.file].chunks[it.chunk].size else 0
  }

  ghost predicate SameRows(a: seq<Item>, b: seq<Item>) {
    |a| == |b| && forall i :: 0 <= i < |a| ==> a[i].file == b[i].file && a[i].chunk == b[i].chunk
  }

  lemma {:induction false} ItemBytesSameRows(files: seq<Asset>, a: seq<Item>, b: seq<Item>)
    requires SameRows(a, b)
    ensures ItemBytes(files, a) == ItemBytes(files, b)
  {
    if a != [] {
      ItemBytesSameRows(files, a[..|a| - 1], b[..|b| - 1]);
    }
  }

  ghost predicate SmallRows(rows: seq<Chunk>) {
    |rows| < U32 && forall i :: 0 <= i < |rows| ==> rows[i].size < U32
  }

  lemma {:induction false} TotalIsSmall(rows: seq<Chunk>)
    requires SmallRows(rows)
    ensures ComputeTotal(rows).0 <= |rows| * (U32 - 1)
  {
    if rows != [] {
      TotalIsSmall(rows[..|rows| - 1]);
    }
  }

  ghost predicate TotalsMatch(t: Tables, files: seq<Asset>, rows: seq<Chunk>) {
    t.Aligned() && ItemBytes(files, t.items) == ComputeTotal(rows).0 && t.index.Keys == ComputeTotal(rows).1
  }

  lemma {:induction false} TotalsStep(t: Tables, files: seq<Asset>, rows: seq<Chunk>, o: Occurrence, c: Chunk)
    requires TotalsMatch(t, files, rows) && SmallRows(rows + [c]) && o.pending < |t.pending|
    requires o.file < |files| && o.chunk < |files[o.file].chunks| && files[o.file].chunks[o.chunk] == c
    requires o.name == c.name && IsDownloaded(c)
    ensures TotalsMatch(AddOccurrence(t, o, false), files, rows + [c])
  {
    var t' := AddOccurrence(t, o, false);
    assert (rows + [c])[..|rows|] == rows;
    assert SmallRows(rows) by {
      forall i | 0 <= i < |rows| ensures rows[i].size < U32 {
        assert (rows + [c])[i] == rows[i];
      }
    }
    TotalIsSmall(rows);
    assert c.size < U32 by { assert (rows + [c])[|rows|] == c; }
    if o.name in t.index {
      ItemBytesSameRows(files, t.items, t'.items);
    } else {
      assert t'.items[..|t.items|] == t.items;
    }
  }

  lemma {:induction false} TotalsRows(
      t: Tables, files: seq<Asset>, u: Setup, f: nat, slot: nat, c: nat, rows: seq<Chunk>)
    requires t.Aligned() && slot < |t.pending| && !u.forceEager
    requires f < |files| && f < |u.installers| && c <= |files[f].chunks|
    requires TotalsMatch(t, files, rows) && SmallRows(rows + files[f].chunks[..c])
    ensures TotalsMatch(AddRows(t, files, u, f, slot, c), files, rows + files[f].chunks[..c])
  {
    var cs := files[f].chunks;
    if c == 0 {
      assert rows + cs[..0] == rows;
    } else {
      var before, t0 := rows + cs[..c - 1], AddRows(t, files, u, f, slot, c - 1);
      assert rows + cs[..c] == before + [cs[c - 1]];
      assert SmallRows(before) by {
        forall i | 0 <= i < |before| ensures before[i].size < U32 {
          assert (rows + cs[..c])[i] == before[i];
        }
      }
      TotalsRows(t, files, u, f, slot, c - 1, rows);
      if IsDownloaded(cs[c - 1]) {
        TotalsStep(t0, files, before, OccurrenceAt(files, u, f, c - 1, slot), cs[c - 1]);
      } else {
        assert (before + [cs[c - 1]])[..|before|] == before;
      }
    }
  }

  lemma {:induction false} TotalsFiles(files: seq<Asset>, u: Setup, n: nat)
    requires n <= |files| == |u.installers| && u.completed == {} && !u.forceEager
    requires SmallRows(Rows(files, n))
    ensures TotalsMatch(RegisterAll(files, u, n), files, Rows(files, n))
  {
    if n > 0 {
      var f := n - 1;
      var rows, all := Rows(files, f), Rows(files, n);
      assert SmallRows(rows) by {
        forall i | 0 <= i < |rows| ensures rows[i].size < U32 {
          assert all[i] == rows[i];
        }
      }
      TotalsFiles(files, u, f);
      var t := RegisterAll(files, u, f);
      assert files[f].chunks[..|files[f].chunks|] == files[f].chunks;
      TotalsRows(t.(pending := t.pending + [0]), files, u, f, |t.pending|, |files[f].chunks|, rows);
    }
  }

  /** In a fresh install with deduplication on, the progress total equals the bytes
      the items will download. Row counts and sizes below 2^32, the width of the
      manifest columns, are enough to keep the 64-bit sum from saturating. */
  lemma {:induction false} TotalIsWhatWillBeDownloaded(files: seq<Asset>, u: Setup)
    requires |files| == |u.installers| && u.completed == {} && !u.forceEager
    requires SmallRows(Rows(files, |files|))
    ensures ComputeTotal(Rows(files, |files|)).0 == ItemBytes(files, FinalItems(files, u)) < U64
  {
    TotalsFiles(files, u, |files|);
    TotalIsSmall(Rows(files, |files|));
    ItemBytesSameRows(files, FinalTables(files, u).items, FinalItems(files, u));
  }
}
