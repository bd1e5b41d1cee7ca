/** The plan tables start the completion protocol: what registration builds is
    what the protocol needs, in every verification mode. */
module PlanJob {
  import opened Manifest
  import opened Plan
  import opened PlanFacts
  import opened PlanTheorems
  import P = Protocol
  import F = ProtocolFlow

  ghost predicate ValidSetup(files: seq<Asset>, u: Setup) {
    |files| == |u.installers| && forall f :: f in u.completed ==> f < |files|
  }

  ghost function RowsOfAsset(a: Asset): (r: seq<P.Row>)
    ensures |r| == |a.chunks|
    ensures forall c :: 0 <= c < |r| ==> r[c] == P.Row(a.chunks[c].name, IsDownloaded(a.chunks[c]))
  {
    seq(|a.chunks|, c requires 0 <= c < |a.chunks| => P.Row(a.chunks[c].name, IsDownloaded(a.chunks[c])))
  }

  ghost function NameOf(files: seq<Asset>, it: Item): string {
    if it.file < |files| && it.chunk < |files[it.file].chunks| then ItemName(files, it) else ""
  }

  ghost predicate EagerSlot(files: seq<Asset>, u: Setup, p: nat)
    requires |files| == |u.installers|
  {
    exists i: nat, k: nat :: i < |FinalItems(files, u)| && i < |FinalTables(files, u).entries| &&
      k < |FinalTables(files, u).entries[i]| && FinalTables(files, u).entries[i][k].pending == p &&
      FinalItems(files, u)[i].useEager
  }

  ghost function JobOf(files: seq<Asset>, u: Setup, seeds: seq<bool>, onDisk: set<string>): (j: P.Job)
    requires |files| == |u.installers|
    ensures |j.rows| == |files| && forall f :: 0 <= f < |files| ==> j.rows[f] == RowsOfAsset(files[f])
    ensures |j.eager| == |j.names| == |FinalItems(files, u)|
    ensures forall i :: 0 <= i < |j.eager| ==>
      j.eager[i] == FinalItems(files, u)[i].useEager && j.names[i] == NameOf(files, FinalItems(files, u)[i])
    ensures |j.slotEager| == |j.slots| && forall p: nat :: p < |j.slots| ==> j.slotEager[p] == EagerSlot(files, u, p)
  {
    var t, items, slots := FinalTables(files, u), FinalItems(files, u), SlotFiles(files, u, |files|);
    P.Job(
      seq(|files|, f requires 0 <= f < |files| => RowsOfAsset(files[f])),
      u.completed,
      seeds,
      t.entries,
      seq(|items|, i requires 0 <= i < |items| => items[i].useEager),
      seq(|items|, i requires 0 <= i < |items| => NameOf(files, items[i])),
      slots,
      seq(|slots|, p requires 0 <= p < |slots| => EagerSlot(files, u, p)),
      t.refcounts, t.pending, SentAtOnce(files, u, |files|), onDisk)
  }

  /** The entry that registration added for a row. */
  lemma {:induction false} RowHasItsEntry(files: seq<Asset>, u: Setup, o: nat) returns (i: nat, k: nat)
    requires |files| == |u.installers| && o < |Registered(files, u)|
    ensures i < |FinalItems(files, u)| && i < |FinalTables(files, u).entries| && k < |FinalTables(files, u).entries[i]|
    ensures FinalTables(files, u).entries[i][k] == EntryOf(Registered(files, u)[o])
    ensures NameOf(files, FinalItems(files, u)[i]) == Registered(files, u)[o].name
  {
    var occ, t := Registered(files, u), FinalTables(files, u);
    RegisterAllAccounts(files, u, |files|);
    if u.forceEager {
      RowsAreRegistered(files, u, |files|, o);
      i, k := o, 0;
    } else {
      var n := occ[o].name;
      assert Occurs(occ, n);
      i :| 0 <= i < |Names(occ)| && Names(occ)[i] == n;
      assert EntryOf(occ[o]) in EntriesNamed(occ, n) by {
        EntriesNamedMember(occ, o);
      }
      k :| 0 <= k < |EntriesNamed(occ, n)| && EntriesNamed(occ, n)[k] == EntryOf(occ[o]);
      DeduplicatedItems(files, u, i);
    }
  }

  lemma {:induction false} EntriesNamedMember(occ: seq<Occurrence>, o: nat)
    requires o < |occ|
    ensures EntryOf(occ[o]) in EntriesNamed(occ, occ[o].name)
  {
    if o < |occ| - 1 {
      EntriesNamedMember(occ[..|occ| - 1], o);
    }
  }

  lemma {:induction false} EntryFacts(files: seq<Asset>, u: Setup, i: nat, k: nat)
    requires |files| == |u.installers|
    requires i < |FinalTables(files, u).entries| && k < |FinalTables(files, u).entries[i]|
    ensures var e, slots := FinalTables(files, u).entries[i][k], SlotFiles(files, u, |files|);
            e.pending < |slots| && slots[e.pending] == e.file
  {
    RegisterAllAccounts(files, u, |files|);
    EntriesComeFromRows(FinalTables(files, u), Registered(files, u), SlotFiles(files, u, |files|), u.forceEager, i, k);
  }

  lemma {:induction false} SlotHasConsumers(files: seq<Asset>, u: Setup, p: nat)
    requires |files| == |u.installers| && p < |SlotFiles(files, u, |files|)|
    ensures Consumers(FinalTables(files, u).entries, p) != {}
  {
    var slots := SlotFiles(files, u, |files|);
    var f := slots[p];
    assert f in slots;
    var c :| 0 <= c < |files[f].chunks| && IsDownloaded(files[f].chunks[c]);
    var o := RegisteredRowsAppear(files, u, |files|, f, c);
    var i, k := RowHasItsEntry(files, u, o);
    EntryFacts(files, u, i, k);
    assert (i, k) in Consumers(FinalTables(files, u).entries, p);
  }

  lemma {:induction false} SlotRouteIsItemRoute(files: seq<Asset>, u: Setup, i: nat, k: nat)
    requires |files| == |u.installers| && i < |FinalItems(files, u)|
    requires i < |FinalTables(files, u).entries| && k < |FinalTables(files, u).entries[i]|
    ensures EagerSlot(files, u, FinalTables(files, u).entries[i][k].pending) == FinalItems(files, u)[i].useEager
  {
    var e: seq<seq<Entry>> := FinalTables(files, u).entries;
    var p := e[i][k].pending;
    EntryFacts(files, u, i, k);
    if EagerSlot(files, u, p) {
      var i', k' :| 0 <= i' < |FinalItems(files, u)| && i' < |e| && 0 <= k' < |e[i']| && e[i'][k'].pending == p &&
        FinalItems(files, u)[i'].useEager;
      EntryFacts(files, u, i', k');
      OneRoutePerFile(files, u, i, k, i', k');
    }
  }

  lemma {:induction false} EntriesPointToTheirFiles(files: seq<Asset>, u: Setup, seeds: seq<bool>, onDisk: set<string>, i: nat, k: nat)
    requires ValidSetup(files, u) && P.IsEntry(JobOf(files, u, seeds, onDisk), i, k)
    ensures var j := JobOf(files, u, seeds, onDisk);
            var e := j.entries[i][k];
            && i < |j.eager| && e.pending < |j.slots| && j.slots[e.pending] == e.file
            && j.slotEager[e.pending] == j.eager[i]
  {
    TablesAligned(files, u);
    EntryFacts(files, u, i, k);
    SlotRouteIsItemRoute(files, u, i, k);
  }

  lemma {:induction false} PendingCountsConsumers(files: seq<Asset>, u: Setup, seeds: seq<bool>, onDisk: set<string>, p: nat)
    requires ValidSetup(files, u) && p < |JobOf(files, u, seeds, onDisk).slots|
    ensures var j := JobOf(files, u, seeds, onDisk); p < |j.pending| && j.pending[p] == |P.Consumers(j, p)| > 0
  {
    var j, t := JobOf(files, u, seeds, onDisk), FinalTables(files, u);
    RegisterAllAccounts(files, u, |files|);
    SlotHasConsumers(files, u, p);
    assert P.Consumers(j, p) == Consumers(t.entries, p);
  }

  lemma {:induction false} SlotsAndSentCoverTheFiles(files: seq<Asset>, u: Setup, seeds: seq<bool>, onDisk: set<string>)
    requires ValidSetup(files, u)
    ensures var j := JobOf(files, u, seeds, onDisk);
            && |j.slots| == |j.pending| && NoDuplicates(j.slots) && NoDuplicates(j.sent)
            && (forall f :: f in j.slots ==> f < |j.rows| && f !in j.completed)
            && (forall f :: f in j.sent <==> 0 <= f < |j.rows| && f !in j.completed && f !in j.slots)
            && (forall f :: f in j.sent ==> f < |files| && !HasDownloads(files[f]))
  {
    RegisterAllAccounts(files, u, |files|);
    SentAtOnceExactly(files, u, |files|);
  }

  /** The linked tables agree in every mode. */
  lemma {:induction false} PlanIsGood(files: seq<Asset>, u: Setup, seeds: seq<bool>, onDisk: set<string>)
    requires ValidSetup(files, u) && |seeds| == |files|
    ensures P.GoodJob(JobOf(files, u, seeds, onDisk))
  {
    var j := JobOf(files, u, seeds, onDisk);
    TablesAligned(files, u);
    SlotsAndSentCoverTheFiles(files, u, seeds, onDisk);
    forall i: nat, k: nat | P.IsEntry(j, i, k)
      ensures var e := j.entries[i][k];
              e.pending < |j.slots| && j.slots[e.pending] == e.file && j.slotEager[e.pending] == j.eager[i]
    {
      EntriesPointToTheirFiles(files, u, seeds, onDisk, i, k);
    }
    forall p: nat | p < |j.slots| ensures j.pending[p] == |P.Consumers(j, p)| > 0 {
      PendingCountsConsumers(files, u, seeds, onDisk, p);
    }
    forall f: nat, c: nat | P.IsRow(j, f, c) && j.rows[f][c].downloaded
      ensures P.RowHasEntry(j, f, c) && f !in j.sent
    {
      RowsHaveEntries(files, u, seeds, onDisk, f, c);
    }
  }

  lemma {:induction false} RowsHaveEntries(files: seq<Asset>, u: Setup, seeds: seq<bool>, onDisk: set<string>, f: nat, c: nat)
    requires ValidSetup(files, u)
    requires P.IsRow(JobOf(files, u, seeds, onDisk), f, c) && JobOf(files, u, seeds, onDisk).rows[f][c].downloaded
    ensures P.RowHasEntry(JobOf(files, u, seeds, onDisk), f, c) && HasDownloads(files[f])
  {
    var j := JobOf(files, u, seeds, onDisk);
    assert IsRegistered(files, u, f, c);
    var o := RegisteredRowsAppear(files, u, |files|, f, c);
    RowsAreRegistered(files, u, |files|, o);
    var i, k := RowHasItsEntry(files, u, o);
    assert P.IsEntry(j, i, k) && j.names[i] == j.rows[f][c].name && j.entries[i][k].file == f;
  }

  lemma {:induction false} CountsAreUsers(files: seq<Asset>, u: Setup, seeds: seq<bool>, onDisk: set<string>, i: nat)
    requires ValidSetup(files, u) && !u.forceEager && i < |JobOf(files, u, seeds, onDisk).names|
    ensures var j := JobOf(files, u, seeds, onDisk);
            && i < |Names(Registered(files, u))| && j.names[i] == Names(Registered(files, u))[i]
            && i < |j.refcounts| && j.refcounts[i] == |P.RowsNamed(j, i)| > 0
  {
    var j := JobOf(files, u, seeds, onDisk);
    DeduplicatedItems(files, u, i);
    var it := FinalItems(files, u)[i];
    assert (it.file, it.chunk) in Users(files, u, j.names[i]);
    SameUsers(files, u, seeds, onDisk, i);
  }

  lemma {:induction false} SameUsers(files: seq<Asset>, u: Setup, seeds: seq<bool>, onDisk: set<string>, i: nat)
    requires |files| == |u.installers| && i < |JobOf(files, u, seeds, onDisk).names|
    ensures var j := JobOf(files, u, seeds, onDisk); P.RowsNamed(j, i) == Users(files, u, j.names[i])
  {
  }

  lemma {:induction false} EagerSlotIsPure(files: seq<Asset>, u: Setup, p: nat)
    requires ValidSetup(files, u) && !u.forceEager
    requires p < |SlotFiles(files, u, |files|)| && EagerSlot(files, u, p)
    ensures var f := SlotFiles(files, u, |files|)[p]; f < |files| && Pure(files[f])
  {
    var e: seq<seq<Entry>> := FinalTables(files, u).entries;
    var i, k :| 0 <= i < |FinalItems(files, u)| && i < |e| && 0 <= k < |e[i]| && e[i][k].pending == p &&
      FinalItems(files, u)[i].useEager;
    EntryFacts(files, u, i, k);
    EagerItemsAreExclusive(files, u, i);
    assert e[i][k] == e[i][0];
  }

  /** With deduplication on, names are distinct, counts are exact and eager files are pure. */
  lemma {:induction false} PlanIsDeduplicated(files: seq<Asset>, u: Setup, seeds: seq<bool>, onDisk: set<string>)
    requires ValidSetup(files, u) && !u.forceEager
    ensures P.Deduplicated(JobOf(files, u, seeds, onDisk))
  {
    var j := JobOf(files, u, seeds, onDisk);
    var names := Names(Registered(files, u));
    TablesAligned(files, u);
    forall i: nat | i < |j.names|
      ensures i < |names| && j.names[i] == names[i] && j.refcounts[i] == |P.RowsNamed(j, i)| > 0
    {
      CountsAreUsers(files, u, seeds, onDisk, i);
    }
    forall p: nat, c: nat | p < |j.slots| && j.slotEager[p] && P.IsRow(j, j.slots[p], c)
      ensures j.rows[j.slots[p]][c].downloaded
    {
      EagerSlotIsPure(files, u, p);
    }
  }

  lemma {:induction false} TablesAligned(files: seq<Asset>, u: Setup)
    requires |files| == |u.installers|
    ensures var t := FinalTables(files, u); |t.items| == |t.entries| == |t.refcounts|
  {
    RegisterAllAccounts(files, u, |files|);
  }

  // ---------------------------------------------------------------------------
  // The eager route, said of the manifest
  // ---------------------------------------------------------------------------

  /** A downloaded row of file `f` and another downloaded row of an open file have one name. */
  ghost predicate SharesAt(files: seq<Asset>, u: Setup, f: nat, c: nat, g: nat, d: nat) {
    && IsRegistered(files, u, f, c) && IsRegistered(files, u, g, d) && (f, c) != (g, d)
    && files[f].chunks[c].name == files[g].chunks[d].name
  }

  ghost predicate SharesAChunk(files: seq<Asset>, u: Setup, f: nat) {
    exists c: nat, g: nat, d: nat :: SharesAt(files, u, f, c, g, d)
  }

  lemma {:induction false} SharingExactly(files: seq<Asset>, u: Setup, f: nat)
    requires |files| == |u.installers|
    ensures f in SharingFiles(Registered(files, u)) <==> SharesAChunk(files, u, f)
  {
    var occ := Registered(files, u);
    if f in SharingFiles(occ) {
      var o :| 0 <= o < |occ| && Shared(occ, o) && occ[o].file == f;
      var x :| 0 <= x < |occ| && x != o && occ[x].name == occ[o].name;
      RowsAreRegistered(files, u, |files|, o);
      RowsAreRegistered(files, u, |files|, x);
      if x < o {
        RowsAreDistinct(files, u, |files|, x, o);
      } else {
        RowsAreDistinct(files, u, |files|, o, x);
      }
      assert SharesAt(files, u, f, occ[o].chunk, occ[x].file, occ[x].chunk);
    }
    if SharesAChunk(files, u, f) {
      var c: nat, g: nat, d: nat :| SharesAt(files, u, f, c, g, d);
      var o := RegisteredRowsAppear(files, u, |files|, f, c);
      var x := RegisteredRowsAppear(files, u, |files|, g, d);
      RowsAreRegistered(files, u, |files|, o);
      RowsAreRegistered(files, u, |files|, x);
      assert occ[x].name == occ[o].name;
      assert Shared(occ, o);
    }
  }

  /** The files that are written eagerly: all open ones with downloads when deduplication is
      off, and otherwise those of them that have no reused row and share no chunk. */
  ghost predicate EagerRoute(files: seq<Asset>, u: Setup, f: nat)
  {
    && f < |files| && f !in u.completed && HasDownloads(files[f])
    && (u.forceEager || (Pure(files[f]) && !SharesAChunk(files, u, f)))
  }

  /** The item of an eager file's row is the row's own. */
  lemma {:induction false} EagerRowHasItsItem(files: seq<Asset>, u: Setup, f: nat, c: nat) returns (i: nat, k: nat)
    requires |files| == |u.installers| && EagerRoute(files, u, f)
    requires c < |files[f].chunks| && IsDownloaded(files[f].chunks[c])
    ensures i < |FinalItems(files, u)| && i < |FinalTables(files, u).entries| && k < |FinalTables(files, u).entries[i]|
    ensures FinalItems(files, u)[i].file == f && FinalItems(files, u)[i].chunk == c && FinalItems(files, u)[i].useEager
    ensures FinalTables(files, u).entries[i][k].file == f
  {
    var o := RegisteredRowsAppear(files, u, |files|, f, c);
    var occ := Registered(files, u);
    RegisterAllAccounts(files, u, |files|);
    if u.forceEager {
      i, k := o, 0;
    } else {
      var n := occ[o].name;
      assert Occurs(occ, n);
      var first := First(occ, n);
      SameNameShares(occ, o, first);
      assert Shared(occ, o) ==> occ[o].file in SharingFiles(occ);
      SharingExactly(files, u, f);
      i, k := RowHasItsEntry(files, u, o);
      EagerIffPureAndUnshared(files, u, i, k);
      RowsAreRegistered(files, u, |files|, o);
      DeduplicatedItems(files, u, i);
    }
  }

  lemma {:induction false} EagerRouteIsEagerSlot(files: seq<Asset>, u: Setup, seeds: seq<bool>, onDisk: set<string>, f: nat)
    requires ValidSetup(files, u) && EagerRoute(files, u, f)
    ensures F.EagerFile(JobOf(files, u, seeds, onDisk), f)
  {
    var c :| 0 <= c < |files[f].chunks| && IsDownloaded(files[f].chunks[c]);
    var i, k := EagerRowHasItsItem(files, u, f, c);
    EntryFacts(files, u, i, k);
    var p := FinalTables(files, u).entries[i][k].pending;
    assert EagerSlot(files, u, p);
    assert JobOf(files, u, seeds, onDisk).slots[p] == f && JobOf(files, u, seeds, onDisk).slotEager[p];
  }

  /** The tables' eager route is exactly the one read off the manifest. */
  lemma {:induction false} EagerFileExactly(files: seq<Asset>, u: Setup, seeds: seq<bool>, onDisk: set<string>, f: nat)
    requires ValidSetup(files, u)
    ensures F.EagerFile(JobOf(files, u, seeds, onDisk), f) <==> EagerRoute(files, u, f)
  {
    var j := JobOf(files, u, seeds, onDisk);
    if EagerRoute(files, u, f) {
      EagerRouteIsEagerSlot(files, u, seeds, onDisk, f);
    }
    if F.EagerFile(j, f) {
      var p: nat :| p < |j.slots| && j.slots[p] == f && j.slotEager[p];
      var e: seq<seq<Entry>> := FinalTables(files, u).entries;
      var i, k :| 0 <= i < |FinalItems(files, u)| && i < |e| && 0 <= k < |e[i]| && e[i][k].pending == p &&
        FinalItems(files, u)[i].useEager;
      EntryFacts(files, u, i, k);
      assert f in SlotFiles(files, u, |files|);
      if !u.forceEager {
        EagerIffPureAndUnshared(files, u, i, k);
        SharingExactly(files, u, f);
      }
    }
  }
}
