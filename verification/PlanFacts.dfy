/** What the plan tables mean: an account of every table in terms of the rows
    that were registered, kept by each registration and independent of how the
    tables were grown. */
module PlanFacts {
  import opened Manifest
  import opened Plan

  // ---------------------------------------------------------------------------
  // Registered rows and the reference account of the tables
  // ---------------------------------------------------------------------------

  ghost predicate Occurs(occ: seq<Occurrence>, n: string) {
    exists o :: 0 <= o < |occ| && occ[o].name == n
  }

  /** The distinct chunk names, in order of first occurrence. */
  ghost function Names(occ: seq<Occurrence>): (r: seq<string>)
    ensures NoDuplicates(r)
    ensures forall n :: n in r <==> Occurs(occ, n)
  {
    if occ == [] then []
    else
      var r := Names(occ[..|occ| - 1]);
      var n := occ[|occ| - 1].name;
      assert forall m :: Occurs(occ, m) <==> Occurs(occ[..|occ| - 1], m) || m == n;
      if n in r then r else r + [n]
  }

  ghost function First(occ: seq<Occurrence>, n: string): (o: nat)
    requires Occurs(occ, n)
    ensures o < |occ| && occ[o].name == n
    ensures forall k :: 0 <= k < o ==> occ[k].name != n
  {
    if Occurs(occ[..|occ| - 1], n) then First(occ[..|occ| - 1], n) else |occ| - 1
  }

  /** The consumers of chunk `n`, in registration order. */
  ghost function EntriesNamed(occ: seq<Occurrence>, n: string): (r: seq<Entry>)
  {
    if occ == [] then []
    else
      var r := EntriesNamed(occ[..|occ| - 1], n);
      if occ[|occ| - 1].name == n then r + [EntryOf(occ[|occ| - 1])] else r
  }

  lemma {:induction false} EntriesNamedSource(occ: seq<Occurrence>, n: string, k: nat) returns (o: nat)
    requires k < |EntriesNamed(occ, n)|
    ensures o < |occ| && occ[o].name == n && EntriesNamed(occ, n)[k] == EntryOf(occ[o])
  {
    var init := occ[..|occ| - 1];
    if k < |EntriesNamed(init, n)| {
      o := EntriesNamedSource(init, n, k);
    } else {
      o := |occ| - 1;
    }
  }

  ghost predicate AnyPre(occ: seq<Occurrence>, n: string) {
    exists o :: 0 <= o < |occ| && occ[o].name == n && occ[o].pre
  }

  ghost predicate Shared(occ: seq<Occurrence>, o: int) {
    exists k :: 0 <= k < |occ| && k != o && 0 <= o < |occ| && occ[k].name == occ[o].name
  }

  /** Files holding a row whose chunk name occurs more than once. */
  ghost function SharingFiles(occ: seq<Occurrence>): set<nat> {
    set o | 0 <= o < |occ| && Shared(occ, o) :: occ[o].file
  }

  /** Positions in the entry table that count against pending slot `p`. */
  ghost function Consumers(entries: seq<seq<Entry>>, p: nat): set<(nat, nat)> {
    set i: nat, k: nat | i < |entries| && k < |entries[i]| && entries[i][k].pending == p :: (i, k)
  }

  ghost predicate Counted(t: Tables, occ: seq<Occurrence>, slots: seq<nat>) {
    && t.Aligned() && |t.pending| == |slots|
    && (forall i :: 0 <= i < |t.entries| ==> t.refcounts[i] == |t.entries[i]|)
    && (forall p: nat :: p < |slots| ==> t.pending[p] == |Consumers(t.entries, p)|)
    && (forall o :: 0 <= o < |occ| ==> occ[o].pending < |slots| && slots[occ[o].pending] == occ[o].file)
  }

  ghost predicate Deduplicated(t: Tables, occ: seq<Occurrence>) {
    var ns := Names(occ);
    && |t.items| == |t.entries| == |ns|
    && (forall n :: n in t.index <==> n in ns)
    && (forall i :: 0 <= i < |ns| ==> t.index[ns[i]] == i && t.entries[i] == EntriesNamed(occ, ns[i]))
    && (forall i :: 0 <= i < |ns| ==>
          var o := occ[First(occ, ns[i])];
          t.items[i] == Item(o.file, o.chunk, o.installer, AnyPre(occ, ns[i]), o.pure))
    && t.tainted == SharingFiles(occ)
  }

  ghost predicate OneEach(t: Tables, occ: seq<Occurrence>) {
    && |t.items| == |t.entries| == |occ| && t.tainted == {}
    && (forall i :: 0 <= i < |occ| ==> t.entries[i] == [EntryOf(occ[i])])
    && (forall i :: 0 <= i < |occ| ==>
          t.items[i] == Item(occ[i].file, occ[i].chunk, occ[i].installer, occ[i].pre, true))
  }

  ghost predicate Accounts(t: Tables, occ: seq<Occurrence>, slots: seq<nat>, force: bool) {
    && Counted(t, occ, slots)
    && if force then OneEach(t, occ) else Deduplicated(t, occ)
  }

  // ---------------------------------------------------------------------------
  // One row
  // ---------------------------------------------------------------------------

  lemma {:induction false} ConsumersAppend(entries: seq<seq<Entry>>, e: Entry, i: nat, entries': seq<seq<Entry>>, p: nat)
    requires i <= |entries|
    requires entries' == if i < |entries| then entries[i := entries[i] + [e]] else entries + [[e]]
    ensures |Consumers(entries', p)| == |Consumers(entries, p)| + if e.pending == p then 1 else 0
  {
    var a, b := Consumers(entries, p), Consumers(entries', p);
    var x: (nat, nat) := (i, if i < |entries| then |entries[i]| else 0);
    forall y: (nat, nat) | y != x ensures y in b <==> y in a {
      OtherEntriesStay(entries, e, i, entries', y);
    }
    assert entries'[x.0][x.1] == e;
    if e.pending == p {
      assert x in b;
      assert b == a + {x};
    } else {
      assert b == a;
    }
  }

  ghost predicate IsEntry(entries: seq<seq<Entry>>, y: (nat, nat)) {
    y.0 < |entries| && y.1 < |entries[y.0]|
  }

  lemma {:induction false} OtherEntriesStay(entries: seq<seq<Entry>>, e: Entry, i: nat, entries': seq<seq<Entry>>, y: (nat, nat))
    requires i <= |entries|
    requires entries' == if i < |entries| then entries[i := entries[i] + [e]] else entries + [[e]]
    requires y != (i, if i < |entries| then |entries[i]| else 0)
    ensures IsEntry(entries', y) <==> IsEntry(entries, y)
    ensures IsEntry(entries, y) ==> entries'[y.0][y.1] == entries[y.0][y.1]
  {
  }

  lemma {:induction false} CountedStep(t: Tables, occ: seq<Occurrence>, slots: seq<nat>, o: Occurrence, force: bool)
    requires Counted(t, occ, slots) && o.pending < |slots| && slots[o.pending] == o.file
    ensures Counted(AddOccurrence(t, o, force), occ + [o], slots)
  {
    var t' := AddOccurrence(t, o, force);
    var i := if !force && o.name in t.index then t.index[o.name] else |t.entries|;
    forall p: nat | p < |slots| ensures t'.pending[p] == |Consumers(t'.entries, p)| {
      ConsumersAppend(t.entries, EntryOf(o), i, t'.entries, p);
    }
  }

  lemma {:induction false} NamesAppend(occ: seq<Occurrence>, o: Occurrence)
    ensures Names(occ + [o]) == if o.name in Names(occ) then Names(occ) else Names(occ) + [o.name]
    ensures forall n :: EntriesNamed(occ + [o], n) == EntriesNamed(occ, n) + if o.name == n then [EntryOf(o)] else []
    ensures forall n :: Occurs(occ, n) ==> Occurs(occ + [o], n) && First(occ + [o], n) == First(occ, n)
    ensures forall n :: AnyPre(occ + [o], n) <==> AnyPre(occ, n) || (n == o.name && o.pre)
  {
    var occ' := occ + [o];
    assert occ'[..|occ|] == occ && occ'[|occ|] == o;
    forall n | Occurs(occ, n) ensures Occurs(occ', n) && First(occ', n) == First(occ, n) {
      var f := First(occ, n);
      assert occ'[f].name == n;
    }
    forall n ensures AnyPre(occ', n) <==> AnyPre(occ, n) || (n == o.name && o.pre) {
      if AnyPre(occ, n) {
        var k :| 0 <= k < |occ| && occ[k].name == n && occ[k].pre;
        assert occ'[k].name == n && occ'[k].pre;
      }
    }
  }

  lemma {:induction false} SharingAppend(occ: seq<Occurrence>, o: Occurrence)
    ensures SharingFiles(occ + [o]) ==
            if Occurs(occ, o.name) then SharingFiles(occ) + {occ[First(occ, o.name)].file, o.file} else SharingFiles(occ)
  {
    var occ' := occ + [o];
    var n := |occ|;
    forall k | 0 <= k < n ensures Shared(occ', k) <==> Shared(occ, k) || occ[k].name == o.name {
      if Shared(occ, k) {
        var j :| 0 <= j < |occ| && j != k && occ[j].name == occ[k].name;
        assert occ'[j].name == occ'[k].name;
      }
      if occ[k].name == o.name {
        assert occ'[n].name == occ'[k].name;
      }
    }
    if Occurs(occ, o.name) {
      var f := First(occ, o.name);
      assert occ'[f].name == occ'[n].name;
      assert Shared(occ', n) && Shared(occ', f);
      forall k | 0 <= k < n && occ[k].name == o.name && k != f ensures Shared(occ, k) {
        assert occ[f].name == occ[k].name;
      }
      assert forall k :: 0 <= k <= n && Shared(occ', k) ==> k == n || k == f || Shared(occ, k);
      var s := SharingFiles(occ) + {occ[f].file, o.file};
      assert occ'[n].file in SharingFiles(occ') && occ'[f].file in SharingFiles(occ');
      forall x ensures x in SharingFiles(occ') <==> x in s {
        if x in SharingFiles(occ) {
          var k :| 0 <= k < n && Shared(occ, k) && x == occ[k].file;
          assert Shared(occ', k) && occ'[k].file == x;
        }
      }
    } else {
      assert !Shared(occ', n);
      assert forall k :: 0 <= k <= n && Shared(occ', k) ==> k < n && Shared(occ, k);
      forall x ensures x in SharingFiles(occ') <==> x in SharingFiles(occ) {
        if x in SharingFiles(occ) {
          var k :| 0 <= k < n && Shared(occ, k) && x == occ[k].file;
          assert Shared(occ', k) && occ'[k].file == x;
        }
      }
    }
  }

  lemma {:induction false} SharedStep(t: Tables, occ: seq<Occurrence>, o: Occurrence)
    requires t.Aligned() && o.pending < |t.pending| && Deduplicated(t, occ) && o.name in t.index
    ensures Deduplicated(AddOccurrence(t, o, false), occ + [o])
  {
    var t', occ', ns := AddOccurrence(t, o, false), occ + [o], Names(occ);
    NamesAppend(occ, o);
    SharingAppend(occ, o);
    var at := t.index[o.name];
    assert ns[at] == o.name by {
      var j :| 0 <= j < |ns| && ns[j] == o.name;
    }
    forall i | 0 <= i < |ns|
      ensures t'.entries[i] == EntriesNamed(occ', ns[i])
      ensures var f := occ'[First(occ', ns[i])];
              t'.items[i] == Item(f.file, f.chunk, f.installer, AnyPre(occ', ns[i]), f.pure)
    {
      assert Occurs(occ, ns[i]);
      if i != at {
        assert ns[i] != o.name;
        assert EntriesNamed(occ', ns[i]) == EntriesNamed(occ, ns[i]) + [];
      }
    }
  }

  /** What a name that was there before has is not changed by a row of a fresh name. */
  lemma {:induction false} FreshKeepsOthers(t: Tables, occ: seq<Occurrence>, o: Occurrence, i: nat)
    requires t.Aligned() && o.pending < |t.pending| && Deduplicated(t, occ) && o.name !in t.index && i < |Names(occ)|
    ensures var t', occ', n := AddOccurrence(t, o, false), occ + [o], Names(occ)[i];
            && n in t'.index && t'.index[n] == i && i < |t'.entries| == |t'.items| && t'.entries[i] == EntriesNamed(occ', n)
            && Occurs(occ', n)
            && var f := occ'[First(occ', n)];
               t'.items[i] == Item(f.file, f.chunk, f.installer, AnyPre(occ', n), f.pure)
  {
    NamesAppend(occ, o);
    var occ', n := occ + [o], Names(occ)[i];
    assert Occurs(occ, n) && n != o.name;
    assert EntriesNamed(occ', n) == EntriesNamed(occ, n) + [];
  }

  lemma {:induction false} FreshStep(t: Tables, occ: seq<Occurrence>, o: Occurrence)
    requires t.Aligned() && o.pending < |t.pending| && Deduplicated(t, occ) && o.name !in t.index
    ensures Deduplicated(AddOccurrence(t, o, false), occ + [o])
  {
    var t', occ', ns := AddOccurrence(t, o, false), occ + [o], Names(occ);
    NamesAppend(occ, o);
    SharingAppend(occ, o);
    FreshEntries(occ, o.name);
    assert First(occ', o.name) == |occ|;
    assert !AnyPre(occ, o.name);
    forall i: nat | i < |ns|
      ensures t'.index[ns[i]] == i && t'.entries[i] == EntriesNamed(occ', ns[i])
      ensures Occurs(occ', ns[i])
      ensures var f := occ'[First(occ', ns[i])];
              t'.items[i] == Item(f.file, f.chunk, f.installer, AnyPre(occ', ns[i]), f.pure)
    {
      FreshKeepsOthers(t, occ, o, i);
    }
    hide EntriesNamed, SharingFiles, AnyPre, First, Names;
  }

  lemma {:induction false} FreshEntries(occ: seq<Occurrence>, n: string)
    requires !Occurs(occ, n)
    ensures EntriesNamed(occ, n) == []
  {
    if occ != [] {
      assert occ[|occ| - 1].name != n;
      FreshEntries(occ[..|occ| - 1], n);
    }
  }

  lemma {:induction false} AccountsStep(t: Tables, occ: seq<Occurrence>, slots: seq<nat>, o: Occurrence, force: bool)
    requires Accounts(t, occ, slots, force) && o.pending < |slots| && slots[o.pending] == o.file
    ensures Accounts(AddOccurrence(t, o, force), occ + [o], slots, force)
  {
    CountedStep(t, occ, slots, o, force);
    if !force {
      if o.name in t.index {
        SharedStep(t, occ, o);
      } else {
        FreshStep(t, occ, o);
      }
    }
  }

  // ---------------------------------------------------------------------------
  // One file, all files
  // ---------------------------------------------------------------------------

  /** The downloaded rows among the first `c` rows of file `f`. */
  ghost function RowsOf(files: seq<Asset>, u: Setup, f: nat, slot: nat, c: nat): (r: seq<Occurrence>)
    requires f < |files| && f < |u.installers| && c <= |files[f].chunks|
    ensures forall k :: 0 <= k < |r| ==>
      r[k].chunk < c && IsDownloaded(files[f].chunks[r[k].chunk]) && r[k] == OccurrenceAt(files, u, f, r[k].chunk, slot)
    ensures forall j, k :: 0 <= j < k < |r| ==> r[j].chunk < r[k].chunk
    ensures forall x: nat :: x < c && IsDownloaded(files[f].chunks[x]) ==> OccurrenceAt(files, u, f, x, slot) in r
  {
    if c == 0 then []
    else
      var r := RowsOf(files, u, f, slot, c - 1);
      if IsDownloaded(files[f].chunks[c - 1]) then r + [OccurrenceAt(files, u, f, c - 1, slot)] else r
  }

  ghost predicate HasDownloads(a: Asset) {
    exists c :: 0 <= c < |a.chunks| && IsDownloaded(a.chunks[c])
  }

  /** The files that own a pending slot, in slot order. */
  ghost function SlotFiles(files: seq<Asset>, u: Setup, n: nat): (r: seq<nat>)
    requires n <= |files|
    ensures forall f :: f in r <==> 0 <= f < n && f !in u.completed && HasDownloads(files[f])
    ensures NoDuplicates(r)
  {
    if n == 0 then []
    else
      var r := SlotFiles(files, u, n - 1);
      if n - 1 !in u.completed && HasDownloads(files[n - 1]) then r + [n - 1] else r
  }

  ghost function AllRows(files: seq<Asset>, u: Setup, n: nat): seq<Occurrence>
    requires n <= |files| == |u.installers|
  {
    if n == 0 then []
    else
      var r := AllRows(files, u, n - 1);
      if n - 1 in u.completed then r
      else r + RowsOf(files, u, n - 1, |SlotFiles(files, u, n - 1)|, |files[n - 1].chunks|)
  }

  lemma {:induction false} AddRowsAccounts(
      t: Tables, files: seq<Asset>, u: Setup, f: nat, slot: nat, c: nat, occ: seq<Occurrence>, slots: seq<nat>)
    requires f < |files| && f < |u.installers| && c <= |files[f].chunks|
    requires Accounts(t, occ, slots, u.forceEager) && slot < |slots| && slots[slot] == f
    ensures Accounts(AddRows(t, files, u, f, slot, c), occ + RowsOf(files, u, f, slot, c), slots, u.forceEager)
  {
    hide Deduplicated, OneEach, AddOccurrence;
    if c == 0 {
      assert occ + [] == occ;
    } else {
      AddRowsAccounts(t, files, u, f, slot, c - 1, occ, slots);
      if IsDownloaded(files[f].chunks[c - 1]) {
        var t0, rows := AddRows(t, files, u, f, slot, c - 1), RowsOf(files, u, f, slot, c - 1);
        var o := OccurrenceAt(files, u, f, c - 1, slot);
        AccountsStep(t0, occ + rows, slots, o, u.forceEager);
        assert AddRows(t, files, u, f, slot, c) == AddOccurrence(t0, o, u.forceEager);
        assert occ + rows + [o] == occ + RowsOf(files, u, f, slot, c);
      }
    }
  }

  lemma {:induction false} AddRowsPending(t: Tables, files: seq<Asset>, u: Setup, f: nat, slot: nat, c: nat)
    requires t.Aligned() && slot < |t.pending|
    requires f < |files| && f < |u.installers| && c <= |files[f].chunks|
    ensures AddRows(t, files, u, f, slot, c).pending[slot] == t.pending[slot] + |RowsOf(files, u, f, slot, c)|
  {
    if c > 0 {
      AddRowsPending(t, files, u, f, slot, c - 1);
    }
  }

  lemma {:induction false} EntriesComeFromRows(t: Tables, occ: seq<Occurrence>, slots: seq<nat>, force: bool, i: nat, k: nat)
    requires Accounts(t, occ, slots, force) && i < |t.entries| && k < |t.entries[i]|
    ensures exists o :: 0 <= o < |occ| && t.entries[i][k] == EntryOf(occ[o])
  {
    if force {
      assert t.entries[i][k] == EntryOf(occ[i]);
    } else {
      var o := EntriesNamedSource(occ, Names(occ)[i], k);
    }
  }

  lemma {:induction false} PushSlotAccounts(t: Tables, occ: seq<Occurrence>, slots: seq<nat>, force: bool, f: nat)
    requires Accounts(t, occ, slots, force)
    ensures Accounts(t.(pending := t.pending + [0]), occ, slots + [f], force)
  {
    var p := |slots|;
    forall i: nat, k: nat | i < |t.entries| && k < |t.entries[i]| ensures t.entries[i][k].pending != p {
      EntriesComeFromRows(t, occ, slots, force, i, k);
    }
    assert Consumers(t.entries, p) == {};
  }

  /** Registering one file, which counts in a slot of its own if it has downloads. */
  lemma {:induction false} RegisterFileAccounts(
      t: Tables, files: seq<Asset>, u: Setup, f: nat, occ: seq<Occurrence>, slots: seq<nat>)
    requires f < |files| && f < |u.installers| && Accounts(t, occ, slots, u.forceEager)
    ensures var rows := RowsOf(files, u, f, |slots|, |files[f].chunks|);
            && t.Aligned() && |t.pending| == |slots|
            && Accounts(RegisterFile(t, files, u, f), occ + rows, if HasDownloads(files[f]) then slots + [f] else slots, u.forceEager)
  {
    var slot := |slots|;
    var rows, t0 := RowsOf(files, u, f, slot, |files[f].chunks|), t.(pending := t.pending + [0]);
    PushSlotAccounts(t, occ, slots, u.forceEager, f);
    AddRowsAccounts(t0, files, u, f, slot, |files[f].chunks|, occ, slots + [f]);
    AddRowsPending(t0, files, u, f, slot, |files[f].chunks|);
    if HasDownloads(files[f]) {
      var c :| 0 <= c < |files[f].chunks| && IsDownloaded(files[f].chunks[c]);
      assert OccurrenceAt(files, u, f, c, slot) in rows;
    } else {
      assert rows == [];
      NoRowsNoChange(t, files, u, f);
      assert occ + rows == occ;
    }
    hide Deduplicated, OneEach, AddRows, RowsOf, Consumers;
  }

  /** Main account: after any number of files the tables are exactly what the
      registered rows say. */
  lemma {:induction false} RegisterAllAccounts(files: seq<Asset>, u: Setup, n: nat)
    requires n <= |files| == |u.installers|
    ensures Accounts(RegisterAll(files, u, n), AllRows(files, u, n), SlotFiles(files, u, n), u.forceEager)
  {
    if n > 0 {
      RegisterAllAccounts(files, u, n - 1);
      if n - 1 !in u.completed {
        var f := n - 1;
        RegisterFileAccounts(RegisterAll(files, u, f), files, u, f, AllRows(files, u, f), SlotFiles(files, u, f));
        hide Accounts, RegisterFile, RowsOf;
      }
    } else {
      assert Consumers([], 0) == {};
    }
  }

  lemma {:induction false} AddRowsNothing(t: Tables, files: seq<Asset>, u: Setup, f: nat, slot: nat, c: nat)
    requires t.Aligned() && slot < |t.pending|
    requires f < |files| && f < |u.installers| && c <= |files[f].chunks| && !HasDownloads(files[f])
    ensures AddRows(t, files, u, f, slot, c) == t
  {
    if c > 0 {
      AddRowsNothing(t, files, u, f, slot, c - 1);
    }
  }

  /** The popped slot: registering a file with nothing to download leaves every table as it was. */
  lemma {:induction false} NoRowsNoChange(t: Tables, files: seq<Asset>, u: Setup, f: nat)
    requires t.Aligned() && f < |files| && f < |u.installers| && !HasDownloads(files[f])
    ensures RegisterFile(t, files, u, f) == t
  {
    AddRowsNothing(t.(pending := t.pending + [0]), files, u, f, |t.pending|, |files[f].chunks|);
  }

  lemma {:induction false} PendingPerSlot(files: seq<Asset>, u: Setup, n: nat)
    requires n <= |files| == |u.installers|
    ensures |RegisterAll(files, u, n).pending| == |SlotFiles(files, u, n)|
  {
    RegisterAllAccounts(files, u, n);
  }

  /** A file leaves the pending table alone exactly when it has nothing to download. */
  lemma {:induction false} PendingUnchanged(files: seq<Asset>, u: Setup, n: nat)
    requires n < |files| == |u.installers| && n !in u.completed
    ensures |RegisterAll(files, u, n + 1).pending| == |RegisterAll(files, u, n).pending| <==> !HasDownloads(files[n])
  {
    hide RegisterAll;
    PendingPerSlot(files, u, n);
    PendingPerSlot(files, u, n + 1);
  }

  /** Exactly the files with nothing to download are sent to assembly by registration itself. */
  lemma {:induction false} SentAtOnceExactly(files: seq<Asset>, u: Setup, n: nat)
    requires n <= |files| == |u.installers|
    ensures var s := SentAtOnce(files, u, n);
            && NoDuplicates(s)
            && forall f :: f in s <==> 0 <= f < n && f !in u.completed && !HasDownloads(files[f])
  {
    hide RegisterAll;
    if n > 0 {
      SentAtOnceExactly(files, u, n - 1);
      if n - 1 !in u.completed {
        PendingUnchanged(files, u, n - 1);
      }
    }
  }
}
