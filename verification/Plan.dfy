/** The download plan: five linked tables grown one chunk row at a time, the
    taint pass that keeps a file wholly eager or wholly assembled, and the
    flattened entry table the completion protocol reads. */
module Plan {
  import opened Manifest

  /** A consumer of an item: the file that needs it, that file's temporary
      directory, and the file's slot in the pending table. */
  datatype Entry = Entry(file: nat, tmpDir: nat, pending: nat)

  datatype Item = Item(file: nat, chunk: nat, installer: nat, preDownloaded: bool, useEager: bool)

  datatype Tables = Tables(
    entries: seq<seq<Entry>>,
    items: seq<Item>,
    index: map<string, nat>,
    refcounts: seq<nat>,
    pending: seq<nat>,
    tainted: set<nat>
  ) {
    predicate Aligned() {
      && |items| == |entries| == |refcounts|
      && forall n :: n in index ==> index[n] < |items|
    }
  }

  const EmptyTables := Tables([], [], map[], [], [], {})

  /** A registered downloaded row. `pure` says that its file has no reused row. */
  datatype Occurrence = Occurrence(
    file: nat, chunk: nat, name: string, installer: nat, pending: nat, pure: bool, pre: bool
  )

  /** What registration is given besides the manifest: the installer of each
      file, the files a resume scan found complete, the global rows whose chunk
      is already on disk, and whether deduplication is off. */
  datatype Setup = Setup(installers: seq<nat>, completed: set<nat>, pre: set<nat>, forceEager: bool)

  predicate Pure(a: Asset) {
    forall c :: 0 <= c < |a.chunks| ==> IsDownloaded(a.chunks[c])
  }

  function OccurrenceAt(files: seq<Asset>, u: Setup, f: nat, c: nat, slot: nat): Occurrence
    requires f < |files| && f < |u.installers| && c < |files[f].chunks|
  {
    Occurrence(f, c, files[f].chunks[c].name, u.installers[f], slot, Pure(files[f]), FirstRow(files, f) + c in u.pre)
  }

  function EntryOf(o: Occurrence): Entry {
    Entry(o.file, o.installer, o.pending)
  }

  // ---------------------------------------------------------------------------
  // The tables as a function of the rows
  // ---------------------------------------------------------------------------

  function NewItem(t: Tables, o: Occurrence, useEager: bool): (t': Tables)
    requires t.Aligned()
    ensures t'.Aligned()
  {
    t.(items := t.items + [Item(o.file, o.chunk, o.installer, o.pre, useEager)],
       entries := t.entries + [[EntryOf(o)]],
       refcounts := t.refcounts + [1])
  }

  function ShareItem(t: Tables, o: Occurrence, i: nat): (t': Tables)
    requires t.Aligned() && i < |t.items|
    ensures t'.Aligned()
  {
    var it := t.items[i];
    t.(items := t.items[i := it.(preDownloaded := it.preDownloaded || o.pre)],
       entries := t.entries[i := t.entries[i] + [EntryOf(o)]],
       refcounts := t.refcounts[i := t.refcounts[i] + 1],
       tainted := t.tainted + {it.file, o.file})
  }

  function AddOccurrence(t: Tables, o: Occurrence, force: bool): (t': Tables)
    requires t.Aligned() && o.pending < |t.pending|
    ensures t'.Aligned() && |t'.pending| == |t.pending|
  {
    var counted := t.(pending := t.pending[o.pending := t.pending[o.pending] + 1]);
    if force then
      NewItem(counted, o, true)
    else if o.name in t.index then
      ShareItem(counted, o, t.index[o.name])
    else
      NewItem(counted, o, o.pure).(index := t.index[o.name := |t.items|])
  }

  /** The tables after the first `c` rows of file `f`, which counts in slot `slot`. */
  function AddRows(t: Tables, files: seq<Asset>, u: Setup, f: nat, slot: nat, c: nat): (t': Tables)
    requires t.Aligned() && slot < |t.pending|
    requires f < |files| && f < |u.installers| && c <= |files[f].chunks|
    ensures t'.Aligned() && |t'.pending| == |t.pending|
  {
    if c == 0 then t
    else
      var t0 := AddRows(t, files, u, f, slot, c - 1);
      if IsDownloaded(files[f].chunks[c - 1])
      then AddOccurrence(t0, OccurrenceAt(files, u, f, c - 1, slot), u.forceEager)
      else t0
  }

  lemma {:induction false} NextRow(t: Tables, files: seq<Asset>, u: Setup, f: nat, slot: nat, c: nat)
    requires t.Aligned() && slot < |t.pending| && f < |files| && f < |u.installers| && c < |files[f].chunks|
    ensures var t0 := AddRows(t, files, u, f, slot, c);
            AddRows(t, files, u, f, slot, c + 1) ==
            if files[f].chunks[c].oldOffset < 0 then AddOccurrence(t0, OccurrenceAt(files, u, f, c, slot), u.forceEager) else t0
  {
    hide AddOccurrence;
  }

  function RegisterFile(t: Tables, files: seq<Asset>, u: Setup, f: nat): (t': Tables)
    requires t.Aligned() && f < |files| && f < |u.installers|
    ensures t'.Aligned()
  {
    var slot := |t.pending|;
    var t1 := AddRows(t.(pending := t.pending + [0]), files, u, f, slot, |files[f].chunks|);
    if t1.pending[slot] == 0 then t1.(pending := t1.pending[..slot]) else t1
  }

  /** The tables after the first `n` files. */
  function RegisterAll(files: seq<Asset>, u: Setup, n: nat): (t: Tables)
    requires n <= |files| == |u.installers|
    ensures t.Aligned()
  {
    if n == 0 then EmptyTables
    else
      var t0 := RegisterAll(files, u, n - 1);
      if n - 1 in u.completed then t0 else RegisterFile(t0, files, u, n - 1)
  }

  /** Files sent straight to assembly: their registration left the pending table alone. */
  function SentAtOnce(files: seq<Asset>, u: Setup, n: nat): seq<nat>
    requires n <= |files| == |u.installers|
  {
    if n == 0 then []
    else
      var sent := SentAtOnce(files, u, n - 1);
      if n - 1 !in u.completed && |RegisterAll(files, u, n).pending| == |RegisterAll(files, u, n - 1).pending|
      then sent + [n - 1]
      else sent
  }

  function Untaint(it: Item, tainted: set<nat>): Item {
    if it.file in tainted then it.(useEager := false) else it
  }

  function TaintPass(items: seq<Item>, tainted: set<nat>): (r: seq<Item>)
    ensures |r| == |items|
    ensures forall i :: 0 <= i < |r| ==> r[i] == Untaint(items[i], tainted)
  {
    seq(|items|, i requires 0 <= i < |items| => Untaint(items[i], tainted))
  }

  function Concat(entries: seq<seq<Entry>>): seq<Entry> {
    if entries == [] then [] else Concat(entries[..|entries| - 1]) + entries[|entries| - 1]
  }

  // ---------------------------------------------------------------------------
  // The imperative registration
  // ---------------------------------------------------------------------------

  class PlanBuilder {
    var entries: seq<seq<Entry>>
    var items: seq<Item>
    var index: map<string, nat>
    var refcounts: seq<nat>
    var pending: seq<nat>
    var tainted: set<nat>

    function View(): Tables
      reads this
    {
      Tables(entries, items, index, refcounts, pending, tainted)
    }

    constructor ()
      ensures View() == EmptyTables
    {
      entries, items, index, refcounts, pending, tainted := [], [], map[], [], [], {};
    }

    /** Count one downloaded row: reuse or create its item, then append the entry. */
    method RegisterRow(o: Occurrence, forceEager: bool)
      requires View().Aligned() && o.pending < |pending|
      modifies this
      ensures View() == AddOccurrence(old(View()), o, forceEager)
    {
      pending := pending[o.pending := pending[o.pending] + 1];
      var i;
      if !forceEager {
        if o.name in index {
          i := index[o.name];
          if o.pre {
            items := items[i := items[i].(preDownloaded := true)];
          }
          tainted := tainted + {items[i].file} + {o.file};
          var it := old(items)[i];
          assert items == old(items)[i := it.(preDownloaded := it.preDownloaded || o.pre)];
        } else {
          i := |items|;
          items := items + [Item(o.file, o.chunk, o.installer, o.pre, o.pure)];
          index := index[o.name := i];
        }
      } else {
        i := |items|;
        items := items + [Item(o.file, o.chunk, o.installer, o.pre, true)];
      }
      if i >= |entries| {
        entries := entries + [[]];
      }
      entries := entries[i := entries[i] + [Entry(o.file, o.installer, o.pending)]];
      if i >= |refcounts| {
        refcounts := refcounts + [0];
      }
      refcounts := refcounts[i := refcounts[i] + 1];
      if i == |old(entries)| {
        assert entries[i] == [EntryOf(o)];
        assert entries == old(entries) + [[EntryOf(o)]];
        assert refcounts == old(refcounts) + [1];
      }
    }

    method RegisterChunksForFile(files: seq<Asset>, f: nat, tmpDir: nat, u: Setup)
      requires f < |files| && f < |u.installers| && u.installers[f] == tmpDir
      requires View().Aligned()
      modifies this
      ensures View() == RegisterFile(old(View()), files, u, f)
    {
      ghost var start := View().(pending := pending + [0]);
      var chunks := files[f].chunks;
      var pure := forall c | 0 <= c < |chunks| :: IsDownloaded(chunks[c]);
      var slot := |pending|;
      pending := pending + [0];
      for c := 0 to |chunks|
        invariant View() == AddRows(start, files, u, f, slot, c)
      {
        hide AddRows, AddOccurrence, FirstRow;
        NextRow(start, files, u, f, slot, c);
        if chunks[c].oldOffset < 0 {
          var isPre := FirstRow(files, f) + c in u.pre;
          RegisterRow(Occurrence(f, c, chunks[c].name, tmpDir, slot, pure, isPre), u.forceEager);
        }
      }
      if pending[slot] == 0 {
        pending := pending[..slot];
      }
    }
  }

  /** Everything the download and assembly stages are handed. */
  datatype DownloadPlan = DownloadPlan(
    items: seq<Item>,
    flat: seq<Entry>,
    offsets: seq<nat>,
    refcounts: seq<nat>,
    pending: seq<nat>,
    sent: seq<nat>
  )

  ghost predicate FlattenedFrom(flat: seq<Entry>, offsets: seq<nat>, entries: seq<seq<Entry>>) {
    && |offsets| == |entries| + 1
    && flat == Concat(entries)
    && forall i :: 0 <= i <= |entries| ==> offsets[i] == |Concat(entries[..i])|
  }

  function Total(counts: seq<nat>): nat {
    if counts == [] then 0 else Total(counts[..|counts| - 1]) + counts[|counts| - 1]
  }

  predicate InRun(counts: seq<nat>, d: nat, k: nat) {
    d < |counts| && k < counts[d]
  }

  /** `installers[f]` is the installer whose run of files contains `f`. */
  ghost predicate InstallersOf(installers: seq<nat>, counts: seq<nat>) {
    && |installers| == Total(counts)
    && forall d: nat, k: nat :: InRun(counts, d, k) ==>
         var f := Total(counts[..d]) + k; f < |installers| && installers[f] == d
  }

  /** One file more: its registration, and its place among the files sent at once. */
  lemma {:induction false} OneMoreFile(files: seq<Asset>, u: Setup, f: nat)
    requires f < |files| == |u.installers|
    ensures f in u.completed ==>
              RegisterAll(files, u, f + 1) == RegisterAll(files, u, f) && SentAtOnce(files, u, f + 1) == SentAtOnce(files, u, f)
    ensures f !in u.completed ==>
              && RegisterAll(files, u, f + 1) == RegisterFile(RegisterAll(files, u, f), files, u, f)
              && SentAtOnce(files, u, f + 1) == SentAtOnce(files, u, f) +
                 if |RegisterAll(files, u, f + 1).pending| == |RegisterAll(files, u, f).pending| then [f] else []
  {
    hide RegisterFile;
  }

  method RegisterFiles(b: PlanBuilder, files: seq<Asset>, counts: seq<nat>, u: Setup) returns (sent: seq<nat>)
    requires Total(counts) == |files| && InstallersOf(u.installers, counts)
    requires b.View() == EmptyTables
    modifies b
    ensures b.View() == RegisterAll(files, u, |files|) && sent == SentAtOnce(files, u, |files|)
  {
    var f := 0;
    sent := [];
    assert b.View() == RegisterAll(files, u, 0) && sent == SentAtOnce(files, u, 0);
    for di := 0 to |counts|
      invariant f == Total(counts[..di]) <= |files|
      invariant b.View() == RegisterAll(files, u, f)
      invariant sent == SentAtOnce(files, u, f)
    {
      hide RegisterAll, RegisterFile, SentAtOnce;
      assert counts[..di + 1][..di] == counts[..di];
      TotalPrefix(counts, di + 1);
      for k := 0 to counts[di]
        invariant f == Total(counts[..di]) + k <= |files|
        invariant b.View() == RegisterAll(files, u, f)
        invariant sent == SentAtOnce(files, u, f)
      {
        OneMoreFile(files, u, f);
        if f !in u.completed {
          var before := |b.pending|;
          assert InRun(counts, di, k);
          b.RegisterChunksForFile(files, f, di, u);
          if |b.pending| == before {
            sent := sent + [f];
          }
        }
        f := f + 1;
      }
    }
    assert counts[..|counts|] == counts;
  }

  method DisableTainted(items: seq<Item>, tainted: set<nat>) returns (r: seq<Item>)
    ensures r == TaintPass(items, tainted)
  {
    r := items;
    for i := 0 to |items|
      invariant |r| == |items|
      invariant forall k :: 0 <= k < i ==> r[k] == Untaint(items[k], tainted)
      invariant forall k :: i <= k < |items| ==> r[k] == items[k]
    {
      if items[i].file in tainted {
        r := r[i := r[i].(useEager := false)];
      }
    }
  }

  method Flatten(entries: seq<seq<Entry>>) returns (flat: seq<Entry>, offsets: seq<nat>)
    ensures FlattenedFrom(flat, offsets, entries)
  {
    flat, offsets := [], [0];
    for i := 0 to |entries|
      invariant |offsets| == i + 1
      invariant forall k :: 0 <= k <= i ==> offsets[k] == |Concat(entries[..k])|
      invariant flat == Concat(entries[..i])
    {
      assert entries[..i + 1][..i] == entries[..i];
      flat := flat + entries[i];
      offsets := offsets + [|flat|];
    }
    assert entries[..|entries|] == entries;
  }

  /** What is handed on for a manifest: the tables that registration grows, after the taint pass
      and flattened. */
  ghost predicate IsPlanOf(d: DownloadPlan, files: seq<Asset>, u: Setup)
    requires |files| == |u.installers|
  {
    var t := RegisterAll(files, u, |files|);
    && d.items == (if u.forceEager then t.items else TaintPass(t.items, t.tainted))
    && d.refcounts == t.refcounts && d.pending == t.pending
    && d.sent == SentAtOnce(files, u, |files|)
    && FlattenedFrom(d.flat, d.offsets, t.entries)
  }

  method BuildDownloadState(files: seq<Asset>, counts: seq<nat>, u: Setup) returns (d: DownloadPlan)
    requires Total(counts) == |files| && InstallersOf(u.installers, counts)
    ensures IsPlanOf(d, files, u)
  {
    var b := new PlanBuilder();
    var sent := RegisterFiles(b, files, counts, u);
    var items := b.items;
    if b.tainted != {} && !u.forceEager {
      items := DisableTainted(items, b.tainted);
    }
    var flat, offsets := Flatten(b.entries);
    d := DownloadPlan(items, flat, offsets, b.refcounts, b.pending, sent);
  }

  lemma {:induction false} TotalPrefix(counts: seq<nat>, d: nat)
    requires d <= |counts|
    ensures Total(counts[..d]) <= Total(counts)
    decreases |counts|
  {
    if d < |counts| {
      TotalPrefix(counts[..|counts| - 1], d);
      assert counts[..|counts| - 1][..d] == counts[..d];
    } else {
      assert counts[..d] == counts;
    }
  }
}
