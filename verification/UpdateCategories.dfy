/** The files that an update writes: the plans of several categories one after another, and
    the assets of the new build that they come from. */
module UpdateCategories {
  import opened Manifest
  import opened UpdatePlan
  import opened UpdateTree

  /** One matching field: the old manifest if the installed build has it, and the new one. */
  datatype Category = Category(before: Option<seq<Asset>>, after: seq<Asset>)

  ghost function CategoryPlan(cat: Category, disk: Disk): seq<Asset> {
    match cat.before
    case None => PlanNewCategory(cat.after)
    case Some(before) => Plan(before, cat.after, disk)
  }

  function FilesOnly(plan: seq<Asset>): (r: seq<Asset>)
    ensures forall a :: a in r <==> a in plan && !IsDirectory(a)
  {
    if plan == [] then []
    else
      var last := plan[|plan| - 1];
      FilesOnly(plan[..|plan| - 1]) + if IsDirectory(last) then [] else [last]
  }

  /** The files to be written, category after category. */
  ghost function Planned(cats: seq<Category>, disk: Disk): seq<Asset> {
    if cats == [] then []
    else Planned(cats[..|cats| - 1], disk) + FilesOnly(CategoryPlan(cats[|cats| - 1], disk))
  }

  /** The category of each planned file. */
  ghost function Origins(cats: seq<Category>, disk: Disk): (r: seq<nat>)
    ensures |r| == |Planned(cats, disk)|
    ensures forall f :: 0 <= f < |r| ==> r[f] < |cats|
  {
    if cats == [] then []
    else
      Origins(cats[..|cats| - 1], disk) +
      seq(|FilesOnly(CategoryPlan(cats[|cats| - 1], disk))|, _ => |cats| - 1)
  }

  /** All assets of the new build. */
  function AllAfter(cats: seq<Category>): seq<Asset> {
    if cats == [] then [] else AllAfter(cats[..|cats| - 1]) + cats[|cats| - 1].after
  }

  /** The names that some category drops. */
  ghost function Dropped(cats: seq<Category>): (r: set<string>)
    ensures forall n :: n in r <==> exists d :: 0 <= d < |cats| && Drops(cats[d], n)
  {
    if cats == [] then {}
    else
      var last := cats[|cats| - 1];
      Dropped(cats[..|cats| - 1]) +
      match last.before
      case None => {}
      case Some(before) => set n | n in DeletedFiles(before, Names(last.after))
  }

  /** The category's old manifest has a file of that name and its new one has nothing. */
  ghost predicate Drops(cat: Category, n: string) {
    cat.before.Some? && n !in Names(cat.after) && exists o :: o in cat.before.value && !IsDirectory(o) && o.name == n
  }

  // ---------------------------------------------------------------------------
  // Planned files and the assets they come from
  // ---------------------------------------------------------------------------

  lemma {:induction false} VersionContent(store: Store, a: Asset, p: Asset, n: nat)
    requires Version(a, p) && HasContents(store, a) && n <= |a.chunks|
    ensures HasContents(store, p) && UpdateTree.Content(store, p, n) == UpdateTree.Content(store, a, n)
  {
    if n > 0 {
      VersionContent(store, a, p, n - 1);
    }
  }

  lemma {:induction false} VersionDescribed(store: Store, a: Asset, p: Asset)
    requires Version(a, p) && Described(store, a)
    ensures Described(store, p) && FileContent(store, p) == FileContent(store, a)
  {
    hide UpdateTree.Content;
    VersionContent(store, a, p, |a.chunks|);
    forall c | 0 <= c < |p.chunks|
      ensures p.chunks[c].sizeDecompressed == |store[p.chunks[c].decompressedHash]|
      ensures p.chunks[c].fileOffset == |UpdateTree.Content(store, p, c)| < 2 * I64
    {
      VersionContent(store, a, p, c);
    }
  }

  /** Every file of a category's plan is a version of one of its new assets. */
  lemma {:induction false} PlanVersions(cat: Category, disk: Disk)
    requires UniqueFiles(cat.after)
    ensures UniqueFiles(CategoryPlan(cat, disk))
    ensures forall p :: p in CategoryPlan(cat, disk) ==> exists a :: a in cat.after && Version(a, p)
  {
    match cat.before
    case None =>
      DiffIsUnique(cat.after, map[]);
      forall p | p in CategoryPlan(cat, disk) ensures exists a :: a in cat.after && Version(a, p) {
        assert Version(p, p);
      }
    case Some(before) =>
      PlanParts(before, cat.after, disk);
      var plan := Plan(before, cat.after, disk);
      var bad := CorruptedNames(before, disk);
      var diff := DiffFiles(cat.after, OldMd5(before, |before|) - bad);
      hide Plan, Naive, Without, CorruptedNames, OldMd5;
      forall p | p in plan ensures exists a :: a in cat.after && Version(a, p) {
        var i :| 0 <= i < |plan| && plan[i] == p;
        assert Version(diff[i], p);
      }
  }

  ghost predicate DistinctNames(files: seq<Asset>) {
    forall f, g :: 0 <= f < g < |files| ==> files[f].name != files[g].name
  }

  lemma {:induction false} PlannedAt(cats: seq<Category>, disk: Disk, f: nat)
    requires f < |Planned(cats, disk)|
    ensures var p := Planned(cats, disk)[f];
            !IsDirectory(p) && p in CategoryPlan(cats[Origins(cats, disk)[f]], disk)
  {
    var init, last := cats[..|cats| - 1], cats[|cats| - 1];
    if f < |Planned(init, disk)| {
      PlannedAt(init, disk, f);
      hide CategoryPlan, FilesOnly;
      assert init[Origins(init, disk)[f]] == cats[Origins(cats, disk)[f]];
    } else {
      hide CategoryPlan;
      assert Planned(cats, disk)[f] in FilesOnly(CategoryPlan(last, disk));
    }
  }

  lemma {:induction false} FileAt(plan: seq<Asset>, p: Asset) returns (x: nat)
    requires p in plan && !IsDirectory(p)
    ensures x < |FilesOnly(plan)| && FilesOnly(plan)[x] == p
  {
    assert p in FilesOnly(plan);
    x :| 0 <= x < |FilesOnly(plan)| && FilesOnly(plan)[x] == p;
  }

  lemma {:induction false} OriginsOfPrefix(cats: seq<Category>, disk: Disk, f: nat)
    requires cats != [] && f < |Planned(cats, disk)|
    ensures var init := cats[..|cats| - 1];
            && (f < |Planned(init, disk)| ==>
                  Planned(cats, disk)[f] == Planned(init, disk)[f] && Origins(cats, disk)[f] == Origins(init, disk)[f])
            && (f >= |Planned(init, disk)| ==> Origins(cats, disk)[f] == |cats| - 1)
  {
  }

  lemma {:induction false} OriginsOfLast(cats: seq<Category>, disk: Disk, x: nat)
    requires cats != [] && x < |FilesOnly(CategoryPlan(cats[|cats| - 1], disk))|
    ensures var f := |Planned(cats[..|cats| - 1], disk)| + x;
            && f < |Planned(cats, disk)| && Origins(cats, disk)[f] == |cats| - 1
            && Planned(cats, disk)[f] == FilesOnly(CategoryPlan(cats[|cats| - 1], disk))[x]
  {
    hide CategoryPlan, FilesOnly;
  }

  lemma {:induction false} PlannedGrows(cats: seq<Category>, disk: Disk)
    requires cats != []
    ensures |Planned(cats[..|cats| - 1], disk)| <= |Planned(cats, disk)|
  {
    hide CategoryPlan, FilesOnly;
  }

  lemma {:induction false} PlannedHas(cats: seq<Category>, disk: Disk, d: nat, p: Asset) returns (f: nat)
    requires d < |cats| && p in CategoryPlan(cats[d], disk) && !IsDirectory(p)
    ensures f < |Planned(cats, disk)| && Planned(cats, disk)[f] == p && Origins(cats, disk)[f] == d
  {
    hide CategoryPlan, FilesOnly, Planned, Origins;
    var init, last := cats[..|cats| - 1], cats[|cats| - 1];
    if d < |init| {
      f := PlannedHas(init, disk, d, p);
      PlannedGrows(cats, disk);
      OriginsOfPrefix(cats, disk, f);
    } else {
      f := FileAt(CategoryPlan(last, disk), p);
      OriginsOfLast(cats, disk, f);
      f := |Planned(init, disk)| + f;
    }
  }

  lemma {:induction false} AfterIsAsset(cats: seq<Category>, d: nat, a: Asset) returns (i: nat)
    requires d < |cats| && a in cats[d].after
    ensures i < |AllAfter(cats)| && AllAfter(cats)[i] == a
    ensures |AllAfter(cats[..d])| <= i < |AllAfter(cats[..d + 1])| <= |AllAfter(cats)|
  {
    var init := cats[..|cats| - 1];
    if d < |init| {
      i := AfterIsAsset(init, d, a);
      assert init[..d] == cats[..d] && init[..d + 1] == cats[..d + 1];
    } else {
      var x :| 0 <= x < |cats[d].after| && cats[d].after[x] == a;
      i := |AllAfter(init)| + x;
      assert cats[..d] == init && cats[..d + 1] == cats;
    }
  }

  lemma {:induction false} AllAfterGrows(cats: seq<Category>, d: nat, e: nat)
    requires d <= e <= |cats|
    ensures |AllAfter(cats[..d])| <= |AllAfter(cats[..e])|
  {
    if d < e {
      AllAfterGrows(cats, d, e - 1);
      assert cats[..e][..e - 1] == cats[..e - 1];
    }
  }

  /** In a build whose files have different names a name tells category and asset. */
  lemma {:induction false} NameTellsAsset(cats: seq<Category>, d: nat, a: Asset, e: nat, b: Asset)
    requires UniqueFiles(AllAfter(cats)) && d < |cats| && e < |cats|
    requires a in cats[d].after && b in cats[e].after && !IsDirectory(a) && !IsDirectory(b) && a.name == b.name
    ensures d == e && a == b
  {
    var i := AfterIsAsset(cats, d, a);
    var k := AfterIsAsset(cats, e, b);
    assert i == k;
    if d < e {
      AllAfterGrows(cats, d + 1, e);
    } else if e < d {
      AllAfterGrows(cats, e + 1, d);
    }
  }

  lemma {:induction false} AfterIsUnique(cats: seq<Category>, d: nat)
    requires UniqueFiles(AllAfter(cats)) && d < |cats|
    ensures UniqueFiles(cats[d].after)
  {
    var init, all := cats[..|cats| - 1], AllAfter(cats);
    var k := |AllAfter(init)|;
    if d < |init| {
      assert UniqueFiles(AllAfter(init)) by {
        forall i, j | 0 <= i < j < k && !IsDirectory(all[i]) && !IsDirectory(all[j]) ensures all[i].name != all[j].name {
        }
        assert AllAfter(init) == all[..k];
      }
      AfterIsUnique(init, d);
    } else {
      var after := cats[d].after;
      forall i, j | 0 <= i < j < |after| && !IsDirectory(after[i]) && !IsDirectory(after[j])
        ensures after[i].name != after[j].name
      {
        assert all[k + i] == after[i] && all[k + j] == after[j];
      }
    }
  }

  /** The asset that a planned file is a version of. */
  lemma {:induction false} PlannedFrom(cats: seq<Category>, disk: Disk, f: nat) returns (a: Asset)
    requires UniqueFiles(AllAfter(cats)) && f < |Planned(cats, disk)|
    ensures a in cats[Origins(cats, disk)[f]].after && Version(a, Planned(cats, disk)[f]) && !IsDirectory(a)
  {
    hide CategoryPlan;
    var d := Origins(cats, disk)[f];
    PlannedAt(cats, disk, f);
    AfterIsUnique(cats, d);
    PlanVersions(cats[d], disk);
    a :| a in cats[d].after && Version(a, Planned(cats, disk)[f]);
  }

  lemma {:induction false} FilesOnlyDistinct(plan: seq<Asset>)
    requires UniqueFiles(plan)
    ensures DistinctNames(FilesOnly(plan))
  {
    if plan != [] {
      var init, last := plan[..|plan| - 1], plan[|plan| - 1];
      FilesOnlyDistinct(init);
      var files := FilesOnly(init);
      forall f | 0 <= f < |files| && !IsDirectory(last) ensures files[f].name != last.name {
        assert files[f] in files;
      }
    }
  }

  /** Planned files of one category have different names, and so have those of two. */
  lemma {:induction false} PlannedDistinct(cats: seq<Category>, disk: Disk, f: nat, g: nat)
    requires UniqueFiles(AllAfter(cats)) && f < g < |Planned(cats, disk)|
    ensures Planned(cats, disk)[f].name != Planned(cats, disk)[g].name
  {
    hide CategoryPlan;
    var d, e := Origins(cats, disk)[f], Origins(cats, disk)[g];
    if d != e {
      var a := PlannedFrom(cats, disk, f);
      var b := PlannedFrom(cats, disk, g);
      if a.name == b.name {
        NameTellsAsset(cats, d, a, e, b);
      }
    } else {
      SameOriginDistinct(cats, disk, f, g);
    }
  }

  lemma {:induction false} SameOriginDistinct(cats: seq<Category>, disk: Disk, f: nat, g: nat)
    requires f < g < |Planned(cats, disk)| && Origins(cats, disk)[f] == Origins(cats, disk)[g]
    requires UniqueFiles(AllAfter(cats))
    ensures Planned(cats, disk)[f].name != Planned(cats, disk)[g].name
  {
    hide CategoryPlan;
    var init, last := cats[..|cats| - 1], cats[|cats| - 1];
    var k := |Planned(init, disk)|;
    OriginsOfPrefix(cats, disk, f);
    OriginsOfPrefix(cats, disk, g);
    if g < k {
      var all, m := AllAfter(cats), |AllAfter(init)|;
      assert AllAfter(init) == all[..m];
      SameOriginDistinct(init, disk, f, g);
    } else {
      AfterIsUnique(cats, |cats| - 1);
      PlanVersions(last, disk);
      FilesOnlyDistinct(CategoryPlan(last, disk));
      var files := FilesOnly(CategoryPlan(last, disk));
      assert Planned(cats, disk)[f] == files[f - k] && Planned(cats, disk)[g] == files[g - k];
    }
  }
}
