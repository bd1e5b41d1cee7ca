/** The verification cache: proofs that a file of some size and modification second
    had some digest. A check may answer from the cache instead of hashing. */
module VerificationCache {
  import opened Manifest
  import opened Hex
  import opened RangeWriter

  const MAX_ENTRIES := 5_000

  /** Digest of the empty file. */
  const EMPTY_DIGEST: seq<Byte> := [0xd4, 0x1d, 0x8c, 0xd9, 0x8f, 0x00, 0xb2, 0x04, 0xe9, 0x80, 0x09, 0x98, 0xec, 0xf8, 0x42, 0x7e]

  datatype DiskFile = DiskFile(content: seq<Byte>, mtime: nat)

  /** A file as a check sees it: its size, its digest and its modification second. */
  datatype File = File(size: nat, digest: seq<Byte>, mtime: nat)

  datatype Entry = Entry(size: nat, md5: seq<Byte>, mtime: nat)

  datatype Verdict = Verdict(ok: bool, size: Option<nat>) | IoError

  ghost function Seen(digest: seq<Byte> -> seq<Byte>, file: Option<DiskFile>): Option<File> {
    match file
    case None => None
    case Some(f) => Some(File(|f.content|, digest(f.content), f.mtime))
  }

  ghost predicate Names(md5: seq<Byte>, digest: seq<Byte>) {
    Lower(md5) == Encode(digest)
  }

  /** What hashing the file afresh would answer. */
  ghost predicate Right(file: Option<File>, size: nat, md5: seq<Byte>) {
    file.Some? && file.value.size == size && Names(md5, file.value.digest)
  }

  /** The cache has an entry for these, whatever its modification second. */
  predicate Recorded(entries: map<string, Entry>, key: string, size: nat, md5: seq<Byte>) {
    key in entries && entries[key].size == size && entries[key].md5 == md5
  }

  /** An assembly task takes the file for valid. */
  ghost predicate TaskAccepts(entries: map<string, Entry>, key: string, file: Option<File>, size: nat, md5: seq<Byte>) {
    file.Some? && file.value.size == size && (Recorded(entries, key, size, md5) || Names(md5, file.value.digest))
  }

  predicate Hit(entries: map<string, Entry>, key: string, file: File, size: nat, md5: seq<Byte>) {
    key in entries && entries[key] == Entry(size, md5, file.mtime)
  }

  /** The answer and the cache after a check that meets no I/O error. */
  ghost function Checked(
      entries: map<string, Entry>, key: string, file: Option<File>, size: nat, md5: seq<Byte>)
    : (bool, map<string, Entry>)
  {
    if file.None? || file.value.size != size then (false, entries - {key})
    else if Hit(entries, key, file.value, size, md5) then (true, entries)
    else if !Names(md5, file.value.digest) then (false, entries - {key})
    else if |entries| >= MAX_ENTRIES then (true, entries)
    else (true, entries[key := Entry(size, md5, file.value.mtime)])
  }

  /** Hash a file in buffered reads; an empty one has a known digest. A `calm` call meets no
      input/output error. */
  method FileMd5Digest(digest: seq<Byte> -> seq<Byte>, content: seq<Byte>, calm: bool) returns (r: Option<seq<Byte>>)
    requires digest([]) == EMPTY_DIGEST
    ensures calm ==> r.Some?
    ensures r.Some? ==> r.value == digest(content)
  {
    if |content| == 0 {
      assert content == [];
      return Some(EMPTY_DIGEST);
    }
    var fed: seq<Byte> := [];
    while |fed| < |content|
      invariant |fed| <= |content| && fed == content[..|fed|]
      decreases |content| - |fed|
    {
      var ok, bytes := ReadAt(content, |fed|, 256 * 1024, calm);
      if !ok {
        return None;
      }
      assert fed + bytes == content[..|fed| + |bytes|];
      fed := fed + bytes;
    }
    assert fed == content;
    return Some(digest(fed));
  }

  class Cache {
    var entries: map<string, Entry>

    constructor ()
      ensures entries == map[]
    {
      entries := map[];
    }

    /** Check a file by its cache key. An I/O error changes nothing. */
    method CheckFile(
        digest: seq<Byte> -> seq<Byte>, key: string, file: Option<DiskFile>, size: nat, md5: seq<Byte>, calm: bool)
      returns (r: Verdict)
      requires IsDigest(digest) && digest([]) == EMPTY_DIGEST
      modifies this
      ensures calm ==> r.Verdict?
      ensures r.IoError? ==> entries == old(entries)
      ensures r.Verdict? ==> (r.ok, entries) == Checked(old(entries), key, Seen(digest, file), size, md5)
      ensures r.Verdict? ==> r.size == if file.None? then None else Some(|file.value.content|)
    {
      if !calm {
        if * {
          return IoError;
        }
      }
      if file.None? {
        entries := entries - {key};
        return Verdict(false, None);
      }
      var f := file.value;
      var actual := |f.content|;
      if actual != size {
        entries := entries - {key};
        return Verdict(false, Some(actual));
      }
      if key in entries && entries[key].size == size && entries[key].md5 == md5 && entries[key].mtime == f.mtime {
        return Verdict(true, Some(actual));
      }
      var d := FileMd5Digest(digest, f.content, calm);
      if d.None? {
        return IoError;
      }
      var matches := Md5HexEq(d.value, md5);
      if matches {
        if |entries| >= MAX_ENTRIES {
          return Verdict(true, Some(actual));
        }
        entries := entries[key := Entry(size, md5, f.mtime)];
      } else {
        entries := entries - {key};
      }
      return Verdict(matches, Some(actual));
    }
  }

  /** Whether an assembly task has work to do. It believes a recorded entry without looking at
      the modification second, so it skips wrongly exactly when one is recorded for a file of
      that size with another digest. `read` says that no input/output error came in between. */
  method NeedsAssembly(
      digest: seq<Byte> -> seq<Byte>, entries: map<string, Entry>, key: string, file: Option<DiskFile>, size: nat, md5: seq<Byte>,
      calm: bool)
    returns (needs: bool, read: bool)
    requires IsDigest(digest) && digest([]) == EMPTY_DIGEST
    ensures calm ==> read
    ensures !read ==> needs
    ensures read ==> (needs <==> !TaskAccepts(entries, key, Seen(digest, file), size, md5))
    ensures !needs && !Right(Seen(digest, file), size, md5) <==>
            read && file.Some? && |file.value.content| == size && Recorded(entries, key, size, md5) &&
            !Names(md5, digest(file.value.content))
    ensures !needs ==> file.Some? && |file.value.content| == size
    ensures read && file.Some? && |file.value.content| == size ==>
              (needs <==> (key !in entries || entries[key].size != size || entries[key].md5 != md5) &&
                          Lower(md5) != Encode(digest(file.value.content)))
  {
    if !calm {
      if * {
        return true, false;
      }
    }
    if file.None? || |file.value.content| != size {
      return true, true;
    }
    if Recorded(entries, key, size, md5) {
      return false, true;
    }
    var d := FileMd5Digest(digest, file.value.content, calm);
    if d.None? {
      return true, false;
    }
    var matches := Md5HexEq(d.value, md5);
    return !matches, true;
  }

  /** What a check leaves behind: a right answer below the limit is remembered, so that the same
      check of the same stamp is answered without looking at the file, a wrong one leaves no
      entry, a full cache takes no new key, and other keys are not touched. */
  lemma {:induction false} ChecksAreRemembered(
      entries: map<string, Entry>, key: string, file: File, size: nat, md5: seq<Byte>, other: seq<Byte>)
    ensures var (ok, m) := Checked(entries, key, Some(file), size, md5);
            && (ok && |entries| < 5_000 ==> Checked(m, key, Some(File(size, other, file.mtime)), size, md5) == (true, m))
            && (!ok ==> key !in m)
            && (|entries| >= 5_000 ==> m.Keys <= entries.Keys)
            && (ok && |entries| >= 5_000 ==> m == entries)
            && forall k :: k != key ==> (k in m <==> k in entries) && (k in m ==> m[k] == entries[k])
  {
    hide Names;
  }

  lemma {:induction false} RemoveOne<K, V>(m: map<K, V>, k: K)
    requires k in m
    ensures |m - {k}| == |m| - 1
  {
    assert (m - {k}).Keys == m.Keys - {k};
  }

  /** Loading keeps at most the limit: an oversized cache loses entries, in no particular
      order, until half the limit is left. */
  method LoadCache(stored: map<string, Entry>) returns (m: map<string, Entry>)
    ensures |m| == if |stored| > 5_000 then 2_500 else |stored|
    ensures LoadedFrom(m, stored) && (|stored| <= 5_000 ==> m == stored)
  {
    m := stored;
    if |stored| > MAX_ENTRIES {
      var trim := |stored| - MAX_ENTRIES / 2;
      while trim > 0
        invariant trim >= 0 && |m| == MAX_ENTRIES / 2 + trim
        invariant forall k :: k in m ==> k in stored && m[k] == stored[k]
      {
        assert m != map[];
        var k :| k in m;
        RemoveOne(m, k);
        m := m - {k};
        trim := trim - 1;
      }
    }
  }

  // ---------------------------------------------------------------------------
  // Histories of writes and checks
  // ---------------------------------------------------------------------------

  /** Files are written and checked, the cache is saved, and a later session loads what was
      saved last. */
  datatype Event =
    | Write(key: string, file: Option<File>)
    | Check(key: string, size: nat, md5: seq<Byte>)
    | Save
    | Load(loaded: map<string, Entry>)

  /** `saved` is the stored cache; `seen` records every version that a key ever named. */
  datatype State = State(
    world: map<string, File>, entries: map<string, Entry>, saved: map<string, Entry>, seen: set<(string, File)>)

  ghost function Fresh(world: map<string, File>): State {
    State(world, map[], map[], set key | key in world :: (key, world[key]))
  }

  /** What loading may make of a stored cache. */
  predicate LoadedFrom(m: map<string, Entry>, stored: map<string, Entry>) {
    |m| <= MAX_ENTRIES && forall k :: k in m ==> k in stored && m[k] == stored[k]
  }

  ghost function FileAt(s: State, key: string): Option<File> {
    if key in s.world then Some(s.world[key]) else None
  }

  ghost function Answer(s: State, e: Event): bool
    requires e.Check?
  {
    Checked(s.entries, e.key, FileAt(s, e.key), e.size, e.md5).0
  }

  ghost function Apply(s: State, e: Event): State {
    match e
    case Write(key, None) => s.(world := s.world - {key})
    case Write(key, Some(f)) => s.(world := s.world[key := f], seen := s.seen + {(key, f)})
    case Check(key, size, md5) => s.(entries := Checked(s.entries, key, FileAt(s, key), size, md5).1)
    case Save => s.(saved := s.entries)
    case Load(loaded) => if LoadedFrom(loaded, s.saved) then s.(entries := loaded) else s
  }

  ghost function After(s0: State, events: seq<Event>): State {
    if events == [] then s0
    else Apply(After(s0, events[..|events| - 1]), events[|events| - 1])
  }

  /** The last event of a history, if it is a check, is answered as hashing would. */
  ghost predicate LastRight(s0: State, events: seq<Event>) {
    events != [] && events[|events| - 1].Check? ==>
      var s, e := After(s0, events[..|events| - 1]), events[|events| - 1];
      (Answer(s, e) <==> Right(FileAt(s, e.key), e.size, e.md5))
  }

  predicate SameStamp(f: File, g: File) {
    f.size == g.size && f.mtime == g.mtime
  }

  /** Versions of a file that share size and modification second share their digest. */
  ghost predicate StampsTell(seen: set<(string, File)>) {
    forall key, f, g :: (key, f) in seen && (key, g) in seen && SameStamp(f, g) ==> f.digest == g.digest
  }

  /** The entry was true of some version of its file. */
  ghost predicate Vouched(seen: set<(string, File)>, key: string, entry: Entry) {
    exists f :: (key, f) in seen && f.size == entry.size && f.mtime == entry.mtime && Names(entry.md5, f.digest)
  }

  ghost predicate AllVouched(seen: set<(string, File)>, entries: map<string, Entry>) {
    forall key :: key in entries ==> Vouched(seen, key, entries[key])
  }

  /** A truthful cache, in memory and stored; only the one in memory is bounded. */
  ghost predicate Sound(s: State) {
    && (forall key :: key in s.world ==> (key, s.world[key]) in s.seen)
    && AllVouched(s.seen, s.entries) && AllVouched(s.seen, s.saved)
    && |s.entries| <= MAX_ENTRIES
  }

  lemma {:induction false} VouchedStays(seen: set<(string, File)>, more: set<(string, File)>, entries: map<string, Entry>)
    requires AllVouched(seen, entries) && seen <= more
    ensures AllVouched(more, entries)
  {
    forall key | key in entries ensures Vouched(more, key, entries[key]) {
      var f :| (key, f) in seen && f.size == entries[key].size && f.mtime == entries[key].mtime && Names(entries[key].md5, f.digest);
      assert (key, f) in more;
    }
  }

  lemma {:induction false} WriteKeepsSound(s: State, e: Event)
    requires Sound(s) && e.Write?
    ensures Sound(Apply(s, e))
  {
    hide AllVouched;
    VouchedStays(s.seen, Apply(s, e).seen, s.entries);
    VouchedStays(s.seen, Apply(s, e).seen, s.saved);
  }

  lemma {:induction false} StorageKeepsSound(s: State, e: Event)
    requires Sound(s) && (e.Save? || e.Load?)
    ensures Sound(Apply(s, e))
  {
    hide Vouched;
  }

  lemma {:induction false} RemovalKeepsSound(s: State, key: string)
    requires Sound(s)
    ensures Sound(s.(entries := s.entries - {key}))
  {
    hide Vouched;
    if key in s.entries {
      RemoveOne(s.entries, key);
    } else {
      assert s.entries - {key} == s.entries;
    }
  }

  lemma {:induction false} InsertKeepsSound(s: State, key: string, entry: Entry)
    requires Sound(s) && |s.entries| < MAX_ENTRIES && Vouched(s.seen, key, entry)
    ensures Sound(s.(entries := s.entries[key := entry]))
  {
    hide Vouched;
    assert s.entries[key := entry].Keys == s.entries.Keys + {key};
  }

  /** The file that a check accepts and caches. */
  ghost predicate Accepted(s: State, key: string, size: nat, md5: seq<Byte>) {
    key in s.world && s.world[key].size == size && Names(md5, s.world[key].digest)
  }

  /** A check leaves the cache alone, drops the key, or caches an accepted file. */
  lemma {:induction false} CheckOutcome(s: State, key: string, size: nat, md5: seq<Byte>)
    ensures var s' := Apply(s, Check(key, size, md5));
            || s' == s
            || s' == s.(entries := s.entries - {key})
            || (Accepted(s, key, size, md5) && |s.entries| < MAX_ENTRIES &&
                s' == s.(entries := s.entries[key := Entry(size, md5, s.world[key].mtime)]))
  {
    hide Names;
  }

  lemma {:induction false} AcceptedIsVouched(s: State, key: string, size: nat, md5: seq<Byte>)
    requires Sound(s) && Accepted(s, key, size, md5)
    ensures Vouched(s.seen, key, Entry(size, md5, s.world[key].mtime))
  {
    hide Names;
    assert (key, s.world[key]) in s.seen;
  }

  lemma {:induction false} CheckKeepsSound(s: State, e: Event)
    requires Sound(s) && e.Check?
    ensures Sound(Apply(s, e))
  {
    hide Sound, Apply, Vouched, Names;
    CheckOutcome(s, e.key, e.size, e.md5);
    RemovalKeepsSound(s, e.key);
    if Accepted(s, e.key, e.size, e.md5) && |s.entries| < MAX_ENTRIES {
      AcceptedIsVouched(s, e.key, e.size, e.md5);
      InsertKeepsSound(s, e.key, Entry(e.size, e.md5, s.world[e.key].mtime));
    }
  }

  /** Whatever happens, a truthful cache within its limit stays truthful and within its limit; and
      a session that starts by loading a truthful stored cache of any size starts with one. */
  lemma {:induction false} CacheStaysSmallAndTrue(s0: State, events: seq<Event>)
    requires Sound(s0) || (Sound(s0.(entries := map[])) && LoadedFrom(s0.entries, s0.saved))
    ensures Sound(After(s0, events)) && |After(s0, events).entries| <= 5_000
  {
    if events != [] {
      CacheStaysSmallAndTrue(s0, events[..|events| - 1]);
      var s, e := After(s0, events[..|events| - 1]), events[|events| - 1];
      match e
      case Write(_, _) => WriteKeepsSound(s, e);
      case Check(_, _, _) => CheckKeepsSound(s, e);
      case Save => StorageKeepsSound(s, e);
      case Load(_) => StorageKeepsSound(s, e);
    }
  }

  /** After any history a saved cache comes back whole when it is loaded. The model allows for any
      part of it, and never for what is not. */
  lemma {:induction false} SavedCacheComesBack(s0: State, events: seq<Event>, part: map<string, Entry>)
    requires Sound(s0)
    ensures var m := After(s0, events).entries;
            && After(s0, events + [Save, Load(m)]).entries == m
            && (part.Items <= m.Items ==> After(s0, events + [Save, Load(part)]).entries == part)
            && (!(part.Items <= m.Items) ==> After(s0, events + [Save, Load(part)]).entries == m)
  {
    CacheStaysSmallAndTrue(s0, events);
    var m := After(s0, events).entries;
    SaveThenLoad(s0, events, m);
    SaveThenLoad(s0, events, part);
    if part.Items <= m.Items {
      PartOf(part, m);
    }
    if forall k :: k in part ==> k in m && part[k] == m[k] {
      assert part.Items <= m.Items;
    }
  }

  lemma {:induction false} PartOf(part: map<string, Entry>, m: map<string, Entry>)
    requires part.Items <= m.Items
    ensures forall k :: k in part ==> k in m && m[k] == part[k]
    ensures |part| <= |m|
  {
    forall k | k in part ensures k in m && m[k] == part[k] {
      assert (k, part[k]) in part.Items;
    }
    SubsetCardinality(part.Keys, m.Keys);
  }

  lemma {:induction false} SaveThenLoad(s0: State, events: seq<Event>, loaded: map<string, Entry>)
    ensures var m := After(s0, events).entries;
            After(s0, events + [Save, Load(loaded)]).entries == if LoadedFrom(loaded, m) then loaded else m
  {
    var all := events + [Save, Load(loaded)];
    assert all[..|all| - 1] == events + [Save];
    AfterOneMore(s0, events, Save);
  }

  // ---------------------------------------------------------------------------
  // Main results
  // ---------------------------------------------------------------------------

  lemma {:induction false} AnswerIsRight(s: State, e: Event)
    requires Sound(s) && StampsTell(s.seen) && e.Check?
    ensures Answer(s, e) <==> Right(FileAt(s, e.key), e.size, e.md5)
  {
    hide Names;
    if e.key in s.world && s.world[e.key].size == e.size && Hit(s.entries, e.key, s.world[e.key], e.size, e.md5) {
      var file := s.world[e.key];
      var f :| (e.key, f) in s.seen && f.size == e.size && f.mtime == file.mtime && Names(e.md5, f.digest);
      assert (e.key, file) in s.seen && SameStamp(f, file);
    }
  }

  /** From any truthful cache, whatever is written, checked, saved and loaded, at capacity or
      below it: if stamps tell versions apart, the cached answer is the one that hashing the file would give. */
  lemma {:induction false} HonestStampsAreEnough(s0: State, events: seq<Event>)
    requires Sound(s0) && StampsTell(After(s0, events).seen)
    ensures LastRight(s0, events)
  {
    if events != [] && events[|events| - 1].Check? {
      CacheStaysSmallAndTrue(s0, events[..|events| - 1]);
      AnswerIsRight(After(s0, events[..|events| - 1]), events[|events| - 1]);
    }
  }

  ghost predicate Digests(files: seq<File>) {
    forall i :: 0 <= i < |files| ==> |files[i].digest| == DIGEST_LENGTH
  }

  ghost function Writes(key: string, files: seq<File>): (r: seq<Event>)
    ensures |r| == |files| && forall i :: 0 <= i < |r| ==> r[i] == Write(key, Some(files[i]))
  {
    seq(|files|, i requires 0 <= i < |files| => Write(key, Some(files[i])))
  }

  lemma {:induction false} OneMoreWrite(events: seq<Event>, key: string, files: seq<File>)
    requires files != []
    ensures var n := |files| - 1;
            events + Writes(key, files) == events + Writes(key, files[..n]) + [Write(key, Some(files[n]))]
  {
    var n := |files| - 1;
    assert Writes(key, files) == Writes(key, files[..n]) + [Write(key, Some(files[n]))];
  }

  lemma {:induction false} WritesOnly(s0: State, events: seq<Event>, key: string, files: seq<File>)
    ensures After(s0, events + Writes(key, files)).entries == After(s0, events).entries
    ensures files != [] ==> FileAt(After(s0, events + Writes(key, files)), key) == Some(files[|files| - 1])
  {
    hide Writes, After, LastRight, Right, Answer;
    if files == [] {
      NoWrites(key, files);
      assert events + [] == events;
    } else {
      var n := |files| - 1;
      WritesOnly(s0, events, key, files[..n]);
      OneMoreWrite(events, key, files);
      AfterOneMore(s0, events + Writes(key, files[..n]), Write(key, Some(files[n])));
    }
  }

  lemma {:induction false} NoWrites(key: string, files: seq<File>)
    requires files == []
    ensures Writes(key, files) == []
  {
  }

  /** The checks that expose two versions with one stamp and different digests. */
  ghost function Exposing(key: string, files: seq<File>, i: nat, j: nat): seq<Event>
    requires i < j < |files|
  {
    var c := Check(key, files[i].size, Encode(files[i].digest));
    Writes(key, files[..i + 1]) + [c] + Writes(key, files[i + 1..j + 1]) + [c]
  }

  /** A check of an empty cache against a file's own digest caches it. */
  lemma {:induction false} OwnDigestIsCached(s: State, key: string, f: File)
    requires s.entries == map[] && FileAt(s, key) == Some(f) && |f.digest| == DIGEST_LENGTH
    ensures Apply(s, Check(key, f.size, Encode(f.digest))).entries == map[key := Entry(f.size, Encode(f.digest), f.mtime)]
  {
    ExpectedNamesOneDigest(f.digest, f.digest, Encode(f.digest));
  }

  /** The cached entry then answers for another version with the same stamp. */
  lemma {:induction false} EntryAnswersForAnother(s: State, key: string, f: File, g: File)
    requires s.entries == map[key := Entry(f.size, Encode(f.digest), f.mtime)] && FileAt(s, key) == Some(g)
    requires SameStamp(f, g) && f.digest != g.digest && |f.digest| == |g.digest| == DIGEST_LENGTH
    ensures Answer(s, Check(key, f.size, Encode(f.digest))) && !Right(FileAt(s, key), f.size, Encode(f.digest))
  {
    ExpectedNamesOneDigest(f.digest, g.digest, Encode(f.digest));
  }

  lemma {:induction false} AfterOneMore(s0: State, events: seq<Event>, e: Event)
    ensures After(s0, events + [e]) == Apply(After(s0, events), e)
    ensures e.Check? ==>
              (LastRight(s0, events + [e]) <==>
                (Answer(After(s0, events), e) <==> Right(FileAt(After(s0, events), e.key), e.size, e.md5)))
  {
    assert (events + [e])[..|events + [e]| - 1] == events;
  }

  /** Two checks around events that leave the cache alone: the second believes the first. */
  lemma {:induction false} SecondCheckIsDeceived(
      s0: State, first: seq<Event>, more: seq<Event>, key: string, f: File, g: File, c: Event)
    requires c == Check(key, f.size, Encode(f.digest))
    requires SameStamp(f, g) && f.digest != g.digest && |f.digest| == |g.digest| == DIGEST_LENGTH
    requires After(s0, first).entries == map[] && FileAt(After(s0, first), key) == Some(f)
    requires After(s0, first + [c] + more).entries == After(s0, first + [c]).entries
    requires FileAt(After(s0, first + [c] + more), key) == Some(g)
    ensures !LastRight(s0, first + [c] + more + [c])
  {
    hide Apply, Answer, Right, Encode, After, LastRight, FileAt;
    OwnDigestIsCached(After(s0, first), key, f);
    AfterOneMore(s0, first, c);
    var third := first + [c] + more;
    EntryAnswersForAnother(After(s0, third), key, f, g);
    AfterOneMore(s0, third, c);
  }

  lemma {:induction false} RecurringStampsDeceive(s0: State, key: string, files: seq<File>, i: nat, j: nat)
    requires s0.entries == map[] && Digests(files) && i < j < |files| && SameStamp(files[i], files[j])
    requires files[i].digest != files[j].digest
    ensures !LastRight(s0, Exposing(key, files, i, j))
  {
    hide Encode, After, LastRight, Writes, FileAt;
    var f, g, before, between := files[i], files[j], files[..i + 1], files[i + 1..j + 1];
    assert before[|before| - 1] == f && between[|between| - 1] == g;
    assert |f.digest| == |g.digest| == DIGEST_LENGTH;
    var c := Check(key, f.size, Encode(f.digest));
    var first, more := Writes(key, before), Writes(key, between);
    assert Exposing(key, files, i, j) == first + [c] + more + [c];
    hide Exposing, Digests;
    NothingHappened(s0);
    WritesOnly(s0, [], key, before);
    assert [] + first == first;
    WritesOnly(s0, first + [c], key, between);
    SecondCheckIsDeceived(s0, first, more, key, f, g, c);
  }

  lemma {:induction false} NothingHappened(s0: State)
    ensures After(s0, []) == s0
  {
  }

  /** A history of one file's versions, with checks put in anywhere. */
  ghost predicate ChecksOf(key: string, files: seq<File>, events: seq<Event>) {
    forall x :: 0 <= x < |events| && events[x].Write? ==>
      events[x].key == key && events[x].file.Some? && events[x].file.value in files
  }

  /** Versions of one file are told apart by their stamps. */
  ghost predicate Distinguished(files: seq<File>) {
    forall i, j :: 0 <= i < j < |files| && SameStamp(files[i], files[j]) ==> files[i].digest == files[j].digest
  }

  /** A truthful cache to begin with, about versions of this one file. */
  ghost predicate AboutOnly(key: string, files: seq<File>, s0: State) {
    Sound(s0) && forall x :: x in s0.seen ==> x.0 == key && x.1 in files
  }

  lemma {:induction false} SeenAreVersions(key: string, files: seq<File>, s0: State, events: seq<Event>)
    requires AboutOnly(key, files, s0) && ChecksOf(key, files, events)
    ensures forall x :: x in After(s0, events).seen ==> x.0 == key && x.1 in files
  {
    if events != [] {
      hide Sound;
      SeenAreVersions(key, files, s0, events[..|events| - 1]);
    }
  }

  lemma {:induction false} DistinguishedIsRight(key: string, files: seq<File>, s0: State, events: seq<Event>)
    requires Distinguished(files) && AboutOnly(key, files, s0) && ChecksOf(key, files, events)
    ensures LastRight(s0, events)
  {
    hide LastRight, After, Sound, ChecksOf;
    SeenAreVersions(key, files, s0, events);
    HonestStampsAreEnough(s0, events);
  }

  /** Exactly when: every way of checking, saving and loading between writes of these versions,
      from any truthful cache about them, is answered rightly if and only if versions that share
      a stamp share their digest. */
  lemma {:induction false} RightExactlyWhenDistinguished(key: string, files: seq<File>)
    requires Digests(files)
    ensures Distinguished(files) <==>
            forall s0, events :: AboutOnly(key, files, s0) && ChecksOf(key, files, events) ==> LastRight(s0, events)
  {
    hide LastRight, AboutOnly, ChecksOf, Exposing;
    if Distinguished(files) {
      forall s0, events | AboutOnly(key, files, s0) && ChecksOf(key, files, events) ensures LastRight(s0, events) {
        DistinguishedIsRight(key, files, s0, events);
      }
    } else {
      var i, j :| 0 <= i < j < |files| && SameStamp(files[i], files[j]) && files[i].digest != files[j].digest;
      NothingSeenYet(key, files);
      RecurringStampsDeceive(Fresh(map[]), key, files, i, j);
      ExposingIsOne(key, files, i, j);
    }
  }

  lemma {:induction false} NothingSeenYet(key: string, files: seq<File>)
    ensures AboutOnly(key, files, Fresh(map[]))
  {
  }

  lemma {:induction false} ExposingIsOne(key: string, files: seq<File>, i: nat, j: nat)
    requires i < j < |files|
    ensures ChecksOf(key, files, Exposing(key, files, i, j))
  {
  }

  /** Changing the size or the second on every write is not enough: a stamp may come back. */
  lemma {:induction false} StampsCanComeBack(key: string, a: seq<Byte>, b: seq<Byte>)
    requires |a| == |b| == DIGEST_LENGTH && a != b
    ensures var files := [File(1, a, 10), File(1, a, 11), File(1, b, 10)];
            && (forall i :: 0 < i < |files| ==> files[i].mtime != files[i - 1].mtime)
            && exists events :: ChecksOf(key, files, events) && !LastRight(Fresh(map[]), events)
  {
    hide LastRight, Exposing;
    var files := [File(1, a, 10), File(1, a, 11), File(1, b, 10)];
    RecurringStampsDeceive(Fresh(map[]), key, files, 0, 2);
    ExposingIsOne(key, files, 0, 2);
  }
}
