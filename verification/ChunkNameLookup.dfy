/** The chunk name index: arena positions sorted by name and searched by halving. It
    answers as a scan of the names would. */
module ChunkNameLookup {
  import opened Manifest
  import opened StringArena
  import P = Protocol

  // ---------------------------------------------------------------------------
  // Byte order of names
  // ---------------------------------------------------------------------------

  predicate Less(a: string, b: string) {
    if b == "" then false
    else if a == "" then true
    else a[0] < b[0] || (a[0] == b[0] && Less(a[1..], b[1..]))
  }

  lemma {:induction false} LessIsTotal(a: string, b: string)
    ensures a != b ==> Less(a, b) || Less(b, a)
    ensures !(Less(a, b) && Less(b, a)) && !Less(a, a)
  {
    if a != "" && b != "" {
      LessIsTotal(a[1..], b[1..]);
      if a[0] == b[0] && a[1..] == b[1..] {
        assert a == [a[0]] + a[1..] == b;
      }
    }
    if a != "" {
      LessIsTotal(a[1..], a[1..]);
    }
  }

  lemma {:induction false} LessIsTransitive(a: string, b: string, c: string)
    requires Less(a, b) && Less(b, c)
    ensures Less(a, c)
  {
    if a != "" && a[0] == b[0] && b[0] == c[0] {
      LessIsTransitive(a[1..], b[1..], c[1..]);
    }
  }

  /** The texts agree up to position `k`, where the first ends or has the smaller byte. */
  ghost predicate SmallerAt(a: string, b: string, k: nat) {
    k <= |a| && k < |b| && a[..k] == b[..k] && (k == |a| || a[k] < b[k])
  }

  lemma {:induction false} SmallerAtMeans(a: string, b: string, k: nat)
    requires SmallerAt(a, b, k)
    ensures b != "" && (k > 0 ==> a != "" && a[0] == b[0])
  {
    if k > 0 {
      assert a[..k][0] == a[0] && b[..k][0] == b[0];
    }
  }

  lemma {:induction false} LessExactly(a: string, b: string)
    ensures Less(a, b) <==> exists k: nat :: SmallerAt(a, b, k)
  {
    if a != "" && b != "" && a[0] == b[0] {
      LessExactly(a[1..], b[1..]);
      if Less(a, b) {
        var k: nat :| SmallerAt(a[1..], b[1..], k);
        assert a[..k + 1] == [a[0]] + a[1..][..k] && b[..k + 1] == [b[0]] + b[1..][..k];
        assert SmallerAt(a, b, k + 1);
      }
      if k: nat :| SmallerAt(a, b, k) {
        assert k > 0;
        assert a[1..][..k - 1] == a[..k][1..] && b[1..][..k - 1] == b[..k][1..];
        assert SmallerAt(a[1..], b[1..], k - 1);
      }
    } else if Less(a, b) {
      assert SmallerAt(a, b, 0);
    } else if k: nat :| SmallerAt(a, b, k) {
      SmallerAtMeans(a, b, k);
    }
  }

  // ---------------------------------------------------------------------------
  // The sorted index
  // ---------------------------------------------------------------------------

  ghost predicate Indices(strings: seq<string>, order: seq<nat>) {
    forall k :: 0 <= k < |order| ==> order[k] < |strings|
  }

  ghost predicate Sorted(strings: seq<string>, order: seq<nat>)
    requires Indices(strings, order)
  {
    forall j, k :: 0 <= j < k < |order| ==> !Less(strings[order[k]], strings[order[j]])
  }

  /** Every position below `n` once, in name order. */
  ghost predicate SortedIndex(strings: seq<string>, order: seq<nat>, n: nat) {
    && Indices(strings, order) && Sorted(strings, order)
    && |order| == n && forall i: nat :: i < n ==> i in order
  }

  method Insert(strings: seq<string>, order: seq<nat>, i: nat) returns (r: seq<nat>)
    requires i < |strings| && Indices(strings, order) && Sorted(strings, order)
    ensures Indices(strings, r) && Sorted(strings, r) && |r| == |order| + 1
    ensures forall x :: x in r <==> x in order || x == i
  {
    var at := |order|;
    while at > 0 && Less(strings[i], strings[order[at - 1]])
      invariant 0 <= at <= |order|
      invariant forall k :: at <= k < |order| ==> Less(strings[i], strings[order[k]])
    {
      at := at - 1;
    }
    r := order[..at] + [i] + order[at..];
    forall j, k | 0 <= j < k < |r| ensures !Less(strings[r[k]], strings[r[j]]) {
      LessIsTotal(strings[r[k]], strings[r[j]]);
      if k == at {
        NotLessBelow(strings, order, i, at, j);
      }
    }
    assert r[at] == i && forall k :: 0 <= k < |order| ==> order[k] == r[if k < at then k else k + 1];
  }

  lemma {:induction false} NotLessBelow(strings: seq<string>, order: seq<nat>, i: nat, at: nat, j: nat)
    requires i < |strings| && Indices(strings, order) && Sorted(strings, order) && j < at <= |order|
    requires !Less(strings[i], strings[order[at - 1]])
    ensures !Less(strings[i], strings[order[j]])
  {
    var a, b, c := strings[i], strings[order[j]], strings[order[at - 1]];
    if Less(a, b) && j < at - 1 {
      LessIsTotal(b, c);
      if b != c {
        LessIsTransitive(a, b, c);
      }
    }
  }

  /** Stable sort of the positions by name. */
  method SortIndices(strings: seq<string>) returns (order: seq<nat>)
    ensures SortedIndex(strings, order, |strings|)
  {
    order := [];
    for i := 0 to |strings|
      invariant SortedIndex(strings, order, i)
    {
      order := Insert(strings, order, i);
    }
  }

  class Lookup {
    const strings: seq<string>
    const order: seq<nat>

    ghost predicate Valid() {
      SortedIndex(strings, order, |strings|)
    }

    constructor (strings: seq<string>, order: seq<nat>)
      requires SortedIndex(strings, order, |strings|)
      ensures Valid() && this.strings == strings
    {
      this.strings, this.order := strings, order;
    }

    /** A position of the name, or none when no position has it. */
    method Find(name: string) returns (at: Option<nat>)
      requires Valid()
      ensures at.Some? ==> at.value < |strings| && strings[at.value] == name
      ensures at.None? ==> name !in strings
    {
      var lo, hi := 0, |order|;
      while lo < hi
        invariant 0 <= lo <= hi <= |order|
        invariant forall k :: 0 <= k < lo ==> strings[order[k]] != name
        invariant forall k :: hi <= k < |order| ==> strings[order[k]] != name
      {
        var mid := (lo + hi) / 2;
        var probe := strings[order[mid]];
        if probe == name {
          return Some(order[mid]);
        }
        HalvesAreClear(strings, order, mid, name);
        if Less(probe, name) {
          lo := mid + 1;
        } else {
          hi := mid;
        }
      }
      forall i: nat | i < |strings| ensures strings[i] != name {
        assert i in order;
        var k :| 0 <= k < |order| && order[k] == i;
      }
      return None;
    }
  }

  lemma {:induction false} HalvesAreClear(strings: seq<string>, order: seq<nat>, mid: nat, name: string)
    requires SortedIndex(strings, order, |strings|) && mid < |order| && strings[order[mid]] != name
    ensures Less(strings[order[mid]], name) ==> forall k :: 0 <= k <= mid ==> strings[order[k]] != name
    ensures !Less(strings[order[mid]], name) ==> forall k :: mid <= k < |order| ==> strings[order[k]] != name
  {
    var probe := strings[order[mid]];
    LessIsTotal(probe, name);
    forall k | 0 <= k < mid && Less(probe, name) ensures strings[order[k]] != name {
      assert !Less(strings[order[mid]], strings[order[k]]);
    }
    forall k | mid < k < |order| && !Less(probe, name) ensures strings[order[k]] != name {
      assert !Less(strings[order[k]], strings[order[mid]]);
    }
  }

  /** With distinct names a name finds the one item that has it; the answers are the ones
      the completion protocol allows. */
  method FindItem(strings: seq<string>, name: string, ghost j: P.Job) returns (at: Option<nat>)
    requires j.names == strings
    ensures P.Answers(j, name, at)
    ensures NoDuplicates(strings) ==> forall i: nat :: i < |strings| && strings[i] == name ==> at == Some(i)
  {
    var order := SortIndices(strings);
    var index := new Lookup(strings, order);
    at := index.Find(name);
  }
}
