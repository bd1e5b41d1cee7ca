/** One string holding many, found by offset: interned texts come back unchanged,
    whatever hash function the deduplication uses. */
module StringArena {
  import opened Manifest

  function Joined(strings: seq<string>): string {
    if strings == [] then "" else Joined(strings[..|strings| - 1]) + strings[|strings| - 1]
  }

  /** Text number `i`: from its offset to the next one, or to the end of the data. */
  predicate CanGet(data: string, offsets: seq<nat>, i: nat) {
    i < |offsets| && offsets[i] <= End(data, offsets, i) <= |data|
  }

  function End(data: string, offsets: seq<nat>, i: nat): nat {
    if i + 1 < |offsets| then offsets[i + 1] else Narrow32(|data|)
  }

  function Get(data: string, offsets: seq<nat>, i: nat): string
    requires CanGet(data, offsets, i)
  {
    data[offsets[i]..End(data, offsets, i)]
  }

  ghost predicate Represents(data: string, offsets: seq<nat>, strings: seq<string>) {
    && |offsets| == |strings| < U32 && data == Joined(strings) && |data| < U32
    && forall i :: 0 <= i < |offsets| ==> offsets[i] == |Joined(strings[..i])|
  }

  lemma {:induction false} JoinedPrefix(strings: seq<string>, n: nat)
    requires n <= |strings|
    ensures |Joined(strings[..n])| <= |Joined(strings)| && Joined(strings)[..|Joined(strings[..n])|] == Joined(strings[..n])
  {
    if n < |strings| {
      var init := strings[..|strings| - 1];
      JoinedPrefix(init, n);
      assert init[..n] == strings[..n];
    } else {
      assert strings[..n] == strings;
    }
  }

  /** Every text that went in comes out. */
  lemma {:induction false} GetReturnsIt(data: string, offsets: seq<nat>, strings: seq<string>, i: nat)
    requires Represents(data, offsets, strings) && i < |strings|
    ensures CanGet(data, offsets, i) && Get(data, offsets, i) == strings[i]
  {
    JoinedPrefix(strings, i);
    JoinedPrefix(strings, i + 1);
    assert strings[..i + 1][..i] == strings[..i];
    assert strings[..|strings|] == strings;
    var a, b := Joined(strings[..i]), Joined(strings[..i + 1]);
    assert b == a + strings[i];
    assert End(data, offsets, i) == |b|;
    assert data[|a|..|b|] == data[..|b|][|a|..];
  }

  lemma {:induction false} AppendRepresents(data: string, offsets: seq<nat>, strings: seq<string>, s: string)
    requires Represents(data, offsets, strings) && |data| + |s| < U32 && |strings| + 1 < U32
    ensures Represents(data + s, offsets + [Narrow32(|data|)], strings + [s])
  {
    var all := strings + [s];
    assert all[..|all| - 1] == strings;
    forall i | 0 <= i < |all| ensures (offsets + [|data|])[i] == |Joined(all[..i])| {
      if i < |strings| {
        assert all[..i] == strings[..i];
      }
    }
  }

  class Arena {
    var data: string
    var offsets: seq<nat>
    var dedup: map<nat, nat>
    ghost var strings: seq<string>

    ghost predicate Valid()
      reads this
    {
      && Represents(data, offsets, strings)
      && forall key :: key in dedup ==> dedup[key] < |strings|
    }

    constructor ()
      ensures Valid() && strings == []
    {
      data, offsets, dedup, strings := "", [], map[], [];
    }

    ghost predicate HasRoomFor(s: string)
      reads this
    {
      |data| + |s| < U32 && |offsets| + 1 < U32
    }

    method Intern(s: string) returns (idx: nat)
      requires Valid() && HasRoomFor(s)
      modifies this
      ensures Valid() && strings == old(strings) + [s] && idx == |old(strings)|
      ensures |data| == |old(data)| + |s| && dedup == old(dedup)
    {
      AppendRepresents(data, offsets, strings, s);
      idx := Narrow32(|offsets|);
      offsets := offsets + [Narrow32(|data|)];
      data := data + s;
      strings := strings + [s];
    }

    /** Reuse the text remembered under this hash if it is the same text. The answer is
        right for every hash function, however it collides. */
    method InternDedup(hash: string -> nat, s: string) returns (idx: nat)
      requires Valid() && HasRoomFor(s)
      modifies this
      ensures Valid() && old(strings) <= strings && |strings| <= |old(strings)| + 1
      ensures idx < |strings| && strings[idx] == s
      ensures |data| <= |old(data)| + |s|
      ensures var key := hash(s);
              if key in old(dedup) && old(strings)[old(dedup)[key]] == s
              then idx == old(dedup)[key] && strings == old(strings) && data == old(data) && dedup == old(dedup)
              else strings == old(strings) + [s] && dedup == old(dedup)[key := idx]
    {
      var key := hash(s);
      if key in dedup {
        idx := dedup[key];
        GetReturnsIt(data, offsets, strings, idx);
        if Get(data, offsets, idx) == s {
          return;
        }
      }
      idx := Intern(s);
      dedup := dedup[key := idx];
    }

    method GetText(idx: nat) returns (s: string)
      requires Valid() && idx < |strings|
      ensures s == strings[idx]
    {
      GetReturnsIt(data, offsets, strings, idx);
      s := Get(data, offsets, idx);
    }
  }
}
