/** Hexadecimal digests: the comparison that never builds the text agrees with
    encoding the digest and comparing without regard to letter case. */
module Hex {
  import opened Manifest

  type Byte = b: int | 0 <= b < 256

  const ZERO: Byte := 48
  const NINE: Byte := 57
  const LOWER_A: Byte := 97
  const LOWER_F: Byte := 102
  const UPPER_A: Byte := 65
  const UPPER_F: Byte := 70

  const DIGEST_LENGTH := 16

  function HexDigit(n: nat): (b: Byte)
    requires n < 16
  {
    if n <= 9 then ZERO + n else LOWER_A + (n - 10)
  }

  function HexNibble(b: Byte): (n: Option<nat>)
    ensures n.Some? ==> n.value < 16
  {
    if ZERO <= b <= NINE then Some(b - ZERO)
    else if LOWER_A <= b <= LOWER_F then Some(b - LOWER_A + 10)
    else if UPPER_A <= b <= UPPER_F then Some(b - UPPER_A + 10)
    else None
  }

  /** Two lower-case digits for each byte, high half first. */
  function Encode(digest: seq<Byte>): (r: seq<Byte>)
    ensures |r| == 2 * |digest|
    ensures forall i :: 0 <= i < |digest| ==>
      r[2 * i] == HexDigit(digest[i] / 16) && r[2 * i + 1] == HexDigit(digest[i] % 16)
  {
    if digest == [] then []
    else
      var n := |digest| - 1;
      Encode(digest[..n]) + [HexDigit(digest[n] / 16), HexDigit(digest[n] % 16)]
  }

  /** The character is the hexadecimal digit of `n`, in either case. */
  ghost predicate Spells(b: Byte, n: nat) {
    if n < 10 then b == '0' as int + n
    else n < 16 && (b == 'a' as int + n - 10 || b == 'A' as int + n - 10)
  }

  /** The two characters spell the byte, high half first. */
  ghost predicate SpellsByte(a: Byte, b: Byte, d: Byte) {
    Spells(a, d / 16) && Spells(b, d % 16)
  }

  lemma {:induction false} SpellsExactly(b: Byte, n: nat)
    requires n < 16
    ensures Spells(b, n) <==> ToLower(b) == HexDigit(n)
  {
  }

  function ToLower(b: Byte): Byte {
    if UPPER_A <= b <= UPPER_F then b - UPPER_A + LOWER_A else b
  }

  function Lower(s: seq<Byte>): (r: seq<Byte>)
    ensures |r| == |s| && forall i :: 0 <= i < |s| ==> r[i] == ToLower(s[i])
  {
    seq(|s|, i requires 0 <= i < |s| => ToLower(s[i]))
  }

  /** The text spells the digest byte by byte. */
  ghost predicate Spelled(text: seq<Byte>, digest: seq<Byte>)
    requires |text| == 2 * |digest|
  {
    forall i :: 0 <= i < |digest| ==> SpellsByte(text[2 * i], text[2 * i + 1], digest[i])
  }

  lemma {:induction false} EncodeSpells(digest: seq<Byte>)
    ensures Spelled(Encode(digest), digest)
    ensures forall k :: 0 <= k < |Encode(digest)| ==> !('A' as int <= Encode(digest)[k] <= 'F' as int)
  {
    forall k | 0 <= k < |Encode(digest)| ensures !('A' as int <= Encode(digest)[k] <= 'F' as int) {
      var i := k / 2;
      if k == 2 * i {
        assert Encode(digest)[2 * i] == HexDigit(digest[i] / 16);
      } else {
        assert Encode(digest)[2 * i + 1] == HexDigit(digest[i] % 16);
      }
    }
  }

  lemma {:induction false} SpelledExactly(text: seq<Byte>, digest: seq<Byte>)
    requires |digest| == DIGEST_LENGTH
    ensures Lower(text) == Encode(digest) <==> |text| == 2 * DIGEST_LENGTH && Spelled(text, digest)
  {
    hide Spells, HexDigit, ToLower;
    if |text| == 2 * DIGEST_LENGTH {
      forall i | 0 <= i < |digest|
        ensures Spells(text[2 * i], digest[i] / 16) <==> Lower(text)[2 * i] == Encode(digest)[2 * i]
        ensures Spells(text[2 * i + 1], digest[i] % 16) <==> Lower(text)[2 * i + 1] == Encode(digest)[2 * i + 1]
      {
        SpellsExactly(text[2 * i], digest[i] / 16);
        SpellsExactly(text[2 * i + 1], digest[i] % 16);
      }
      if Spelled(text, digest) {
        EqualByPairs(Lower(text), Encode(digest));
      }
    }
  }

  method Md5ToHex(digest: seq<Byte>) returns (s: seq<Byte>)
    ensures s == Encode(digest)
    ensures |s| == 2 * |digest| && Spelled(s, digest) && forall k :: 0 <= k < |s| ==> !('A' as int <= s[k] <= 'F' as int)
  {
    hide HexDigit;
    s := [];
    for i := 0 to |digest|
      invariant s == Encode(digest[..i])
    {
      assert digest[..i + 1][..i] == digest[..i];
      s := s + [HexDigit(digest[i] / 16)];
      s := s + [HexDigit(digest[i] % 16)];
    }
    assert digest[..|digest|] == digest;
    EncodeSpells(digest);
  }

  /** Compare without building the text; letters match in either case. */
  method Md5HexEq(digest: seq<Byte>, expected: seq<Byte>) returns (eq: bool)
    requires |digest| == DIGEST_LENGTH
    ensures eq <==> Lower(expected) == Encode(digest)
    ensures eq <==> |expected| == 32 && Spelled(expected, digest)
  {
    hide HexDigit, ToLower, HexNibble, Spells;
    SpelledExactly(expected, digest);
    if |expected| != 32 {
      return false;
    }
    var i := 0;
    while i < DIGEST_LENGTH
      invariant 0 <= i <= DIGEST_LENGTH
      invariant forall k :: 0 <= k < i ==> SpellsByte(expected[2 * k], expected[2 * k + 1], digest[k])
    {
      var hi, lo := HexNibble(expected[i * 2]), HexNibble(expected[i * 2 + 1]);
      PairMatches(expected[2 * i], expected[2 * i + 1], digest[i]);
      if hi.Some? && lo.Some? && hi.value * 16 + lo.value == digest[i] {
        i := i + 1;
      } else {
        assert !SpellsByte(expected[2 * i], expected[2 * i + 1], digest[i]);
        return false;
      }
    }
    return true;
  }

  /** Two characters read as a byte exactly when they spell it. */
  lemma {:induction false} PairMatches(a: Byte, b: Byte, d: Byte)
    ensures HexNibble(a).Some? && HexNibble(b).Some? && HexNibble(a).value * 16 + HexNibble(b).value == d <==>
            SpellsByte(a, b, d)
  {
    NibbleSpells(a, d / 16);
    NibbleSpells(b, d % 16);
    hide HexNibble, Spells;
  }

  lemma {:induction false} NibbleSpells(b: Byte, n: nat)
    requires n < 16
    ensures HexNibble(b) == Some(n) <==> Spells(b, n)
  {
  }

  lemma {:induction false} EqualByPairs(a: seq<Byte>, b: seq<Byte>)
    requires |a| == |b| == 2 * DIGEST_LENGTH
    requires forall k :: 0 <= k < DIGEST_LENGTH ==> a[2 * k] == b[2 * k] && a[2 * k + 1] == b[2 * k + 1]
    ensures a == b
  {
    forall i | 0 <= i < |a| ensures a[i] == b[i] {
      var k := i / 2;
      assert i == 2 * k || i == 2 * k + 1;
    }
  }

  /** An expected text names at most one digest, and every digest's own text names it. */
  lemma {:induction false} ExpectedNamesOneDigest(d: seq<Byte>, e: seq<Byte>, expected: seq<Byte>)
    requires |d| == |e| == DIGEST_LENGTH
    ensures Lower(expected) == Encode(d) && Lower(expected) == Encode(e) ==> d == e
    ensures Lower(Encode(d)) == Encode(d)
  {
    if Encode(d) == Encode(e) {
      forall i | 0 <= i < DIGEST_LENGTH ensures d[i] == e[i] {
        assert Encode(d)[2 * i] == Encode(e)[2 * i] && Encode(d)[2 * i + 1] == Encode(e)[2 * i + 1];
      }
    }
    forall i | 0 <= i < 2 * DIGEST_LENGTH ensures ToLower(Encode(d)[i]) == Encode(d)[i] {
      var k := i / 2;
      if i == 2 * k {
        assert Encode(d)[2 * k] == HexDigit(d[k] / 16);
      } else {
        assert Encode(d)[2 * k + 1] == HexDigit(d[k] % 16);
      }
    }
  }

  /** Whether a chunk's own digest has to be compared: 32 characters that are not all zeros. */
  predicate HashRequired(text: seq<Byte>) {
    |text| == 32 && exists i :: 0 <= i < |text| && text[i] != ZERO
  }

  lemma {:induction false} HashRequiredExactly(text: seq<Byte>)
    ensures HashRequired(text) <==> |text| == 32 && text != seq(32, _ => '0' as int)
  {
    if |text| == 32 && !HashRequired(text) {
      assert text == seq(32, _ => '0' as int);
    }
  }

  // ---------------------------------------------------------------------------
  // Short digests
  // ---------------------------------------------------------------------------

  function Pow16(n: nat): (r: nat)
    ensures r > 0
  {
    if n == 0 then 1 else 16 * Pow16(n - 1)
  }

  /** The lower-case text of the last `width` digits of a number. */
  function HexText(value: nat, width: nat): (r: seq<Byte>)
    ensures |r| == width
    ensures forall k :: 0 <= k < width ==> exists n :: 0 <= n < 16 && r[k] == HexDigit(n)
  {
    if width == 0 then [] else HexText(value / 16, width - 1) + [HexDigit(value % 16)]
  }

  /** Numbers of so many digits have different texts. */
  lemma {:induction false} HexTextTells(a: nat, b: nat, width: nat)
    requires a < Pow16(width) && b < Pow16(width) && HexText(a, width) == HexText(b, width)
    ensures a == b
  {
    hide HexDigit;
    if width > 0 {
      var x, y := HexText(a, width), HexText(b, width);
      assert x[..width - 1] == HexText(a / 16, width - 1) && y[..width - 1] == HexText(b / 16, width - 1);
      HexTextTells(a / 16, b / 16, width - 1);
      assert x[width - 1] == HexDigit(a % 16) && y[width - 1] == HexDigit(b % 16);
      DigitTells(a % 16, b % 16);
    }
  }

  lemma {:induction false} DigitTells(m: nat, n: nat)
    requires m < 16 && n < 16 && HexDigit(m) == HexDigit(n)
    ensures m == n
  {
  }

  lemma {:induction false} SixteenDigits()
    ensures Pow16(16) == 0x1_0000_0000_0000_0000
  {
    assert Pow16(4) == 0x1_0000;
    assert Pow16(8) == 0x1_0000_0000;
    assert Pow16(12) == 0x1_0000_0000_0000;
  }

  /** A character that is no digit occurs in no text of a number. */
  lemma {:induction false} NoNumberHas(b: Byte, value: nat, width: nat, k: nat)
    requires k < width && HexNibble(b).None?
    ensures HexText(value, width)[k] != ToLower(b)
  {
    hide HexText;
  }

  /** Compare a 64-bit number with its text; letters match in either case. */
  method Xxh64HexEq(value: nat, expected: seq<Byte>) returns (eq: bool)
    requires value < 0x1_0000_0000_0000_0000
    ensures eq <==> Lower(expected) == HexText(value, 16)
  {
    hide ToLower, HexNibble, HexDigit;
    SixteenDigits();
    if |expected| != 16 {
      return false;
    }
    var acc, i := 0, 0;
    while i < 16
      invariant 0 <= i <= 16 && 0 <= acc < Pow16(i)
      invariant HexText(acc, i) == Lower(expected[..i])
    {
      var nibble := HexNibble(expected[i]);
      if nibble.None? {
        NoNumberHas(expected[i], value, 16, i);
        return false;
      }
      NibbleMatches(expected[i], nibble.value);
      assert (acc * 16 + nibble.value) / 16 == acc && (acc * 16 + nibble.value) % 16 == nibble.value;
      assert Lower(expected[..i + 1]) == Lower(expected[..i]) + [ToLower(expected[i])];
      acc, i := acc * 16 + nibble.value, i + 1;
    }
    assert expected[..16] == expected;
    eq := acc == value;
    if Lower(expected) == HexText(value, 16) {
      HexTextTells(acc, value, 16);
    }
  }

  /** A character reads as `n` exactly when its lower case is the digit of `n`. */
  lemma {:induction false} NibbleMatches(b: Byte, n: nat)
    requires n < 16
    ensures HexNibble(b) == Some(n) <==> ToLower(b) == HexDigit(n)
  {
  }
}
