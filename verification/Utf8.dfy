/** Which byte strings are UTF-8 (table 3-7 of the Unicode Standard); the Swift decoder accepts no others as text. */
module Utf8 {
  import opened Bytes

  predicate Trails(b: Byte) {
    0x80 <= b <= 0xBF
  }

  predicate TwoBytes(s: seq<Byte>) {
    |s| >= 2 && 0xC2 <= s[0] <= 0xDF && Trails(s[1])
  }

  /** No overlong form and no surrogate. */
  predicate ThreeBytes(s: seq<Byte>) {
    |s| >= 3 && 0xE0 <= s[0] <= 0xEF && Trails(s[1]) && Trails(s[2])
    && (s[0] == 0xE0 ==> s[1] >= 0xA0) && (s[0] == 0xED ==> s[1] <= 0x9F)
  }

  /** No overlong form and nothing above the last code point. */
  predicate FourBytes(s: seq<Byte>) {
    |s| >= 4 && 0xF0 <= s[0] <= 0xF4 && Trails(s[1]) && Trails(s[2]) && Trails(s[3])
    && (s[0] == 0xF0 ==> s[1] >= 0x90) && (s[0] == 0xF4 ==> s[1] <= 0x8F)
  }

  predicate IsUtf8(s: seq<Byte>) {
    s == [] ||
    if s[0] < 0x80 then IsUtf8(s[1..])
    else if TwoBytes(s) then IsUtf8(s[2..])
    else if ThreeBytes(s) then IsUtf8(s[3..])
    else FourBytes(s) && IsUtf8(s[4..])
  }

  /** ASCII is UTF-8. */
  lemma {:induction false} AsciiIsUtf8(s: seq<Byte>)
    requires forall k :: 0 <= k < |s| ==> s[k] < 0x80
    ensures IsUtf8(s)
  {
    if s != [] {
      AsciiIsUtf8(s[1..]);
    }
  }

  // ---------- the definition by code points ----------

  /** A Unicode scalar value: no surrogate, and at most 0x10FFFF. */
  predicate IsScalar(c: nat) {
    c < 0xD800 || 0xE000 <= c < 0x11_0000
  }

  /** A trailing byte carries six bits. */
  function Trail(x: nat): Byte {
    0x80 + x % 0x40
  }

  /** Its bytes (section 3 of RFC 3629). */
  function EncodeScalar(c: nat): seq<Byte>
    requires IsScalar(c)
  {
    if c < 0x80 then [c]
    else if c < 0x800 then [0xC0 + c / 0x40, Trail(c)]
    else if c < 0x1_0000 then [0xE0 + c / 0x1000, Trail(c / 0x40), Trail(c)]
    else [0xF0 + c / 0x4_0000, Trail(c / 0x1000), Trail(c / 0x40), Trail(c)]
  }

  ghost predicate Scalars(cs: seq<nat>) {
    forall i :: 0 <= i < |cs| ==> IsScalar(cs[i])
  }

  function EncodeScalars(cs: seq<nat>): seq<Byte>
    requires Scalars(cs)
  {
    if cs == [] then [] else EncodeScalar(cs[0]) + EncodeScalars(cs[1..])
  }

  lemma ScalarIsUtf8(c: nat, rest: seq<Byte>)
    requires IsScalar(c) && IsUtf8(rest)
    ensures IsUtf8(EncodeScalar(c) + rest)
  {
    var e := EncodeScalar(c);
    assert (e + rest)[|e|..] == rest;
    EncodedShape(c);
    hide EncodeScalar;
    if |e| > 1 {
      assert (e + rest)[0] == e[0] && (e + rest)[1] == e[1];
    }
  }

  /** A scalar takes one to four bytes of the forms above. */
  lemma EncodedShape(c: nat)
    requires IsScalar(c)
    ensures var e := EncodeScalar(c);
            || (|e| == 1 && e[0] < 0x80) || (|e| == 2 && TwoBytes(e))
            || (|e| == 3 && ThreeBytes(e)) || (|e| == 4 && FourBytes(e))
  {
  }

  lemma {:induction false} EncodedIsUtf8(cs: seq<nat>)
    requires Scalars(cs)
    ensures IsUtf8(EncodeScalars(cs))
  {
    if cs != [] {
      EncodedIsUtf8(cs[1..]);
      ScalarIsUtf8(cs[0], EncodeScalars(cs[1..]));
    }
  }

  /** Six bits put behind a number come off again. */
  lemma SixBits(x: nat, y: nat)
    requires y < 0x40
    ensures (x * 0x40 + y) / 0x40 == x && (x * 0x40 + y) % 0x40 == y
  {
  }

  lemma TwoBack(a: Byte, b: Byte) returns (c: nat)
    requires 0xC2 <= a <= 0xDF && Trails(b)
    ensures IsScalar(c) && EncodeScalar(c) == [a, b]
  {
    var x: nat, y: nat := a as int - 0xC0, b as int - 0x80;
    SixBits(x, y);
    c := x * 0x40 + y;
  }

  lemma ThreeBack(a: Byte, b: Byte, d: Byte) returns (c: nat)
    requires ThreeBytes([a, b, d])
    ensures IsScalar(c) && EncodeScalar(c) == [a, b, d]
  {
    var x: nat, y: nat, z: nat := a as int - 0xE0, b as int - 0x80, d as int - 0x80;
    SixBits(x, y);
    SixBits(x * 0x40 + y, z);
    c := (x * 0x40 + y) * 0x40 + z;
    assert c / 0x1000 == x;
  }

  lemma FourBack(a: Byte, b: Byte, d: Byte, e: Byte) returns (c: nat)
    requires FourBytes([a, b, d, e])
    ensures IsScalar(c) && EncodeScalar(c) == [a, b, d, e]
  {
    var x: nat, y: nat, z: nat, w: nat := a as int - 0xF0, b as int - 0x80, d as int - 0x80, e as int - 0x80;
    SixBits(x, y);
    SixBits(x * 0x40 + y, z);
    SixBits((x * 0x40 + y) * 0x40 + z, w);
    c := ((x * 0x40 + y) * 0x40 + z) * 0x40 + w;
    assert c / 0x1000 == x * 0x40 + y && c / 0x4_0000 == x;
  }

  /** The first scalar of UTF-8 text, and how many bytes it takes. */
  lemma FirstScalar(s: seq<Byte>) returns (c: nat, n: nat)
    requires s != [] && IsUtf8(s)
    ensures 0 < n <= |s| && IsScalar(c) && EncodeScalar(c) == s[..n] && IsUtf8(s[n..])
  {
    hide EncodeScalar, IsScalar;
    if s[0] < 0x80 {
      c, n := s[0], 1;
      OneBack(s[0]);
    } else if TwoBytes(s) {
      c := TwoBack(s[0], s[1]);
      n := 2;
    } else if ThreeBytes(s) {
      c := ThreeBack(s[0], s[1], s[2]);
      n := 3;
    } else {
      c := FourBack(s[0], s[1], s[2], s[3]);
      n := 4;
    }
  }

  lemma OneBack(a: Byte)
    requires a < 0x80
    ensures IsScalar(a) && EncodeScalar(a) == [a]
  {
  }

  lemma {:induction false} Utf8IsEncoded(s: seq<Byte>)
    requires IsUtf8(s)
    ensures exists cs :: Scalars(cs) && EncodeScalars(cs) == s
    decreases |s|
  {
    if s == [] {
      assert Scalars([]) && EncodeScalars([]) == s;
    } else {
      hide IsUtf8, EncodeScalar;
      var c, n := FirstScalar(s);
      Utf8IsEncoded(s[n..]);
      var cs :| Scalars(cs) && EncodeScalars(cs) == s[n..];
      var all := [c] + cs;
      assert all[1..] == cs && Scalars(all);
      assert EncodeScalars(all) == s[..n] + s[n..] == s;
    }
  }

  /** The bytes taken for UTF-8 are exactly the encodings of sequences of scalar values. */
  lemma Utf8Iff(s: seq<Byte>)
    ensures IsUtf8(s) <==> exists cs :: Scalars(cs) && EncodeScalars(cs) == s
  {
    hide IsUtf8;
    if IsUtf8(s) {
      Utf8IsEncoded(s);
    }
    if exists cs :: Scalars(cs) && EncodeScalars(cs) == s {
      var cs :| Scalars(cs) && EncodeScalars(cs) == s;
      EncodedIsUtf8(cs);
    }
  }
}
