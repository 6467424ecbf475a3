/** Bytes, fixed-width integers on the wire and in guest memory, and small facts about sequences. */
module Bytes {

  type Byte = x: int | 0 <= x < 256

  const TWO_16 := 0x1_0000
  const TWO_31 := 0x8000_0000
  const TWO_32 := 0x1_0000_0000
  const TWO_63 := 0x8000_0000_0000_0000
  const TWO_64 := 0x1_0000_0000_0000_0000

  datatype Option<+T> = None | Some(value: T)

  // ---------- big-endian (network order) ----------

  /** The two bytes of a 16-bit quantity, most significant first. */
  function Be16(v: nat): seq<Byte>
    requires v < TWO_16
  {
    [v / 256, v % 256]
  }

  function ReadBe16(s: seq<Byte>): (v: nat)
    requires |s| >= 2
    ensures v < TWO_16
  {
    s[0] as int * 256 + s[1] as int
  }

  /** The four bytes of a 32-bit quantity, most significant first. */
  function Be32(v: nat): (s: seq<Byte>)
    requires v < TWO_32
    ensures |s| == 4
  {
    var a := v / 256;
    var b := a / 256;
    [b / 256, b % 256, a % 256, v % 256]
  }

  function ReadBe32(s: seq<Byte>): (v: nat)
    requires |s| >= 4
    ensures v < TWO_32
  {
    ((s[0] as int * 256 + s[1] as int) * 256 + s[2] as int) * 256 + s[3] as int
  }

  lemma Be16RoundTrip(v: nat, rest: seq<Byte>)
    requires v < TWO_16
    ensures ReadBe16(Be16(v) + rest) == v
  {
  }

  lemma Be32RoundTrip(v: nat, rest: seq<Byte>)
    requires v < TWO_32
    ensures ReadBe32(Be32(v) + rest) == v
  {
    var s := Be32(v) + rest;
    assert s[..4] == Be32(v);
  }

  /** Most significant byte first. */
  lemma BigEndian(v: nat)
    ensures v < 0x1_0000 ==> Be16(v) == [v / 0x100, v % 0x100]
    ensures v < 0x1_0000_0000 ==>
              Be32(v) == [v / 0x100_0000, v / 0x1_0000 % 0x100, v / 0x100 % 0x100, v % 0x100]
  {
  }

  /** Two's-complement reading of a 16-bit quantity. */
  function Signed16(v: nat): int
    requires v < TWO_16
  {
    if v < 0x8000 then v else v - TWO_16
  }

  /** Two's-complement reading of a 32-bit quantity. */
  function Signed32(v: nat): int
    requires v < TWO_32
  {
    if v < TWO_31 then v else v - TWO_32
  }

  /** Two's-complement reading of a 64-bit quantity. */
  function Signed64(v: nat): int
    requires v < TWO_64
  {
    if v < TWO_63 then v else v - TWO_64
  }

  /** The upper half of the range is negative. */
  lemma SignedTold(v: nat)
    ensures v < 0x1_0000 ==> Signed16(v) == if v < 0x8000 then v else v - 0x1_0000
    ensures v < 0x1_0000_0000 ==> Signed32(v) == if v < 0x8000_0000 then v else v - 0x1_0000_0000
  {
  }

  // ---------- little-endian (guest memory) ----------

  /** The low `n` bytes of v, least significant first. */
  function Le(v: nat, n: nat): (s: seq<Byte>)
    ensures |s| == n
  {
    if n == 0 then [] else [v % 256] + Le(v / 256, n - 1)
  }

  function ReadLe(s: seq<Byte>): nat {
    if s == [] then 0 else s[0] + 256 * ReadLe(s[1..])
  }

  function Pow256(n: nat): (p: nat)
    ensures p > 0
  {
    if n == 0 then 1 else 256 * Pow256(n - 1)
  }

  lemma {:induction false} LeRoundTrip(v: nat, n: nat)
    requires v < Pow256(n)
    ensures ReadLe(Le(v, n)) == v
  {
    if n > 0 {
      LeRoundTrip(v / 256, n - 1);
      assert Le(v, n)[1..] == Le(v / 256, n - 1);
    }
  }

  /** Least significant byte first. */
  lemma LittleEndian(v: nat)
    ensures Le(v, 4) == [v % 0x100, v / 0x100 % 0x100, v / 0x1_0000 % 0x100, v / 0x100_0000 % 0x100]
  {
    var a, b, c := v / 256, v / 256 / 256, v / 256 / 256 / 256;
    assert Le(c, 1) == [c % 256] + Le(c / 256, 0);
    assert Le(b, 2) == [b % 256, c % 256];
    assert Le(a, 3) == [a % 256, b % 256, c % 256];
  }

  lemma Widths()
    ensures Pow256(1) == 256 && Pow256(2) == TWO_16 && Pow256(4) == TWO_32 && Pow256(8) == TWO_64
  {
    assert Pow256(2) == 256 * Pow256(1);
    assert Pow256(3) == 256 * Pow256(2);
    assert Pow256(4) == 256 * Pow256(3);
    assert Pow256(5) == 256 * Pow256(4);
    assert Pow256(6) == 256 * Pow256(5);
    assert Pow256(7) == 256 * Pow256(6);
    assert Pow256(8) == 256 * Pow256(7);
  }

  // ---------- sequences ----------

  function Min(a: int, b: int): int {
    if a < b then a else b
  }

  /** The first n elements, or all of them when there are fewer. */
  function Take<T>(s: seq<T>, n: nat): seq<T> {
    s[..Min(|s|, n)]
  }

  function Flatten<T>(ss: seq<seq<T>>): seq<T> {
    if ss == [] then [] else ss[0] + Flatten(ss[1..])
  }

  lemma Assoc<T>(a: seq<T>, b: seq<T>, c: seq<T>)
    ensures a + (b + c) == (a + b) + c
  {
  }

  lemma {:induction false} FlattenAppend<T>(a: seq<seq<T>>, b: seq<seq<T>>)
    ensures Flatten(a + b) == Flatten(a) + Flatten(b)
  {
    if a == [] {
      assert a + b == b;
    } else {
      FlattenAppend(a[1..], b);
      assert (a + b)[1..] == a[1..] + b;
      Assoc(a[0], Flatten(a[1..]), Flatten(b));
    }
  }

  lemma FlattenSnoc<T>(a: seq<seq<T>>, x: seq<T>)
    ensures Flatten(a + [x]) == Flatten(a) + x
  {
    FlattenAppend(a, [x]);
    assert [x][1..] == [];
    assert Flatten([x]) == x;
  }

  /** m shows w at offset p. */
  ghost predicate Shows(m: seq<Byte>, p: nat, w: seq<Byte>) {
    p + |w| <= |m| && forall k :: p <= k < p + |w| ==> m[k] == w[k - p]
  }

  lemma ShowsPart(m: seq<Byte>, p: nat, w: seq<Byte>, i: nat, part: seq<Byte>)
    requires Shows(m, p, w) && Shows(w, i, part)
    ensures Shows(m, p + i, part)
  {
    forall k | p + i <= k < p + i + |part| ensures m[k] == part[k - (p + i)] {
      assert w[k - p] == part[k - p - i];
    }
  }

  /** m with the bytes d written at offset p. */
  function WriteAt(m: seq<Byte>, p: nat, d: seq<Byte>): (r: seq<Byte>)
    requires p + |d| <= |m|
    ensures |r| == |m|
  {
    m[..p] + d + m[p + |d|..]
  }

  lemma WriteNothing(m: seq<Byte>, p: nat)
    requires p <= |m|
    ensures WriteAt(m, p, []) == m
  {
  }

  lemma WriteAtCompose(m: seq<Byte>, p: nat, a: seq<Byte>, b: seq<Byte>)
    requires p + |a| + |b| <= |m|
    ensures WriteAt(WriteAt(m, p, a), p + |a|, b) == WriteAt(m, p, a + b)
  {
  }

  lemma WriteAtReads(m: seq<Byte>, p: nat, d: seq<Byte>)
    requires p + |d| <= |m|
    ensures WriteAt(m, p, d)[p..p + |d|] == d
  {
  }
}
