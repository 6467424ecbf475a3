/**
 The argument and environment vectors: args_sizes_get / args_get and their environ twins, which
 differ only in the strings they serve.
 */
module Vectors {
  import opened Bytes
  import opened GuestMemory
  import opened Errno

  /** A C string has no NUL inside. */
  ghost predicate CStrings(ss: seq<seq<Byte>>) {
    forall s :: s in ss ==> 0 !in s
  }

  function Terminated(s: seq<Byte>): (r: seq<Byte>)
    ensures |r| == |s| + 1
  {
    s + [0]
  }

  /** The first n strings, each with its NUL, back to back. */
  function Blob(ss: seq<seq<Byte>>, n: nat): seq<Byte>
    requires n <= |ss|
  {
    if n == 0 then [] else Blob(ss, n - 1) + Terminated(ss[n - 1])
  }

  /** The first n pointers when the strings start at p. */
  function Pointers(ss: seq<seq<Byte>>, p: nat, n: nat): (r: seq<Byte>)
    requires n <= |ss|
    ensures |r| == 4 * n
  {
    if n == 0 then [] else Pointers(ss, p, n - 1) + Le(p + |Blob(ss, n - 1)|, 4)
  }

  /** sizes_get: the count and the 32-bit total of string sizes, stored one after the other. */
  method SizesGet(mem: array<Byte>, ss: seq<seq<Byte>>, countP: nat, sizeP: nat) returns (code: int)
    modifies mem
    ensures countP + 4 <= mem.Length && sizeP + 4 <= mem.Length ==>
              code == ESUCCESS
              && mem[..] == WriteAt(WriteAt(old(mem[..]), countP, Le(|ss| % TWO_32, 4)),
                                    sizeP, Le(|Blob(ss, |ss|)| % TWO_32, 4))
    ensures code == ESUCCESS <==> countP + 4 <= mem.Length && sizeP + 4 <= mem.Length
  {
    var total := 0;
    var i := 0;
    while i < |ss|
      invariant 0 <= i <= |ss|
      invariant total == |Blob(ss, i)| % TWO_32
    {
      total := (total + |ss[i]| + 1) % TWO_32;
      i := i + 1;
    }
    var failed := WriteU32(mem, countP, |ss| % TWO_32);
    if !failed {
      failed := WriteU32(mem, sizeP, total);
    }
    return if failed then EFAULT else ESUCCESS;
  }

  /** Guest memory and the running offset; ok is false once an address has faulted. */
  datatype Tally = Tally(mem: seq<Byte>, off: nat, ok: bool)

  /** One string: its pointer first, then its bytes. Offsets are 32-bit. */
  function Turn(t: Tally, s: seq<Byte>, slotP: nat): (r: Tally)
    ensures |r.mem| == |t.mem|
  {
    if t.off + |s| + 1 > |t.mem| || slotP + 4 > |t.mem| then t.(ok := false)
    else Tally(WriteAt(WriteAt(t.mem, slotP, Le(t.off, 4)), t.off, Terminated(s)), (t.off + |s| + 1) % TWO_32, true)
  }

  function Turns(m: seq<Byte>, ss: seq<seq<Byte>>, vecP: nat, bufP: nat, n: nat): (r: Tally)
    requires n <= |ss|
    ensures |r.mem| == |m|
  {
    if n == 0 then Tally(m, bufP, true) else
    var t := Turns(m, ss, vecP, bufP, n - 1);
    if t.ok then Turn(t, ss[n - 1], (vecP + 4 * (n - 1)) % TWO_32) else t
  }

  lemma {:induction false} TurnsStop(m: seq<Byte>, ss: seq<seq<Byte>>, vecP: nat, bufP: nat, n: nat)
    requires n <= |ss| && !Turns(m, ss, vecP, bufP, n).ok
    ensures Turns(m, ss, vecP, bufP, |ss|) == Turns(m, ss, vecP, bufP, n)
    decreases |ss| - n
  {
    if n < |ss| {
      TurnsStop(m, ss, vecP, bufP, n + 1);
    }
  }

  /** args_get / environ_get. */
  method VectorGet(mem: array<Byte>, ss: seq<seq<Byte>>, vecP: nat, bufP: nat) returns (code: int)
    modifies mem
    ensures var t := Turns(old(mem[..]), ss, vecP, bufP, |ss|);
            mem[..] == t.mem && code == if t.ok then ESUCCESS else EFAULT
  {
    hide WriteAt, Le, Terminated, Blob;
    var off: nat := bufP;
    var i := 0;
    while i < |ss|
      invariant 0 <= i <= |ss|
      invariant Turns(old(mem[..]), ss, vecP, bufP, i) == Tally(mem[..], off, true)
    {
      var n := |ss[i]| + 1;
      if off + n > mem.Length {
        TurnsStop(old(mem[..]), ss, vecP, bufP, i + 1);
        return EFAULT;
      }
      var failed := WriteU32(mem, (vecP + 4 * i) % TWO_32, off);
      if failed {
        TurnsStop(old(mem[..]), ss, vecP, bufP, i + 1);
        return EFAULT;
      }
      Store(mem, off, Terminated(ss[i]));
      off := (off + n) % TWO_32;
      i := i + 1;
    }
    return ESUCCESS;
  }

  // ---------- what the guest finds ----------

  /** Two regions, both in range, that do not meet. */
  ghost predicate Apart(size: nat, p: nat, n: nat, q: nat, k: nat) {
    p + n <= size && q + k <= size && (p + n <= q || q + k <= p)
  }

  lemma WriteAtCommutes(m: seq<Byte>, p: nat, a: seq<Byte>, q: nat, b: seq<Byte>)
    requires Apart(|m|, p, |a|, q, |b|)
    ensures WriteAt(WriteAt(m, p, a), q, b) == WriteAt(WriteAt(m, q, b), p, a)
  {
  }

  lemma {:induction false} BlobGrows(ss: seq<seq<Byte>>, i: nat, n: nat)
    requires i <= n <= |ss|
    ensures |Blob(ss, i)| + (n - i) <= |Blob(ss, n)|
    ensures Blob(ss, n)[..|Blob(ss, i)|] == Blob(ss, i)
    decreases n - i
  {
    if i < n {
      BlobGrows(ss, i, n - 1);
    }
  }

  lemma Extend(m: seq<Byte>, p: nat, a: seq<Byte>, b: seq<Byte>, q: nat, c: seq<Byte>, d: seq<Byte>)
    requires Apart(|m|, p, |a| + |b|, q, |c| + |d|)
    ensures WriteAt(WriteAt(WriteAt(WriteAt(m, p, a), q, c), q + |c|, d), p + |a|, b)
         == WriteAt(WriteAt(m, p, a + b), q, c + d)
  {
    hide WriteAt;
    var m1 := WriteAt(m, p, a);
    WriteAtCompose(m1, q, c, d);
    WriteAtCommutes(m1, q, c + d, p + |a|, b);
    WriteAtCompose(m, p, a, b);
  }

  lemma {:induction false} TurnsWrite(m: seq<Byte>, ss: seq<seq<Byte>>, vecP: nat, bufP: nat, n: nat)
    requires n <= |ss| && |m| <= TWO_32 && bufP + |Blob(ss, |ss|)| <= TWO_32
    requires Apart(|m|, bufP, |Blob(ss, |ss|)|, vecP, 4 * |ss|)
    ensures bufP + |Blob(ss, n)| <= |m|
    ensures var t := Turns(m, ss, vecP, bufP, n);
            && t.ok && t.mem == WriteAt(WriteAt(m, bufP, Blob(ss, n)), vecP, Pointers(ss, bufP, n))
            && (n < |ss| ==> t.off == bufP + |Blob(ss, n)| < TWO_32)
  {
    hide WriteAt, Le, Terminated;
    BlobGrows(ss, n, |ss|);
    if n == 0 {
      WriteNothing(m, bufP);
      WriteNothing(m, vecP);
    } else {
      TurnsWrite(m, ss, vecP, bufP, n - 1);
      BlobSnoc(ss, n);
      PointersSnoc(ss, bufP, n);
      hide Pointers, Blob, Turn;
      var t := Turns(m, ss, vecP, bufP, n - 1);
      var done, ptrs := Blob(ss, n - 1), Pointers(ss, bufP, n - 1);
      Extend(m, bufP, done, Terminated(ss[n - 1]), vecP, ptrs, Le(bufP + |done|, 4));
      TurnInRange(t, ss[n - 1], vecP + 4 * (n - 1));
    }
  }

  lemma BlobSnoc(ss: seq<seq<Byte>>, n: nat)
    requires 0 < n <= |ss|
    ensures |Blob(ss, n)| == |Blob(ss, n - 1)| + |ss[n - 1]| + 1
    ensures |Terminated(ss[n - 1])| == |ss[n - 1]| + 1
  {
  }

  lemma TurnInRange(t: Tally, s: seq<Byte>, slotP: nat)
    requires t.off + |s| + 1 <= |t.mem| && slotP + 4 <= |t.mem| <= TWO_32
    ensures slotP % TWO_32 == slotP
    ensures var r := Turn(t, s, slotP);
            && r.ok && r.mem == WriteAt(WriteAt(t.mem, slotP, Le(t.off, 4)), t.off, Terminated(s))
            && (t.off + |s| + 1 < TWO_32 ==> r.off == t.off + |s| + 1)
  {
  }

  lemma PointersSnoc(ss: seq<seq<Byte>>, p: nat, n: nat)
    requires 0 < n <= |ss|
    ensures Blob(ss, n) == Blob(ss, n - 1) + Terminated(ss[n - 1])
    ensures Pointers(ss, p, n) == Pointers(ss, p, n - 1) + Le(p + |Blob(ss, n - 1)|, 4)
  {
  }

  lemma {:induction false} PointerAt(ss: seq<seq<Byte>>, p: nat, i: nat, n: nat)
    requires i < n <= |ss|
    ensures Shows(Pointers(ss, p, n), 4 * i, Le(p + |Blob(ss, i)|, 4))
    decreases n
  {
    hide Le;
    if i < n - 1 {
      PointerAt(ss, p, i, n - 1);
    }
  }

  lemma {:induction false} StringAt(ss: seq<seq<Byte>>, i: nat, n: nat)
    requires i < n <= |ss|
    ensures |Blob(ss, i)| + |ss[i]| + 1 <= |Blob(ss, n)|
    ensures Shows(Blob(ss, n), |Blob(ss, i)|, Terminated(ss[i]))
    decreases n
  {
    hide Terminated;
    if i < n - 1 {
      StringAt(ss, i, n - 1);
    }
  }

  /** The C string at p: the bytes up to the first NUL. */
  function CStringAt(m: seq<Byte>, p: nat): seq<Byte>
    decreases |m| - p
  {
    if p >= |m| || m[p] == 0 then [] else [m[p]] + CStringAt(m, p + 1)
  }

  lemma {:induction false} ReadsCString(m: seq<Byte>, p: nat, s: seq<Byte>)
    requires Shows(m, p, Terminated(s)) && 0 !in s
    ensures CStringAt(m, p) == s
    decreases |s|
  {
    var w := Terminated(s);
    assert m[p] == w[0];
    if |s| > 0 {
      assert Terminated(s[1..]) == w[1..];
      ReadsCString(m, p + 1, s[1..]);
    }
  }

  lemma ReadsLe(m: seq<Byte>, p: nat, v: nat)
    requires Shows(m, p, Le(v, 4)) && v < TWO_32
    ensures ReadLe(m[p..p + 4]) == v
  {
    hide Le, ReadLe, Pow256;
    Widths();
    LeRoundTrip(v, 4);
    assert m[p..p + 4] == Le(v, 4);
  }

  /**
   With the two regions apart and in range: pointer i addresses a copy of string i, the copies
   tile a buffer of the size announced, and no other byte of memory changes.
   */
  lemma VectorDelivered(m: seq<Byte>, ss: seq<seq<Byte>>, vecP: nat, bufP: nat)
    requires CStrings(ss) && |m| <= TWO_32 && bufP + |Blob(ss, |ss|)| <= TWO_32
    requires Apart(|m|, bufP, |Blob(ss, |ss|)|, vecP, 4 * |ss|)
    ensures var t := Turns(m, ss, vecP, bufP, |ss|);
            && t.ok && |t.mem| == |m|
            && Shows(t.mem, bufP, Blob(ss, |ss|))
            && (forall i :: 0 <= i < |ss| ==>
                  CStringAt(t.mem, ReadLe(t.mem[vecP + 4 * i..vecP + 4 * i + 4])) == ss[i])
            && (forall k :: 0 <= k < |m| && !(bufP <= k < bufP + |Blob(ss, |ss|)|) && !(vecP <= k < vecP + 4 * |ss|)
                  ==> t.mem[k] == m[k])
  {
    hide Turns, Blob, Pointers, WriteAt, CStringAt, ReadLe, Shows;
    TurnsWrite(m, ss, vecP, bufP, |ss|);
    var t := Turns(m, ss, vecP, bufP, |ss|);
    TwoRegions(m, bufP, Blob(ss, |ss|), vecP, Pointers(ss, bufP, |ss|));
    forall i | 0 <= i < |ss| ensures CStringAt(t.mem, ReadLe(t.mem[vecP + 4 * i..vecP + 4 * i + 4])) == ss[i] {
      DeliveredOne(t.mem, ss, vecP, bufP, i);
    }
  }

  lemma TwoRegions(m: seq<Byte>, p: nat, a: seq<Byte>, q: nat, b: seq<Byte>)
    requires Apart(|m|, p, |a|, q, |b|)
    ensures var r := WriteAt(WriteAt(m, p, a), q, b);
            && Shows(r, p, a) && Shows(r, q, b)
            && forall k :: 0 <= k < |m| && !(p <= k < p + |a|) && !(q <= k < q + |b|) ==> r[k] == m[k]
  {
  }

  lemma DeliveredOne(m: seq<Byte>, ss: seq<seq<Byte>>, vecP: nat, bufP: nat, i: nat)
    requires i < |ss| && 0 !in ss[i] && bufP + |Blob(ss, |ss|)| <= TWO_32 && vecP + 4 * |ss| <= |m|
    requires Shows(m, bufP, Blob(ss, |ss|)) && Shows(m, vecP, Pointers(ss, bufP, |ss|))
    ensures CStringAt(m, ReadLe(m[vecP + 4 * i..vecP + 4 * i + 4])) == ss[i]
  {
    hide Shows, Le, ReadLe, CStringAt, Pointers, Blob, Terminated;
    var at := |Blob(ss, i)|;
    PointerAt(ss, bufP, i, |ss|);
    ShowsPart(m, vecP, Pointers(ss, bufP, |ss|), 4 * i, Le(bufP + at, 4));
    StringAt(ss, i, |ss|);
    ReadsLe(m, vecP + 4 * i, bufP + at);
    ShowsPart(m, bufP, Blob(ss, |ss|), at, Terminated(ss[i]));
    ReadsCString(m, bufP + at, ss[i]);
  }

  // ---------- byte by byte ----------

  /** `at` lists where strings start in the buffer: each behind the one before and its NUL. */
  ghost predicate Places(ss: seq<seq<Byte>>, at: seq<nat>) {
    |at| == |ss| + 1 && at[0] == 0 && forall k :: 0 <= k < |ss| ==> at[k + 1] == at[k] + |ss[k]| + 1
  }

  /** The size announced is that of all strings with one NUL each. */
  lemma {:induction false} BlobPlaces(ss: seq<seq<Byte>>, at: seq<nat>, n: nat)
    requires Places(ss, at) && n <= |ss|
    ensures |Blob(ss, n)| == at[n]
  {
    hide Terminated;
    if n > 0 {
      BlobPlaces(ss, at, n - 1);
    }
  }

  /** Pointer i, little-endian, is where string i starts, and the string stands there with one NUL behind it. */
  lemma VectorTold(m: seq<Byte>, ss: seq<seq<Byte>>, vecP: nat, bufP: nat, at: seq<nat>, i: nat)
    requires |m| <= TWO_32 && Places(ss, at) && bufP + at[|ss|] <= TWO_32 && i < |ss|
    requires Apart(|m|, bufP, at[|ss|], vecP, 4 * |ss|)
    ensures var r := Turns(m, ss, vecP, bufP, |ss|).mem;
            var p := bufP + at[i];
            && vecP + 4 * i + 4 <= |r| && p + |ss[i]| + 1 <= |r|
            && r[vecP + 4 * i..vecP + 4 * i + 4] ==
               [p % 0x100, p / 0x100 % 0x100, p / 0x1_0000 % 0x100, p / 0x100_0000 % 0x100]
            && r[p..p + |ss[i]| + 1] == ss[i] + [0]
  {
    hide Turns, Blob, Pointers, WriteAt, Shows, Le;
    BlobPlaces(ss, at, |ss|);
    BlobPlaces(ss, at, i);
    TurnsWrite(m, ss, vecP, bufP, |ss|);
    var r := Turns(m, ss, vecP, bufP, |ss|).mem;
    TwoRegions(m, bufP, Blob(ss, |ss|), vecP, Pointers(ss, bufP, |ss|));
    PointerAt(ss, bufP, i, |ss|);
    ShowsPart(r, vecP, Pointers(ss, bufP, |ss|), 4 * i, Le(bufP + at[i], 4));
    StringAt(ss, i, |ss|);
    ShowsPart(r, bufP, Blob(ss, |ss|), at[i], Terminated(ss[i]));
    ShownSlice(r, vecP + 4 * i, Le(bufP + at[i], 4));
    ShownSlice(r, bufP + at[i], Terminated(ss[i]));
    LittleEndian(bufP + at[i]);
  }

  lemma ShownSlice(m: seq<Byte>, p: nat, w: seq<Byte>)
    requires Shows(m, p, w)
    ensures p + |w| <= |m| && m[p..p + |w|] == w
  {
  }
}
