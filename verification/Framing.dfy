/**
 The v3 message frame: one type byte, a big-endian 32-bit length counting itself and the
 body, then the body. Three pieces of the program cut byte streams into such frames
 independently (the C bridge, the Swift decoder and the localhost server); this module is
 the one definition they are all proved against.
 */
module Framing {
  import opened Bytes

  datatype Frame = Frame(kind: Byte, body: seq<Byte>)

  const ROW_DESCRIPTION: Byte := 84   // 'T'
  const DATA_ROW: Byte := 68          // 'D'
  const COMMAND_COMPLETE: Byte := 67  // 'C'
  const ERROR_RESPONSE: Byte := 69    // 'E'
  const READY_FOR_QUERY: Byte := 90   // 'Z'

  /** The length word of a frame starting at s. */
  function LengthWord(s: seq<Byte>): (n: nat)
    requires |s| >= 5
    ensures n < TWO_32
  {
    ReadBe32(s[1..5])
  }

  /** s starts with a complete frame. */
  predicate HasFrame(s: seq<Byte>) {
    |s| >= 5 && LengthWord(s) >= 4 && 1 + LengthWord(s) <= |s|
  }

  function FirstFrame(s: seq<Byte>): Frame
    requires HasFrame(s)
  {
    Frame(s[0], s[5..1 + LengthWord(s)])
  }

  function AfterFirst(s: seq<Byte>): (t: seq<Byte>)
    requires HasFrame(s)
    ensures |t| < |s|
  {
    s[1 + LengthWord(s)..]
  }

  /** All complete frames at the front of s. */
  function Frames(s: seq<Byte>): seq<Frame>
    decreases |s|
  {
    if HasFrame(s) then [FirstFrame(s)] + Frames(AfterFirst(s)) else []
  }

  /** What is left of s behind its complete frames. */
  function Leftover(s: seq<Byte>): seq<Byte>
    decreases |s|
  {
    if HasFrame(s) then Leftover(AfterFirst(s)) else s
  }

  /** The wire form of a frame. */
  function Encode(f: Frame): seq<Byte>
    requires |f.body| + 4 < TWO_32
  {
    [f.kind] + Be32(|f.body| + 4) + f.body
  }

  ghost predicate Encodable(fs: seq<Frame>) {
    forall f :: f in fs ==> |f.body| + 4 < TWO_32
  }

  function EncodeAll(fs: seq<Frame>): seq<Byte>
    requires Encodable(fs)
  {
    if fs == [] then [] else Encode(fs[0]) + EncodeAll(fs[1..])
  }

  /** One frame in front of anything is read back, and the rest is left alone. */
  lemma EncodeThenFirst(f: Frame, rest: seq<Byte>)
    requires |f.body| + 4 < TWO_32
    ensures HasFrame(Encode(f) + rest)
    ensures FirstFrame(Encode(f) + rest) == f
    ensures AfterFirst(Encode(f) + rest) == rest
  {
    var s := Encode(f) + rest;
    var n := |f.body| + 4;
    assert s[1..5] == Be32(n);
    Be32RoundTrip(n, []);
    assert Be32(n) + [] == Be32(n);
    assert LengthWord(s) == n;
    assert s[5..1 + n] == f.body;
    assert s[1 + n..] == rest;
  }

  /** A frame cut from s is the frame whose wire form s starts with. */
  lemma FirstThenEncode(s: seq<Byte>)
    requires HasFrame(s)
    ensures |FirstFrame(s).body| + 4 < TWO_32
    ensures Encode(FirstFrame(s)) + AfterFirst(s) == s
    ensures Encode(FirstFrame(s)) == s[..1 + LengthWord(s)]
  {
    var n := LengthWord(s);
    assert s[1..5] == [s[1], s[2], s[3], s[4]];
    assert Be32(n) == [s[1], s[2], s[3], s[4]];
    assert s[..1 + n] == [s[0]] + [s[1], s[2], s[3], s[4]] + s[5..1 + n];
  }

  /** The frames of a stream, put back on the wire, with the leftover behind them, are the stream. */
  lemma {:induction false} FramesTile(s: seq<Byte>)
    ensures Encodable(Frames(s))
    ensures EncodeAll(Frames(s)) + Leftover(s) == s
    ensures !HasFrame(Leftover(s))
    decreases |s|
  {
    if HasFrame(s) {
      var t := AfterFirst(s);
      FramesTile(t);
      FirstThenEncode(s);
      var fs := Frames(s);
      assert fs[1..] == Frames(t);
      assert EncodeAll(fs) == Encode(FirstFrame(s)) + EncodeAll(Frames(t));
      Assoc(Encode(FirstFrame(s)), EncodeAll(Frames(t)), Leftover(t));
    }
  }

  lemma FramesOfCons(f: Frame, rest: seq<Byte>)
    requires |f.body| + 4 < TWO_32
    ensures Frames(Encode(f) + rest) == [f] + Frames(rest)
    ensures Leftover(Encode(f) + rest) == Leftover(rest)
  {
    EncodeThenFirst(f, rest);
  }

  /** Reading back what was encoded gives exactly the frames, and consumes every byte. */
  lemma {:induction false} FramesOfEncodeAll(fs: seq<Frame>, rest: seq<Byte>)
    requires Encodable(fs)
    ensures Frames(EncodeAll(fs) + rest) == fs + Frames(rest)
    ensures Leftover(EncodeAll(fs) + rest) == Leftover(rest)
  {
    if fs == [] {
      assert EncodeAll(fs) + rest == rest;
      assert fs + Frames(rest) == Frames(rest);
    } else {
      FramesOfEncodeAll(fs[1..], rest);
      FramesOfCons(fs[0], EncodeAll(fs[1..]) + rest);
      Assoc(Encode(fs[0]), EncodeAll(fs[1..]), rest);
      Assoc([fs[0]], fs[1..], Frames(rest));
      assert [fs[0]] + fs[1..] == fs;
    }
  }

  /** Bytes that arrive later never change the frames already complete. */
  lemma FramesGrow(a: seq<Byte>, b: seq<Byte>)
    ensures Frames(a + b) == Frames(a) + Frames(Leftover(a) + b)
    ensures Leftover(a + b) == Leftover(Leftover(a) + b)
  {
    FramesTile(a);
    assert a + b == EncodeAll(Frames(a)) + (Leftover(a) + b);
    FramesOfEncodeAll(Frames(a), Leftover(a) + b);
  }

  lemma {:induction false} EncodeAllAppend(a: seq<Frame>, b: seq<Frame>)
    requires Encodable(a) && Encodable(b)
    ensures Encodable(a + b)
    ensures EncodeAll(a + b) == EncodeAll(a) + EncodeAll(b)
  {
    if a == [] {
      assert a + b == b;
    } else {
      EncodeAllAppend(a[1..], b);
      assert (a + b)[1..] == a[1..] + b;
      Assoc(Encode(a[0]), EncodeAll(a[1..]), EncodeAll(b));
    }
  }

  lemma EncodeOne(f: Frame)
    requires |f.body| + 4 < TWO_32
    ensures EncodeAll([f]) == Encode(f)
  {
    var one := [f];
    assert one[1..] == [];
  }

  lemma EncodeAllSnoc(a: seq<Frame>, f: Frame)
    requires Encodable(a) && |f.body| + 4 < TWO_32
    ensures Encodable(a + [f]) && EncodeAll(a + [f]) == EncodeAll(a) + Encode(f)
  {
    hide Encode, EncodeAll;
    EncodeAllAppend(a, [f]);
    EncodeOne(f);
  }

  /** What a complete frame is, by its bytes. */
  lemma HasFrameTold(s: seq<Byte>)
    requires |s| >= 5
    ensures var n := s[1] as int * 0x100_0000 + s[2] as int * 0x1_0000 + s[3] as int * 0x100 + s[4] as int;
            && (HasFrame(s) <==> 4 <= n && 1 + n <= |s|)
            && (HasFrame(s) ==> FirstFrame(s) == Frame(s[0], s[5..1 + n]) && AfterFirst(s) == s[1 + n..])
  {
  }

  /** On the wire a frame is its type, its size without the type in four bytes, and its body. */
  lemma EncodeTold(f: Frame)
    requires |f.body| + 4 < 0x1_0000_0000
    ensures var n := |f.body| + 4;
            Encode(f) == [f.kind, n / 0x100_0000, n / 0x1_0000 % 0x100, n / 0x100 % 0x100, n % 0x100] + f.body
  {
    BigEndian(|f.body| + 4);
  }

  /** The types of the messages that are told apart. */
  lemma KindsTold()
    ensures ROW_DESCRIPTION == 'T' as int && DATA_ROW == 'D' as int && COMMAND_COMPLETE == 'C' as int
    ensures ERROR_RESPONSE == 'E' as int && READY_FOR_QUERY == 'Z' as int
  {
  }

  lemma NoMoreFrames(s: seq<Byte>)
    ensures |s| < 5 ==> !HasFrame(s)
    ensures !HasFrame(s) ==> Frames(s) == [] && Leftover(s) == s
  {
  }

  /** What a walker at offset off sees, in terms of the whole buffer. */
  lemma FrameAt(s: seq<Byte>, off: nat)
    requires off + 5 <= |s|
    ensures var n := ReadBe32(s[off + 1..off + 5]);
            && LengthWord(s[off..]) == n
            && (HasFrame(s[off..]) <==> n >= 4 && off + 1 + n <= |s|)
            && (n >= 4 && off + 1 + n <= |s| ==>
                  && FirstFrame(s[off..]) == Frame(s[off], s[off + 5..off + 1 + n])
                  && AfterFirst(s[off..]) == s[off + 1 + n..]
                  && Frames(s[off..]) == [FirstFrame(s[off..])] + Frames(s[off + 1 + n..]))
  {
    var here := s[off..];
    assert here[1..5] == s[off + 1..off + 5];
    var n := ReadBe32(s[off + 1..off + 5]);
    if n >= 4 && off + 1 + n <= |s| {
      assert here[5..1 + n] == s[off + 5..off + 1 + n];
      assert here[1 + n..] == s[off + 1 + n..];
    }
  }

  // ---------- the C bridge's ReadyForQuery test ----------

  predicate ContainsReady(fs: seq<Frame>) {
    exists i :: 0 <= i < |fs| && fs[i].kind == READY_FOR_QUERY
  }

  /** Once a reply holds a complete ReadyForQuery, appending bytes keeps it there. */
  lemma ReadyIsStable(a: seq<Byte>, b: seq<Byte>)
    requires ContainsReady(Frames(a))
    ensures ContainsReady(Frames(a + b))
  {
    FramesGrow(a, b);
    var i :| 0 <= i < |Frames(a)| && Frames(a)[i].kind == READY_FOR_QUERY;
    assert Frames(a + b)[i] == Frames(a)[i];
  }

  /**
   No frame has a length word of 2^32 - 1. The C walkers step by `off += 1 + n`, added in 32
   bits, and that is the one length on which they stand still.
   */
  predicate Walkable(fs: seq<Frame>) {
    forall f :: f in fs ==> |f.body| + 5 != TWO_32
  }

  /** The same of the frames before the first ReadyForQuery, where the search for it ends. */
  predicate Searchable(fs: seq<Frame>) {
    forall i :: 0 <= i < |fs| && |fs[i].body| + 5 == TWO_32 ==> ContainsReady(fs[..i + 1])
  }

  /** Such a frame takes 2^32 bytes. */
  lemma {:induction false} ShortIsWalkable(s: seq<Byte>)
    requires |s| < TWO_32
    ensures Walkable(Frames(s))
    decreases |s|
  {
    hide LengthWord;
    if HasFrame(s) {
      ShortIsWalkable(AfterFirst(s));
    }
  }

  lemma StepMoves(n: nat)
    requires n < TWO_32
    ensures (1 + n) % TWO_32 == 1 + n <==> n + 1 != TWO_32
  {
  }

  /** Walks the first `len` bytes of buf frame by frame. */
  method HasReadyForQuery(buf: array<Byte>, len: nat) returns (found: bool)
    requires len <= buf.Length && Searchable(Frames(buf[..len]))
    ensures found <==> ContainsReady(Frames(buf[..len]))
  {
    hide ReadBe32, HasFrame, Frames;
    var off := 0;
    ghost var whole := buf[..len];
    ghost var passed: seq<Frame> := [];
    while len - off >= 5
      invariant 0 <= off <= len
      invariant Frames(whole) == passed + Frames(whole[off..])
      invariant !ContainsReady(passed)
      decreases len - off
    {
      var n := ReadBe32([buf[off + 1], buf[off + 2], buf[off + 3], buf[off + 4]]);
      assert whole[off + 1..off + 5] == [buf[off + 1], buf[off + 2], buf[off + 3], buf[off + 4]];
      FrameAt(whole, off);
      if n < 4 || off + 1 + n > len {
        break;
      }
      ghost var f := FirstFrame(whole[off..]);
      Assoc(passed, [f], Frames(whole[off + 1 + n..]));
      assert Frames(whole)[|passed|] == f;
      if buf[off] == READY_FOR_QUERY {
        return true;
      }
      passed := passed + [f];
      assert Frames(whole)[..|passed|] == passed;
      assert !ContainsReady(passed);
      StepMoves(n);
      var step := (1 + n) % TWO_32;
      assert step == 1 + n;
      off := off + step;
    }
    NoMoreFrames(whole[off..]);
    assert passed + [] == passed;
    found := false;
  }

  /** The Swift decoder's loop over one reply. */
  method FrameList(data: seq<Byte>) returns (out: seq<Frame>)
    ensures out == Frames(data)
  {
    hide ReadBe32, HasFrame, Frames;
    out := [];
    var off := 0;
    while |data| - off >= 5
      invariant 0 <= off <= |data|
      invariant Frames(data) == out + Frames(data[off..])
      decreases |data| - off
    {
      var len := ReadBe32(data[off + 1..off + 5]);
      FrameAt(data, off);
      if !(len >= 4 && off + 1 + len <= |data|) {
        break;
      }
      var f := Frame(data[off], data[off + 5..off + 1 + len]);
      Assoc(out, [f], Frames(data[off + 1 + len..]));
      out := out + [f];
      off := off + 1 + len;
    }
    NoMoreFrames(data[off..]);
    assert Frames(data) == out;
  }
}
