/**
 The Swift side of the wire: Writer and Reader, the one-shot extended query, and the decoders of
 row descriptions, data rows and error fields. Strings are their UTF-8 bytes.
 */
module Wire {
  import opened Bytes
  import opened Framing

  // ---------- Writer ----------

  class Writer {
    var data: seq<Byte>

    constructor ()
      ensures data == []
    {
      data := [];
    }

    method UInt8(v: Byte)
      modifies this
      ensures data == old(data) + [v]
    {
      data := data + [v];
    }

    /** An Int16 goes out as its two's-complement bit pattern. */
    method Int16(v: int)
      requires -0x8000 <= v < 0x8000
      modifies this
      ensures data == old(data) + Int16Bytes(v)
    {
      data := data + Be16(v % TWO_16);
    }

    method Int32(v: int)
      requires -TWO_31 <= v < TWO_31
      modifies this
      ensures data == old(data) + Int32Bytes(v)
    {
      data := data + Be32(v % TWO_32);
    }

    method CString(s: seq<Byte>)
      modifies this
      ensures data == old(data) + CStringBytes(s)
    {
      data := data + s;
      data := data + [0];
    }

    method Raw(d: seq<Byte>)
      modifies this
      ensures data == old(data) + d
    {
      data := data + d;
    }
  }

  function Int16Bytes(v: int): (s: seq<Byte>)
    requires -0x8000 <= v < 0x8000
    ensures |s| == 2
  {
    Be16(v % TWO_16)
  }

  function Int32Bytes(v: int): (s: seq<Byte>)
    requires -TWO_31 <= v < TWO_31
    ensures |s| == 4
  {
    Be32(v % TWO_32)
  }

  function CStringBytes(s: seq<Byte>): seq<Byte> {
    s + [0]
  }

  // ---------- the extended query ----------

  const PARSE: Byte := 80     // 'P'
  const BIND: Byte := 66      // 'B'
  const DESCRIBE: Byte := 68  // 'D'
  const EXECUTE: Byte := 69   // 'E'
  const SYNC: Byte := 83      // 'S'
  const QUERY: Byte := 81     // 'Q'

  type Param = Option<seq<Byte>>

  function ParseBody(sql: seq<Byte>): seq<Byte> {
    CStringBytes([]) + CStringBytes(sql) + Int16Bytes(0)
  }

  predicate ParamFits(p: Param) {
    p.Some? ==> |p.value| < TWO_31
  }

  function ParamBytes(p: Param): seq<Byte>
    requires ParamFits(p)
  {
    match p
    case None => Int32Bytes(-1)
    case Some(bytes) => Int32Bytes(|bytes|) + bytes
  }

  function AllParamBytes(ps: seq<Param>): seq<Byte>
    requires forall p :: p in ps ==> ParamFits(p)
  {
    if ps == [] then [] else ParamBytes(ps[0]) + AllParamBytes(ps[1..])
  }

  /** Bind's parameter block: the count, then length and bytes of each, -1 for NULL. */
  function ParamBlock(ps: seq<Param>): seq<Byte>
    requires |ps| < 0x8000 && forall p :: p in ps ==> ParamFits(p)
  {
    Int16Bytes(|ps|) + AllParamBytes(ps)
  }

  /** Unnamed portal and statement, one parameter format code (text). */
  function BindHead(): seq<Byte> {
    CStringBytes([]) + CStringBytes([]) + Int16Bytes(1) + Int16Bytes(0)
  }

  function BindBody(ps: seq<Param>): seq<Byte>
    requires |ps| < 0x8000 && forall p :: p in ps ==> ParamFits(p)
  {
    BindHead() + ParamBlock(ps) + (Int16Bytes(1) + Int16Bytes(0))
  }

  /** What Swift's checked integer conversions demand; anything larger traps. */
  predicate Encodes(sql: seq<Byte>, ps: seq<Param>) {
    && |ps| < 0x8000 && (forall p :: p in ps ==> ParamFits(p))
    && |ParseBody(sql)| + 4 < TWO_32 && |BindBody(ps)| + 4 < TWO_32
  }

  function ExtendedQueryFrames(sql: seq<Byte>, ps: seq<Param>): seq<Frame>
    requires Encodes(sql, ps)
  {
    [Frame(PARSE, ParseBody(sql)), Frame(BIND, BindBody(ps)),
     Frame(DESCRIBE, [80] + CStringBytes([])),
     Frame(EXECUTE, CStringBytes([]) + Int32Bytes(0)),
     Frame(SYNC, [])]
  }

  method Message(kind: Byte, w: Writer) returns (out: seq<Byte>)
    requires |w.data| + 4 < TWO_32
    ensures out == Encode(Frame(kind, w.data))
  {
    out := [kind];
    out := out + Be32(|w.data| + 4);
    out := out + w.data;
  }

  lemma {:induction false} AllParamBytesSnoc(ps: seq<Param>, i: nat)
    requires i < |ps| && forall p :: p in ps ==> ParamFits(p)
    ensures AllParamBytes(ps[..i + 1]) == AllParamBytes(ps[..i]) + ParamBytes(ps[i])
  {
    hide ParamBytes;
    if i == 0 {
      assert ps[..1] == [ps[0]] && ps[..0] == [];
      assert ps[..1][1..] == ps[..0];
    } else {
      AllParamBytesSnoc(ps[1..], i - 1);
      assert ps[..i + 1][1..] == ps[1..][..i] && ps[..i][1..] == ps[1..][..i - 1];
      Assoc(ParamBytes(ps[0]), AllParamBytes(ps[1..][..i - 1]), ParamBytes(ps[i]));
    }
  }

  method WriteBind(ps: seq<Param>) returns (w: Writer)
    requires |ps| < 0x8000 && forall p :: p in ps ==> ParamFits(p)
    ensures fresh(w) && w.data == BindBody(ps)
  {
    hide Int32Bytes, Int16Bytes, ParamBytes;
    w := new Writer();
    w.CString([]);
    w.CString([]);
    w.Int16(1);
    w.Int16(0);
    w.Int16(|ps|);
    assert ps[..0] == [];
    ghost var head := BindHead() + Int16Bytes(|ps|);
    assert w.data == head + AllParamBytes(ps[..0]);
    var i := 0;
    while i < |ps|
      invariant 0 <= i <= |ps|
      invariant fresh(w)
      invariant w.data == head + AllParamBytes(ps[..i])
    {
      WriteParam(w, ps[i]);
      AllParamBytesSnoc(ps, i);
      Assoc(head, AllParamBytes(ps[..i]), ParamBytes(ps[i]));
      i := i + 1;
    }
    assert ps[..i] == ps;
    Assoc(BindHead(), Int16Bytes(|ps|), AllParamBytes(ps));
    w.Int16(1);
    w.Int16(0);
    Assoc(BindHead() + ParamBlock(ps), Int16Bytes(1), Int16Bytes(0));
  }

  method WriteParam(w: Writer, p: Param)
    requires ParamFits(p)
    modifies w
    ensures w.data == old(w.data) + ParamBytes(p)
  {
    match p {
      case Some(bytes) =>
        w.Int32(|bytes|);
        w.Raw(bytes);
        Assoc(old(w.data), Int32Bytes(|bytes|), bytes);
      case None =>
        w.Int32(-1);
    }
  }

  /** One 'Q' message with the statement as a C string. */
  method SimpleQuery(sql: seq<Byte>) returns (out: seq<Byte>)
    requires |sql| + 5 < TWO_32
    ensures out == Encode(Frame(QUERY, CStringBytes(sql)))
  {
    var w := new Writer();
    w.CString(sql);
    assert w.data == CStringBytes(sql);
    out := Message(QUERY, w);
  }

  /** One-shot extended query: Parse, Bind, Describe, Execute, Sync. */
  method ExtendedQuery(sql: seq<Byte>, ps: seq<Param>) returns (out: seq<Byte>)
    requires Encodes(sql, ps)
    ensures out == EncodeAll(ExtendedQueryFrames(sql, ps))
  {
    hide Encode, EncodeAll, Int32Bytes, Int16Bytes, BindBody;
    ghost var fs := ExtendedQueryFrames(sql, ps);
    var w := new Writer();
    w.CString([]);
    w.CString(sql);
    w.Int16(0);
    assert w.data == fs[0].body;
    out := Message(PARSE, w);
    w := WriteBind(ps);
    var m := Message(BIND, w);
    out := out + m;
    w := new Writer();
    w.UInt8(80);
    w.CString([]);
    assert w.data == fs[2].body;
    m := Message(DESCRIBE, w);
    out := out + m;
    w := new Writer();
    w.CString([]);
    w.Int32(0);
    assert w.data == fs[3].body;
    m := Message(EXECUTE, w);
    out := out + m;
    w := new Writer();
    m := Message(SYNC, w);
    out := out + m;
    assert fs == [fs[0], fs[1], fs[2], fs[3], fs[4]];
    EncodeFive(fs[0], fs[1], fs[2], fs[3], fs[4]);
  }

  lemma EncodeFive(a: Frame, b: Frame, c: Frame, d: Frame, e: Frame)
    requires Encodable([a, b, c, d, e])
    ensures EncodeAll([a, b, c, d, e]) == Encode(a) + Encode(b) + Encode(c) + Encode(d) + Encode(e)
  {
    hide Encode, EncodeAll;
    assert forall f :: f in [a, b, c, d, e] <==> f == a || f == b || f == c || f == d || f == e;
    EncodeOne(a);
    EncodeAllSnoc([a], b);
    EncodeAllSnoc([a, b], c);
    EncodeAllSnoc([a, b, c], d);
    EncodeAllSnoc([a, b, c, d], e);
    assert [a] + [b] == [a, b] && [a, b] + [c] == [a, b, c];
    assert [a, b, c] + [d] == [a, b, c, d] && [a, b, c, d] + [e] == [a, b, c, d, e];
  }

  /** The decoder finds exactly P, B, D, E, S in an extended query, and no byte is left over. */
  lemma ExtendedQueryFramed(sql: seq<Byte>, ps: seq<Param>)
    requires Encodes(sql, ps)
    ensures Frames(EncodeAll(ExtendedQueryFrames(sql, ps))) == ExtendedQueryFrames(sql, ps)
    ensures Leftover(EncodeAll(ExtendedQueryFrames(sql, ps))) == []
  {
    hide EncodeAll, ParseBody, BindBody;
    var fs := ExtendedQueryFrames(sql, ps);
    FramesOfEncodeAll(fs, []);
    assert EncodeAll(fs) + [] == EncodeAll(fs);
    NoMoreFrames([]);
    assert fs + [] == fs;
  }

  /** NULL is the length -1, and any other value its length in four bytes and its bytes. */
  lemma ParamTold(p: Param)
    requires ParamFits(p)
    ensures p == None ==> ParamBytes(p) == [255, 255, 255, 255]
    ensures p.Some? ==>
              var n := |p.value|;
              ParamBytes(p) == [n / 0x100_0000, n / 0x1_0000 % 0x100, n / 0x100 % 0x100, n % 0x100] + p.value
  {
    hide Be32;
    BigEndian(0xFFFF_FFFF);
    if p.Some? {
      BigEndian(|p.value|);
    }
  }

  /** The values go out in their order, behind their number. */
  lemma {:induction false} ParamsInOrder(a: seq<Param>, b: seq<Param>)
    requires (forall p :: p in a + b ==> ParamFits(p))
    ensures (forall p :: p in a ==> ParamFits(p)) && (forall p :: p in b ==> ParamFits(p))
    ensures AllParamBytes(a + b) == AllParamBytes(a) + AllParamBytes(b)
    decreases |a|
  {
    assert forall p :: p in a ==> p in a + b;
    assert forall p :: p in b ==> p in a + b;
    hide ParamBytes, ParamFits;
    if a == [] {
      assert a + b == b;
    } else {
      assert (a + b)[1..] == a[1..] + b;
      ParamsInOrder(a[1..], b);
      Assoc(ParamBytes(a[0]), AllParamBytes(a[1..]), AllParamBytes(b));
    }
  }

  lemma ParamBlockTold(ps: seq<Param>)
    requires |ps| < 0x8000 && forall p :: p in ps ==> ParamFits(p)
    ensures ParamBlock(ps) == [|ps| / 0x100, |ps| % 0x100] + AllParamBytes(ps)
  {
    hide AllParamBytes, Int16Bytes;
    Int16Told(|ps|);
  }

  lemma Int16Told(v: nat)
    requires v < 0x8000
    ensures Int16Bytes(v) == [v / 0x100, v % 0x100]
  {
    BigEndian(v);
  }
}
