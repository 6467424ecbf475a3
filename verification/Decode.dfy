/** Reader and the decoders of DataRow, RowDescription and ErrorResponse bodies. */
module Decode {
  import opened Bytes
  import opened Framing
  import opened Wire
  import opened Utf8

  // ---------- what is at an offset ----------

  function Int16At(d: seq<Byte>, off: nat): Option<int> {
    if off + 2 <= |d| then Some(Signed16(ReadBe16(d[off..off + 2]))) else None
  }

  function Int32At(d: seq<Byte>, off: nat): Option<int> {
    if off + 4 <= |d| then Some(Signed32(ReadBe32(d[off..off + 4]))) else None
  }

  /** The first NUL at off or behind. */
  function NulFrom(d: seq<Byte>, off: nat): (r: Option<nat>)
    ensures r.Some? ==> off <= r.value < |d| && d[r.value] == 0
    ensures forall k :: off <= k < |d| && (r.None? || k < r.value) ==> d[k] != 0
    decreases |d| - off
  {
    if off >= |d| then None
    else if d[off] == 0 then Some(off)
    else NulFrom(d, off + 1)
  }

  /** The text from off up to the next NUL, if there is one and the bytes are UTF-8. */
  function TextAt(d: seq<Byte>, off: nat): Option<seq<Byte>> {
    var nul := NulFrom(d, off);
    if nul.Some? && IsUtf8(d[off..nul.value]) then Some(d[off..nul.value]) else None
  }

  class Reader {
    const data: seq<Byte>
    var off: nat

    ghost predicate Valid()
      reads this
    {
      off <= |data|
    }

    constructor (d: seq<Byte>)
      ensures data == d && off == 0 && Valid()
    {
      data := d;
      off := 0;
    }

    method UInt8() returns (v: Option<Byte>)
      requires Valid()
      modifies this
      ensures Valid()
      ensures v == if old(off) < |data| then Some(data[old(off)]) else None
      ensures off == if v.Some? then old(off) + 1 else old(off)
    {
      if off >= |data| {
        return None;
      }
      v := Some(data[off]);
      off := off + 1;
    }

    method Int16() returns (v: Option<int>)
      requires Valid()
      modifies this
      ensures Valid() && v == Int16At(data, old(off))
      ensures off == if v.Some? then old(off) + 2 else old(off)
    {
      if |data| - off < 2 {
        return None;
      }
      v := Some(Signed16(ReadBe16(data[off..off + 2])));
      off := off + 2;
    }

    method Int32() returns (v: Option<int>)
      requires Valid()
      modifies this
      ensures Valid() && v == Int32At(data, old(off))
      ensures off == if v.Some? then old(off) + 4 else old(off)
    {
      if |data| - off < 4 {
        return None;
      }
      v := Some(Signed32(ReadBe32(data[off..off + 4])));
      off := off + 4;
    }

    /** Text that is not UTF-8 is stepped over, and yields nothing. */
    method CString() returns (v: Option<seq<Byte>>)
      requires Valid()
      modifies this
      ensures Valid()
      ensures v == TextAt(data, old(off))
      ensures var nul := NulFrom(data, old(off)); off == if nul.Some? then nul.value + 1 else old(off)
    {
      hide IsUtf8;
      var i := off;
      while i < |data| && data[i] != 0
        invariant off <= i <= |data|
        invariant NulFrom(data, off) == NulFrom(data, i)
      {
        i := i + 1;
      }
      if i == |data| {
        return None;
      }
      v := if IsUtf8(data[off..i]) then Some(data[off..i]) else None;
      off := i + 1;
    }

    method Bytes(n: nat) returns (v: Option<seq<Byte>>)
      requires Valid()
      modifies this
      ensures Valid()
      ensures v == if old(off) + n <= |data| then Some(data[old(off)..old(off) + n]) else None
      ensures off == if v.Some? then old(off) + n else old(off)
    {
      if |data| - off < n {
        return None;
      }
      v := Some(data[off..off + n]);
      off := off + n;
    }
  }

  // ---------- DataRow ----------

  /** The leading count, as long as Swift's 0..<n accepts it; a negative count traps. */
  predicate CountOk(body: seq<Byte>) {
    Int16At(body, 0).Some? ==> Int16At(body, 0).value >= 0
  }

  /** n values from off on; stops where a length is missing, and reads a cut-off value as NULL. */
  function Values(d: seq<Byte>, off: nat, n: nat): seq<Param>
    decreases n
  {
    var len := Int32At(d, off);
    if n == 0 || len.None? then []
    else if len.value < 0 || off + 4 + len.value > |d| then [None] + Values(d, off + 4, n - 1)
    else [Some(d[off + 4..off + 4 + len.value])] + Values(d, off + 4 + len.value, n - 1)
  }

  function DataRowValues(body: seq<Byte>): seq<Param>
    requires CountOk(body)
  {
    var n := Int16At(body, 0);
    if n.None? then [] else Values(body, 2, n.value)
  }

  method DataRow(body: seq<Byte>) returns (vals: seq<Param>)
    requires CountOk(body)
    ensures vals == DataRowValues(body)
  {
    hide Int16At, Int32At;
    var r := new Reader(body);
    var n := r.Int16();
    vals := [];
    if n.None? {
      return;
    }
    var i := 0;
    while i < n.value
      invariant 0 <= i <= n.value
      invariant r.Valid() && r.data == body
      invariant DataRowValues(body) == vals + Values(body, r.off, n.value - i)
      decreases n.value - i
    {
      ghost var off := r.off;
      var len := r.Int32();
      if len.None? {
        break;
      }
      var v: Param := None;
      if len.value >= 0 {
        v := r.Bytes(len.value);
      }
      Assoc(vals, [v], Values(body, r.off, n.value - i - 1));
      vals := vals + [v];
      i := i + 1;
    }
  }

  lemma Int32Back(v: int, rest: seq<Byte>)
    requires -TWO_31 <= v < TWO_31
    ensures Int32At(Int32Bytes(v) + rest, 0) == Some(v)
  {
    hide Be32, ReadBe32;
    Be32RoundTrip(v % TWO_32, []);
    assert Be32(v % TWO_32) + [] == Be32(v % TWO_32);
    assert (Int32Bytes(v) + rest)[0..4] == Int32Bytes(v);
  }

  lemma Int16Back(v: int, rest: seq<Byte>)
    requires -0x8000 <= v < 0x8000
    ensures Int16At(Int16Bytes(v) + rest, 0) == Some(v)
  {
    Be16RoundTrip(v % TWO_16, []);
    assert (Int16Bytes(v) + rest)[0..2] == Int16Bytes(v);
  }

  /** Reading depends only on what lies at the offset. */
  lemma Int32Shift(a: seq<Byte>, b: seq<Byte>, off: nat)
    ensures Int32At(a + b, |a| + off) == Int32At(b, off)
  {
    if off + 4 <= |b| {
      assert (a + b)[|a| + off..|a| + off + 4] == b[off..off + 4];
    }
  }

  lemma {:induction false} ValuesShift(a: seq<Byte>, b: seq<Byte>, off: nat, n: nat)
    ensures Values(a + b, |a| + off, n) == Values(b, off, n)
    decreases n
  {
    hide Int32At;
    Int32Shift(a, b, off);
    var len := Int32At(b, off);
    if n > 0 && len.Some? {
      if len.value < 0 || off + 4 + len.value > |b| {
        ValuesShift(a, b, off + 4, n - 1);
      } else {
        ValuesShift(a, b, off + 4 + len.value, n - 1);
        assert (a + b)[|a| + off + 4..|a| + off + 4 + len.value] == b[off + 4..off + 4 + len.value];
      }
    }
  }

  lemma ValuesOfOne(p: Param, rest: seq<Byte>, n: nat)
    requires ParamFits(p) && n > 0
    ensures Values(ParamBytes(p) + rest, 0, n) == [p] + Values(rest, 0, n - 1)
  {
    hide Int32At, Int32Bytes;
    var d := ParamBytes(p) + rest;
    match p {
      case None =>
        Int32Back(-1, rest);
        ValuesShift(ParamBytes(p), rest, 0, n - 1);
      case Some(bytes) =>
        Int32Back(|bytes|, bytes + rest);
        assert d == Int32Bytes(|bytes|) + (bytes + rest);
        assert d[4..4 + |bytes|] == bytes;
        ValuesShift(ParamBytes(p), rest, 0, n - 1);
    }
  }

  lemma {:induction false} ValuesBack(ps: seq<Param>, rest: seq<Byte>)
    requires forall p :: p in ps ==> ParamFits(p)
    ensures Values(AllParamBytes(ps) + rest, 0, |ps|) == ps
  {
    hide ParamBytes, Int32At;
    if ps != [] {
      ValuesBack(ps[1..], rest);
      ValuesOfOne(ps[0], AllParamBytes(ps[1..]) + rest, |ps|);
      Assoc(ParamBytes(ps[0]), AllParamBytes(ps[1..]), rest);
    }
  }

  /** The row decoder applied to Bind's parameter block returns the parameters, NULL as nil. */
  lemma ParamsReadBack(ps: seq<Param>, rest: seq<Byte>)
    requires |ps| < 0x8000 && forall p :: p in ps ==> ParamFits(p)
    ensures CountOk(ParamBlock(ps) + rest)
    ensures DataRowValues(ParamBlock(ps) + rest) == ps
  {
    hide AllParamBytes, Values, Int16At;
    var tail := AllParamBytes(ps) + rest;
    Assoc(Int16Bytes(|ps|), AllParamBytes(ps), rest);
    Int16Back(|ps|, tail);
    ValuesShift(Int16Bytes(|ps|), tail, 0, |ps|);
    ValuesBack(ps, rest);
  }

  lemma CStringBack(a: seq<Byte>, s: seq<Byte>, rest: seq<Byte>)
    requires 0 !in s
    ensures NulFrom(a + CStringBytes(s) + rest, |a|) == Some(|a| + |s|)
    ensures (a + CStringBytes(s) + rest)[|a|..|a| + |s|] == s
  {
    var d := a + CStringBytes(s) + rest;
    assert d[|a| + |s|] == 0;
    assert d[|a|..|a| + |s|] == s;
    assert forall k :: 0 <= k < |s| ==> d[|a| + k] == s[k];
    assert forall k :: |a| <= k < |a| + |s| ==> d[k] == s[k - |a|];
  }

  lemma TextBack(a: seq<Byte>, s: seq<Byte>, rest: seq<Byte>)
    requires 0 !in s && IsUtf8(s)
    ensures TextAt(a + CStringBytes(s) + rest, |a|) == Some(s)
    ensures NulFrom(a + CStringBytes(s) + rest, |a|) == Some(|a| + |s|)
    ensures (a + CStringBytes(s) + rest)[|a|..|a| + |s|] == s
  {
    hide IsUtf8, CStringBytes, NulFrom;
    CStringBack(a, s, rest);
  }

  /** Parse's two strings and Bind's parameters, as the other end reads them from the frames. */
  lemma ExtendedQueryReadsBack(sql: seq<Byte>, ps: seq<Param>)
    requires Encodes(sql, ps) && 0 !in sql
    ensures var fs := Frames(EncodeAll(ExtendedQueryFrames(sql, ps)));
            && |fs| == 5
            && NulFrom(fs[0].body, 0) == Some(0)
            && NulFrom(fs[0].body, 1) == Some(1 + |sql|) && fs[0].body[1..1 + |sql|] == sql
            && |fs[1].body| >= 6 && CountOk(fs[1].body[6..]) && DataRowValues(fs[1].body[6..]) == ps
  {
    hide EncodeAll, Frames, ParamBlock, Int16At, DataRowValues;
    ExtendedQueryFramed(sql, ps);
    var none: seq<Byte> := [];
    CStringBack(none, none, CStringBytes(sql) + Int16Bytes(0));
    assert ParseBody(sql) == none + CStringBytes(none) + (CStringBytes(sql) + Int16Bytes(0));
    CStringBack(CStringBytes(none), sql, Int16Bytes(0));
    assert BindBody(ps)[6..] == ParamBlock(ps) + (Int16Bytes(1) + Int16Bytes(0));
    ParamsReadBack(ps, Int16Bytes(1) + Int16Bytes(0));
  }

  /** A value that runs out of its row reads as nil, and a row that ends early ends the list. */
  lemma CutOffRows(size: nat, rest: seq<Byte>)
    requires |rest| < size < 0x8000_0000
    ensures CountOk([0, 1] + Be32(size) + rest) && DataRowValues([0, 1] + Be32(size) + rest) == [None]
    ensures CountOk([0, 1]) && DataRowValues([0, 1]) == []
  {
    hide Be32;
    var d := [0, 1] + Be32(size) + rest;
    Be32RoundTrip(size, []);
    assert Be32(size) + [] == Be32(size) && d[2..6] == Be32(size);
    assert d[0..2] == [0, 1] && [0, 1][0..2] == [0, 1];
    assert Int32At(d, 2) == Some(size);
    assert Values(d, 6, 0) == [];
  }

  /**
   The extended query byte by byte, read off the wire: Parse with an empty name, the statement and
   no type hints; Bind with empty names, one parameter format, text, the parameters, and one result
   format, text; Describe of the unnamed portal; Execute of it without a limit; Sync.
   */
  lemma ExtendedQueryTold(sql: seq<Byte>, ps: seq<Param>)
    requires Encodes(sql, ps)
    ensures var fs := Frames(EncodeAll(ExtendedQueryFrames(sql, ps)));
            && |fs| == 5
            && fs[0].kind == 'P' as int && fs[1].kind == 'B' as int && fs[2].kind == 'D' as int
            && fs[3].kind == 'E' as int && fs[4].kind == 'S' as int
            && fs[0].body == [0] + sql + [0] + [0, 0]
            && fs[1].body == [0, 0] + [0, 1, 0, 0] + ParamBlock(ps) + [0, 1, 0, 0]
            && fs[2].body == ['P' as int, 0]
            && fs[3].body == [0] + [0, 0, 0, 0]
            && fs[4].body == []
  {
    hide EncodeAll, Frames, ParamBlock, Be32, Be16;
    ExtendedQueryFramed(sql, ps);
    BigEndian(0);
    BigEndian(1);
    NoneBack();
    assert CStringBytes([]) == [0];
    assert BindBody(ps) == [0, 0] + [0, 1, 0, 0] + ParamBlock(ps) + [0, 1, 0, 0];
    assert ParseBody(sql) == [0] + sql + [0] + [0, 0];
  }

  lemma NoneBack()
    ensures Int16Bytes(0) == [0, 0] && Int16Bytes(1) == [0, 1] && Int32Bytes(0) == [0, 0, 0, 0]
  {
  }

  // ---------- RowDescription ----------

  datatype Column = Column(name: seq<Byte>, typeOid: nat)

  /** A fixed-width field that is missing is not stepped over. */
  function Skip(d: seq<Byte>, off: nat, width: nat): nat {
    if off + width <= |d| then off + width else off
  }

  /** Where the type oid of a column stands, past the table oid and attribute number. */
  function OidAt(d: seq<Byte>, afterName: nat): nat {
    Skip(d, Skip(d, afterName, 4), 2)
  }

  /** Past type oid, type length, type modifier and format. */
  function NextColumn(d: seq<Byte>, oidAt: nat): nat {
    Skip(d, Skip(d, Skip(d, Skip(d, oidAt, 4), 2), 4), 2)
  }

  function ColumnAt(d: seq<Byte>, off: nat, nul: nat): Column
    requires off <= nul <= |d|
  {
    var oid := Int32At(d, OidAt(d, nul + 1));
    Column(d[off..nul], if oid.Some? then oid.value % TWO_32 else 0)
  }

  /** A name that is missing or not UTF-8 ends the list. */
  function Columns(d: seq<Byte>, off: nat, n: nat): seq<Column>
    decreases n
  {
    if n == 0 || TextAt(d, off).None? then [] else
    var nul := NulFrom(d, off);
    [ColumnAt(d, off, nul.value)] + Columns(d, NextColumn(d, OidAt(d, nul.value + 1)), n - 1)
  }

  function RowDescriptionColumns(body: seq<Byte>): seq<Column>
    requires CountOk(body)
  {
    var n := Int16At(body, 0);
    if n.None? then [] else Columns(body, 2, n.value)
  }

  method RowDescription(body: seq<Byte>) returns (cols: seq<Column>)
    requires CountOk(body)
    ensures cols == RowDescriptionColumns(body)
  {
    hide Int16At, Int32At, NulFrom, OidAt, NextColumn, IsUtf8;
    var r := new Reader(body);
    var n := r.Int16();
    cols := [];
    if n.None? {
      return;
    }
    var i := 0;
    while i < n.value
      invariant 0 <= i <= n.value
      invariant r.Valid() && r.data == body
      invariant RowDescriptionColumns(body) == cols + Columns(body, r.off, n.value - i)
      decreases n.value - i
    {
      var name := r.CString();
      if name.None? {
        break;
      }
      var oid := ReadColumnTail(r);
      var c := Column(name.value, if oid.Some? then oid.value % TWO_32 else 0);
      Assoc(cols, [c], Columns(body, r.off, n.value - i - 1));
      cols := cols + [c];
      i := i + 1;
    }
  }

  method ReadColumnTail(r: Reader) returns (oid: Option<int>)
    requires r.Valid()
    modifies r
    ensures r.Valid()
    ensures oid == Int32At(r.data, OidAt(r.data, old(r.off)))
    ensures r.off == NextColumn(r.data, OidAt(r.data, old(r.off)))
  {
    var table := r.Int32();
    var attnum := r.Int16();
    oid := r.Int32();
    var typlen := r.Int16();
    var typmod := r.Int32();
    var format := r.Int16();
  }

  /** A column as a backend describes it. */
  datatype ColumnWire = ColumnWire(
    name: seq<Byte>, table: int, attnum: int, typeOid: nat, typlen: int, typmod: int, format: int)

  predicate ColumnWireOk(c: ColumnWire) {
    && 0 !in c.name && IsUtf8(c.name) && c.typeOid < TWO_32
    && -TWO_31 <= c.table < TWO_31 && -TWO_31 <= c.typmod < TWO_31
    && -0x8000 <= c.attnum < 0x8000 && -0x8000 <= c.typlen < 0x8000 && -0x8000 <= c.format < 0x8000
  }

  function ColumnTail(c: ColumnWire): (r: seq<Byte>)
    requires ColumnWireOk(c)
    ensures |r| == 18
  {
    Int32Bytes(c.table) + Int16Bytes(c.attnum) + Be32(c.typeOid) + Int16Bytes(c.typlen)
    + Int32Bytes(c.typmod) + Int16Bytes(c.format)
  }

  function ColumnBytes(c: ColumnWire): seq<Byte>
    requires ColumnWireOk(c)
  {
    CStringBytes(c.name) + ColumnTail(c)
  }

  function AllColumnBytes(cs: seq<ColumnWire>): seq<Byte>
    requires forall c :: c in cs ==> ColumnWireOk(c)
  {
    if cs == [] then [] else ColumnBytes(cs[0]) + AllColumnBytes(cs[1..])
  }

  function Described(cs: seq<ColumnWire>): seq<Column> {
    if cs == [] then [] else [Column(cs[0].name, cs[0].typeOid)] + Described(cs[1..])
  }

  /** A column on the wire: name, table, number, type oid, type size, modifier, format. */
  lemma ColumnTold(c: ColumnWire)
    requires ColumnWireOk(c)
    ensures var w, o := ColumnBytes(c), c.typeOid;
            && |w| == |c.name| + 19 && w[..|c.name| + 1] == c.name + [0]
            && w[|c.name| + 7..|c.name| + 11] ==
               [o / 0x100_0000, o / 0x1_0000 % 0x100, o / 0x100 % 0x100, o % 0x100]
  {
    hide Int32Bytes, Int16Bytes, Be32;
    BigEndian(c.typeOid);
    var w := ColumnBytes(c);
    assert w[..|c.name| + 1] == c.name + [0];
    assert w[|c.name| + 7..|c.name| + 11] == Be32(c.typeOid);
  }

  lemma ColumnReadsBack(a: seq<Byte>, c: ColumnWire, rest: seq<Byte>)
    requires ColumnWireOk(c)
    ensures var d := a + (ColumnBytes(c) + rest);
            var nul := NulFrom(d, |a|);
            && nul == Some(|a| + |c.name|) && TextAt(d, |a|).Some?
            && ColumnAt(d, |a|, nul.value) == Column(c.name, c.typeOid)
            && NextColumn(d, OidAt(d, nul.value + 1)) == |a| + |ColumnBytes(c)|
  {
    hide NulFrom, TextAt, Int32At, OidAt, NextColumn, ColumnBytes, ColumnAt, CStringBytes, IsUtf8;
    var d := a + (ColumnBytes(c) + rest);
    var pre := a + CStringBytes(c.name);
    ColumnSplit(a, c, rest);
    TextBack(a, c.name, ColumnTail(c) + rest);
    TailReadsBack(pre, c, rest);
    OidReadsBack(c, rest);
    ColumnIs(d, |a|, |a| + |c.name|, c.name, Signed32(c.typeOid));
  }

  lemma ColumnSplit(a: seq<Byte>, c: ColumnWire, rest: seq<Byte>)
    requires ColumnWireOk(c)
    ensures a + (ColumnBytes(c) + rest) == a + CStringBytes(c.name) + (ColumnTail(c) + rest)
    ensures |a + CStringBytes(c.name)| == |a| + |c.name| + 1
    ensures |ColumnBytes(c)| == |c.name| + 19
  {
    hide ColumnTail;
  }

  lemma ColumnIs(d: seq<Byte>, off: nat, nul: nat, name: seq<Byte>, oid: int)
    requires off <= nul <= |d| && d[off..nul] == name && Int32At(d, OidAt(d, nul + 1)) == Some(oid)
    ensures ColumnAt(d, off, nul) == Column(name, oid % TWO_32)
  {
  }

  lemma TailReadsBack(pre: seq<Byte>, c: ColumnWire, rest: seq<Byte>)
    requires ColumnWireOk(c)
    ensures var d := pre + (ColumnTail(c) + rest);
            && Int32At(d, OidAt(d, |pre|)) == Some(Signed32(c.typeOid))
            && NextColumn(d, OidAt(d, |pre|)) == |pre| + 18
  {
    hide ColumnTail, Int32At;
    OidReadsBack(c, rest);
    Int32Shift(pre, ColumnTail(c) + rest, 6);
  }

  lemma OidReadsBack(c: ColumnWire, rest: seq<Byte>)
    requires ColumnWireOk(c)
    ensures Int32At(ColumnTail(c) + rest, 6) == Some(Signed32(c.typeOid))
    ensures Signed32(c.typeOid) % TWO_32 == c.typeOid
  {
    hide Int32Bytes, Int16Bytes, Be32, ReadBe32;
    assert (ColumnTail(c) + rest)[6..10] == Be32(c.typeOid);
    Be32RoundTrip(c.typeOid, []);
    assert Be32(c.typeOid) + [] == Be32(c.typeOid);
  }

  lemma DescribedCons(cs: seq<ColumnWire>)
    ensures Described(cs) == if cs == [] then [] else [Column(cs[0].name, cs[0].typeOid)] + Described(cs[1..])
  {
  }

  lemma {:induction false} ColumnsReadBack(a: seq<Byte>, cs: seq<ColumnWire>, rest: seq<Byte>)
    requires forall c :: c in cs ==> ColumnWireOk(c)
    ensures Columns(a + (AllColumnBytes(cs) + rest), |a|, |cs|) == Described(cs)
    decreases |cs|
  {
    hide ColumnBytes, NulFrom, TextAt, OidAt, NextColumn, ColumnAt, Described;
    DescribedCons(cs);
    if cs != [] {
      var tail := AllColumnBytes(cs[1..]) + rest;
      Assoc(ColumnBytes(cs[0]), AllColumnBytes(cs[1..]), rest);
      ColumnReadsBack(a, cs[0], tail);
      var pre := a + ColumnBytes(cs[0]);
      Assoc(a, ColumnBytes(cs[0]), tail);
      ColumnsReadBack(pre, cs[1..], rest);
    }
  }

  /** A RowDescription decodes to the names and type oids it was built from. */
  lemma RowDescriptionReadsBack(cs: seq<ColumnWire>)
    requires |cs| < 0x8000 && forall c :: c in cs ==> ColumnWireOk(c)
    ensures CountOk(Int16Bytes(|cs|) + AllColumnBytes(cs))
    ensures RowDescriptionColumns(Int16Bytes(|cs|) + AllColumnBytes(cs)) == Described(cs)
  {
    hide AllColumnBytes, Columns, Int16At;
    Int16Back(|cs|, AllColumnBytes(cs));
    ColumnsReadBack(Int16Bytes(|cs|), cs, []);
    assert AllColumnBytes(cs) + [] == AllColumnBytes(cs);
  }

  /** A description that ends behind its first name yields that column with type 0. */
  lemma CutOffColumn(name: seq<Byte>)
    requires 0 !in name && IsUtf8(name)
    ensures CountOk([0, 1] + name + [0])
    ensures RowDescriptionColumns([0, 1] + name + [0]) == [Column(name, 0)]
  {
    hide IsUtf8, NulFrom, TextAt;
    var d := [0, 1] + name + [0];
    var none: seq<Byte> := [];
    TextBack([0, 1], name, none);
    assert [0, 1] + CStringBytes(name) + none == d;
    assert d[0..2] == [0, 1];
    assert Columns(d, |d|, 0) == [];
    assert d[2..2 + |name|] == name;
  }

  /**
   A field that is missing is not stepped over: behind a name and three bytes, the table is missing,
   the first two bytes are the column's number, and the last is the NUL of an empty second name.
   */
  lemma MissingFieldsStay(name: seq<Byte>, x: Byte, y: Byte)
    requires 0 !in name && IsUtf8(name)
    ensures CountOk([0, 2] + name + [0] + [x, y, 0])
    ensures RowDescriptionColumns([0, 2] + name + [0] + [x, y, 0]) == [Column(name, 0), Column([], 0)]
  {
    hide IsUtf8, NulFrom, TextAt;
    var n := |name|;
    var d := [0, 2] + name + [0] + [x, y, 0];
    var none: seq<Byte> := [];
    assert IsUtf8(none) by { EmptyIsText(); }
    TextBack([0, 2], name, [x, y, 0]);
    assert [0, 2] + CStringBytes(name) + [x, y, 0] == d;
    TextBack([0, 2] + name + [0] + [x, y], none, none);
    assert [0, 2] + name + [0] + [x, y] + CStringBytes(none) + none == d;
    assert d[0..2] == [0, 2] && d[2..2 + n] == name && d[n + 5..n + 5] == none;
    assert OidAt(d, n + 3) == n + 5 == NextColumn(d, n + 5);
    assert OidAt(d, n + 6) == n + 6 == NextColumn(d, n + 6);
    assert Columns(d, n + 6, 0) == [];
    assert Columns(d, n + 5, 1) == [Column([], 0)];
  }

  lemma EmptyIsText()
    ensures IsUtf8([])
  {
  }

  // ---------- ErrorResponse ----------

  type Fields = map<Byte, seq<Byte>>

  /**
   Type byte and string, repeated up to a zero byte or a string that is missing or not UTF-8; a
   later field of the same type wins.
   */
  function FieldsFrom(d: seq<Byte>, off: nat, acc: Fields): Fields
    decreases |d| - off
  {
    if off >= |d| || d[off] == 0 then acc else
    var text := TextAt(d, off + 1);
    if text.None? then acc
    else FieldsFrom(d, off + 2 + |text.value|, acc[d[off] := text.value])
  }

  method ErrorFields(body: seq<Byte>) returns (out: Fields)
    ensures out == FieldsFrom(body, 0, map[])
  {
    out := map[];
    var r := new Reader(body);
    while true
      invariant r.Valid() && r.data == body
      invariant FieldsFrom(body, 0, map[]) == FieldsFrom(body, r.off, out)
      decreases |body| - r.off
    {
      var k := r.UInt8();
      if k.None? || k.value == 0 {
        break;
      }
      var v := r.CString();
      if v.None? {
        break;
      }
      out := out[k.value := v.value];
    }
  }

  datatype Field = Field(kind: Byte, text: seq<Byte>)

  function AllFieldBytes(fs: seq<Field>): seq<Byte> {
    if fs == [] then [] else [fs[0].kind] + CStringBytes(fs[0].text) + AllFieldBytes(fs[1..])
  }

  function FieldMap(fs: seq<Field>, acc: Fields): Fields {
    if fs == [] then acc else FieldMap(fs[1..], acc[fs[0].kind := fs[0].text])
  }

  lemma FieldsUnfold(d: seq<Byte>, off: nat, acc: Fields)
    requires off < |d|
    ensures d[off] == 0 ==> FieldsFrom(d, off, acc) == acc
    ensures d[off] != 0 && TextAt(d, off + 1).Some? ==>
              var t := TextAt(d, off + 1).value;
              FieldsFrom(d, off, acc) == FieldsFrom(d, off + 2 + |t|, acc[d[off] := t])
  {
  }

  lemma {:induction false} FieldsReadBack(a: seq<Byte>, fs: seq<Field>, acc: Fields)
    requires forall f :: f in fs ==> f.kind != 0 && 0 !in f.text && IsUtf8(f.text)
    ensures FieldsFrom(a + (AllFieldBytes(fs) + [0]), |a|, acc) == FieldMap(fs, acc)
    decreases |fs|
  {
    hide TextAt, CStringBytes, IsUtf8, FieldsFrom;
    FieldsUnfold(a + (AllFieldBytes(fs) + [0]), |a|, acc);
    if fs != [] {
      hide AllFieldBytes;
      var f, tail := fs[0], AllFieldBytes(fs[1..]) + [0];
      FieldSplit(a, fs);
      TextBack(a + [f.kind], f.text, tail);
      FieldsReadBack(a + [f.kind] + CStringBytes(f.text), fs[1..], acc[f.kind := f.text]);
    }
  }

  lemma FieldSplit(a: seq<Byte>, fs: seq<Field>)
    requires fs != []
    ensures var d := a + (AllFieldBytes(fs) + [0]);
            && d == (a + [fs[0].kind]) + CStringBytes(fs[0].text) + (AllFieldBytes(fs[1..]) + [0])
            && d[|a|] == fs[0].kind
    ensures |CStringBytes(fs[0].text)| == |fs[0].text| + 1
  {
    FieldsCons(fs);
    hide AllFieldBytes, CStringBytes;
    var h, c, r := [fs[0].kind], CStringBytes(fs[0].text), AllFieldBytes(fs[1..]);
    assert AllFieldBytes(fs) + [0] == h + (c + (r + [0]));
    Assoc(a, h, c + (r + [0]));
    Assoc(a + h, c, r + [0]);
  }

  lemma FieldsCons(fs: seq<Field>)
    requires fs != []
    ensures AllFieldBytes(fs) == [fs[0].kind] + CStringBytes(fs[0].text) + AllFieldBytes(fs[1..])
    ensures |CStringBytes(fs[0].text)| == |fs[0].text| + 1
  {
  }

  /** An ErrorResponse decodes to the fields it was built from. */
  lemma ErrorFieldsReadBack(fs: seq<Field>)
    requires forall f :: f in fs ==> f.kind != 0 && 0 !in f.text && IsUtf8(f.text)
    ensures FieldsFrom(AllFieldBytes(fs) + [0], 0, map[]) == FieldMap(fs, map[])
  {
    FieldsReadBack([], fs, map[]);
    assert [] + (AllFieldBytes(fs) + [0]) == AllFieldBytes(fs) + [0];
  }
}
