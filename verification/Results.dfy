/** PGliteDatabase.parseResult: one result, or the first error, from the frames of a reply. */
module Results {
  import opened Bytes
  import opened Framing
  import opened Wire
  import opened Decode
  import opened Utf8

  datatype Row = Row(columns: seq<Column>, values: seq<Param>, index: map<seq<Byte>, nat>)

  datatype Answer =
    | Threw(fields: Fields)
    | Returned(columns: seq<Column>, rows: seq<Row>, tag: seq<Byte>)

  /** Negative counts trap in Swift; the decoders ask for replies without them. */
  predicate Readable(fs: seq<Frame>) {
    forall f :: f in fs && (f.kind == ROW_DESCRIPTION || f.kind == DATA_ROW) ==> CountOk(f.body)
  }

  /** Column names to positions; of equal names the first counts. */
  function IndexOf(cols: seq<Column>): map<seq<Byte>, nat> {
    if cols == [] then map[] else
    var m := IndexOf(cols[..|cols| - 1]);
    var name := cols[|cols| - 1].name;
    if name in m then m else m[name := |cols| - 1]
  }

  function TagOf(body: seq<Byte>): seq<Byte> {
    var text := TextAt(body, 0);
    if text.Some? then text.value else []
  }

  // ---------- the meaning of a reply, read off the frames ----------

  /** The position of the last frame of a kind, or -1. */
  function Last(fs: seq<Frame>, kind: Byte): (i: int)
    ensures -1 <= i < |fs|
    ensures i >= 0 ==> fs[i].kind == kind
    ensures forall j :: 0 <= j < |fs| && j > i ==> fs[j].kind != kind
  {
    if fs == [] then -1
    else if fs[|fs| - 1].kind == kind then |fs| - 1
    else Last(fs[..|fs| - 1], kind)
  }

  /** The position of the first frame of a kind, or -1. */
  function First(fs: seq<Frame>, kind: Byte): (i: int)
    ensures -1 <= i < |fs|
    ensures i >= 0 ==> fs[i].kind == kind
    ensures forall j :: 0 <= j < |fs| && (i < 0 || j < i) ==> fs[j].kind != kind
  {
    if fs == [] then -1 else
    var i := First(fs[..|fs| - 1], kind);
    if i >= 0 then i else if fs[|fs| - 1].kind == kind then |fs| - 1 else -1
  }

  function FinalColumns(fs: seq<Frame>): seq<Column>
    requires Readable(fs)
  {
    var t := Last(fs, ROW_DESCRIPTION);
    if t < 0 then [] else RowDescriptionColumns(fs[t].body)
  }

  /** The data rows in fs, all under the same columns. */
  function RowsIn(fs: seq<Frame>, cols: seq<Column>): seq<Row>
    requires Readable(fs)
  {
    if fs == [] then [] else
    var n := |fs| - 1;
    RowsIn(fs[..n], cols)
    + if fs[n].kind == DATA_ROW then [Row(cols, DataRowValues(fs[n].body), IndexOf(cols))] else []
  }

  function FinalTag(fs: seq<Frame>): seq<Byte> {
    var c := Last(fs, COMMAND_COMPLETE);
    if c < 0 then [] else TagOf(fs[c].body)
  }

  /**
   The first error if there is one; otherwise the columns of the last RowDescription, the data
   rows behind it, and the last command tag.
   */
  function Meaning(fs: seq<Frame>): Answer
    requires Readable(fs)
  {
    var e := First(fs, ERROR_RESPONSE);
    if e >= 0 then Threw(FieldsFrom(fs[e].body, 0, map[]))
    else Returned(FinalColumns(fs), RowsIn(fs[Last(fs, ROW_DESCRIPTION) + 1..], FinalColumns(fs)), FinalTag(fs))
  }

  // ---------- the loop ----------

  datatype Progress = Progress(
    columns: seq<Column>, index: map<seq<Byte>, nat>, rows: seq<Row>, tag: seq<Byte>, error: Option<Fields>)

  /** What the loop's variables hold after fs. */
  ghost predicate Reached(p: Progress, fs: seq<Frame>)
    requires Readable(fs)
  {
    && p.columns == FinalColumns(fs)
    && p.index == IndexOf(p.columns)
    && p.rows == RowsIn(fs[Last(fs, ROW_DESCRIPTION) + 1..], p.columns)
    && p.tag == FinalTag(fs)
    && p.error == var e := First(fs, ERROR_RESPONSE);
                  if e < 0 then None else Some(FieldsFrom(fs[e].body, 0, map[]))
  }

  method BuildIndex(cols: seq<Column>) returns (m: map<seq<Byte>, nat>)
    ensures m == IndexOf(cols)
  {
    m := map[];
    var i := 0;
    while i < |cols|
      invariant 0 <= i <= |cols|
      invariant m == IndexOf(cols[..i])
    {
      assert cols[..i + 1][..i] == cols[..i];
      if cols[i].name !in m {
        m := m[cols[i].name := i];
      }
      i := i + 1;
    }
    assert cols[..i] == cols;
  }

  /** The loop's switch on one frame. */
  method Absorb(p: Progress, f: Frame, ghost fs: seq<Frame>) returns (q: Progress)
    requires Readable(fs + [f]) && Readable(fs) && Reached(p, fs)
    ensures Reached(q, fs + [f])
  {
    hide RowDescriptionColumns, DataRowValues, FieldsFrom, IndexOf, TagOf, TextAt, NulFrom, Reached;
    q := p;
    assert f in fs + [f];
    if f.kind == ROW_DESCRIPTION {
      var cols := RowDescription(f.body);
      var index := BuildIndex(cols);
      q := p.(columns := cols, index := index, rows := []);
    } else if f.kind == DATA_ROW {
      var vals := DataRow(f.body);
      q := p.(rows := p.rows + [Row(p.columns, vals, p.index)]);
    } else if f.kind == COMMAND_COMPLETE {
      var r := new Reader(f.body);
      var tag := r.CString();
      q := p.(tag := if tag.Some? then tag.value else []);
      assert q.tag == TagOf(f.body) by {
        TagIs(f.body);
      }
    } else if f.kind == ERROR_RESPONSE {
      if p.error.None? {
        var fields := ErrorFields(f.body);
        q := p.(error := Some(fields));
      }
    }
    ReachedStep(p, q, fs, f);
  }

  lemma TagIs(body: seq<Byte>)
    ensures TagOf(body) == if TextAt(body, 0).Some? then TextAt(body, 0).value else []
  {
  }

  /** q is p after the switch on f. */
  ghost predicate Switched(p: Progress, q: Progress, f: Frame)
    requires Readable([f])
  {
    if f.kind == ROW_DESCRIPTION then
      var cols := RowDescriptionColumns(f.body);
      f in [f] && q == p.(columns := cols, index := IndexOf(cols), rows := [])
    else if f.kind == DATA_ROW then
      f in [f] && q == p.(rows := p.rows + [Row(p.columns, DataRowValues(f.body), p.index)])
    else if f.kind == COMMAND_COMPLETE then q == p.(tag := TagOf(f.body))
    else if f.kind == ERROR_RESPONSE then
      q == if p.error.None? then p.(error := Some(FieldsFrom(f.body, 0, map[]))) else p
    else q == p
  }

  lemma LastSnoc(fs: seq<Frame>, f: Frame, kind: Byte)
    ensures Last(fs + [f], kind) == if f.kind == kind then |fs| else Last(fs, kind)
  {
    assert (fs + [f])[..|fs|] == fs;
  }

  lemma FirstSnoc(fs: seq<Frame>, f: Frame, kind: Byte)
    ensures First(fs + [f], kind) ==
            if First(fs, kind) >= 0 then First(fs, kind) else if f.kind == kind then |fs| else -1
  {
    assert (fs + [f])[..|fs|] == fs;
  }

  lemma FinalColumnsSnoc(fs: seq<Frame>, f: Frame)
    requires Readable(fs + [f]) && Readable(fs) && Readable([f])
    ensures f.kind == ROW_DESCRIPTION ==> f in [f] && FinalColumns(fs + [f]) == RowDescriptionColumns(f.body)
    ensures f.kind != ROW_DESCRIPTION ==> FinalColumns(fs + [f]) == FinalColumns(fs)
  {
    hide Last, RowDescriptionColumns;
    LastSnoc(fs, f, ROW_DESCRIPTION);
  }

  lemma FinalTagSnoc(fs: seq<Frame>, f: Frame)
    ensures FinalTag(fs + [f]) == if f.kind == COMMAND_COMPLETE then TagOf(f.body) else FinalTag(fs)
  {
    hide Last, TagOf;
    LastSnoc(fs, f, COMMAND_COMPLETE);
  }

  lemma RowsInSnoc(fs: seq<Frame>, f: Frame, cols: seq<Column>)
    requires Readable(fs + [f]) && Readable(fs) && Readable([f])
    ensures f.kind == DATA_ROW ==>
              f in [f] && RowsIn(fs + [f], cols) == RowsIn(fs, cols) + [Row(cols, DataRowValues(f.body), IndexOf(cols))]
    ensures f.kind != DATA_ROW ==> RowsIn(fs + [f], cols) == RowsIn(fs, cols)
  {
    hide DataRowValues, IndexOf;
    assert (fs + [f])[..|fs|] == fs;
    assert f in [f];
  }

  lemma ReachedStep(p: Progress, q: Progress, fs: seq<Frame>, f: Frame)
    requires Readable(fs + [f]) && Readable(fs) && Readable([f]) && Reached(p, fs) && Switched(p, q, f)
    ensures Reached(q, fs + [f])
  {
    hide RowDescriptionColumns, DataRowValues, FieldsFrom, IndexOf, TagOf, FinalColumns, FinalTag, RowsIn, Last, First;
    var all := fs + [f];
    LastSnoc(fs, f, ROW_DESCRIPTION);
    FirstSnoc(fs, f, ERROR_RESPONSE);
    FinalColumnsSnoc(fs, f);
    FinalTagSnoc(fs, f);
    if f.kind == ROW_DESCRIPTION {
      assert all[|fs| + 1..] == [];
      NoRows(q.columns);
    } else {
      var t := Last(fs, ROW_DESCRIPTION);
      assert all[t + 1..] == fs[t + 1..] + [f];
      RowsInSnoc(fs[t + 1..], f, p.columns);
    }
  }

  lemma NoRows(cols: seq<Column>)
    ensures RowsIn([], cols) == []
  {
  }

  lemma ReachedStart()
    ensures Reached(Progress([], map[], [], [], None), [])
  {
  }

  lemma ReachedMeans(p: Progress, fs: seq<Frame>)
    requires Readable(fs) && Reached(p, fs)
    ensures Meaning(fs) == if p.error.Some? then Threw(p.error.value) else Returned(p.columns, p.rows, p.tag)
  {
    hide FieldsFrom, IndexOf, FinalColumns, FinalTag, RowsIn, Last, First;
  }

  lemma PrefixReadable(fs: seq<Frame>, i: nat)
    requires Readable(fs) && i <= |fs|
    ensures Readable(fs[..i])
    ensures i < |fs| ==> fs[..i + 1] == fs[..i] + [fs[i]]
    ensures fs[..0] == [] && fs[..|fs|] == fs
  {
  }

  method ParseResult(reply: seq<Byte>) returns (a: Answer)
    requires Readable(Frames(reply))
    ensures a == Meaning(Frames(reply))
  {
    hide Reached, Readable, Meaning, Frames;
    var fs := FrameList(reply);
    var p := Progress([], map[], [], [], None);
    var i := 0;
    PrefixReadable(fs, 0);
    ReachedStart();
    while i < |fs|
      invariant 0 <= i <= |fs|
      invariant Readable(fs[..i]) && Reached(p, fs[..i])
    {
      PrefixReadable(fs, i);
      PrefixReadable(fs, i + 1);
      p := Absorb(p, fs[i], fs[..i]);
      i := i + 1;
    }
    PrefixReadable(fs, |fs|);
    ReachedMeans(p, fs);
    if p.error.Some? {
      return Threw(p.error.value);
    }
    return Returned(p.columns, p.rows, p.tag);
  }

  /** An answer is thrown exactly for replies with an error frame, and then for the first of them. */
  lemma ThrowsIffError(fs: seq<Frame>)
    requires Readable(fs)
    ensures Meaning(fs).Threw? <==> exists i :: 0 <= i < |fs| && fs[i].kind == ERROR_RESPONSE
    ensures Meaning(fs).Threw? ==>
              exists i :: 0 <= i < |fs| && fs[i].kind == ERROR_RESPONSE
                          && (forall j :: 0 <= j < i ==> fs[j].kind != ERROR_RESPONSE)
                          && Meaning(fs) == Threw(FieldsFrom(fs[i].body, 0, map[]))
  {
    hide FieldsFrom, FinalColumns, FinalTag, RowsIn;
    var e := First(fs, ERROR_RESPONSE);
    if e >= 0 {
      assert fs[e].kind == ERROR_RESPONSE;
    }
  }

  /** A row is looked up by the first column that carries the name. */
  lemma {:induction false} IndexIsFirst(cols: seq<Column>, name: seq<Byte>)
    ensures name in IndexOf(cols) <==> exists i :: 0 <= i < |cols| && cols[i].name == name
    ensures name in IndexOf(cols) ==>
              var i := IndexOf(cols)[name];
              && i < |cols| && cols[i].name == name
              && forall j :: 0 <= j < i ==> cols[j].name != name
  {
    if cols != [] {
      var n := |cols| - 1;
      IndexIsFirst(cols[..n], name);
      IndexIsFirst(cols[..n], cols[n].name);
      if name in IndexOf(cols[..n]) {
        var i := IndexOf(cols[..n])[name];
        assert cols[i].name == name;
      }
    }
  }

  /** Every row of a result was under the result's own columns, in the order of the data frames. */
  lemma {:induction false} RowsShareColumns(fs: seq<Frame>, cols: seq<Column>)
    requires Readable(fs)
    ensures forall r :: r in RowsIn(fs, cols) ==> r.columns == cols && r.index == IndexOf(cols)
    ensures |RowsIn(fs, cols)| == |DataFrames(fs)|
    ensures forall i :: 0 <= i < |DataFrames(fs)| ==>
              CountOk(DataFrames(fs)[i].body) && RowsIn(fs, cols)[i].values == DataRowValues(DataFrames(fs)[i].body)
  {
    hide DataRowValues, IndexOf;
    if fs != [] {
      RowsShareColumns(fs[..|fs| - 1], cols);
    }
  }

  function DataFrames(fs: seq<Frame>): seq<Frame> {
    if fs == [] then [] else
    DataFrames(fs[..|fs| - 1]) + if fs[|fs| - 1].kind == DATA_ROW then [fs[|fs| - 1]] else []
  }

  // ---------- an encoded result means itself ----------

  /** The frames of one result set: a description, its rows and a tag. */
  function ResultFrames(cs: seq<ColumnWire>, rows: seq<seq<Param>>, tag: seq<Byte>): seq<Frame>
    requires ResultOk(cs, rows, tag)
  {
    [Frame(ROW_DESCRIPTION, Int16Bytes(|cs|) + AllColumnBytes(cs))] + RowFrames(rows)
    + [Frame(COMMAND_COMPLETE, CStringBytes(tag))]
  }

  predicate RowFits(ps: seq<Param>) {
    |ps| < 0x8000 && forall p :: p in ps ==> ParamFits(p)
  }

  predicate ResultOk(cs: seq<ColumnWire>, rows: seq<seq<Param>>, tag: seq<Byte>) {
    && |cs| < 0x8000 && (forall c :: c in cs ==> ColumnWireOk(c))
    && (forall ps :: ps in rows ==> RowFits(ps))
    && 0 !in tag && IsUtf8(tag)
  }

  function RowFrames(rows: seq<seq<Param>>): (fs: seq<Frame>)
    requires forall ps :: ps in rows ==> RowFits(ps)
    ensures |fs| == |rows|
    ensures forall i :: 0 <= i < |fs| ==> fs[i].kind == DATA_ROW
  {
    if rows == [] then [] else
    var n := |rows| - 1;
    assert RowFits(rows[n]);
    RowFrames(rows[..n]) + [Frame(DATA_ROW, ParamBlock(rows[n]))]
  }

  function RowsUnder(cols: seq<Column>, rows: seq<seq<Param>>): seq<Row> {
    if rows == [] then [] else
    RowsUnder(cols, rows[..|rows| - 1]) + [Row(cols, rows[|rows| - 1], IndexOf(cols))]
  }

  /** Frames that are neither a description, a row, a tag nor an error. */
  predicate Aside(fs: seq<Frame>) {
    forall f :: f in fs ==>
      f.kind != ROW_DESCRIPTION && f.kind != DATA_ROW && f.kind != COMMAND_COMPLETE && f.kind != ERROR_RESPONSE
  }

  lemma ReadableAppend(a: seq<Frame>, b: seq<Frame>)
    ensures Readable(a + b) <==> Readable(a) && Readable(b)
  {
    assert forall f :: f in a + b <==> f in a || f in b;
  }

  lemma {:induction false} RowsInAppend(a: seq<Frame>, b: seq<Frame>, cols: seq<Column>)
    requires Readable(a) && Readable(b) && Readable(a + b)
    ensures RowsIn(a + b, cols) == RowsIn(a, cols) + RowsIn(b, cols)
    decreases |b|
  {
    hide Readable, DataRowValues, IndexOf;
    if b == [] {
      assert a + b == a;
    } else {
      var n := |b| - 1;
      assert (a + b)[..|a + b| - 1] == a + b[..n] && (a + b)[|a + b| - 1] == b[n];
      PrefixReadable(b, n);
      ReadableAppend(a, b[..n]);
      RowsInAppend(a, b[..n], cols);
    }
  }

  lemma {:induction false} RowFramesRead(rows: seq<seq<Param>>, cols: seq<Column>)
    requires forall ps :: ps in rows ==> RowFits(ps)
    ensures Readable(RowFrames(rows)) && RowsIn(RowFrames(rows), cols) == RowsUnder(cols, rows)
  {
    hide RowFits, ParamBlock, DataRowValues, CountOk, IndexOf;
    if rows != [] {
      var n := |rows| - 1;
      RowFramesRead(rows[..n], cols);
      RowReads(rows[n]);
      var fs := RowFrames(rows);
      assert fs[..n] == RowFrames(rows[..n]);
      ReadableAppend(fs[..n], [fs[n]]);
    }
  }

  lemma RowReads(ps: seq<Param>)
    requires RowFits(ps)
    ensures CountOk(ParamBlock(ps)) && DataRowValues(ParamBlock(ps)) == ps
  {
    hide ParamBlock, DataRowValues, CountOk;
    ParamsReadBack(ps, []);
    assert ParamBlock(ps) + [] == ParamBlock(ps);
  }

  lemma {:induction false} AsideHasNoRows(fs: seq<Frame>, cols: seq<Column>)
    requires Aside(fs)
    ensures Readable(fs) && RowsIn(fs, cols) == []
  {
    if fs != [] {
      AsideHasNoRows(fs[..|fs| - 1], cols);
    }
  }

  lemma LastIs(fs: seq<Frame>, kind: Byte, i: nat)
    requires i < |fs| && fs[i].kind == kind && forall j :: i < j < |fs| ==> fs[j].kind != kind
    ensures Last(fs, kind) == i
  {
  }

  /**
   A reply that ends in an encoded result means that result, whatever results without an error
   come before it: its columns, its rows with NULLs in their places, and its tag.
   */
  lemma EncodedResultMeans(before: seq<Frame>, cs: seq<ColumnWire>, rows: seq<seq<Param>>, tag: seq<Byte>,
                           behind: seq<Frame>)
    requires ResultOk(cs, rows, tag) && Readable(before) && Aside(behind)
    requires forall f :: f in before ==> f.kind != ERROR_RESPONSE
    ensures var fs := before + ResultFrames(cs, rows, tag) + behind;
            && Readable(fs)
            && Meaning(fs) == Returned(Described(cs), RowsUnder(Described(cs), rows), tag)
  {
    hide Described, RowsUnder, AllColumnBytes, RowDescriptionColumns, Int16Bytes, CStringBytes, CountOk, RowsIn,
         IsUtf8, Readable, RowFits, ParamBlock;
    var t := Frame(ROW_DESCRIPTION, Int16Bytes(|cs|) + AllColumnBytes(cs));
    var c := Frame(COMMAND_COMPLETE, CStringBytes(tag));
    var cols := Described(cs);
    var data := RowFrames(rows);
    var fs := before + ResultFrames(cs, rows, tag) + behind;
    var n := |before|;
    RowDescriptionReadsBack(cs);
    RowFramesRead(rows, cols);
    AsideHasNoRows(behind, cols);
    TagReads(tag);
    var tail := data + [c] + behind;
    assert fs == before + [t] + tail;
    OneReadable(t);
    OneReadable(c);
    ReadableAppend(data, [c]);
    ReadableAppend(data + [c], behind);
    ReadableAppend(before, [t]);
    ReadableAppend(before + [t], tail);
    Positions(before, t, data, c, behind);
    assert fs[n + 1..] == tail;
    RowsInAppend(data, [c], cols);
    RowsInAppend(data + [c], behind, cols);
    NoRowIn(c, cols);
    assert RowsUnder(cols, rows) + [] + [] == RowsUnder(cols, rows);
  }

  lemma OneReadable(f: Frame)
    requires f.kind == ROW_DESCRIPTION || f.kind == DATA_ROW ==> CountOk(f.body)
    ensures Readable([f])
  {
  }

  lemma NoRowIn(f: Frame, cols: seq<Column>)
    requires f.kind != DATA_ROW && Readable([f])
    ensures RowsIn([f], cols) == []
  {
    assert [f][..0] == [];
  }

  lemma TagReads(tag: seq<Byte>)
    requires 0 !in tag && IsUtf8(tag)
    ensures TagOf(CStringBytes(tag)) == tag
  {
    hide IsUtf8, CStringBytes;
    var none: seq<Byte> := [];
    TextBack(none, tag, none);
    assert none + CStringBytes(tag) + none == CStringBytes(tag);
  }

  lemma Positions(before: seq<Frame>, t: Frame, data: seq<Frame>, c: Frame, behind: seq<Frame>)
    requires t.kind == ROW_DESCRIPTION && c.kind == COMMAND_COMPLETE && Aside(behind)
    requires forall f :: f in before ==> f.kind != ERROR_RESPONSE
    requires forall i :: 0 <= i < |data| ==> data[i].kind == DATA_ROW
    ensures var fs := before + [t] + (data + [c] + behind);
            && Last(fs, ROW_DESCRIPTION) == |before| && fs[|before|] == t
            && Last(fs, COMMAND_COMPLETE) == |before| + 1 + |data| && fs[|before| + 1 + |data|] == c
            && First(fs, ERROR_RESPONSE) == -1
  {
    hide Last, First;
    var fs := before + [t] + (data + [c] + behind);
    var n, m := |before|, |before| + 1 + |data|;
    assert forall j :: n < j < m ==> fs[j] == data[j - n - 1];
    assert forall j :: m < j < |fs| ==> fs[j] == behind[j - m - 1];
    assert forall j :: 0 <= j < n ==> fs[j] == before[j];
    LastIs(fs, ROW_DESCRIPTION, n);
    LastIs(fs, COMMAND_COMPLETE, m);
    NoneFirst(fs, ERROR_RESPONSE);
  }

  lemma NoneFirst(fs: seq<Frame>, kind: Byte)
    requires forall j :: 0 <= j < |fs| ==> fs[j].kind != kind
    ensures First(fs, kind) == -1
  {
  }

  /** And so through the wire: what a backend encodes is what the client's caller gets. */
  lemma EncodedReplyMeans(before: seq<Frame>, cs: seq<ColumnWire>, rows: seq<seq<Param>>, tag: seq<Byte>,
                          behind: seq<Frame>)
    requires ResultOk(cs, rows, tag) && Readable(before) && Aside(behind)
    requires forall f :: f in before ==> f.kind != ERROR_RESPONSE
    requires Encodable(before + ResultFrames(cs, rows, tag) + behind)
    ensures var reply := EncodeAll(before + ResultFrames(cs, rows, tag) + behind);
            && Readable(Frames(reply))
            && Meaning(Frames(reply)) == Returned(Described(cs), RowsUnder(Described(cs), rows), tag)
  {
    hide ResultFrames, EncodeAll, Meaning, Readable, Frames, Encodable, ResultOk;
    var fs := before + ResultFrames(cs, rows, tag) + behind;
    EncodedResultMeans(before, cs, rows, tag, behind);
    var none: seq<Byte> := [];
    FramesOfEncodeAll(fs, none);
    NoMoreFrames(none);
    assert EncodeAll(fs) + none == EncodeAll(fs) && fs + [] == fs;
  }
}
