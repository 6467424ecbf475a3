/**
 PGlite.rows, which reads the text of pgl_exec back into a table, against the printing itself:
 exactly which tables survive the round trip.

 Swift splits at the Character "\n". A line feed right behind a carriage return belongs to the
 Character "\r\n" and does not separate.
 */
module Rows {
  import opened Bytes
  import opened Framing
  import Wire
  import Decode
  import opened ReplyText

  const RETURN: Byte := 13

  type Text = seq<Byte>

  // ---------- reading ----------

  predicate IsSeparator(t: Text, j: nat) {
    j < |t| && t[j] == NEWLINE && (j == 0 || t[j - 1] != RETURN)
  }

  /** The first separator at i or behind, or the end. */
  function NextSeparator(t: Text, i: nat): (k: nat)
    requires i <= |t|
    ensures i <= k <= |t|
    ensures k < |t| ==> IsSeparator(t, k)
    ensures forall j :: i <= j < k ==> !IsSeparator(t, j)
    decreases |t| - i
  {
    if i == |t| || IsSeparator(t, i) then i else NextSeparator(t, i + 1)
  }

  function Nonempty(t: Text): seq<Text> {
    if t == [] then [] else [t]
  }

  /** split(separator: "\n"), which drops empty lines. */
  function SplitLines(t: Text): seq<Text>
    decreases |t|
  {
    var k := NextSeparator(t, 0);
    if k == |t| then Nonempty(t) else Nonempty(t[..k]) + SplitLines(t[k + 1..])
  }

  /**
   Whether a text starts with a mark that joins the Character before it. Which marks do is a table
   of the Unicode Standard; more text behind them changes nothing.
   */
  type Joins = Text -> bool

  ghost predicate JoinsOk(j: Joins) {
    forall a, b :: j(a) ==> j(a + b)
  }

  /** hasPrefix("#") compares Characters: a '#' that carries a mark is another one. */
  predicate IsTag(j: Joins, t: Text) {
    t != [] && t[0] == HASH && !j(t[1..])
  }

  /** filter { !$0.hasPrefix("#") } */
  function WithoutTags(j: Joins, ls: seq<Text>): seq<Text> {
    if ls == [] then [] else
    (if IsTag(j, ls[0]) then [] else [ls[0]]) + WithoutTags(j, ls[1..])
  }

  function NextTab(t: Text, i: nat): (k: nat)
    requires i <= |t|
    ensures i <= k <= |t| && (k < |t| ==> t[k] == TAB)
    ensures forall j :: i <= j < k ==> t[j] != TAB
    decreases |t| - i
  {
    if i == |t| || t[i] == TAB then i else NextTab(t, i + 1)
  }

  /** components(separatedBy: "\t") */
  function Cells(t: Text): (r: seq<Text>)
    ensures r != []
    decreases |t|
  {
    var k := NextTab(t, 0);
    if k == |t| then [t] else [t[..k]] + Cells(t[k + 1..])
  }

  function AllCells(ls: seq<Text>): seq<seq<Text>> {
    if ls == [] then [] else [Cells(ls[0])] + AllCells(ls[1..])
  }

  function RowsOf(j: Joins, t: Text): seq<seq<Text>> {
    AllCells(WithoutTags(j, SplitLines(t)))
  }

  // ---------- printing ----------

  /** A line of the reply: a row of values or a command tag. */
  datatype Line = RowLine(values: seq<Wire.Param>) | TagLine(tag: Text)

  function Shown(p: Wire.Param): Text {
    match p
    case None => NullText()
    case Some(bytes) => bytes
  }

  function ShownAll(ps: seq<Wire.Param>): (r: seq<Text>)
    ensures |r| == |ps|
  {
    if ps == [] then [] else [Shown(ps[0])] + ShownAll(ps[1..])
  }

  function Joined(cells: seq<Text>): Text {
    if cells == [] then [] else if |cells| == 1 then cells[0] else cells[0] + [TAB] + Joined(cells[1..])
  }

  function LineText(l: Line): Text {
    match l
    case RowLine(ps) => Joined(ShownAll(ps))
    case TagLine(tag) => [HASH] + tag
  }

  function Printed(ls: seq<Line>): Text {
    if ls == [] then [] else LineText(ls[0]) + [NEWLINE] + Printed(ls[1..])
  }

  /** The table meant: the rows in order, NULL shown as NULL, the tags left out. */
  function Table(ls: seq<Line>): seq<seq<Text>> {
    if ls == [] then [] else
    (if ls[0].RowLine? then [ShownAll(ls[0].values)] else []) + Table(ls[1..])
  }

  /** Command tags are single lines, and start with a letter. */
  predicate PlainTag(j: Joins, tag: Text) {
    NEWLINE !in tag && 0 !in tag && !j(tag) && (tag != [] ==> tag[|tag| - 1] != RETURN)
  }

  predicate PlainTags(j: Joins, ls: seq<Line>) {
    forall l :: l in ls && l.TagLine? ==> PlainTag(j, l.tag)
  }

  // ---------- which rows survive ----------

  predicate Unbroken(t: Text) {
    NextSeparator(t, 0) == |t|
  }

  /** A row that reads back: checkable on the values before they are printed. */
  predicate Survives(j: Joins, ps: seq<Wire.Param>) {
    var text := Joined(ShownAll(ps));
    && ps != []
    && (forall p :: p in ps ==> TAB !in Shown(p))
    && text != [] && !IsTag(j, text) && text[|text| - 1] != RETURN && Unbroken(text)
  }

  lemma {:induction false} NextSeparatorIs(t: Text, i: nat, k: nat)
    requires i <= k <= |t| && (k == |t| || IsSeparator(t, k))
    requires forall j :: i <= j < k ==> !IsSeparator(t, j)
    ensures NextSeparator(t, i) == k
  {
  }

  lemma PieceUnbroken(t: Text)
    ensures Unbroken(t[..NextSeparator(t, 0)])
  {
    var k := NextSeparator(t, 0);
    forall j | 0 <= j < k ensures !IsSeparator(t[..k], j) {
      assert !IsSeparator(t, j);
    }
    NextSeparatorIs(t[..k], 0, k);
  }

  /** A whole line in front of the rest is split off as it is. */
  lemma LineSplitsOff(a: Text, rest: Text)
    requires Unbroken(a) && (a != [] ==> a[|a| - 1] != RETURN)
    ensures SplitLines(a + [NEWLINE] + rest) == Nonempty(a) + SplitLines(rest)
  {
    var t := a + [NEWLINE] + rest;
    forall j | 0 <= j < |a| ensures !IsSeparator(t, j) {
      assert !IsSeparator(a, j);
    }
    assert IsSeparator(t, |a|);
    NextSeparatorIs(t, 0, |a|);
    assert t[..|a|] == a && t[|a| + 1..] == rest;
  }

  lemma RowsOfFirst(j: Joins, a: Text, rest: seq<Text>)
    requires a != []
    ensures IsTag(j, a) ==> AllCells(WithoutTags(j, [a] + rest)) == AllCells(WithoutTags(j, rest))
    ensures !IsTag(j, a) ==> AllCells(WithoutTags(j, [a] + rest)) == [Cells(a)] + AllCells(WithoutTags(j, rest))
  {
    hide Cells;
    assert ([a] + rest)[1..] == rest;
    if IsTag(j, a) {
      assert WithoutTags(j, [a] + rest) == [] + WithoutTags(j, rest);
      assert [] + WithoutTags(j, rest) == WithoutTags(j, rest);
    } else {
      assert WithoutTags(j, [a] + rest) == [a] + WithoutTags(j, rest);
      assert ([a] + WithoutTags(j, rest))[1..] == WithoutTags(j, rest);
    }
  }

  lemma {:induction false} NextTabIs(t: Text, i: nat, k: nat)
    requires i <= k <= |t| && (k == |t| || t[k] == TAB)
    requires forall j :: i <= j < k ==> t[j] != TAB
    ensures NextTab(t, i) == k
  {
  }

  lemma CellSplitsOff(a: Text, rest: Text)
    requires TAB !in a
    ensures Cells(a) == [a]
    ensures Cells(a + [TAB] + rest) == [a] + Cells(rest)
  {
    NextTabIs(a, 0, |a|);
    var t := a + [TAB] + rest;
    assert forall j :: 0 <= j < |a| ==> t[j] == a[j];
    NextTabIs(t, 0, |a|);
    assert t[..|a|] == a && t[|a| + 1..] == rest;
  }

  lemma {:induction false} CellsOfJoined(cells: seq<Text>)
    requires cells != [] && forall c :: c in cells ==> TAB !in c
    ensures Cells(Joined(cells)) == cells
  {
    hide Cells;
    assert cells[0] in cells;
    if |cells| == 1 {
      CellSplitsOff(cells[0], []);
    } else {
      CellsOfJoined(cells[1..]);
      CellSplitsOff(cells[0], Joined(cells[1..]));
    }
  }

  lemma {:induction false} JoinedOfCells(t: Text)
    ensures Joined(Cells(t)) == t
    ensures forall c :: c in Cells(t) ==> TAB !in c
    decreases |t|
  {
    var k := NextTab(t, 0);
    if k < |t| {
      JoinedOfCells(t[k + 1..]);
      assert Cells(t)[1..] == Cells(t[k + 1..]);
      assert t == t[..k] + [TAB] + t[k + 1..];
    }
  }

  lemma SplitUnfolds(t: Text)
    ensures var k := NextSeparator(t, 0);
            SplitLines(t) == Nonempty(t[..k]) + if k == |t| then [] else SplitLines(t[k + 1..])
  {
    var k := NextSeparator(t, 0);
    assert k == |t| ==> t[..k] == t;
  }

  /** Whatever rows come out, each is the cells of one unbroken line that is not a tag. */
  ghost predicate FromLine(j: Joins, row: seq<Text>) {
    var text := Joined(row);
    && Cells(text) == row && (forall c :: c in row ==> TAB !in c)
    && text != [] && !IsTag(j, text) && Unbroken(text)
  }

  lemma {:induction false} RowsComeFromLines(j: Joins, t: Text)
    ensures forall r :: r in RowsOf(j, t) ==> FromLine(j, r)
    decreases |t|
  {
    hide FromLine, Cells, WithoutTags, AllCells, SplitLines;
    var k := NextSeparator(t, 0);
    var a := t[..k];
    var rest := if k == |t| then [] else SplitLines(t[k + 1..]);
    if k < |t| {
      RowsComeFromLines(j, t[k + 1..]);
    } else {
      NoRows(j);
    }
    SplitUnfolds(t);
    if a == [] {
      assert Nonempty(a) + rest == rest;
    } else {
      RowsOfFirst(j, a, rest);
      if !IsTag(j, a) {
        LineMakesRow(j, t);
      }
    }
  }

  lemma NoRows(j: Joins)
    ensures AllCells(WithoutTags(j, [])) == [] && SplitLines([]) == []
  {
  }

  lemma LineMakesRow(j: Joins, t: Text)
    requires var a := t[..NextSeparator(t, 0)]; a != [] && !IsTag(j, a)
    ensures FromLine(j, Cells(t[..NextSeparator(t, 0)]))
  {
    JoinedOfCells(t[..NextSeparator(t, 0)]);
    PieceUnbroken(t);
  }

  /** A line that ends in a carriage return swallows its newline and what follows. */
  lemma ReturnSwallows(j: Joins, a: Text, rest: Text)
    requires JoinsOk(j) && a != [] && !IsTag(j, a) && Unbroken(a) && a[|a| - 1] == RETURN
    ensures var rows := RowsOf(j, a + [NEWLINE] + rest);
            rows != [] && |Joined(rows[0])| > |a|
  {
    hide Cells, WithoutTags, AllCells, Joined, SplitLines;
    var t := a + [NEWLINE] + rest;
    var k := NextSeparator(t, 0);
    forall j | 0 <= j <= |a| ensures !IsSeparator(t, j) {
      assert j < |a| ==> !IsSeparator(a, j);
    }
    assert k > |a|;
    var first := t[..k];
    assert first[0] == a[0] && first[1..] == a[1..] + first[|a|..];
    JoinedOfCells(first);
    RowsOfFirst(j, first, if k == |t| then [] else SplitLines(t[k + 1..]));
    SplitUnfolds(t);
  }

  lemma TagLineReads(j: Joins, tag: Text, rest: Text)
    requires PlainTag(j, tag)
    ensures RowsOf(j, [HASH] + tag + [NEWLINE] + rest) == RowsOf(j, rest)
  {
    hide Cells, AllCells, WithoutTags, SplitLines;
    var a := [HASH] + tag;
    assert a[1..] == tag;
    forall j | 0 <= j < |a| ensures !IsSeparator(a, j) {
      assert j > 0 ==> a[j] == tag[j - 1];
    }
    NextSeparatorIs(a, 0, |a|);
    LineSplitsOff(a, rest);
    RowsOfFirst(j, a, SplitLines(rest));
  }

  lemma RowLineReads(j: Joins, ps: seq<Wire.Param>, rest: Text)
    requires Survives(j, ps)
    ensures RowsOf(j, Joined(ShownAll(ps)) + [NEWLINE] + rest) == [ShownAll(ps)] + RowsOf(j, rest)
  {
    hide Cells, AllCells, WithoutTags, SplitLines, Joined;
    ShownIn(ps);
    LineSplitsOff(Joined(ShownAll(ps)), rest);
    CellsOfJoined(ShownAll(ps));
    RowsOfFirst(j, Joined(ShownAll(ps)), SplitLines(rest));
  }

  lemma {:induction false} ShownIn(ps: seq<Wire.Param>)
    ensures (forall c :: c in ShownAll(ps) ==> TAB !in c) <==> (forall p :: p in ps ==> TAB !in Shown(p))
    ensures ps == [] <==> ShownAll(ps) == []
  {
    if ps != [] {
      ShownIn(ps[1..]);
      assert ps == [ps[0]] + ps[1..];
      assert ShownAll(ps) == [Shown(ps[0])] + ShownAll(ps[1..]);
    }
  }

  /** If the first row reads back, it is one that survives. */
  lemma OnlySurvivorsRead(j: Joins, ps: seq<Wire.Param>, rest: Text)
    requires JoinsOk(j)
    requires var rows := RowsOf(j, Joined(ShownAll(ps)) + [NEWLINE] + rest);
             rows != [] && rows[0] == ShownAll(ps)
    ensures Survives(j, ps)
  {
    hide RowsOf, Joined, Cells;
    var text := Joined(ShownAll(ps));
    var rows := RowsOf(j, text + [NEWLINE] + rest);
    RowsComeFromLines(j, text + [NEWLINE] + rest);
    assert FromLine(j, rows[0]);
    ShownIn(ps);
    NoCells();
    if text[|text| - 1] == RETURN {
      ReturnSwallows(j, text, rest);
    }
  }

  lemma NoCells()
    ensures Joined([]) == []
  {
  }

  /**
   Reading the printed reply gives back the table exactly when every row survives: it has at
   least one column, no tab in a value, and its text is non-empty, not started by a plain '#', not
   ended by a carriage return, and without a line feed that stands alone.
   */
  lemma {:induction false} RowsRoundTrip(j: Joins, ls: seq<Line>)
    requires JoinsOk(j)
    requires PlainTags(j, ls)
    ensures RowsOf(j, Printed(ls)) == Table(ls) <==> forall l :: l in ls && l.RowLine? ==> Survives(j, l.values)
  {
    hide RowsOf, Survives, Joined, PlainTag;
    if ls == [] {
      NothingRead(j);
    } else {
      var rest := Printed(ls[1..]);
      RowsRoundTrip(j, ls[1..]);
      assert ls == [ls[0]] + ls[1..];
      match ls[0] {
        case TagLine(tag) =>
          TagLineReads(j, tag, rest);
        case RowLine(ps) =>
          if Survives(j, ps) {
            RowLineReads(j, ps, rest);
            assert ([ShownAll(ps)] + RowsOf(j, rest))[1..] == RowsOf(j, rest);
            assert ([ShownAll(ps)] + Table(ls[1..]))[1..] == Table(ls[1..]);
          } else if RowsOf(j, Printed(ls)) == Table(ls) {
            assert Table(ls)[0] == ShownAll(ps);
            OnlySurvivorsRead(j, ps, rest);
          }
      }
    }
  }

  lemma NothingRead(j: Joins)
    ensures RowsOf(j, []) == []
  {
    NoRows(j);
  }

  // ---------- the frames a backend sends ----------

  /** What a backend's DataRow and CommandComplete can carry; PostgreSQL text has no NUL. */
  predicate Sendable(l: Line) {
    match l
    case RowLine(ps) => |ps| < 0x8000 && forall p :: p in ps ==> Wire.ParamFits(p) && 0 !in Shown(p)
    case TagLine(tag) => 0 !in tag
  }

  /** DataRow and CommandComplete. */
  function FrameOf(l: Line): Frame
    requires Sendable(l)
  {
    match l
    case RowLine(ps) => Frame(DATA_ROW, Wire.ParamBlock(ps))
    case TagLine(tag) => Frame(COMMAND_COMPLETE, tag + [0])
  }

  function FramesOf(ls: seq<Line>): (fs: seq<Frame>)
    requires forall l :: l in ls ==> Sendable(l)
    ensures |fs| == |ls|
    ensures forall i :: 0 <= i < |ls| ==> fs[i] == FrameOf(ls[i])
  {
    if ls == [] then [] else [FrameOf(ls[0])] + FramesOf(ls[1..])
  }

  lemma LengthIsInt32(body: seq<Byte>, p: nat)
    requires p + 4 <= |body|
    ensures Decode.Int32At(body, p) == Some(LengthAt(body, p))
  {
  }

  /** The cells' text behind the first, each with its tab. */
  function Tail(cells: seq<Text>): Text {
    if cells == [] then [] else [TAB] + cells[0] + Tail(cells[1..])
  }

  lemma {:induction false} JoinedTail(cells: seq<Text>)
    requires cells != []
    ensures Joined(cells) == cells[0] + Tail(cells[1..])
  {
    if |cells| > 1 {
      JoinedTail(cells[1..]);
      assert Tail(cells[1..]) == [TAB] + cells[1] + Tail(cells[2..]);
      assert cells[1..][1..] == cells[2..];
      Assoc(cells[0], [TAB], cells[1] + Tail(cells[2..]));
      Assoc([TAB], cells[1], Tail(cells[2..]));
    } else {
      assert cells[1..] == [];
    }
  }

  lemma CellPrinted(pre: seq<Byte>, p: Wire.Param, rest: seq<Byte>)
    requires Wire.ParamFits(p)
    ensures var body := pre + (Wire.ParamBytes(p) + rest);
            && |pre| + 4 <= |body|
            && (p.None? ==> LengthAt(body, |pre|) == -1 && |Wire.ParamBytes(p)| == 4)
            && (p.Some? ==> LengthAt(body, |pre|) == |p.value| && |Wire.ParamBytes(p)| == 4 + |p.value|
                            && |pre| + 4 + |p.value| <= |body|
                            && body[|pre| + 4..|pre| + 4 + |p.value|] == p.value)
  {
    hide LengthAt, Wire.Int32Bytes;
    var bytes := Wire.ParamBytes(p);
    var body := pre + (bytes + rest);
    LengthIsInt32(body, |pre|);
    Decode.Int32Shift(pre, bytes + rest, 0);
    match p {
      case None => Decode.Int32Back(-1, rest);
      case Some(v) =>
        Assoc(Wire.Int32Bytes(|v|), v, rest);
        Decode.Int32Back(|v|, v + rest);
        assert body[|pre| + 4..|pre| + 4 + |v|] == v;
    }
  }

  lemma {:induction false} CellsPrinted(pre: seq<Byte>, ps: seq<Wire.Param>)
    requires forall p :: p in ps ==> Wire.ParamFits(p)
    ensures var body := pre + Wire.AllParamBytes(ps);
            CellsOk(body, |pre|, |ps|) && CellsText(body, |pre|, |ps|, false) == Tail(ShownAll(ps))
    decreases |ps|
  {
    hide Wire.ParamBytes, LengthAt, CellsOk, CellsText;
    var body := pre + Wire.AllParamBytes(ps);
    if ps == [] {
      NoText(body);
      NoCellsLeft(body, |pre|);
    } else {
      var rest := Wire.AllParamBytes(ps[1..]);
      CellPrinted(pre, ps[0], rest);
      Assoc(pre, Wire.ParamBytes(ps[0]), rest);
      CellsPrinted(pre + Wire.ParamBytes(ps[0]), ps[1..]);
      OneCell(body, |pre|, |ps|);
      Assoc([TAB], Shown(ps[0]), Tail(ShownAll(ps[1..])));
      assert ShownAll(ps)[1..] == ShownAll(ps[1..]);
    }
  }

  lemma NoCellsLeft(body: seq<Byte>, p: nat)
    ensures CellsOk(body, p, 0) && CellsText(body, p, 0, false) == []
  {
  }

  lemma OneCell(body: seq<Byte>, p: nat, left: nat)
    requires left > 0 && p + 4 <= |body|
    ensures var n := LengthAt(body, p);
            && (n < 0 && CellsOk(body, p + 4, left - 1) ==>
                  CellsOk(body, p, left)
                  && CellsText(body, p, left, false) == [TAB] + (NullText() + CellsText(body, p + 4, left - 1, false)))
            && (n >= 0 && p + 4 + n <= |body| && CellsOk(body, p + 4 + n, left - 1) ==>
                  CellsOk(body, p, left)
                  && CellsText(body, p, left, false) ==
                     [TAB] + (body[p + 4..p + 4 + n] + CellsText(body, p + 4 + n, left - 1, false)))
  {
    hide LengthAt;
  }

  /** The text of a data row is its values with tabs between them. */
  lemma RowPrinted(ps: seq<Wire.Param>)
    requires Sendable(RowLine(ps))
    ensures RowOk(Wire.ParamBlock(ps))
    ensures RowText(Wire.ParamBlock(ps)) == LineText(RowLine(ps)) + [NEWLINE]
  {
    hide Wire.AllParamBytes, CellsOk, CellsText, Tail, Wire.ParamBytes, ShownAll;
    var body := Wire.ParamBlock(ps);
    assert body[0..2] == Be16(|ps|);
    Be16RoundTrip(|ps|, Wire.AllParamBytes(ps));
    CellsPrinted(Be16(|ps|), ps);
    FirstCell(body, |ps|);
    if ps == [] {
      NoText(body);
    } else {
      JoinedTail(ShownAll(ps));
      TailUnfolds(ShownAll(ps));
      Cancel(CellsText(body, 2, |ps|, true), Joined(ShownAll(ps)));
    }
  }

  lemma NoText(body: seq<Byte>)
    ensures CellsOk(body, 2, 0) && CellsText(body, 2, 0, true) == [] && ShownAll([]) == [] && Joined([]) == []
  {
  }

  lemma FirstCell(body: seq<Byte>, n: nat)
    requires CellsOk(body, 2, n)
    ensures n > 0 ==> CellsText(body, 2, n, false) == [TAB] + CellsText(body, 2, n, true)
  {
  }

  lemma Cancel(a: Text, b: Text)
    requires [TAB] + a == [TAB] + b
    ensures a == b
  {
    assert a == ([TAB] + a)[1..];
    assert b == ([TAB] + b)[1..];
  }

  lemma TailUnfolds(cells: seq<Text>)
    requires cells != []
    ensures Tail(cells) == [TAB] + (cells[0] + Tail(cells[1..]))
  {
    Assoc([TAB], cells[0], Tail(cells[1..]));
  }

  lemma TagPrinted(tag: Text)
    requires 0 !in tag
    ensures TagText(tag + [0]) == LineText(TagLine(tag)) + [NEWLINE]
  {
    StrLenIs(tag);
    assert (tag + [0])[..|tag|] == tag;
  }

  lemma {:induction false} StrLenIs(s: Text)
    requires 0 !in s
    ensures StrLen(s + [0]) == |s|
  {
    if s != [] {
      StrLenIs(s[1..]);
      assert (s + [0])[1..] == s[1..] + [0];
    }
  }

  lemma {:induction false} ReplyPrinted(ls: seq<Line>)
    requires forall l :: l in ls ==> Sendable(l)
    ensures Printable(FramesOf(ls)) && !HasError(FramesOf(ls))
    ensures Lines(FramesOf(ls)) == Printed(ls)
  {
    hide RowText, TagText, Wire.ParamBlock, RowOk, LineText;
    if ls != [] {
      ReplyPrinted(ls[1..]);
      assert ls[0] in ls;
      match ls[0] {
        case RowLine(ps) => RowPrinted(ps);
        case TagLine(tag) => TagPrinted(tag);
      }
      var fs := FramesOf(ls);
      assert fs[1..] == FramesOf(ls[1..]);
      assert fs == [fs[0]] + FramesOf(ls[1..]);
    }
  }

  lemma {:induction false} JoinedNoNul(ps: seq<Wire.Param>)
    requires forall p :: p in ps ==> 0 !in Shown(p)
    ensures 0 !in Joined(ShownAll(ps))
  {
    if ps != [] {
      JoinedNoNul(ps[1..]);
      assert ShownAll(ps)[1..] == ShownAll(ps[1..]);
      if |ps| > 1 {
        assert Joined(ShownAll(ps)) == Shown(ps[0]) + [TAB] + Joined(ShownAll(ps[1..]));
      }
    }
  }

  lemma {:induction false} PrintedNoNul(ls: seq<Line>)
    requires forall l :: l in ls ==> Sendable(l)
    ensures 0 !in Printed(ls)
  {
    hide ShownAll, Joined;
    if ls != [] {
      PrintedNoNul(ls[1..]);
      assert ls[0] in ls;
      if ls[0].RowLine? {
        JoinedNoNul(ls[0].values);
      }
    }
  }

  /**
   Printing a reply with pgl_exec into a buffer that it fits, and reading the C string there with
   rows, gives back the table exactly when every row survives.
   */
  lemma PrintThenRead(j: Joins, ls: seq<Line>, outcap: nat)
    requires JoinsOk(j)
    requires PlainTags(j, ls) && forall l :: l in ls ==> Sendable(l)
    requires |Printed(ls)| < outcap
    ensures Printable(FramesOf(ls)) && !HasError(FramesOf(ls))
    ensures var out := Take(Rendered(FramesOf(ls)), outcap - 1) + [0];
            RowsOf(j, out[..StrLen(out)]) == Table(ls) <==> forall l :: l in ls && l.RowLine? ==> Survives(j, l.values)
  {
    hide Survives, RowsOf, Table, Lines, Rendered, Printable, HasError, Printed;
    var text := Printed(ls);
    ReplyPrinted(ls);
    RenderedWithoutError(FramesOf(ls));
    RowsRoundTrip(j, ls);
    PrintedNoNul(ls);
    StrLenIs(text);
    assert (text + [0])[..|text|] == text;
    assert Take(text, outcap - 1) == text;
    assert Rendered(FramesOf(ls)) == text;
  }

  /** Lines end in line feeds, cells in tabs, tags start with '#', and a carriage return joins a line feed. */
  lemma CharactersTold()
    ensures NEWLINE == 10 && TAB == 9 && HASH == '#' as int && RETURN == 13
  {
  }
}
