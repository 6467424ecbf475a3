/**
 How pgl_exec turns a reply into text: rows as tab-separated lines, command tags as lines
 starting with '#', an error as one line that replaces everything before it, all cut off to
 fit the caller's buffer with its terminating NUL.
 */
module ReplyText {
  import opened Bytes
  import opened Framing

  const TAB: Byte := 9
  const NEWLINE: Byte := 10
  const HASH: Byte := 35

  // ---------- the text of one frame ----------

  /** "NULL" */
  function NullText(): seq<Byte> {
    [78, 85, 76, 76]
  }

  function LengthAt(body: seq<Byte>, p: nat): int
    requires p + 4 <= |body|
  {
    Signed32(ReadBe32(body[p..p + 4]))
  }

  /** Every value the row announces lies inside the body; a missing length ends the row. */
  predicate CellsOk(body: seq<Byte>, p: nat, left: nat)
    decreases left
  {
    left == 0 || p + 4 > |body| ||
    var n := LengthAt(body, p);
    if n < 0 then CellsOk(body, p + 4, left - 1)
    else p + 4 + n <= |body| && CellsOk(body, p + 4 + n, left - 1)
  }

  predicate RowOk(body: seq<Byte>) {
    |body| >= 2 && CellsOk(body, 2, ReadBe16(body))
  }

  /** The cells from p on, `left` of them still announced; all but the first bring a tab. */
  function CellsText(body: seq<Byte>, p: nat, left: nat, first: bool): seq<Byte>
    requires CellsOk(body, p, left)
    decreases left
  {
    if left == 0 then [] else
    (if first then [] else [TAB]) +
    if p + 4 > |body| then [] else
    var n := LengthAt(body, p);
    if n < 0 then NullText() + CellsText(body, p + 4, left - 1, false)
    else body[p + 4..p + 4 + n] + CellsText(body, p + 4 + n, left - 1, false)
  }

  function RowText(body: seq<Byte>): seq<Byte>
    requires RowOk(body)
  {
    CellsText(body, 2, ReadBe16(body), true) + [NEWLINE]
  }

  /** strnlen: the number of bytes before the first NUL, if any, in s. */
  function StrLen(s: seq<Byte>): (n: nat)
    ensures n <= |s| && (n < |s| ==> s[n] == 0) && forall k :: 0 <= k < n ==> s[k] != 0
  {
    if s == [] || s[0] == 0 then 0 else 1 + StrLen(s[1..])
  }

  /** The bytes of a C string: everything before the first NUL. */
  function CString(text: seq<Byte>): seq<Byte> {
    text[..StrLen(text)]
  }

  function TagText(body: seq<Byte>): seq<Byte> {
    [HASH] + CString(body) + [NEWLINE]
  }

  /** The three texts pgl_exec keeps of an error, cut to the sizes of their C buffers. */
  datatype ErrorParts = ErrorParts(severity: seq<Byte>, message: seq<Byte>, code: seq<Byte>)

  function WithField(e: ErrorParts, kind: Byte, text: seq<Byte>): ErrorParts {
    if kind == 83 then e.(severity := Take(text, 63))
    else if kind == 77 then e.(message := Take(text, 511))
    else if kind == 67 then e.(code := Take(text, 15))
    else e
  }

  function ErrorFieldsFrom(body: seq<Byte>, off: nat, e: ErrorParts): ErrorParts
    decreases |body| - off
  {
    if off >= |body| || body[off] == 0 then e else
    var l := StrLen(body[off + 1..]);
    ErrorFieldsFrom(body, off + 1 + l + 1, WithField(e, body[off], body[off + 1..off + 1 + l]))
  }

  /** "severity: message (SQLSTATE code)" */
  function ErrorLine(e: ErrorParts): seq<Byte> {
    e.severity + [58, 32] + e.message + [32, 40, 83, 81, 76, 83, 84, 65, 84, 69, 32] + e.code + [41]
  }

  function ErrorText(body: seq<Byte>): seq<Byte> {
    ErrorLine(ErrorFieldsFrom(body, 0, ErrorParts([], [], [])))
  }

  lemma {:induction false} PartsStayCut(body: seq<Byte>, off: nat, e: ErrorParts)
    requires |e.severity| <= 63 && |e.message| <= 511 && |e.code| <= 15
    ensures var r := ErrorFieldsFrom(body, off, e);
            |r.severity| <= 63 && |r.message| <= 511 && |r.code| <= 15
    decreases |body| - off
  {
    if off < |body| && body[off] != 0 {
      var l := StrLen(body[off + 1..]);
      PartsStayCut(body, off + 1 + l + 1, WithField(e, body[off], body[off + 1..off + 1 + l]));
    }
  }

  /** The length snprintf reports for the line is the length it wrote into its 640 bytes. */
  lemma ErrorTextFits(body: seq<Byte>)
    ensures |ErrorText(body)| < 640
  {
    PartsStayCut(body, 0, ErrorParts([], [], []));
  }

  // ---------- the text of a reply ----------

  predicate Printable(fs: seq<Frame>) {
    forall f :: f in fs && f.kind == DATA_ROW ==> RowOk(f.body)
  }

  /** pgl_exec comes to the end of the reply, and reads no cell outside its row. */
  predicate Renderable(reply: seq<Byte>) {
    Walkable(Frames(reply)) && Printable(Frames(reply))
  }

  /** The text so far with one more frame. */
  function Extended(text: seq<Byte>, f: Frame): seq<Byte>
    requires f.kind == DATA_ROW ==> RowOk(f.body)
  {
    if f.kind == DATA_ROW then text + RowText(f.body)
    else if f.kind == COMMAND_COMPLETE then text + TagText(f.body)
    else if f.kind == ERROR_RESPONSE then ErrorText(f.body)
    else text
  }

  /** The whole text of a reply, before it is cut to the buffer. */
  function Rendered(fs: seq<Frame>): seq<Byte>
    requires Printable(fs)
  {
    if fs == [] then [] else Extended(Rendered(fs[..|fs| - 1]), fs[|fs| - 1])
  }

  predicate HasError(fs: seq<Frame>) {
    exists i :: 0 <= i < |fs| && fs[i].kind == ERROR_RESPONSE
  }

  /** Rows and tags of error-free frames, in order. */
  function Lines(fs: seq<Frame>): seq<Byte>
    requires Printable(fs)
  {
    if fs == [] then [] else
    (if fs[0].kind == DATA_ROW then RowText(fs[0].body)
     else if fs[0].kind == COMMAND_COMPLETE then TagText(fs[0].body)
     else []) + Lines(fs[1..])
  }

  lemma PrintableParts(fs: seq<Frame>, f: Frame)
    requires Printable(fs + [f])
    ensures f.kind == DATA_ROW ==> RowOk(f.body)
    ensures fs != [] ==> (fs[0].kind == DATA_ROW ==> RowOk(fs[0].body))
    ensures fs != [] ==> Printable(fs[1..]) && Printable(fs[1..] + [f])
  {
    hide RowOk;
    assert f in fs + [f];
    assert forall g :: g in fs ==> g in fs + [f];
  }

  lemma {:induction false} LinesSnoc(fs: seq<Frame>, f: Frame)
    requires Printable(fs) && Printable(fs + [f])
    ensures f.kind == DATA_ROW ==> RowOk(f.body) && Lines(fs + [f]) == Lines(fs) + RowText(f.body)
    ensures f.kind == COMMAND_COMPLETE ==> Lines(fs + [f]) == Lines(fs) + TagText(f.body)
    ensures f.kind != DATA_ROW && f.kind != COMMAND_COMPLETE ==> Lines(fs + [f]) == Lines(fs)
  {
    hide RowText, TagText, RowOk, Printable;
    PrintableParts(fs, f);
    if fs == [] {
      var one := [f];
      assert fs + [f] == one && one[1..] == [];
    } else {
      assert (fs + [f])[1..] == fs[1..] + [f];
      LinesSnoc(fs[1..], f);
    }
  }

  lemma SplitLast(fs: seq<Frame>)
    requires fs != []
    ensures fs == fs[..|fs| - 1] + [fs[|fs| - 1]]
    ensures fs[|fs| - 1].kind == ERROR_RESPONSE ==> HasError(fs)
    ensures HasError(fs[..|fs| - 1]) ==> HasError(fs)
  {
  }

  /** Without an error the text is that of every frame. */
  lemma {:induction false} RenderedWithoutError(fs: seq<Frame>)
    requires Printable(fs) && !HasError(fs)
    ensures Rendered(fs) == Lines(fs)
  {
    hide RowText, TagText, ErrorText, RowOk, Lines, HasError;
    if fs == [] {
      NoLines();
    } else {
      var n := |fs| - 1;
      SplitLast(fs);
      RenderedWithoutError(fs[..n]);
      LinesSnoc(fs[..n], fs[n]);
    }
  }

  /** With errors, it is the text of the last of them and of the frames behind it. */
  lemma {:induction false} RenderedFromLastError(fs: seq<Frame>, i: nat)
    requires Printable(fs) && i < |fs| && fs[i].kind == ERROR_RESPONSE && !HasError(fs[i + 1..])
    ensures Rendered(fs) == ErrorText(fs[i].body) + Lines(fs[i + 1..])
    decreases |fs|
  {
    hide RowText, TagText, ErrorText, RowOk, Lines, HasError;
    var n := |fs| - 1;
    if i == n {
      assert fs[n + 1..] == [];
      NoLines();
    } else {
      var some, tail := fs[..n], fs[i + 1..];
      assert tail[..|tail| - 1] == some[i + 1..];
      SplitLast(tail);
      RenderedFromLastError(some, i);
      LinesSnoc(some[i + 1..], fs[n]);
      var last := if fs[n].kind == DATA_ROW then RowText(fs[n].body) else TagText(fs[n].body);
      Assoc(ErrorText(fs[i].body), Lines(some[i + 1..]), last);
    }
  }

  lemma NoLines()
    ensures Lines([]) == []
  {
  }

  // ---------- writing into the caller's buffer ----------

  /** The buffer holds the text, cut to leave room for the NUL, and the NUL. */
  ghost predicate HoldsText(out: array<Byte>, used: nat, text: seq<Byte>)
    reads out
  {
    used < out.Length && out[..used] == Take(text, out.Length - 1) && out[used] == 0
  }

  lemma TakeAgain(text: seq<Byte>, more: seq<Byte>, n: nat)
    ensures Take(Take(text, n) + more, n) == Take(text + more, n)
  {
  }

  /** The truncating append. */
  method SAppend(out: array<Byte>, used: nat, s: seq<Byte>, ghost text: seq<Byte>) returns (used': nat)
    requires HoldsText(out, used, text)
    modifies out
    ensures HoldsText(out, used', text + s)
  {
    var n := |s|;
    if used + n >= out.Length {
      n := out.Length - used - 1;
    }
    ghost var before := out[..used];
    forall i | 0 <= i < n {
      out[used + i] := s[i];
    }
    used' := used + n;
    out[used'] := 0;
    assert out[..used'] == before + s[..n];
    TakeAgain(text, s, out.Length - 1);
    assert before + s[..n] == Take(before + s, out.Length - 1);
  }

  /** One DataRow frame. */
  method AppendRow(out: array<Byte>, used: nat, body: seq<Byte>, ghost text: seq<Byte>) returns (used': nat)
    requires HoldsText(out, used, text) && RowOk(body)
    modifies out
    ensures HoldsText(out, used', text + RowText(body))
  {
    hide HoldsText, LengthAt, CellsText, CellsOk, CellRest;
    RowHasCells(body);
    var ncols := ReadBe16(body);
    var p := 2;
    used' := used;
    ghost var done := text;
    var c := 0;
    while c < ncols
      invariant 0 <= c <= ncols && 2 <= p
      invariant CellsOk(body, p, ncols - c)
      invariant HoldsText(out, used', done)
      invariant text + CellsText(body, 2, ncols, true) == done + CellsText(body, p, ncols - c, c == 0)
      decreases ncols - c
    {
      CellUnfolds(body, p, ncols - c, c == 0);
      if c > 0 {
        used' := SAppend(out, used', [TAB], done);
        Assoc(done, [TAB], CellRest(body, p, ncols - c));
        done := done + [TAB];
      }
      if p + 4 > |body| {
        NoMoreCells(body, p, ncols - c);
        assert done + [] == done;
        break;
      }
      ghost var added;
      ghost var before := done;
      used', p, added := AppendCell(out, used', body, p, ncols - c, done);
      done := done + added;
      Assoc(before, added, CellsText(body, p, ncols - c - 1, false));
      c := c + 1;
    }
    NoCell(body, p, c == 0);
    assert done + [] == done;
    used' := SAppend(out, used', [NEWLINE], done);
    Assoc(text, CellsText(body, 2, ncols, true), [NEWLINE]);
  }

  /** The value of a cell, or the word for its absence. */
  method AppendCell(out: array<Byte>, used: nat, body: seq<Byte>, start: nat, left: nat, ghost text: seq<Byte>)
    returns (used': nat, p: nat, ghost added: seq<Byte>)
    requires HoldsText(out, used, text) && left > 0 && CellsOk(body, start, left) && start + 4 <= |body|
    modifies out
    ensures HoldsText(out, used', text + added) && p >= start && CellsOk(body, p, left - 1)
    ensures CellRest(body, start, left) == added + CellsText(body, p, left - 1, false)
  {
    hide HoldsText, LengthAt, CellsText;
    var vlen := LengthAt(body, start);
    p := start + 4;
    if vlen < 0 {
      added := NullText();
      used' := SAppend(out, used, NullText(), text);
    } else {
      added := body[p..p + vlen];
      used' := SAppend(out, used, body[p..p + vlen], text);
      p := p + vlen;
    }
  }

  lemma RowHasCells(body: seq<Byte>)
    requires RowOk(body)
    ensures CellsOk(body, 2, ReadBe16(body))
  {
  }

  lemma NoMoreCells(body: seq<Byte>, p: nat, left: nat)
    requires left > 0 && CellsOk(body, p, left) && p + 4 > |body|
    ensures CellRest(body, p, left) == []
  {
  }

  /** A cell behind its tab. */
  function CellRest(body: seq<Byte>, p: nat, left: nat): seq<Byte>
    requires left > 0 && CellsOk(body, p, left)
  {
    if p + 4 > |body| then [] else
    var n := LengthAt(body, p);
    if n < 0 then NullText() + CellsText(body, p + 4, left - 1, false)
    else body[p + 4..p + 4 + n] + CellsText(body, p + 4 + n, left - 1, false)
  }

  lemma CellUnfolds(body: seq<Byte>, p: nat, left: nat, first: bool)
    requires left > 0 && CellsOk(body, p, left)
    ensures CellsText(body, p, left, first) ==
            if first then CellRest(body, p, left) else [TAB] + CellRest(body, p, left)
  {
  }

  lemma NoCell(body: seq<Byte>, p: nat, first: bool)
    ensures CellsOk(body, p, 0) && CellsText(body, p, 0, first) == []
  {
  }

  /** One CommandComplete frame. */
  method AppendTag(out: array<Byte>, used: nat, body: seq<Byte>, ghost text: seq<Byte>) returns (used': nat)
    requires HoldsText(out, used, text)
    modifies out
    ensures HoldsText(out, used', text + TagText(body))
  {
    hide HoldsText;
    used' := SAppend(out, used, [HASH], text);
    var tl := StrLen(body);
    used' := SAppend(out, used', body[..tl], text + [HASH]);
    used' := SAppend(out, used', [NEWLINE], text + [HASH] + body[..tl]);
    Assoc(text, [HASH], body[..tl]);
    Assoc(text, [HASH] + body[..tl], [NEWLINE]);
  }

  /** One ErrorResponse frame: the buffer is started over. */
  method ReplaceByError(out: array<Byte>, body: seq<Byte>) returns (used: nat)
    requires out.Length > 0
    modifies out
    ensures HoldsText(out, used, ErrorText(body))
  {
    hide WithField, StrLen, ErrorLine;
    out[0] := 0;
    assert HoldsText(out, 0, []);
    var f := 0;
    var e := ErrorParts([], [], []);
    while f < |body| && body[f] != 0
      invariant 0 <= f
      invariant HoldsText(out, 0, [])
      invariant ErrorFieldsFrom(body, 0, ErrorParts([], [], [])) == ErrorFieldsFrom(body, f, e)
      decreases |body| - f
    {
      var l := StrLen(body[f + 1..]);
      e := WithField(e, body[f], body[f + 1..f + 1 + l]);
      f := f + 1 + l + 1;
    }
    used := SAppend(out, 0, ErrorLine(e), []);
    assert [] + ErrorLine(e) == ErrorLine(e);
  }

  /** The loop of pgl_exec over a reply that came back. */
  method RenderReply(reply: seq<Byte>, out: array<Byte>) returns (rc: int, used: nat)
    requires out.Length > 0 && Renderable(reply)
    modifies out
    ensures HoldsText(out, used, Rendered(Frames(reply)))
    ensures rc == if HasError(Frames(reply)) then -1 else 0
  {
    hide HoldsText, RowText, TagText, ErrorText, HasFrame, ReadBe32, Rendered, Printable, HasError, RowOk, Frames;
    EmptyReply();
    out[0] := 0;
    rc, used := 0, 0;
    ghost var all := Frames(reply);
    ghost var passed: seq<Frame> := [];
    TextStart(out);
    var off := 0;
    while |reply| - off >= 5
      invariant 0 <= off <= |reply|
      invariant all == passed + Frames(reply[off..])
      invariant Printable(passed) && HoldsText(out, used, Rendered(passed))
      invariant rc == if HasError(passed) then -1 else 0
      decreases |reply| - off
    {
      var kind := reply[off];
      var n := ReadBe32(reply[off + 1..off + 5]);
      FrameAt(reply, off);
      if n < 4 || off + 1 + n > |reply| {
        break;
      }
      var body := reply[off + 5..off + 1 + n];
      ghost var f := Frame(kind, body);
      assert all[|passed|] == f;
      FrameSnoc(passed, f, all, Frames(reply[off + 1 + n..]));
      if kind == DATA_ROW {
        used := AppendRow(out, used, body, Rendered(passed));
      } else if kind == COMMAND_COMPLETE {
        used := AppendTag(out, used, body, Rendered(passed));
      } else if kind == ERROR_RESPONSE {
        rc := -1;
        used := ReplaceByError(out, body);
      }
      passed := passed + [f];
      assert f in all;
      StepMoves(n);
      var step := (1 + n) % TWO_32;
      assert step == 1 + n;
      off := off + step;
    }
    NoMoreFrames(reply[off..]);
    assert passed == all;
  }

  lemma EmptyReply()
    ensures Printable([]) && !HasError([])
  {
  }

  lemma TextStart(out: array<Byte>)
    requires out.Length > 0 && out[0] == 0
    ensures HoldsText(out, 0, Rendered([]))
  {
  }

  lemma FrameSnoc(passed: seq<Frame>, f: Frame, all: seq<Frame>, rest: seq<Frame>)
    requires all == passed + ([f] + rest) && Printable(all)
    ensures all == (passed + [f]) + rest
    ensures Printable(passed + [f]) && Printable(passed) && (f.kind == DATA_ROW ==> RowOk(f.body))
    ensures Rendered(passed + [f]) == Extended(Rendered(passed), f)
    ensures HasError(passed + [f]) <==> HasError(passed) || f.kind == ERROR_RESPONSE
  {
    hide RowOk, Extended;
    assert f in all;
    assert (passed + [f])[..|passed|] == passed;
    assert forall g :: g in passed + [f] ==> g in all;
    if HasError(passed) {
      var i :| 0 <= i < |passed| && passed[i].kind == ERROR_RESPONSE;
      assert (passed + [f])[i].kind == ERROR_RESPONSE;
    }
    assert (passed + [f])[|passed|] == f;
  }

  // ---------- byte by byte ----------

  /** NULL is the word, cells are parted by tabs, lines end in line feeds, and tags start with '#'. */
  lemma WordsTold()
    ensures NullText() == ['N' as int, 'U' as int, 'L' as int, 'L' as int]
    ensures TAB == 9 && NEWLINE == 10 && HASH == '#' as int
  {
  }

  lemma {:induction false} StrLenOf(text: seq<Byte>, rest: seq<Byte>)
    requires 0 !in text
    ensures StrLen(text + [0] + rest) == |text|
  {
    if text != [] {
      assert (text + [0] + rest)[1..] == text[1..] + [0] + rest;
      StrLenOf(text[1..], rest);
    }
  }

  lemma OneStep(body: seq<Byte>, off: nat, text: seq<Byte>, rest: seq<Byte>, e: ErrorParts)
    requires off < |body| && body[off] != 0 && 0 !in text && body[off + 1..] == text + [0] + rest
    ensures ErrorFieldsFrom(body, off, e) == ErrorFieldsFrom(body, off + |text| + 2, WithField(e, body[off], text))
  {
    hide StrLen, WithField;
    StrLenOf(text, rest);
    assert body[off + 1..off + 1 + |text|] == body[off + 1..][..|text|] == text;
  }

  /** One field of an error body, whatever stands around it. */
  lemma FieldTaken(a: seq<Byte>, kind: Byte, text: seq<Byte>, rest: seq<Byte>, e: ErrorParts)
    requires kind != 0 && 0 !in text
    ensures var body := a + ([kind] + (text + [0] + rest));
            ErrorFieldsFrom(body, |a|, e) == ErrorFieldsFrom(body, |a| + |text| + 2, WithField(e, kind, text))
  {
    hide WithField, ErrorFieldsFrom;
    var body := a + ([kind] + (text + [0] + rest));
    assert body[|a| + 1..] == text + [0] + rest;
    OneStep(body, |a|, text, rest, e);
  }

  lemma Ends(body: seq<Byte>, e: ErrorParts)
    ensures ErrorFieldsFrom(body + [0], |body|, e) == e
  {
  }

  /** An error is printed as "severity: message (SQLSTATE code)", each part cut to its width. */
  lemma ErrorTold(severity: seq<Byte>, message: seq<Byte>, code: seq<Byte>)
    requires 0 !in severity && 0 !in message && 0 !in code
    ensures ErrorText(['S' as int] + severity + [0] + ['M' as int] + message + [0] + ['C' as int] + code + [0] + [0])
            == Take(severity, 63) + [':' as int, ' ' as int] + Take(message, 511)
               + [' ' as int, '(' as int, 'S' as int, 'Q' as int, 'L' as int, 'S' as int, 'T' as int, 'A' as int,
                  'T' as int, 'E' as int, ' ' as int]
               + Take(code, 15) + [')' as int]
  {
    ThreeFields(severity, message, code);
    hide Take;
    assert PartsOf3(severity, message, code) == ErrorParts(Take(severity, 63), Take(message, 511), Take(code, 15));
  }

  function PartsOf3(severity: seq<Byte>, message: seq<Byte>, code: seq<Byte>): ErrorParts {
    WithField(WithField(WithField(ErrorParts([], [], []), 83, severity), 77, message), 67, code)
  }

  lemma ThreeFields(severity: seq<Byte>, message: seq<Byte>, code: seq<Byte>)
    requires 0 !in severity && 0 !in message && 0 !in code
    ensures ErrorFieldsFrom([83] + severity + [0] + [77] + message + [0] + [67] + code + [0] + [0], 0,
                            ErrorParts([], [], []))
            == PartsOf3(severity, message, code)
  {
    hide WithField, ErrorFieldsFrom;
    var s, m, c := [83] + severity + [0], [77] + message + [0], [67] + code + [0];
    var body := [83] + severity + [0] + [77] + message + [0] + [67] + code + [0] + [0];
    var none := ErrorParts([], [], []);
    var e1 := WithField(none, 83, severity);
    var e2 := WithField(e1, 77, message);
    FieldTaken([], 83, severity, m + c + [0], none);
    assert body == [] + ([83] + (severity + [0] + (m + c + [0])));
    FieldTaken(s, 77, message, c + [0], e1);
    assert body == s + ([77] + (message + [0] + (c + [0])));
    FieldTaken(s + m, 67, code, [0], e2);
    assert body == (s + m) + ([67] + (code + [0] + [0]));
    Ends(s + m + c, PartsOf3(severity, message, code));
    assert body == (s + m + c) + [0];
  }

  /** What each kind of frame does to the text: rows and tags are appended, an error starts over, others do nothing. */
  lemma RenderedTold(fs: seq<Frame>, f: Frame)
    requires Printable(fs) && Printable(fs + [f])
    ensures f.kind == 'D' as int ==> RowOk(f.body) && Rendered(fs + [f]) == Rendered(fs) + RowText(f.body)
    ensures f.kind == 'C' as int ==> Rendered(fs + [f]) == Rendered(fs) + ['#' as int] + CString(f.body) + [10]
    ensures f.kind == 'E' as int ==> Rendered(fs + [f]) == ErrorText(f.body)
    ensures f.kind != 'D' as int && f.kind != 'C' as int && f.kind != 'E' as int ==>
              Rendered(fs + [f]) == Rendered(fs)
  {
    hide RowOk, RowText, ErrorText, CString;
    assert (fs + [f])[..|fs|] == fs;
    PrintableParts(fs, f);
    Assoc(Rendered(fs), [HASH] + CString(f.body), [NEWLINE]);
    Assoc(Rendered(fs), [HASH], CString(f.body));
  }
}
