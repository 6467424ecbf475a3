/**
 An ErrorResponse is read twice in the program: by pgl_exec, which prints one line of it, and
 by the Swift decoder, which keeps a map of its fields. This module compares the two.
 */
module ErrorAgreement {
  import opened Bytes
  import opened Utf8
  import opened Wire
  import opened Decode
  import opened ReplyText

  /** Where the Swift decoder stops: at the final NUL, or at a field without readable text. */
  function StopAt(body: seq<Byte>, off: nat): nat
    decreases |body| - off
  {
    if off >= |body| || body[off] == 0 then off
    else
      var text := TextAt(body, off + 1);
      if text.None? then off else StopAt(body, off + 2 + |text.value|)
  }

  function Kept(m: Fields, kind: Byte, width: nat): seq<Byte> {
    if kind in m then Take(m[kind], width) else []
  }

  /** What the line keeps of a map of fields: severity, message and code, cut to their widths. */
  function PartsOf(m: Fields): ErrorParts {
    ErrorParts(Kept(m, 83, 63), Kept(m, 77, 511), Kept(m, 67, 15))
  }

  lemma {:induction false} StrLenFindsNul(body: seq<Byte>, off: nat)
    requires off <= |body|
    ensures var l := StrLen(body[off..]);
            NulFrom(body, off) == if off + l < |body| then Some(off + l) else None
    decreases |body| - off
  {
    if off < |body| && body[off] != 0 {
      assert body[off..][1..] == body[off + 1..];
      StrLenFindsNul(body, off + 1);
    }
  }

  /** One field that both readers take in. */
  lemma OneField(body: seq<Byte>, off: nat, e: ErrorParts)
    requires off < |body| && body[off] != 0 && TextAt(body, off + 1).Some?
    ensures var text := TextAt(body, off + 1).value;
            ErrorFieldsFrom(body, off, e) ==
            ErrorFieldsFrom(body, off + 2 + |text|, WithField(e, body[off], text))
  {
    hide NulFrom, StrLen, WithField, IsUtf8;
    StrLenFindsNul(body, off + 1);
  }

  lemma FieldAdds(m: Fields, kind: Byte, text: seq<Byte>)
    ensures PartsOf(m[kind := text]) == WithField(PartsOf(m), kind, text)
  {
  }

  lemma {:induction false} ReadersAgree(body: seq<Byte>, off: nat, m: Fields)
    ensures ErrorFieldsFrom(body, off, PartsOf(m)) ==
            ErrorFieldsFrom(body, StopAt(body, off), PartsOf(FieldsFrom(body, off, m)))
    decreases |body| - off
  {
    hide ErrorFieldsFrom, WithField, PartsOf, TextAt;
    if off < |body| && body[off] != 0 && TextAt(body, off + 1).Some? {
      var text := TextAt(body, off + 1).value;
      OneField(body, off, PartsOf(m));
      FieldAdds(m, body[off], text);
      ReadersAgree(body, off + 2 + |text|, m[body[off] := text]);
    }
  }

  // ---------- what the C code reads behind that point ----------

  /** The fields the C loop meets from off on, the last of a kind winning; text may break off at the end. */
  function Behind(body: seq<Byte>, off: nat, m: Fields): Fields
    decreases |body| - off
  {
    if off >= |body| || body[off] == 0 then m
    else
      var l := StrLen(body[off + 1..]);
      Behind(body, off + 2 + l, m[body[off] := body[off + 1..off + 1 + l]])
  }

  /** e with the fields of m in the place of its own. */
  function Override(e: ErrorParts, m: Fields): ErrorParts {
    ErrorParts(
      if 83 in m then Take(m[83], 63) else e.severity,
      if 77 in m then Take(m[77], 511) else e.message,
      if 67 in m then Take(m[67], 15) else e.code)
  }

  lemma OverrideAdds(e: ErrorParts, m: Fields, kind: Byte, text: seq<Byte>)
    ensures Override(e, m[kind := text]) == WithField(Override(e, m), kind, text)
  {
  }

  lemma {:induction false} LoopOverrides(body: seq<Byte>, off: nat, e: ErrorParts, m: Fields)
    ensures ErrorFieldsFrom(body, off, Override(e, m)) == Override(e, Behind(body, off, m))
    decreases |body| - off
  {
    if off < |body| && body[off] != 0 {
      hide Override, WithField, StrLen;
      var l := StrLen(body[off + 1..]);
      var text := body[off + 1..off + 1 + l];
      OverrideAdds(e, m, body[off], text);
      LoopOverrides(body, off + 2 + l, e, m[body[off] := text]);
    }
  }

  /** Nothing in m would change what the line keeps. */
  predicate AddsNothing(e: ErrorParts, m: Fields) {
    && (83 in m ==> Take(m[83], 63) == e.severity)
    && (77 in m ==> Take(m[77], 511) == e.message)
    && (67 in m ==> Take(m[67], 15) == e.code)
  }

  /**
   For every body, pgl_exec and the Swift decoder find the same severity, message and code, at the
   width of the line, exactly if the fields behind the one at which the decoder gives up, because
   its text is not UTF-8 or breaks off without a NUL, add nothing to those before it: the C code
   reads them too. The line is made of both.
   */
  lemma ErrorLineAgrees(body: seq<Byte>)
    ensures var parts := PartsOf(FieldsFrom(body, 0, map[]));
            var behind := Behind(body, StopAt(body, 0), map[]);
            && ErrorText(body) == ErrorLine(Override(parts, behind))
            && (ErrorFieldsFrom(body, 0, ErrorParts([], [], [])) == parts <==> AddsNothing(parts, behind))
            && (AddsNothing(parts, behind) ==> ErrorText(body) == ErrorLine(parts))
  {
    hide FieldsFrom, StopAt, WithField, ErrorLine, Behind, ErrorFieldsFrom;
    ReadersAgree(body, 0, map[]);
    LoopOverrides(body, StopAt(body, 0), PartsOf(FieldsFrom(body, 0, map[])), map[]);
  }

  /** Where the decoder reads to the end there is nothing behind. */
  lemma NothingBehind(body: seq<Byte>)
    requires StopAt(body, 0) >= |body| || body[StopAt(body, 0)] == 0
    ensures Behind(body, StopAt(body, 0), map[]) == map[]
  {
    hide StopAt;
  }

  /** A severity of one byte that is not UTF-8: pgl_exec prints it, the Swift decoder does not see it. */
  lemma UnreadableSeverity()
    ensures var body: seq<Byte> := [83, 255, 0, 0];
            ErrorText(body) != ErrorLine(PartsOf(FieldsFrom(body, 0, map[])))
  {
    var body: seq<Byte> := [83, 255, 0, 0];
    hide IsUtf8, TextAt, NulFrom;
    NotText();
    assert StopAt(body, 0) == 0 && FieldsFrom(body, 0, map[]) == map[];
    assert body[1..] == [255, 0, 0] && body[1..][1..] == [0, 0];
    assert StrLen(body[1..][1..]) == 0 && StrLen(body[1..]) == 1;
    assert body[1..2] == [255];
    assert ErrorFieldsFrom(body, 0, ErrorParts([], [], [])) == ErrorParts([255], [], []);
    assert ErrorLine(ErrorParts([255], [], []))[0] == 255;
    assert ErrorLine(ErrorParts([], [], []))[0] == 58;
  }

  lemma NotText()
    ensures TextAt([83, 255, 0, 0], 1) == None
  {
    var body: seq<Byte> := [83, 255, 0, 0];
    assert NulFrom(body, 2) == Some(2);
    assert body[1..2] == [255];
  }

  lemma StopUnfold(body: seq<Byte>, off: nat)
    requires off < |body|
    ensures body[off] == 0 ==> StopAt(body, off) == off
    ensures body[off] != 0 && TextAt(body, off + 1).Some? ==>
              StopAt(body, off) == StopAt(body, off + 2 + |TextAt(body, off + 1).value|)
  {
  }

  lemma {:induction false} EncodedStops(a: seq<Byte>, fs: seq<Field>)
    requires forall f :: f in fs ==> f.kind != 0 && 0 !in f.text && IsUtf8(f.text)
    ensures var body := a + (AllFieldBytes(fs) + [0]);
            StopAt(body, |a|) == |body| - 1 && body[|body| - 1] == 0
    decreases |fs|
  {
    hide TextAt, CStringBytes, IsUtf8, StopAt;
    StopUnfold(a + (AllFieldBytes(fs) + [0]), |a|);
    if fs != [] {
      hide AllFieldBytes;
      var f := fs[0];
      FieldSplit(a, fs);
      TextBack(a + [f.kind], f.text, AllFieldBytes(fs[1..]) + [0]);
      EncodedStops(a + [f.kind] + CStringBytes(f.text), fs[1..]);
    }
  }

  /** An encoded error is printed with the last severity, message and code among its fields. */
  lemma EncodedErrorLine(fs: seq<Field>)
    requires forall f :: f in fs ==> f.kind != 0 && 0 !in f.text && IsUtf8(f.text)
    ensures ErrorText(AllFieldBytes(fs) + [0]) == ErrorLine(PartsOf(FieldMap(fs, map[])))
  {
    hide ErrorText, ErrorLine, StopAt, FieldsFrom, AllFieldBytes, IsUtf8, PartsOf, Behind;
    var body := AllFieldBytes(fs) + [0];
    assert [] + body == body;
    EncodedStops([], fs);
    ErrorFieldsReadBack(fs);
    ErrorLineAgrees(body);
    NothingBehind(body);
  }
}
