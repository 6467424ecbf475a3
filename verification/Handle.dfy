/**
 The Swift handle on the bridge. It gives the database up, for good, as soon as the bridge
 returns no reply, whether the engine trapped or merely refused the request for its size.
 */
module Handle {
  import opened Bytes
  import opened Framing
  import opened ReplyText
  import opened Bridge

  const TEXT_BYTES := 1048576

  datatype State = State(open: bool, session: Session)

  datatype Answer = Text(text: seq<Byte>) | SqlError(message: seq<Byte>) | Wire(bytes: seq<Byte>) | EngineDead | Closed

  datatype Request = Query(sql: seq<Byte>) | Raw(payload: seq<Byte>) | CloseIt

  /** A request, what the engine does with it, and what it would do with a CHECKPOINT behind it. */
  datatype Call = Call(request: Request, engine: Engine, closing: Engine)

  function OpOf(r: Request): Op
    requires !r.CloseIt?
  {
    if r.Query? then Op.Exec(r.sql) else Op.ExecWireAlloc(r.payload)
  }

  function AfterClose(h: State, closing: Engine): State {
    if h.open then State(false, Step(h.session, Op.Close, closing).after) else h
  }

  function AfterCall(h: State, c: Call): State {
    if !h.open then h
    else if c.request.CloseIt? then AfterClose(h, c.closing)
    else
      var r := Step(h.session, OpOf(c.request), c.engine);
      if r.reply.Some? then State(true, r.after) else AfterClose(State(true, r.after), c.closing)
  }

  /** What the caller gets back, given the reply of the bridge. */
  predicate Answers(h: State, c: Call, a: Answer) {
    if c.request.CloseIt? then a == Closed
    else if !h.open then a == EngineDead
    else
      var r := Step(h.session, OpOf(c.request), c.engine).reply;
      if r.None? then a == EngineDead
      else if c.request.Raw? then a == Wire(r.value)
      else
        var fs := Frames(r.value);
        Printable(fs) &&
        var text := CString(Take(Rendered(fs), TEXT_BYTES - 1));
        a == if HasError(fs) then SqlError(text) else Text(text)
  }

  function Run(h: State, cs: seq<Call>): State {
    if cs == [] then h else AfterCall(Run(h, cs[..|cs| - 1]), cs[|cs| - 1])
  }

  /** A query of an open database whose engine replies throws exactly if the reply holds an ErrorResponse. */
  lemma AnswersTold(h: State, c: Call, a: Answer)
    requires h.open && c.request.Query? && Answers(h, c, a)
    requires Step(h.session, OpOf(c.request), c.engine).reply.Some?
    ensures var fs := Frames(Step(h.session, OpOf(c.request), c.engine).reply.value);
            && (a.SqlError? <==> exists i :: 0 <= i < |fs| && fs[i].kind == 'E' as int)
            && (a.Text? <==> !exists i :: 0 <= i < |fs| && fs[i].kind == 'E' as int)
            && (Printable(fs) ==>
                  var text := CString(Take(Rendered(fs), 1048575)); a == SqlError(text) || a == Text(text))
  {
    hide AfterExchange, Rendered, Printable, Frames;
  }

  /** The request is one the bridge refuses, or one the engine does not survive. */
  predicate Fatal(c: Call) {
    c.request.CloseIt? || Rejected(Payload(OpOf(c.request))) || Kills(Payload(OpOf(c.request)), c.engine)
  }

  ghost predicate AnyFatal(cs: seq<Call>) {
    exists i :: 0 <= i < |cs| && Fatal(cs[i])
  }

  lemma CallUnfolds(h: State, c: Call)
    requires !h.session.dead
    ensures AfterCall(h, c).open <==> h.open && !Fatal(c)
    ensures AfterCall(h, c).open ==> !AfterCall(h, c).session.dead
    ensures !h.open ==> AfterCall(h, c) == h
  {
    hide AfterExchange, Payload, Rejected, Kills;
    if h.open && !c.request.CloseIt? {
      NoReplyIff(h.session, Payload(OpOf(c.request)), c.engine);
    }
  }

  /** The database is still open behind a run of calls exactly if none of them was fatal. */
  lemma {:induction false} OpenIff(h: State, cs: seq<Call>)
    requires h.open && !h.session.dead
    ensures Run(h, cs).open <==> !AnyFatal(cs)
    ensures Run(h, cs).open ==> !Run(h, cs).session.dead
  {
    hide AfterCall, Fatal;
    if cs != [] {
      var n := |cs| - 1;
      OpenIff(h, cs[..n]);
      FatalSnoc(cs);
      if Run(h, cs[..n]).open {
        CallUnfolds(Run(h, cs[..n]), cs[n]);
      } else {
        ClosedStays(Run(h, cs[..n]), cs[n]);
      }
    }
  }

  lemma ClosedStays(h: State, c: Call)
    requires !h.open
    ensures AfterCall(h, c) == h
    ensures !c.request.CloseIt? ==> Answers(h, c, EngineDead)
  {
  }

  lemma FatalSnoc(cs: seq<Call>)
    requires cs != []
    ensures AnyFatal(cs) <==> AnyFatal(cs[..|cs| - 1]) || Fatal(cs[|cs| - 1])
  {
    hide Fatal;
    var n := |cs| - 1;
    if AnyFatal(cs) {
      var i :| 0 <= i < |cs| && Fatal(cs[i]);
      if i < n {
        assert cs[..n][i] == cs[i];
      }
    }
    if AnyFatal(cs[..n]) {
      var i :| 0 <= i < n && Fatal(cs[..n][i]);
      assert cs[i] == cs[..n][i];
    }
  }

  /**
   A refused request leaves the engine alive in the bridge, and yet costs the caller the
   database: the handle checkpoints the healthy engine and is closed.
   */
  lemma RefusedRequestCloses(h: State, c: Call)
    requires h.open && !h.session.dead && !c.request.CloseIt? && Rejected(Payload(OpOf(c.request)))
    ensures Step(h.session, OpOf(c.request), c.engine) == Exchanged(h.session, None)
    ensures AfterCall(h, c) == AfterClose(h, c.closing) && !AfterCall(h, c).open
    ensures AfterCall(h, c).session.calls != h.session.calls
  {
    hide AfterExchange, Payload, Rejected, Kills;
    NoReplyIff(h.session, Payload(OpOf(c.request)), c.engine);
    CheckpointIsSent(h.session, c.closing);
  }

  lemma CheckpointIsSent(s: Session, closing: Engine)
    requires !s.dead
    ensures Step(s, Op.Close, closing).after.calls != s.calls
  {
    hide AfterExchange, Payload, Rejected;
    CheckpointGoesOut();
    NoReplyIff(s, Payload(Op.Close), closing);
  }

  lemma {:induction false} StrLenOfBuffer(text: seq<Byte>, rest: seq<Byte>)
    ensures StrLen(text + [0] + rest) == StrLen(text)
  {
    var s := text + [0] + rest;
    assert s[|text|] == 0;
    if text != [] && text[0] != 0 {
      assert s[1..] == text[1..] + [0] + rest;
      StrLenOfBuffer(text[1..], rest);
    }
  }

  /** Whatever the engine answers to a CHECKPOINT can be printed. */
  ghost predicate ClosingOk(closing: Engine) {
    EngineOk(closing) &&
    forall s :: Step(s, Op.Close, closing).reply.Some? ==> Renderable(Step(s, Op.Close, closing).reply.value)
  }

  /** The engine's replies to a request and to the CHECKPOINT of a close can be printed. */
  ghost predicate CallOk(h: State, c: Call) {
    && EngineOk(c.engine) && ClosingOk(c.closing)
    && (h.open && c.request.Query? ==>
          var r := Step(h.session, OpOf(c.request), c.engine).reply; r.Some? ==> Renderable(r.value))
  }

  class PGlite {
    const db: Db
    var open: bool

    ghost function Value(): State
      reads this, db
    {
      State(open, db.Value())
    }

    constructor (db: Db)
      ensures this.db == db && open
    {
      this.db := db;
      open := true;
    }

    method Close(closing: Engine)
      requires ClosingOk(closing)
      modifies this, db
      ensures Value() == AfterClose(old(Value()), closing)
    {
      hide AfterExchange, Printable;
      if open {
        db.Close(closing);
      }
      open := false;
    }

    method ExecWire(c: Call) returns (a: Answer)
      requires c.request.Raw? && CallOk(Value(), c)
      modifies this, db
      ensures Value() == AfterCall(old(Value()), c) && Answers(old(Value()), c, a)
    {
      hide AfterExchange, Printable, EngineOk;
      if !open {
        return EngineDead;
      }
      var out := db.ExecWireAlloc(c.request.payload, c.engine);
      if out.None? {
        Close(c.closing);
        return EngineDead;
      }
      a := Wire(out.value);
    }

    method Query(c: Call) returns (a: Answer)
      requires c.request.Query? && CallOk(Value(), c)
      modifies this, db
      ensures Value() == AfterCall(old(Value()), c) && Answers(old(Value()), c, a)
    {
      hide AfterExchange, Printable, EngineOk, Rendered, HasError, Frames;
      if !open {
        return EngineDead;
      }
      var out := new Byte[1048576];
      var rc, used := db.Exec(c.request.sql, c.engine, out);
      if rc == -2 {
        Close(c.closing);
        return EngineDead;
      }
      var text := ReadCString(out, used);
      a := if rc == -1 then SqlError(text) else Text(text);
    }
  }

  /** String(cString:) of a buffer that holds a text. */
  method ReadCString(out: array<Byte>, ghost used: nat) returns (text: seq<Byte>)
    requires used < out.Length && out[used] == 0
    ensures text == CString(out[..used])
  {
    StrLenOfBuffer(out[..used], out[used + 1..]);
    assert out[..] == out[..used] + [0] + out[used + 1..];
    var n := StrLen(out[..]);
    text := out[..n];
  }
}
