/**
 The C bridge: one engine instance behind pgl_open, pgl_exec, pgl_exec_wire,
 pgl_exec_wire_alloc and pgl_close, and the sticky flag that keeps a trapped engine from
 being entered again.
 */
module Bridge {
  import opened Bytes
  import opened Framing
  import opened Pump
  import opened ReplyText
  import Wire

  const CMA_ZONE_BYTES := 12582912

  // ---------- values ----------

  /** The flag, the guest memory and every guest call made so far. */
  datatype Session = Session(dead: bool, mem: seq<Byte>, calls: seq<GuestCall>)

  /**
   What the engine does during one exchange: its two preparatory calls, guest memory behind
   the first of them, its ticks, and guest memory at the end.
   */
  datatype Engine = Engine(useWire: Call<()>, used: seq<Byte>, publish: Call<()>, ticks: Ticks, left: seq<Byte>)

  /** Guest memory holds the communication zone, and nothing the engine delivers stops the search for ReadyForQuery. */
  ghost predicate EngineOk(e: Engine) {
    && |e.used| >= CMA_ZONE_BYTES && |e.left| >= CMA_ZONE_BYTES
    && forall n: nat :: Searchable(Frames(Gathered(e.ticks, n)))
  }

  predicate Rejected(payload: seq<Byte>) {
    |payload| == 0 || |payload| > CMA_ZONE_BYTES / 2
  }

  /** Guest memory with the request copied in behind its first byte. */
  function WithRequest(mem: seq<Byte>, payload: seq<Byte>): seq<Byte> {
    if 1 + |payload| <= |mem| then WriteAt(mem, 1, payload) else mem
  }

  datatype Exchanged = Exchanged(after: Session, reply: Option<seq<Byte>>)

  function AfterExchange(s: Session, payload: seq<Byte>, e: Engine): Exchanged {
    if s.dead || Rejected(payload) then Exchanged(s, None)
    else if e.useWire.Trapped? then
      Exchanged(Session(true, e.used, s.calls + [UseWire]), None)
    else if e.publish.Trapped? then
      Exchanged(Session(true, e.left, s.calls + [UseWire, Publish(WithRequest(e.used, payload), |payload|)]), None)
    else
      var pumped := Pumped(e.ticks, 0, 0, []);
      var calls := s.calls + [UseWire, Publish(WithRequest(e.used, payload), |payload|)]
                   + TicksCalls(e.ticks, pumped.ticks);
      if pumped.Died? then Exchanged(Session(true, e.left, calls), None)
      else Exchanged(Session(false, e.left, calls), Some(pumped.bytes))
  }

  /** The 'Q' message of pgl_exec: strlen measures the statement, and the length word has 32 bits. */
  function QueryMessage(sql: seq<Byte>): seq<Byte> {
    [81] + Be32((4 + StrLen(sql) + 1) % TWO_32) + (CString(sql) + [0])
  }

  /** "CHECKPOINT" */
  function Checkpoint(): seq<Byte> {
    [67, 72, 69, 67, 75, 80, 79, 73, 78, 84]
  }

  datatype Op =
    | Exec(sql: seq<Byte>)
    | ExecWire(payload: seq<Byte>)
    | ExecWireAlloc(payload: seq<Byte>)
    | Close

  function Payload(op: Op): seq<Byte> {
    match op
    case Exec(sql) => QueryMessage(sql)
    case ExecWire(p) => p
    case ExecWireAlloc(p) => p
    case Close => QueryMessage(Checkpoint())
  }

  function Step(s: Session, op: Op, e: Engine): Exchanged {
    AfterExchange(s, Payload(op), e)
  }

  datatype Event = Event(op: Op, engine: Engine)

  /** The state behind a run of calls. */
  function Run(s: Session, es: seq<Event>): Session {
    if es == [] then s
    else
      var n := |es| - 1;
      Step(Run(s, es[..n]), es[n].op, es[n].engine).after
  }

  // ---------- a dead engine is never entered ----------

  /** The engine traps while it serves this payload. */
  predicate Kills(payload: seq<Byte>, e: Engine) {
    !Rejected(payload) &&
    (e.useWire.Trapped? || e.publish.Trapped? || Pumped(e.ticks, 0, 0, []).Died?)
  }

  /** There is no reply exactly when the engine was dead, the payload was refused, or the engine trapped. */
  lemma NoReplyIff(s: Session, payload: seq<Byte>, e: Engine)
    ensures var r := AfterExchange(s, payload, e);
            && (r.reply.None? <==> s.dead || Rejected(payload) || Kills(payload, e))
            && (r.after.dead <==> s.dead || Kills(payload, e))
            && (r.after.calls == s.calls <==> s.dead || Rejected(payload))
            && (s.dead || Rejected(payload) ==> r.after == s)
  {
    hide Pumped;
    var r := AfterExchange(s, payload, e);
    if !s.dead && !Rejected(payload) {
      assert r.after.calls[|s.calls|] == UseWire;
    }
  }

  /** Only payloads of 1 to 6291456 bytes, half the zone, are sent. */
  lemma RejectedIff(payload: seq<Byte>)
    ensures Rejected(payload) <==> |payload| == 0 || |payload| > 6291456
  {
  }

  /**
   A served payload is what the engine finds from the second byte of its memory on, with nothing
   else changed, and the reply is what it then delivered.
   */
  lemma ServedExchange(s: Session, payload: seq<Byte>, e: Engine)
    requires !s.dead && !Rejected(payload) && !Kills(payload, e) && EngineOk(e)
    ensures var r := AfterExchange(s, payload, e);
            var n := Pumped(e.ticks, 0, 0, []).ticks;
            && r.reply == Some(Gathered(e.ticks, n))
            && r.after.calls == s.calls + [UseWire, Publish(e.used[..1] + payload + e.used[1 + |payload|..], |payload|)]
                                + TicksCalls(e.ticks, n)
            && Running(e.ticks, n) && Stops(e.ticks, n)
  {
    hide Pumped, Running, Stops, Gathered, Deliveries, Drained, Searchable;
    PumpedEnds(e.ticks);
  }

  /**
   The reply, told by what the guest calls did: tick by tick, what lay in the channel and then what
   was in the spill file, nothing lost and nothing twice.
   */
  lemma ReplyTold(s: Session, payload: seq<Byte>, e: Engine)
    requires AfterExchange(s, payload, e).reply.Some?
    ensures exists parts: seq<seq<Byte>> ::
              && |parts| == Pumped(e.ticks, 0, 0, []).ticks
              && AfterExchange(s, payload, e).reply == Some(Flatten(parts))
              && forall i :: 0 <= i < |parts| ==>
                   parts[i] ==
                   if i >= |e.ticks| then []
                   else
                     (if e.ticks[i].read.Returned? && e.ticks[i].read.value > 0
                         && e.ticks[i].channel.Returned? && 0 < e.ticks[i].channel.value < 0x8000_0000
                         && e.ticks[i].channel.value + e.ticks[i].read.value <= |e.ticks[i].mem|
                      then e.ticks[i].mem[e.ticks[i].channel.value..e.ticks[i].channel.value + e.ticks[i].read.value]
                      else [])
                     + (match e.ticks[i].file
                        case Some(spilled) => spilled
                        case None => [])
  {
    hide Pumped, NotReadyBefore, NotPausedBefore, Alive, Stops, Gathered, Deliveries, Drained, Flatten;
    PumpedEnds(e.ticks);
    GatheredTold(e.ticks, Pumped(e.ticks, 0, 0, []).ticks);
  }

  /** Over any run of calls, the first one that kills the engine is the last one that enters it. */
  lemma {:induction false} DeadStaysSilent(s: Session, es: seq<Event>)
    requires s.dead
    ensures Run(s, es) == s
  {
    if es != [] {
      DeadStaysSilent(s, es[..|es| - 1]);
    }
  }

  lemma {:induction false} RunAppend(s: Session, a: seq<Event>, b: seq<Event>)
    ensures Run(s, a + b) == Run(Run(s, a), b)
  {
    hide Step;
    if b == [] {
      assert a + b == a;
    } else {
      var n := |b| - 1;
      assert (a + b)[..|a + b| - 1] == a + b[..n];
      RunAppend(s, a, b[..n]);
    }
  }

  ghost predicate AnyKills(es: seq<Event>) {
    exists i :: 0 <= i < |es| && Kills(Payload(es[i].op), es[i].engine)
  }

  /** The engine is dead behind a run exactly if some call of the run killed it. */
  lemma {:induction false} DeadIff(s: Session, es: seq<Event>)
    requires !s.dead
    ensures Run(s, es).dead <==> AnyKills(es)
  {
    hide Kills, Payload, AfterExchange;
    if es != [] {
      var n := |es| - 1;
      DeadIff(s, es[..n]);
      var last := es[n];
      NoReplyIff(Run(s, es[..n]), Payload(last.op), last.engine);
      AnyKillsSnoc(es);
    }
  }

  lemma AnyKillsSnoc(es: seq<Event>)
    requires es != []
    ensures AnyKills(es) <==> AnyKills(es[..|es| - 1]) || Kills(Payload(es[|es| - 1].op), es[|es| - 1].engine)
  {
    hide Kills, Payload;
    var n := |es| - 1;
    if AnyKills(es) {
      var i :| 0 <= i < |es| && Kills(Payload(es[i].op), es[i].engine);
      if i < n {
        assert es[..n][i] == es[i];
      }
    }
    if AnyKills(es[..n]) {
      var i :| 0 <= i < n && Kills(Payload(es[..n][i].op), es[..n][i].engine);
      assert es[i] == es[..n][i];
    }
  }

  /** Everything behind the call that killed the engine leaves the whole state alone and gets no reply. */
  lemma SilentAfterDeath(s: Session, before: seq<Event>, killer: Event, later: seq<Event>, next: Event)
    requires !Run(s, before).dead && Kills(Payload(killer.op), killer.engine)
    ensures Run(s, before + [killer] + later) == Run(s, before + [killer])
    ensures Step(Run(s, before + [killer] + later), next.op, next.engine) == Exchanged(Run(s, before + [killer]), None)
  {
    hide Kills, Payload, AfterExchange;
    var dying := before + [killer];
    assert dying[..|before|] == before;
    NoReplyIff(Run(s, before), Payload(killer.op), killer.engine);
    RunAppend(s, dying, later);
    DeadStaysSilent(Run(s, dying), later);
    NoReplyIff(Run(s, dying), Payload(next.op), next.engine);
  }

  /** A statement is refused only for its size up to its first NUL; one that is sent is one whole frame. */
  lemma QueryMessageFrames(sql: seq<Byte>)
    ensures Rejected(QueryMessage(sql)) <==> |CString(sql)| > 6291450
    ensures !Rejected(QueryMessage(sql)) ==>
              && QueryMessage(sql) == Encode(Frame(Wire.QUERY, Wire.CStringBytes(CString(sql))))
              && Frames(QueryMessage(sql)) == [Frame(Wire.QUERY, CString(sql) + [0])]
              && Leftover(QueryMessage(sql)) == []
  {
    hide HasFrame, CString, Frames, QueryMessage, Encode;
    QuerySize(sql);
    if !Rejected(QueryMessage(sql)) {
      QueryIsFrame(sql);
      var rest: seq<Byte> := [];
      NoMoreFrames(rest);
      var f := Frame(Wire.QUERY, CString(sql) + [0]);
      FramesOfCons(f, rest);
      assert Encode(f) + rest == Encode(f);
      assert [f] + Frames(rest) == [f];
    }
  }

  lemma QuerySize(sql: seq<Byte>)
    ensures |QueryMessage(sql)| == 6 + |CString(sql)|
  {
    hide Be32;
    CutAtNul(sql);
  }

  lemma QueryIsFrame(sql: seq<Byte>)
    requires |CString(sql)| + 5 < TWO_32
    ensures QueryMessage(sql) == Encode(Frame(Wire.QUERY, CString(sql) + [0]))
  {
    hide Be32, CString, StrLen;
    CutAtNul(sql);
  }

  lemma CutAtNul(sql: seq<Byte>)
    ensures |CString(sql)| == StrLen(sql)
    ensures CString(sql) == sql <==> 0 !in sql
  {
    if 0 !in sql {
      assert StrLen(sql) == |sql|;
    }
  }

  lemma CheckpointGoesOut()
    ensures !Rejected(Payload(Op.Close)) && QueryMessage(Checkpoint()) == Payload(Op.Close)
  {
    hide StrLen;
    QueryMessageFrames(Checkpoint());
    CutAtNul(Checkpoint());
  }

  /** The C and the Swift side build the same message exactly for statements without a NUL. */
  lemma SameQueryIff(sql: seq<Byte>)
    requires |sql| + 5 < TWO_32
    ensures QueryMessage(sql) == Encode(Frame(Wire.QUERY, Wire.CStringBytes(sql))) <==> 0 !in sql
  {
    hide CString, Be32;
    CutAtNul(sql);
    assert |QueryMessage(sql)| == 6 + |CString(sql)|;
    if 0 in sql {
      assert StrLen(sql) < |sql|;
    }
  }

  /** What the calls send: raw payloads as they are, and on closing the statement CHECKPOINT. */
  lemma PayloadTold(payload: seq<Byte>)
    ensures Payload(ExecWire(payload)) == payload && Payload(ExecWireAlloc(payload)) == payload
    ensures Frames(Payload(Op.Close)) ==
            [Frame('Q' as int, ['C' as int, 'H' as int, 'E' as int, 'C' as int, 'K' as int, 'P' as int, 'O' as int,
                                'I' as int, 'N' as int, 'T' as int, 0])]
  {
    hide Frames, StrLen, QueryMessage;
    QueryMessageFrames(Checkpoint());
    CutAtNul(Checkpoint());
    CheckpointGoesOut();
    assert 0 !in Checkpoint();
    assert CString(Checkpoint()) == Checkpoint();
    assert Checkpoint() + [0] == [67, 72, 69, 67, 75, 80, 79, 73, 78, 84, 0];
  }

  // ---------- opening ----------

  /** The three calls that boot the engine. */
  datatype Boot = Boot(start: Call<()>, initDb: Call<()>, backend: Call<()>)

  function BootCalls(b: Boot): seq<GuestCall> {
    if b.start.Trapped? then [Start]
    else if b.initDb.Trapped? then [Start, InitDb]
    else [Start, InitDb, Backend]
  }

  predicate BootFails(b: Boot) {
    b.start.Trapped? || b.initDb.Trapped? || b.backend.Trapped?
  }

  /** A failed boot is closed at once, and closing sends CHECKPOINT unless `dead` is set. */
  function AfterBoot(mem: seq<Byte>, b: Boot, closing: Engine): Session {
    var s := Session(false, mem, BootCalls(b));
    if BootFails(b) then Step(s, Close, closing).after else s
  }

  /** The boot calls are made in their order, up to the first that traps; without one the engine is ready. */
  lemma BootTold(mem: seq<Byte>, b: Boot, closing: Engine)
    ensures b.start.Trapped? ==> BootCalls(b) == [Start]
    ensures !b.start.Trapped? && b.initDb.Trapped? ==> BootCalls(b) == [Start, InitDb]
    ensures !b.start.Trapped? && !b.initDb.Trapped? ==> BootCalls(b) == [Start, InitDb, Backend]
    ensures !b.start.Trapped? && !b.initDb.Trapped? && !b.backend.Trapped? ==>
              AfterBoot(mem, b, closing) == Session(false, mem, [Start, InitDb, Backend])
  {
    hide AfterExchange, Payload;
  }

  /**
   A trap during boot does not set `dead`: the trapped engine is entered once more, by the
   CHECKPOINT of the close that follows.
   */
  lemma BootTrapIsEnteredAgain(mem: seq<Byte>, b: Boot, closing: Engine)
    ensures AfterBoot(mem, b, closing).calls != BootCalls(b) <==> BootFails(b)
    ensures BootFails(b) ==> |AfterBoot(mem, b, closing).calls| > |BootCalls(b)|
                             && AfterBoot(mem, b, closing).calls[|BootCalls(b)|] == UseWire
  {
    hide AfterExchange, Payload, Rejected;
    CheckpointGoesOut();
    EnteredFirst(Session(false, mem, BootCalls(b)), Payload(Op.Close), closing);
  }

  lemma EnteredFirst(s: Session, payload: seq<Byte>, e: Engine)
    requires !s.dead && !Rejected(payload)
    ensures var r := AfterExchange(s, payload, e).after;
            |r.calls| > |s.calls| && r.calls[|s.calls|] == UseWire
  {
    hide Pumped, TicksCalls, Rejected;
  }

  // ---------- the growing reply buffer ----------

  /** malloc'd bytes, doubled from 4096 until they are large enough. */
  class ReplyBuffer {
    var data: array<Byte>
    var used: nat

    ghost predicate Valid()
      reads this
    {
      used <= data.Length
    }

    ghost function Contents(): seq<Byte>
      requires Valid()
      reads this, data
    {
      data[..used]
    }

    constructor ()
      ensures Valid() && fresh(data) && Contents() == []
    {
      data := new Byte[0];
      used := 0;
    }

    method Append(src: seq<Byte>)
      requires Valid()
      modifies this, data
      ensures Valid() && (data == old(data) || fresh(data))
      ensures Contents() == old(Contents()) + src
      ensures data.Length >= old(data.Length)
    {
      var need := used + |src|;
      if need > data.Length {
        var ncap := if data.Length > 0 then data.Length else 4096;
        while ncap < need
          invariant ncap > 0
          decreases need - ncap
        {
          ncap := ncap * 2;
        }
        Move(ncap);
      }
      forall i | 0 <= i < |src| {
        data[used + i] := src[i];
      }
      used := need;
      assert Contents() == old(Contents()) + src;
    }

    method Move(ncap: nat)
      requires Valid() && ncap >= data.Length
      modifies this
      ensures Valid() && fresh(data) && data.Length == ncap
      ensures used == old(used) && Contents() == old(Contents())
    {
      var moved := new Byte[ncap];
      forall i | 0 <= i < used {
        moved[i] := data[i];
      }
      data := moved;
    }
  }

  // ---------- the bridge object ----------

  class Db {
    var dead: bool
    var mem: seq<Byte>
    ghost var calls: seq<GuestCall>

    ghost function Value(): Session
      reads this
    {
      Session(dead, mem, calls)
    }

    /** The boot part of pgl_open. */
    constructor Open(memory: seq<Byte>, b: Boot, closing: Engine)
      requires EngineOk(closing)
      requires var r := Step(Session(false, memory, BootCalls(b)), Op.Close, closing).reply;
               r.Some? ==> Renderable(r.value)
      ensures Value() == AfterBoot(memory, b, closing)
    {
      hide AfterExchange, Payload, Printable;
      dead := false;
      mem := memory;
      calls := [Start];
      new;
      if !b.start.Trapped? {
        calls := calls + [InitDb];
        if !b.initDb.Trapped? {
          calls := calls + [Backend];
        }
      }
      assert calls == BootCalls(b);
      if b.start.Trapped? || b.initDb.Trapped? || b.backend.Trapped? {
        this.Close(closing);
      }
    }

    /** Reply bytes from the channel, then from the spill file. Negative means the engine died. */
    method Drain(t: Tick, buf: ReplyBuffer) returns (gotAny: int)
      requires TickOk(t) && buf.Valid()
      modifies this`calls, buf, buf.data
      ensures buf.Valid() && (buf.data == old(buf.data) || fresh(buf.data))
      ensures calls == old(calls) + DrainCalls(t)
      ensures gotAny < 0 <==> FromChannel(t).None?
      ensures gotAny >= 0 ==> buf.Contents() == old(buf.Contents()) + (FromChannel(t).value + FromFile(t))
      ensures gotAny >= 0 ==> (gotAny > 0 <==> FromChannel(t).value + FromFile(t) != [])
    {
      gotAny := 0;
      calls := calls + [Read];
      if t.read.Trapped? {
        return -1;
      }
      var wsize := if t.read.Returned? then t.read.value else 0;
      ghost var channel: seq<Byte> := [];
      if wsize > 0 {
        calls := calls + [Channel];
        if t.channel.Trapped? {
          return -1;
        }
        var ch := if t.channel.Returned? then t.channel.value else 0;
        if Signed32(ch) > 0 && ch + wsize <= |t.mem| {
          channel := t.mem[ch..ch + wsize];
          buf.Append(t.mem[ch..ch + wsize]);
          gotAny := 1;
        }
        calls := calls + [Reset];
        if t.reset.Trapped? {
          return -1;
        }
      }
      assert FromChannel(t) == Some(channel);
      assert buf.Contents() == old(buf.Contents()) + channel;
      if t.file.Some? && |t.file.value| > 0 {
        buf.Append(t.file.value);
        gotAny := 1;
      }
      Assoc(old(buf.Contents()), channel, FromFile(t));
    }

    /** One turn of the pump's loop. */
    method Tick(t: Tick, buf: ReplyBuffer) returns (got: int)
      requires TickOk(t) && buf.Valid()
      modifies this`calls, buf, buf.data
      ensures buf.Valid() && (buf.data == old(buf.data) || fresh(buf.data))
      ensures calls == old(calls) + TickCalls(t)
      ensures got < 0 <==> Drained(t).None?
      ensures got >= 0 ==> buf.Contents() == old(buf.Contents()) + Drained(t).value
      ensures got >= 0 ==> (got > 0 <==> Drained(t).value != [])
    {
      hide FromChannel, DrainCalls;
      calls := calls + [One];
      if t.one.Trapped? {
        return -1;
      }
      calls := calls + [Flush];
      if t.flush.Trapped? {
        return -1;
      }
      assert calls == old(calls) + [One, Flush];
      got := Drain(t, buf);
      Assoc(old(calls), [One, Flush], DrainCalls(t));
    }

    /** The loop of exchange, once the request is published. None means the engine died. */
    method PumpReply(e: Engine) returns (reply: Option<seq<Byte>>)
      requires EngineOk(e)
      modifies this`calls, this`dead
      ensures var r := Pumped(e.ticks, 0, 0, []);
              && calls == old(calls) + TicksCalls(e.ticks, r.ticks)
              && reply == (if r.Died? then None else Some(r.bytes))
              && dead == (old(dead) || r.Died?)
    {
      hide Ready, Drained, TickCalls, TicksCalls, Pumped, Gathered;
      var buf := new ReplyBuffer();
      var idle, i := 0, 0;
      NoTicks(e.ticks);
      while idle < 10
        invariant 0 <= idle <= 10 && 0 <= i
        invariant buf.Valid() && fresh(buf) && fresh(buf.data)
        invariant Pumped(e.ticks, 0, 0, []) == Pumped(e.ticks, i, idle, buf.Contents())
        invariant buf.Contents() == Gathered(e.ticks, i)
        invariant calls == old(calls) + TicksCalls(e.ticks, i)
        invariant dead == old(dead)
        decreases if i < |e.ticks| then |e.ticks| - i else 0, 10 - idle
      {
        assert Searchable(Frames(Gathered(e.ticks, i)));
        var ready := HasReadyForQuery(buf.data, buf.used);
        PumpedUnfolds(e.ticks, i, idle, buf.Contents());
        if ready {
          break;
        }
        TicksCallsSnoc(e.ticks, i, old(calls));
        var got := Tick(TickAt(e.ticks, i), buf);
        if got < 0 {
          dead := true;
          return None;
        }
        idle := if got > 0 then 0 else idle + 1;
        i := i + 1;
      }
      PumpedUnfolds(e.ticks, i, idle, buf.Contents());
      reply := Some(buf.data[..buf.used]);
    }

    /** Send one client message; tick until ReadyForQuery or quiescence. */
    method Exchange(payload: seq<Byte>, e: Engine) returns (reply: Option<seq<Byte>>)
      requires EngineOk(e)
      modifies this
      ensures Value() == AfterExchange(old(Value()), payload, e).after
      ensures reply == AfterExchange(old(Value()), payload, e).reply
    {
      hide Pumped, TicksCalls;
      if dead {
        return None;
      }
      if |payload| == 0 || |payload| > CMA_ZONE_BYTES / 2 {
        return None;
      }
      calls := calls + [UseWire];
      mem := e.used;
      if e.useWire.Trapped? {
        dead := true;
        return None;
      }
      mem := WriteAt(mem, 1, payload);
      calls := calls + [Publish(mem, |payload|)];
      assert calls == old(calls) + [UseWire, Publish(WithRequest(e.used, payload), |payload|)];
      mem := e.left;
      if e.publish.Trapped? {
        dead := true;
        return None;
      }
      reply := PumpReply(e);
    }

    /** The rest of pgl_exec's contract is about the caller's buffer. */
    method Exec(sql: seq<Byte>, e: Engine, out: array<Byte>) returns (rc: int, ghost used: nat)
      requires EngineOk(e)
      requires var r := Step(Value(), Op.Exec(sql), e).reply;
               r.Some? ==> out.Length > 0 && Renderable(r.value)
      modifies this, out
      ensures Value() == Step(old(Value()), Op.Exec(sql), e).after
      ensures var r := Step(old(Value()), Op.Exec(sql), e).reply;
              && (r.None? ==> rc == -2 && (out.Length > 0 ==> HoldsText(out, 0, [])))
              && (r.Some? ==> rc == (if HasError(Frames(r.value)) then -1 else 0)
                              && HoldsText(out, used, Rendered(Frames(r.value))))
    {
      hide AfterExchange, Rendered, Printable, HasError;
      used := 0;
      if out.Length > 0 {
        out[0] := 0;
        assert HoldsText(out, 0, []);
      }
      var reply := SimpleQuery(sql, e);
      if reply.None? {
        return -2, 0;
      }
      rc, used := RenderReply(reply.value, out);
    }

    method SimpleQuery(sql: seq<Byte>, e: Engine) returns (reply: Option<seq<Byte>>)
      requires EngineOk(e)
      modifies this
      ensures Value() == Step(old(Value()), Op.Exec(sql), e).after
      ensures reply == Step(old(Value()), Op.Exec(sql), e).reply
    {
      hide AfterExchange;
      var n := StrLen(sql) + 1;
      var msg := [81] + Be32((4 + n) % TWO_32) + (sql[..n - 1] + [0]);
      reply := Exchange(msg, e);
    }

    /** Copies as much of the reply as fits and says how much that was. */
    method ExecWire(payload: seq<Byte>, e: Engine, out: array<Byte>) returns (n: int)
      requires EngineOk(e)
      modifies this, out
      ensures Value() == Step(old(Value()), Op.ExecWire(payload), e).after
      ensures var r := Step(old(Value()), Op.ExecWire(payload), e).reply;
              && (r.None? ==> n == -1 && out[..] == old(out[..]))
              && (r.Some? ==> n == Min(|r.value|, out.Length)
                              && out[..n] == r.value[..n] && out[n..] == old(out[n..]))
    {
      hide AfterExchange;
      var reply := Exchange(payload, e);
      if reply.None? {
        return -1;
      }
      n := Min(|reply.value|, out.Length);
      forall i | 0 <= i < n {
        out[i] := reply.value[i];
      }
    }

    /** Hands the whole reply to the caller. */
    method ExecWireAlloc(payload: seq<Byte>, e: Engine) returns (out: Option<seq<Byte>>)
      requires EngineOk(e)
      modifies this
      ensures Value() == Step(old(Value()), Op.ExecWireAlloc(payload), e).after
      ensures out == Step(old(Value()), Op.ExecWireAlloc(payload), e).reply
    {
      hide AfterExchange;
      out := Exchange(payload, e);
    }

    /** pgl_close of an instantiated database: checkpoint unless the engine is dead. */
    method Close(e: Engine)
      requires EngineOk(e)
      requires var r := Step(Value(), Op.Close, e).reply;
               r.Some? ==> Renderable(r.value)
      modifies this
      ensures Value() == Step(old(Value()), Op.Close, e).after
    {
      hide AfterExchange, QueryMessage, Printable;
      DeadIsLeft(Value(), Payload(Op.Close), e);
      if !dead {
        var scratch := new Byte[256];
        var rc, used := Exec(Checkpoint(), e, scratch);
      }
    }
  }

  lemma DeadIsLeft(s: Session, payload: seq<Byte>, e: Engine)
    ensures s.dead ==> AfterExchange(s, payload, e).after == s
  {
  }

  lemma NoTicks(ts: Ticks)
    ensures Gathered(ts, 0) == [] && TicksCalls(ts, 0) == []
  {
  }

  lemma PumpedUnfolds(ts: Ticks, i: nat, idle: nat, acc: seq<Byte>)
    requires idle <= 10
    ensures Ready(acc) <==> ContainsReady(Frames(acc))
    ensures idle == 10 || Ready(acc) ==> Pumped(ts, i, idle, acc) == Replied(acc, i)
    ensures i >= |ts| ==> Drained(TickAt(ts, i)) == Some([])
    ensures idle < 10 && !Ready(acc) ==>
              Pumped(ts, i, idle, acc) ==
              match Drained(TickAt(ts, i))
              case None => Died(i + 1)
              case Some(b) => Pumped(ts, i + 1, if b == [] then idle + 1 else 0, acc + b)
    ensures Gathered(ts, i + 1) == Gathered(ts, i) + Delivered(ts, i)
    ensures Drained(TickAt(ts, i)).Some? ==> Drained(TickAt(ts, i)).value == Delivered(ts, i)
  {
    hide Drained;
    SilentTick(ts, i);
  }

  lemma TicksCallsSnoc(ts: Ticks, i: nat, before: seq<GuestCall>)
    ensures before + TicksCalls(ts, i + 1) == before + TicksCalls(ts, i) + TickCalls(TickAt(ts, i))
  {
    hide TickCalls;
    Assoc(before, TicksCalls(ts, i), TickCalls(TickAt(ts, i)));
  }
}
