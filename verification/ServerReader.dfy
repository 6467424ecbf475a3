/**
 The localhost server's reader: client messages collected from whatever chunks the transport
 delivers, and grouped into the batches that go to the engine as one exchange each.
 */
module ServerReader {
  import opened Bytes
  import opened Framing
  import opened Wire

  const TERMINATE: Byte := 88 // 'X'

  /** Sync, simple Query and Terminate end a batch. */
  predicate EndsBatch(kind: Byte) {
    kind == SYNC || kind == QUERY || kind == TERMINATE
  }

  // ---------- the byte stream ----------

  datatype Received = Chunk(data: seq<Byte>) | Closed | Failed

  /**
   What is still to come from a client, whether it ends in an error rather than a close, and how
   many sends to the client succeed before one throws.
   */
  class Connection {
    var incoming: seq<seq<Byte>>
    var sends: nat
    const broken: bool

    ghost function Stream(): seq<Byte>
      reads this
    {
      Flatten(incoming)
    }

    constructor (chunks: seq<seq<Byte>>, broken: bool, sends: nat)
      ensures incoming == chunks && this.broken == broken && this.sends == sends
    {
      incoming := chunks;
      this.broken := broken;
      this.sends := sends;
    }

    method Receive() returns (r: Received)
      modifies this`incoming
      ensures old(incoming) == [] ==> incoming == [] && r == if broken then Failed else Closed
      ensures old(incoming) != [] ==> r == Chunk(old(incoming)[0]) && incoming == old(incoming)[1..]
      ensures !r.Chunk? ==> Stream() == []
      ensures r.Chunk? ==> r.data + Stream() == old(Stream()) && |incoming| < |old(incoming)|
    {
      if incoming == [] {
        r := if broken then Failed else Closed;
      } else {
        r := Chunk(incoming[0]);
        incoming := incoming[1..];
      }
    }

    /** What is sent does not matter here; whether it can be does. */
    method Send() returns (threw: bool)
      modifies this`sends
      ensures threw <==> old(sends) == 0
      ensures sends == if threw then 0 else old(sends) - 1
    {
      threw := sends == 0;
      if !threw {
        sends := sends - 1;
      }
    }
  }

  /** The chunks not yet touched when `have` bytes were at hand and `need` are wanted. */
  function Left(chunks: seq<seq<Byte>>, have: nat, need: nat): (left: seq<seq<Byte>>)
    ensures |left| <= |chunks|
    ensures have < need && chunks != [] ==> |left| < |chunks|
  {
    if have >= need || chunks == [] then chunks else Left(chunks[1..], have + |chunks[0]|, need)
  }

  // ---------- what reading means, on the stream as a whole ----------

  datatype Read<T> = Got(value: T) | Nothing | Threw

  datatype Taken<T> = Taken(read: Read<T>, rest: seq<Byte>)

  datatype Message = Message(kind: Byte, body: seq<Byte>, raw: seq<Byte>)

  predicate BadLength(s: seq<Byte>) {
    |s| >= 5 && LengthWord(s) < 4
  }

  /** The reading that yields no message: end of stream, a length word below four, or an error. */
  function NoMessage<T>(s: seq<Byte>, broken: bool): Read<T> {
    if broken && !BadLength(s) then Threw else Nothing
  }

  function NextMessage(s: seq<Byte>, broken: bool): Taken<Message> {
    if HasFrame(s) then
      var f := FirstFrame(s);
      Taken(Got(Message(f.kind, f.body, s[..1 + LengthWord(s)])), AfterFirst(s))
    else Taken(NoMessage(s, broken), s)
  }

  /** The next batch of a stream s, of which `batch` has been read already. */
  function NextBatch(s: seq<Byte>, broken: bool, batch: seq<Byte>): (t: Taken<seq<Byte>>)
    ensures |t.rest| <= |s|
    ensures t.read.Got? ==> |t.rest| + |t.read.value| == |s| + |batch| && |t.read.value| > 0
    decreases |s|
  {
    var t := NextMessage(s, broken);
    match t.read
    case Got(m) =>
      if EndsBatch(m.kind) then Taken(Got(batch + m.raw), t.rest)
      else NextBatch(t.rest, broken, batch + m.raw)
    case Nothing => Taken(if batch == [] then Nothing else Got(batch), s)
    case Threw => Taken(Threw, s)
  }

  /** Every batch of a stream, read until there is none. */
  function Batches(s: seq<Byte>, broken: bool): seq<seq<Byte>>
    decreases |s|
  {
    var t := NextBatch(s, broken, []);
    if t.read.Got? then [t.read.value] + Batches(t.rest, broken) else []
  }

  /** The batches before the first that starts with Terminate. */
  function UntilTerminate(bs: seq<seq<Byte>>): seq<seq<Byte>> {
    if bs == [] || (bs[0] != [] && bs[0][0] == TERMINATE) then [] else [bs[0]] + UntilTerminate(bs[1..])
  }

  // ---------- the reader ----------

  /** Receives until `need` bytes are at hand. */
  method Fill(conn: Connection, pending: seq<Byte>, need: nat) returns (enough: Read<()>, buffered: seq<Byte>)
    modifies conn`incoming
    ensures buffered + conn.Stream() == pending + old(conn.Stream()) && |buffered| >= |pending|
    ensures enough.Got? ==> |buffered| >= need
    ensures enough.Got? ==>
              forall n :: n >= need ==> Left(old(conn.incoming), |pending|, n) == Left(conn.incoming, |buffered|, n)
    ensures !enough.Got? ==>
              conn.Stream() == [] && |buffered| < need && enough == if conn.broken then Threw else Nothing
  {
    hide Flatten;
    buffered := pending;
    while |buffered| < need
      invariant buffered + conn.Stream() == pending + old(conn.Stream()) && |buffered| >= |pending|
      invariant forall n :: n >= need ==> Left(old(conn.incoming), |pending|, n) == Left(conn.incoming, |buffered|, n)
      decreases |conn.incoming|
    {
      var r := conn.Receive();
      if !r.Chunk? {
        return if r.Failed? then Threw else Nothing, buffered;
      }
      Assoc(buffered, r.data, conn.Stream());
      buffered := buffered + r.data;
    }
    enough := Got(());
  }

  method ReadMessage(conn: Connection, pending: seq<Byte>) returns (m: Read<Message>, buffered: seq<Byte>)
    modifies conn`incoming
    ensures var t := NextMessage(pending + old(conn.Stream()), conn.broken);
            m == t.read && buffered + conn.Stream() == t.rest
    ensures m.Got? ==> conn.incoming == Left(old(conn.incoming), |pending|, |m.value.raw|)
  {
    hide HasFrame, LengthWord, Flatten;
    var enough;
    enough, buffered := Fill(conn, pending, 5);
    if !enough.Got? {
      TooShort(buffered);
      assert buffered + [] == buffered;
      return if enough.Threw? then Threw else Nothing, buffered;
    }
    var len := ReadBe32(buffered[1..5]);
    LengthStays(buffered, conn.Stream());
    if len < 4 {
      return Nothing, buffered;
    }
    enough, buffered := Fill(conn, buffered, 1 + len);
    LengthStays(buffered, conn.Stream());
    if !enough.Got? {
      TooShort(buffered);
      assert buffered + [] == buffered;
      return if enough.Threw? then Threw else Nothing, buffered;
    }
    FirstStays(buffered, conn.Stream());
    m := Got(Message(buffered[0], buffered[5..1 + len], buffered[..1 + len]));
    buffered := buffered[1 + len..];
  }

  lemma TooShort(s: seq<Byte>)
    ensures |s| < 5 ==> !HasFrame(s) && !BadLength(s)
    ensures |s| >= 5 && LengthWord(s) >= 4 && |s| < 1 + LengthWord(s) ==> !HasFrame(s) && !BadLength(s)
  {
  }

  lemma LengthStays(a: seq<Byte>, b: seq<Byte>)
    requires |a| >= 5
    ensures LengthWord(a) == LengthWord(a + b) == ReadBe32(a[1..5])
    ensures LengthWord(a) < 4 ==> BadLength(a + b) && !HasFrame(a + b)
  {
    assert (a + b)[1..5] == a[1..5];
  }

  lemma FirstStays(a: seq<Byte>, b: seq<Byte>)
    requires |a| >= 5 && LengthWord(a) >= 4 && |a| >= 1 + LengthWord(a)
    ensures HasFrame(a + b) && LengthWord(a + b) == LengthWord(a)
    ensures var n := LengthWord(a);
            && FirstFrame(a + b) == Frame(a[0], a[5..1 + n])
            && (a + b)[..1 + n] == a[..1 + n]
            && AfterFirst(a + b) == a[1 + n..] + b
  {
    LengthStays(a, b);
    var n := LengthWord(a);
    assert (a + b)[5..1 + n] == a[5..1 + n];
    assert (a + b)[1 + n..] == a[1 + n..] + b;
  }

  /** The batch and what is left depend on the bytes only, not on the chunks they arrive in. */
  method ReadBatch(conn: Connection, pending: seq<Byte>) returns (batch: Read<seq<Byte>>, buffered: seq<Byte>)
    modifies conn`incoming
    ensures var t := NextBatch(pending + old(conn.Stream()), conn.broken, []);
            batch == t.read && buffered + conn.Stream() == t.rest
  {
    hide NextMessage;
    ghost var s := pending + conn.Stream();
    var data: seq<Byte> := [];
    buffered := pending;
    while true
      invariant NextBatch(s, conn.broken, []) == NextBatch(buffered + conn.Stream(), conn.broken, data)
      decreases |buffered| + |conn.Stream()|
    {
      Shrinks(buffered + conn.Stream(), conn.broken);
      var m;
      m, buffered := ReadMessage(conn, buffered);
      match m
      case Threw =>
        return Threw, buffered;
      case Nothing =>
        return if data == [] then Nothing else Got(data), buffered;
      case Got(msg) =>
        data := data + msg.raw;
        if EndsBatch(msg.kind) {
          return Got(data), buffered;
        }
    }
  }

  lemma Shrinks(s: seq<Byte>, broken: bool)
    ensures var t := NextMessage(s, broken);
            if t.read.Got? then |t.rest| < |s| else t.rest == s
  {
  }

  /**
   The session's loop: batches go to the engine until the client is done, errors, or says
   Terminate, until the exchange numbered `failsAt` throws, or until a reply cannot be sent.
   */
  method Serve(conn: Connection, failsAt: nat) returns (sent: seq<seq<Byte>>)
    modifies conn
    ensures sent == Take(UntilTerminate(Batches(old(conn.Stream()), conn.broken)), Min(failsAt, old(conn.sends)) + 1)
  {
    hide NextBatch, Batches, UntilTerminate;
    var pending: seq<Byte> := [];
    sent := [];
    ghost var all := UntilTerminate(Batches(conn.Stream(), conn.broken));
    assert [] + conn.Stream() == conn.Stream();
    while true
      invariant |sent| <= failsAt && |sent| + conn.sends == old(conn.sends)
      invariant all == sent + UntilTerminate(Batches(pending + conn.Stream(), conn.broken))
      decreases |pending| + |conn.Stream()|
    {
      ServeUnfolds(pending + conn.Stream(), conn.broken);
      var batch;
      batch, pending := ReadBatch(conn, pending);
      if !batch.Got? || batch.value[0] == TERMINATE {
        assert all == sent;
        return;
      }
      Assoc(sent, [batch.value], UntilTerminate(Batches(pending + conn.Stream(), conn.broken)));
      sent := sent + [batch.value];
      if |sent| == failsAt + 1 {
        return;
      }
      var threw := conn.Send();
      if threw {
        return;
      }
    }
  }

  lemma ServeUnfolds(s: seq<Byte>, broken: bool)
    ensures var t := NextBatch(s, broken, []);
            if !t.read.Got? then UntilTerminate(Batches(s, broken)) == []
            else
              && |t.read.value| > 0 && |t.rest| < |s|
              && UntilTerminate(Batches(s, broken)) ==
                 if t.read.value[0] == TERMINATE then []
                 else [t.read.value] + UntilTerminate(Batches(t.rest, broken))
  {
    hide NextMessage;
  }

  // ---------- batches are the frames of the stream, grouped ----------

  /** The frames grouped behind each Sync, Query and Terminate; `open` has been collected already. */
  function Groups(open: seq<Frame>, fs: seq<Frame>): seq<seq<Frame>>
    decreases |fs|
  {
    if fs == [] then if open == [] then [] else [open]
    else if EndsBatch(fs[0].kind) then [open + [fs[0]]] + Groups([], fs[1..])
    else Groups(open + [fs[0]], fs[1..])
  }

  /** No frame before the last one ends a batch. */
  ghost predicate EndsOnlyLast(g: seq<Frame>) {
    g != [] && forall k :: 0 <= k < |g| - 1 ==> !EndsBatch(g[k].kind)
  }

  predicate Terminated(g: seq<Frame>) {
    g != [] && EndsBatch(g[|g| - 1].kind)
  }

  /** gs cuts fs behind every frame that ends a batch, and nowhere else. */
  ghost predicate Cuts(gs: seq<seq<Frame>>, fs: seq<Frame>) {
    && Flatten(gs) == fs
    && (forall i :: 0 <= i < |gs| ==> EndsOnlyLast(gs[i]))
    && forall i :: 0 <= i < |gs| - 1 ==> Terminated(gs[i])
  }

  ghost predicate NoneEnds(open: seq<Frame>) {
    forall k :: 0 <= k < |open| ==> !EndsBatch(open[k].kind)
  }

  lemma {:induction false} GroupsCut(open: seq<Frame>, fs: seq<Frame>)
    requires NoneEnds(open)
    ensures Cuts(Groups(open, fs), open + fs)
    decreases |fs|
  {
    hide EndsBatch;
    if fs == [] {
      assert open + fs == open;
      if open != [] {
        FlattenSnoc([], open);
        assert [] + [open] == [open] && Flatten<Frame>([]) + open == open;
      }
    } else if EndsBatch(fs[0].kind) {
      GroupsCut([], fs[1..]);
      var tail := Groups([], fs[1..]);
      assert [] + fs[1..] == fs[1..];
      assert open + fs == (open + [fs[0]]) + fs[1..];
      CutsCons(open + [fs[0]], tail, fs[1..]);
    } else {
      GroupsCut(open + [fs[0]], fs[1..]);
      assert open + fs == (open + [fs[0]]) + fs[1..];
    }
  }

  lemma CutsCons(g: seq<Frame>, gs: seq<seq<Frame>>, fs: seq<Frame>)
    requires EndsOnlyLast(g) && Terminated(g) && Cuts(gs, fs)
    ensures Cuts([g] + gs, g + fs)
  {
    hide EndsOnlyLast, Terminated;
    assert ([g] + gs)[1..] == gs;
    forall i | 0 <= i < |[g] + gs| ensures EndsOnlyLast(([g] + gs)[i]) {
      if i > 0 { assert ([g] + gs)[i] == gs[i - 1]; }
    }
    forall i | 0 <= i < |[g] + gs| - 1 ensures Terminated(([g] + gs)[i]) {
      if i > 0 { assert ([g] + gs)[i] == gs[i - 1]; }
    }
  }

  /** There is only one way to cut. */
  lemma {:induction false} CutIsUnique(a: seq<seq<Frame>>, b: seq<seq<Frame>>, fs: seq<Frame>)
    requires Cuts(a, fs) && Cuts(b, fs)
    ensures a == b
    decreases |a|
  {
    hide EndsBatch, Cuts;
    if a == [] || b == [] {
      EmptyCut(a, fs);
      EmptyCut(b, fs);
    } else {
      CutHead(a, fs);
      CutHead(b, fs);
      SameHead(a, b, fs);
      CutIsUnique(a[1..], b[1..], fs[|a[0]|..]);
      assert a == [a[0]] + a[1..] && b == [b[0]] + b[1..];
    }
  }

  lemma EmptyCut(a: seq<seq<Frame>>, fs: seq<Frame>)
    requires Cuts(a, fs)
    ensures a == [] <==> fs == []
  {
    if a != [] {
      assert EndsOnlyLast(a[0]);
    }
  }

  lemma CutHead(a: seq<seq<Frame>>, fs: seq<Frame>)
    requires Cuts(a, fs) && a != []
    ensures EndsOnlyLast(a[0]) && |a[0]| <= |fs| && a[0] == fs[..|a[0]|]
    ensures Cuts(a[1..], fs[|a[0]|..])
    ensures |a[0]| < |fs| ==> Terminated(a[0])
  {
    hide EndsOnlyLast, Terminated;
    assert fs == a[0] + Flatten(a[1..]);
    var t := a[1..];
    assert forall i :: 0 <= i < |t| ==> t[i] == a[i + 1];
    assert |a| == 1 ==> t == [];
  }

  lemma SameHead(a: seq<seq<Frame>>, b: seq<seq<Frame>>, fs: seq<Frame>)
    requires a != [] && b != []
    requires EndsOnlyLast(a[0]) && |a[0]| <= |fs| && a[0] == fs[..|a[0]|] && (|a[0]| < |fs| ==> Terminated(a[0]))
    requires EndsOnlyLast(b[0]) && |b[0]| <= |fs| && b[0] == fs[..|b[0]|] && (|b[0]| < |fs| ==> Terminated(b[0]))
    ensures a[0] == b[0]
  {
    hide Terminated;
    if |a[0]| < |b[0]| {
      ShorterIsOpen(a[0], b[0], fs);
    } else if |b[0]| < |a[0]| {
      ShorterIsOpen(b[0], a[0], fs);
    }
  }

  lemma ShorterIsOpen(x: seq<Frame>, y: seq<Frame>, fs: seq<Frame>)
    requires x != [] && |x| < |y| <= |fs| && x == fs[..|x|] && y == fs[..|y|] && EndsOnlyLast(y)
    ensures !Terminated(x)
  {
    hide EndsBatch;
    assert y[|x| - 1] == x[|x| - 1];
  }

  /** The bytes of each group. */
  ghost function Wires(gs: seq<seq<Frame>>): seq<seq<Byte>>
    requires AllEncodable(gs)
  {
    if gs == [] then [] else [EncodeAll(gs[0])] + Wires(gs[1..])
  }

  ghost predicate AllEncodable(gs: seq<seq<Frame>>) {
    forall i :: 0 <= i < |gs| ==> Encodable(gs[i])
  }

  /** All groups, except that a stream that broke off loses the one it was in. */
  function Kept(gs: seq<seq<Frame>>, brokeOff: bool): seq<seq<Frame>> {
    if gs == [] || (brokeOff && |gs| == 1 && !Terminated(gs[0])) then [] else [gs[0]] + Kept(gs[1..], brokeOff)
  }

  function BrokeOff(s: seq<Byte>, broken: bool): bool {
    broken && !BadLength(Leftover(s))
  }

  lemma {:induction false} GroupsEncodable(open: seq<Frame>, fs: seq<Frame>, brokeOff: bool)
    requires Encodable(open) && Encodable(fs)
    ensures AllEncodable(Groups(open, fs)) && AllEncodable(Kept(Groups(open, fs), brokeOff))
    decreases |fs|
  {
    hide EndsBatch;
    if fs != [] {
      assert Encodable(open + [fs[0]]);
      GroupsEncodable(if EndsBatch(fs[0].kind) then [] else open + [fs[0]], fs[1..], brokeOff);
    }
  }

  lemma {:induction false} BatchesFollow(s: seq<Byte>, broken: bool, open: seq<Frame>)
    requires Encodable(open) && NoneEnds(open)
    ensures AllEncodable(Kept(Groups(open, Frames(s)), BrokeOff(s, broken)))
    ensures var t := NextBatch(s, broken, EncodeAll(open));
            Wires(Kept(Groups(open, Frames(s)), BrokeOff(s, broken))) ==
            if t.read.Got? then [t.read.value] + Batches(t.rest, broken) else []
    decreases |s|
  {
    hide EndsBatch, HasFrame, Encodable, AllEncodable, BrokeOff, NextBatch, NextMessage, Kept, Wires, Frames, EncodeAll;
    FramesTile(s);
    GroupsEncodable(open, Frames(s), BrokeOff(s, broken));
    if HasFrame(s) {
      var f := FirstFrame(s);
      var t := AfterFirst(s);
      FramesTile(t);
      HeadFrame(s, broken, EncodeAll(open));
      OneFrame(open, f);
      NothingOnWire();
      if EndsBatch(f.kind) {
        BatchesFollow(t, broken, []);
        GroupsEncodable([], Frames(t), BrokeOff(t, broken));
        KeptCons(open + [f], Groups([], Frames(t)), BrokeOff(t, broken));
      } else {
        BatchesFollow(t, broken, open + [f]);
      }
    } else {
      FollowEnd(s, broken, open);
    }
  }

  lemma NothingOnWire()
    ensures Encodable([]) && EncodeAll([]) == []
  {
  }

  lemma OneFrame(open: seq<Frame>, f: Frame)
    requires Encodable(open) && |f.body| + 4 < TWO_32 && NoneEnds(open)
    ensures Encodable(open + [f]) && EncodeAll(open + [f]) == EncodeAll(open) + Encode(f)
    ensures !EndsBatch(f.kind) ==> NoneEnds(open + [f])
    ensures EndsBatch(f.kind) ==> Terminated(open + [f])
  {
    hide EndsBatch, Encode, EncodeAll;
    EncodeAllSnoc(open, f);
  }

  lemma HeadFrame(s: seq<Byte>, broken: bool, batch: seq<Byte>)
    requires HasFrame(s)
    ensures var f := FirstFrame(s);
            var t := AfterFirst(s);
            && |f.body| + 4 < TWO_32
            && Frames(s) == [f] + Frames(t) && Frames(s)[1..] == Frames(t) && BrokeOff(s, broken) == BrokeOff(t, broken)
            && NextBatch(s, broken, batch) ==
               if EndsBatch(f.kind) then Taken(Got(batch + Encode(f)), t)
               else NextBatch(t, broken, batch + Encode(f))
  {
    hide EndsBatch, Encode;
    FirstThenEncode(s);
  }

  lemma KeptCons(g: seq<Frame>, gs: seq<seq<Frame>>, brokeOff: bool)
    requires Terminated(g) && Encodable(g) && AllEncodable(Kept(gs, brokeOff))
    ensures AllEncodable(Kept([g] + gs, brokeOff))
    ensures Wires(Kept([g] + gs, brokeOff)) == [EncodeAll(g)] + Wires(Kept(gs, brokeOff))
  {
    hide Terminated, Encodable, EncodeAll;
    assert ([g] + gs)[1..] == gs;
    var ks := [g] + Kept(gs, brokeOff);
    assert ks[1..] == Kept(gs, brokeOff);
  }

  lemma FollowEnd(s: seq<Byte>, broken: bool, open: seq<Frame>)
    requires !HasFrame(s) && Encodable(open) && NoneEnds(open)
    ensures AllEncodable(Kept(Groups(open, Frames(s)), BrokeOff(s, broken)))
    ensures var t := NextBatch(s, broken, EncodeAll(open));
            Wires(Kept(Groups(open, Frames(s)), BrokeOff(s, broken))) ==
            if t.read.Got? then [t.read.value] + Batches(t.rest, broken) else []
  {
    hide Encodable, EndsBatch, EncodeAll;
    assert Frames(s) == [] && Leftover(s) == s;
    EmptyWire(open);
    if open != [] {
      var gs := [open];
      var brokeOff := BrokeOff(s, broken);
      assert !Terminated(open);
      assert gs[1..] == [];
      assert Kept(gs, brokeOff) == if brokeOff then [] else gs;
      assert Wires(gs) == [EncodeAll(open)];
    }
  }

  lemma EmptyWire(fs: seq<Frame>)
    requires Encodable(fs)
    ensures EncodeAll(fs) == [] <==> fs == []
  {
  }

  /**
   The batches of a stream are its frames, cut behind each Sync, Query and Terminate, with
   whatever is unterminated at the end as one more batch, unless an error ended the stream.
   */
  lemma BatchesAreGroups(s: seq<Byte>, broken: bool)
    ensures Cuts(Groups([], Frames(s)), Frames(s))
    ensures AllEncodable(Kept(Groups([], Frames(s)), BrokeOff(s, broken)))
    ensures Batches(s, broken) == Wires(Kept(Groups([], Frames(s)), BrokeOff(s, broken)))
  {
    GroupsCut([], Frames(s));
    assert [] + Frames(s) == Frames(s);
    BatchesFollow(s, broken, []);
  }

  lemma {:induction false} WiresFlat(gs: seq<seq<Frame>>)
    requires AllEncodable(gs)
    ensures Encodable(Flatten(gs)) && Flatten(Wires(gs)) == EncodeAll(Flatten(gs))
  {
    hide Encodable;
    if gs != [] {
      assert forall i :: 0 <= i < |gs[1..]| ==> gs[1..][i] == gs[i + 1];
      WiresFlat(gs[1..]);
      EncodeAllAppend(gs[0], Flatten(gs[1..]));
      assert Wires(gs)[1..] == Wires(gs[1..]);
    } else {
      NothingOnWire();
    }
  }

  lemma {:induction false} KeepsAll(gs: seq<seq<Frame>>)
    ensures Kept(gs, false) == gs
  {
    if gs != [] {
      KeepsAll(gs[1..]);
    }
  }

  /** No byte is lost or reordered: the batches of a closed stream and what is left behind them are the stream. */
  lemma BatchesTile(s: seq<Byte>)
    ensures Flatten(Batches(s, false)) + Leftover(s) == s
  {
    hide Batches, Frames, Leftover, Groups, Wires, Kept, EncodeAll, Flatten, Encodable, HasFrame;
    BatchesAreGroups(s, false);
    var gs := Groups([], Frames(s));
    KeepsAll(gs);
    WiresFlat(gs);
    FramesTile(s);
  }

  /** A group of frames on the wire is read back as exactly one batch, whatever follows it. */
  lemma {:induction false} GroupIsOneBatch(g: seq<Frame>, batch: seq<Byte>, rest: seq<Byte>, broken: bool)
    requires Encodable(g) && EndsOnlyLast(g) && Terminated(g)
    ensures NextBatch(EncodeAll(g) + rest, broken, batch) == Taken(Got(batch + EncodeAll(g)), rest)
    decreases |g|
  {
    hide EndsBatch, NextBatch, HasFrame, Encode, BrokeOff, Frames;
    var f, t := g[0], g[1..];
    var s := EncodeAll(g) + rest;
    Assoc(Encode(f), EncodeAll(t), rest);
    EncodeThenFirst(f, EncodeAll(t) + rest);
    HeadFrame(s, broken, batch);
    Assoc(batch, Encode(f), EncodeAll(t));
    if t == [] {
      assert EncodeAll(t) + rest == rest;
      assert Encode(f) + [] == Encode(f);
    } else {
      assert EndsOnlyLast(t) by {
        forall k | 0 <= k < |t| - 1 ensures !EndsBatch(t[k].kind) {
          assert t[k] == g[k + 1];
        }
      }
      GroupIsOneBatch(t, batch + Encode(f), rest, broken);
    }
  }

  /** The client's extended query reaches the server's engine as one whole batch. */
  lemma ExtendedQueryIsOneBatch(sql: seq<Byte>, ps: seq<Param>, rest: seq<Byte>, broken: bool)
    requires Encodes(sql, ps)
    ensures var wire := EncodeAll(ExtendedQueryFrames(sql, ps));
            NextBatch(wire + rest, broken, []) == Taken(Got(wire), rest)
  {
    hide NextBatch, ParseBody, BindBody, EncodeAll;
    var g := ExtendedQueryFrames(sql, ps);
    GroupIsOneBatch(g, [], rest, broken);
    assert [] + EncodeAll(g) == EncodeAll(g);
  }

  /** And so does a simple query. */
  lemma SimpleQueryIsOneBatch(sql: seq<Byte>, rest: seq<Byte>, broken: bool)
    requires |sql| + 5 < TWO_32
    ensures var wire := Encode(Frame(QUERY, CStringBytes(sql)));
            NextBatch(wire + rest, broken, []) == Taken(Got(wire), rest)
  {
    hide NextBatch, Encode;
    var f := Frame(QUERY, CStringBytes(sql));
    EncodeOne(f);
    GroupIsOneBatch([f], [], rest, broken);
    assert [] + EncodeAll([f]) == EncodeAll([f]);
  }

  /** Sync, simple Query and Terminate end a batch, and nothing else does: Flush, for one, is collected. */
  lemma OthersAreCollected(f: Frame, rest: seq<Byte>, broken: bool, batch: seq<Byte>)
    requires |f.body| + 4 < TWO_32
    ensures NextBatch(Encode(f) + rest, broken, batch) ==
            if f.kind == 'S' as int || f.kind == 'Q' as int || f.kind == 'X' as int
            then Taken(Got(batch + Encode(f)), rest)
            else NextBatch(rest, broken, batch + Encode(f))
  {
    hide NextBatch, HasFrame, Encode;
    EncodeThenFirst(f, rest);
    HeadFrame(Encode(f) + rest, broken, batch);
  }

  /** A length word below four ends the reading, broken stream or not, and gives out what was collected. */
  lemma BadLengthEnds(s: seq<Byte>, broken: bool, batch: seq<Byte>)
    requires |s| >= 5 && s[1] == 0 && s[2] == 0 && s[3] == 0 && s[4] < 4
    ensures NextBatch(s, broken, batch) == Taken(if batch == [] then Nothing else Got(batch), s)
  {
    HasFrameTold(s);
    assert s[1..5] == [s[1], s[2], s[3], s[4]];
  }

  /** Terminate is 'X'. */
  lemma TerminateTold(bs: seq<seq<Byte>>)
    ensures bs != [] && bs[0] != [] && bs[0][0] == 'X' as int ==> UntilTerminate(bs) == []
    ensures bs != [] && bs[0] != [] && bs[0][0] != 'X' as int ==>
              UntilTerminate(bs) == [bs[0]] + UntilTerminate(bs[1..])
  {
  }

  /**
   Only a batch that starts with Terminate ends a session. One that merely ends in Terminate
   is sent to the engine like any other.
   */
  lemma TerminateStandsAlone(g: seq<Frame>)
    requires Encodable(g) && EndsOnlyLast(g)
    ensures EncodeAll(g) != []
    ensures EncodeAll(g)[0] == TERMINATE <==> |g| == 1 && g[0].kind == TERMINATE
  {
    assert EncodeAll(g)[0] == g[0].kind;
  }
}
