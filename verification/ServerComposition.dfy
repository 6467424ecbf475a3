/**
 The server's state machine put together with the sessions it runs. Every connection has a peer,
 and its events are what the session of that peer does next; then the engine's log, seen from a
 connection, is what its session executes, however the connections are interleaved.
 */
module ServerComposition {
  import opened Bytes
  import opened ServerSessions
  import H = ServerHandshake

  /** What a connection's session depends on. */
  datatype Peer = Peer(chunks: seq<seq<Byte>>, broken: bool, expected: seq<Byte>, sends: nat, failsAt: nat)

  type Peers = nat -> Peer

  function VerdictOf(p: Peer): H.Verdict {
    H.HandshakeOf(p.chunks, p.broken, p.expected, p.sends)
  }

  /** Everything the session of p executes, its closing ROLLBACK included. */
  function Whole(p: Peer): seq<seq<Byte>> {
    H.Exchanges(p.chunks, p.broken, p.expected, p.sends, p.failsAt)
  }

  function BytesOf(what: What): seq<Byte> {
    match what
    case Batch(bytes) => bytes
    case Rollback => H.Rollback()
  }

  /** What was executed for c, in order. */
  function Projection(log: seq<Exchange>, c: nat): seq<seq<Byte>> {
    if log == [] then []
    else
      var n := |log| - 1;
      Projection(log[..n], c) + if By(log[n], c) then [BytesOf(log[n].what)] else []
  }

  /** e is what the session of its connection does next. */
  predicate Plays(s: State, e: Event, peers: Peers) {
    match e
    case Refuse(c) => VerdictOf(peers(c)).Refused?
    case Pass(c) => VerdictOf(peers(c)).Passed?
    case Leave(c) =>
      if In(s, c, Handshaking) then VerdictOf(peers(c)).Broke?
      else |Projection(s.log, c)| + 1 == |Whole(peers(c))|
    case Serve(c, bytes, _) =>
      var k := |Projection(s.log, c)|;
      k + 1 < |Whole(peers(c))| && bytes == Whole(peers(c))[k]
    case _ => true
  }

  predicate PlaysRun(s: State, es: seq<Event>, peers: Peers)
    requires CanRun(s, es)
    decreases |es|
  {
    es == [] || (PlaysRun(s, es[..|es| - 1], peers) && Plays(Run(s, es[..|es| - 1]), es[|es| - 1], peers))
  }

  /** How far the session of c has got. */
  ghost predicate Played(s: State, c: nat, p: Peer) {
    var done, whole := Projection(s.log, c), Whole(p);
    && (c !in s.phases || s.phases[c] == Handshaking ==> done == [] && c !in s.passed)
    && (In(s, c, Serving) ==> c in s.passed && |done| < |whole| && done == whole[..|done|])
    && (In(s, c, Closing) ==> whole != [] && done == whole[..|whole| - 1])
    && (In(s, c, RolledBack) ==> done == whole != [])
    && (In(s, c, Over) ==> done == whole || (done == [] && c !in s.passed))
    && (c in s.passed ==> VerdictOf(p).Passed?)
    && (c !in s.passed && (done != [] || In(s, c, Closing)) ==> VerdictOf(p).Broke?)
  }

  lemma WholeEnds(p: Peer)
    ensures var whole := Whole(p);
            && (VerdictOf(p).Refused? <==> whole == [])
            && (VerdictOf(p).Broke? ==> whole == [H.Rollback()])
            && (whole != [] ==> whole[|whole| - 1] == H.Rollback())
  {
    hide H.HandshakeOf, H.Rollback;
  }

  lemma ProjectionSnoc(log: seq<Exchange>, x: Exchange, c: nat)
    ensures Projection(log + [x], c) == Projection(log, c) + if By(x, c) then [BytesOf(x.what)] else []
  {
    assert (log + [x])[..|log|] == log;
  }

  lemma Extends(done: seq<seq<Byte>>, whole: seq<seq<Byte>>)
    ensures |done| < |whole| && done == whole[..|done|] ==> done + [whole[|done|]] == whole[..|done| + 1]
    ensures whole != [] && done == whole[..|whole| - 1] ==> done + [whole[|whole| - 1]] == whole
    ensures |done| + 1 == |whole| && done == whole[..|done|] ==> done == whole[..|whole| - 1]
  {
  }

  /** An event by which nothing is executed for c. */
  lemma QuietStep(s: State, e: Event, c: nat, peers: Peers)
    requires Enabled(s, e) && Plays(s, e, peers) && Played(s, c, peers(c))
    requires Projection(Step(s, e).log, c) == Projection(s.log, c)
    requires e != Undo(c) && !(e.Serve? && e.c == c)
    ensures Played(Step(s, e), c, peers(c))
  {
    hide Whole, VerdictOf, Projection, BytesOf;
    WholeEnds(peers(c));
    Extends(Projection(s.log, c), Whole(peers(c)));
  }

  lemma ServeStep(s: State, e: Event, c: nat, peers: Peers)
    requires Enabled(s, e) && Plays(s, e, peers) && Played(s, c, peers(c))
    requires e.Serve? && e.c == c
    ensures Played(Step(s, e), c, peers(c))
  {
    hide Whole, VerdictOf, Projection;
    ProjectionSnoc(s.log, Exchange(Client(c), Batch(e.bytes)), c);
    Extends(Projection(s.log, c), Whole(peers(c)));
  }

  lemma UndoStep(s: State, c: nat, peers: Peers)
    requires Enabled(s, Undo(c)) && Played(s, c, peers(c))
    ensures Played(Step(s, Undo(c)), c, peers(c))
  {
    hide Whole, VerdictOf, Projection, H.Rollback;
    WholeEnds(peers(c));
    ProjectionSnoc(s.log, Exchange(Client(c), Rollback), c);
    Extends(Projection(s.log, c), Whole(peers(c)));
  }

  lemma PlaysStep(s: State, e: Event, c: nat, peers: Peers)
    requires Enabled(s, e) && Plays(s, e, peers) && Played(s, c, peers(c))
    ensures Played(Step(s, e), c, peers(c))
  {
    hide Played, Plays, Projection;
    if e == Undo(c) {
      UndoStep(s, c, peers);
    } else if e.Serve? && e.c == c {
      ServeStep(s, e, c, peers);
    } else {
      LogGrows(s, e);
      if Executed(e) != [] {
        ProjectionSnoc(s.log, Executed(e)[0], c);
      }
      QuietStep(s, e, c, peers);
    }
  }

  lemma {:induction false} PlayedRun(es: seq<Event>, c: nat, peers: Peers)
    requires CanRun(INITIAL, es) && PlaysRun(INITIAL, es, peers)
    ensures Played(Run(INITIAL, es), c, peers(c))
    decreases |es|
  {
    if es != [] {
      hide Played, Plays, Step, Enabled;
      var n := |es| - 1;
      PlayedRun(es[..n], c, peers);
      PlaysStep(Run(INITIAL, es[..n]), es[n], c, peers);
    }
  }

  lemma BrokeNeeds(p: Peer)
    ensures VerdictOf(p).Broke? ==> H.Breaks(p.chunks, p.broken, p.sends)
  {
    hide H.HandshakeOf, H.Breaks;
    H.BrokeIff(p.chunks, p.broken, p.expected, p.sends);
  }

  lemma InSomePhase(s: State, c: nat)
    ensures c in s.phases ==>
              In(s, c, Handshaking) || In(s, c, Serving) || In(s, c, Closing) || In(s, c, RolledBack) || In(s, c, Over)
  {
  }

  /** The session of c has come to its end: it left, or was refused. */
  predicate Ended(es: seq<Event>, c: nat) {
    Leave(c) in es || Refuse(c) in es
  }

  /** A session that came to its end has had all of it executed, up to a ROLLBACK still to come. */
  ghost predicate EndTold(s: State, es: seq<Event>, c: nat, p: Peer) {
    && (Ended(es, c) ==>
          In(s, c, Closing) || ((In(s, c, RolledBack) || In(s, c, Over)) && Projection(s.log, c) == Whole(p)))
    && (In(s, c, Closing) || In(s, c, RolledBack) ==> Ended(es, c))
    && (!Ended(es, c) && In(s, c, Over) ==> Projection(s.log, c) == [] && c !in s.passed)
  }

  lemma EndStep(s: State, es: seq<Event>, e: Event, c: nat, peers: Peers)
    requires Enabled(s, e) && Plays(s, e, peers) && Played(s, c, peers(c)) && Played(Step(s, e), c, peers(c))
    requires EndTold(s, es, c, peers(c))
    ensures EndTold(Step(s, e), es + [e], c, peers(c))
  {
    hide Whole, VerdictOf, Projection, BytesOf;
    WholeEnds(peers(c));
    LogGrows(s, e);
    if Executed(e) != [] {
      ProjectionSnoc(s.log, Executed(e)[0], c);
    }
  }

  lemma {:induction false} EndRun(es: seq<Event>, c: nat, peers: Peers)
    requires CanRun(INITIAL, es) && PlaysRun(INITIAL, es, peers)
    ensures EndTold(Run(INITIAL, es), es, c, peers(c))
    decreases |es|
  {
    if es != [] {
      hide Played, Plays, Step, Enabled, EndTold;
      var n := |es| - 1;
      EndRun(es[..n], c, peers);
      PlayedRun(es[..n], c, peers);
      PlaysStep(Run(INITIAL, es[..n]), es[n], c, peers);
      EndStep(Run(INITIAL, es[..n]), es[..n], es[n], c, peers);
      assert es[..n] + [es[n]] == es;
    }
  }

  /**
   Over every run, orderly or not, what was executed for a connection is a prefix of what its
   session executes by itself, and all of it once the session has left or been refused and is
   over; a connection that is over without either was turned away. Only the handshakes that throw
   have something executed without passing: one ROLLBACK.
   */
  lemma LogIsOfSessions(es: seq<Event>, c: nat, peers: Peers)
    requires CanRun(INITIAL, es) && PlaysRun(INITIAL, es, peers)
    ensures var s := Run(INITIAL, es);
            var done, whole := Projection(s.log, c), Whole(peers(c));
            && |done| <= |whole| && done == whole[..|done|]
            && (In(s, c, RolledBack) ==> done == whole)
            && (In(s, c, Over) && Ended(es, c) ==> done == whole)
            && (In(s, c, Over) && !Ended(es, c) ==> done == [] && c !in s.passed)
            && (c !in s.passed && done != [] ==>
                  done == [H.Rollback()] && H.Breaks(peers(c).chunks, peers(c).broken, peers(c).sends))
  {
    hide Run, CanRun, Projection, Whole, VerdictOf, H.Rollback, H.Breaks;
    PlayedRun(es, c, peers);
    EndRun(es, c, peers);
    WholeEnds(peers(c));
    BrokeNeeds(peers(c));
    InSomePhase(Run(INITIAL, es), c);
  }
}
