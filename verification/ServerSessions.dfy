/**
 The localhost server as a whole: connections that come, shake hands, exchange batches and
 leave, interleaved with each other and with the app, in front of one backend session.

 The single slot is what keeps sessions apart. It is given back by an event of the transport,
 and whether sessions stay apart depends on that event coming after the closing ROLLBACK.
 */
module ServerSessions {
  import opened Bytes

  datatype Owner = App | Client(c: nat)

  datatype What = Batch(bytes: seq<Byte>) | Rollback

  datatype Exchange = Exchange(from: Owner, what: What)

  /** What a batch does to the backend's transaction. */
  datatype Effect = Begins | Ends | Keeps

  /** Closing: the session's loop is over and its ROLLBACK is still to come. */
  datatype Phase = Handshaking | Serving | Closing | RolledBack | Over

  /**
   `released` holds connections whose end the transport has reported, with the handler that
   clears the slot still queued. The log is what the engine executed; `transaction` is whose
   exchange opened the transaction the backend is in.
   */
  datatype State = State(
    listening: bool,
    active: Option<nat>,
    phases: map<nat, Phase>,
    released: set<nat>,
    passed: set<nat>,
    log: seq<Exchange>,
    transaction: Option<Owner>)

  const INITIAL := State(false, None, map[], {}, {}, [], None)

  datatype Event =
    | Start
    | Accept(c: nat)
    | Pass(c: nat)
    | Refuse(c: nat)
    | Leave(c: nat)                    // client closed, Terminate, or any error, also in the handshake
    | Serve(c: nat, bytes: seq<Byte>, effect: Effect)
    | Undo(c: nat)                     // the closing ROLLBACK
    | Cancel(c: nat)
    | Release(c: nat)                  // the queued handler runs
    | AppQuery(bytes: seq<Byte>, effect: Effect)
    | Fail(c: nat)                     // the transport reports .failed
    | Stop

  predicate In(s: State, c: nat, p: Phase) {
    c in s.phases && s.phases[c] == p
  }

  predicate Enabled(s: State, e: Event) {
    match e
    case Start => true
    case Stop => true
    case AppQuery(_, _) => true
    case Accept(c) => s.listening && c !in s.phases
    case Pass(c) => In(s, c, Handshaking)
    case Refuse(c) => In(s, c, Handshaking)
    case Leave(c) => In(s, c, Handshaking) || In(s, c, Serving)
    case Serve(c, _, _) => In(s, c, Serving)
    case Undo(c) => In(s, c, Closing)
    case Cancel(c) => In(s, c, RolledBack)
    case Release(c) => c in s.released
    case Fail(c) => c in s.phases && s.phases[c] != Over
  }

  function Affected(t: Option<Owner>, who: Owner, effect: Effect): Option<Owner> {
    match effect
    case Begins => if t.Some? then t else Some(who)
    case Ends => None
    case Keeps => t
  }

  function Step(s: State, e: Event): State
    requires Enabled(s, e)
  {
    match e
    case Start => s.(listening := true)
    case Accept(c) =>
      if s.active.Some? then s.(phases := s.phases[c := Over])
      else s.(active := Some(c), phases := s.phases[c := Handshaking])
    case Pass(c) => s.(phases := s.phases[c := Serving], passed := s.passed + {c})
    case Refuse(c) => s.(phases := s.phases[c := Over], released := s.released + {c})
    case Leave(c) => s.(phases := s.phases[c := Closing])
    case Serve(c, bytes, effect) =>
      s.(log := s.log + [Exchange(Client(c), Batch(bytes))],
         transaction := Affected(s.transaction, Client(c), effect))
    case Undo(c) =>
      s.(phases := s.phases[c := RolledBack], log := s.log + [Exchange(Client(c), Rollback)], transaction := None)
    case Cancel(c) => s.(phases := s.phases[c := Over], released := s.released + {c})
    case Release(c) =>
      s.(released := s.released - {c}, active := if s.active == Some(c) then None else s.active)
    case AppQuery(bytes, effect) =>
      s.(log := s.log + [Exchange(App, Batch(bytes))], transaction := Affected(s.transaction, App, effect))
    case Fail(c) => s.(released := s.released + {c})
    case Stop =>
      s.(listening := false, active := None,
         released := if s.active.Some? then s.released + {s.active.value} else s.released)
  }

  predicate CanRun(s: State, es: seq<Event>)
    decreases |es|, 0
  {
    es == [] ||
    (CanRun(s, es[..|es| - 1]) && Enabled(Run(s, es[..|es| - 1]), es[|es| - 1]))
  }

  function Run(s: State, es: seq<Event>): State
    requires CanRun(s, es)
    decreases |es|, 1
  {
    if es == [] then s else Step(Run(s, es[..|es| - 1]), es[|es| - 1])
  }

  // ---------- what must hold ----------

  /** A connection that may still reach the engine. */
  predicate Live(s: State, c: nat) {
    In(s, c, Handshaking) || In(s, c, Serving) || In(s, c, Closing)
  }

  predicate By(x: Exchange, c: nat) {
    x.from == Client(c)
  }

  /** Between exchanges of two clients lies the ROLLBACK of the first. */
  ghost predicate Separated(log: seq<Exchange>) {
    forall i, k, c, d :: 0 <= i < k < |log| && c != d && By(log[i], c) && By(log[k], d) ==> UndoneBetween(log, c, i, k)
  }

  ghost predicate UndoneBetween(log: seq<Exchange>, c: nat, i: nat, k: nat) {
    exists j :: i <= j < k && j < |log| && log[j] == Exchange(Client(c), Rollback)
  }

  ghost predicate NoneBy(log: seq<Exchange>, c: nat) {
    forall i :: 0 <= i < |log| ==> !By(log[i], c)
  }

  ghost predicate NoUndoBy(log: seq<Exchange>, c: nat) {
    forall i :: 0 <= i < |log| ==> log[i] != Exchange(Client(c), Rollback)
  }

  /** Whatever c had executed is followed by its ROLLBACK. */
  ghost predicate Undone(log: seq<Exchange>, c: nat) {
    forall i :: 0 <= i < |log| && By(log[i], c) ==> UndoneBetween(log, c, i, |log|)
  }

  /** c had nothing executed behind its ROLLBACK. */
  ghost predicate UndoIsLast(log: seq<Exchange>, c: nat) {
    forall j, k :: 0 <= j < k < |log| && log[j] == Exchange(Client(c), Rollback) ==> !By(log[k], c)
  }

  /** The log as seen from one connection. */
  ghost predicate SessionOk(s: State, c: nat) {
    && (c !in s.phases || s.phases[c] == Handshaking ==> NoneBy(s.log, c))
    && (Live(s, c) ==> NoUndoBy(s.log, c))
    && (c in s.phases && !Live(s, c) ==> Undone(s.log, c))
    && (c in s.phases && !Live(s, c) && c in s.passed ==> !NoUndoBy(s.log, c))
    && UndoIsLast(s.log, c)
    && (In(s, c, Serving) ==> c in s.passed)
  }

  ghost predicate BatchesPassed(s: State) {
    forall i, c :: 0 <= i < |s.log| && By(s.log[i], c) && s.log[i].what.Batch? ==> c in s.passed
  }

  /**
   The slot is with the one connection that may still reach the engine, or with one that is over
   and whose release is pending.
   */
  predicate SlotOk(s: State) {
    && (forall c :: c in s.phases && Live(s, c) ==> s.active == Some(c))
    && (forall c :: c in s.released ==> c in s.phases && !Live(s, c))
    && (forall c :: c in s.passed ==> c in s.phases && s.phases[c] != Handshaking)
    && (s.active.Some? ==> s.active.value in s.phases)
    && (s.active.Some? && In(s, s.active.value, Over) ==> s.active.value in s.released)
  }

  predicate TransactionOk(s: State) {
    s.transaction.Some? && s.transaction.value.Client? ==>
      In(s, s.transaction.value.c, Serving) || In(s, s.transaction.value.c, Closing)
  }

  ghost predicate Inv(s: State) {
    SlotOk(s) && Separated(s.log) && BatchesPassed(s) && TransactionOk(s) && forall c :: SessionOk(s, c)
  }

  /**
   An event that leaves the slot to the session: the transport does not fail under a live
   connection, and the server is not stopped over one.
   */
  predicate Orderly(s: State, e: Event) {
    && (e.Fail? ==> !Live(s, e.c))
    && (e.Stop? && s.active.Some? ==> !Live(s, s.active.value))
  }

  predicate OrderlyRun(s: State, es: seq<Event>)
    requires CanRun(s, es)
    decreases |es|
  {
    es == [] ||
    (OrderlyRun(s, es[..|es| - 1]) && Orderly(Run(s, es[..|es| - 1]), es[|es| - 1]))
  }

  // ---------- every orderly step keeps it ----------

  lemma KeepsSlot(s: State, e: Event)
    requires Enabled(s, e) && Orderly(s, e) && SlotOk(s)
    ensures SlotOk(Step(s, e))
  {
  }

  lemma KeepsTransaction(s: State, e: Event)
    requires Enabled(s, e) && SlotOk(s) && TransactionOk(s)
    ensures TransactionOk(Step(s, e))
  {
  }

  lemma KeepsPassed(s: State, e: Event)
    requires Enabled(s, e) && BatchesPassed(s)
    requires e.Serve? ==> e.c in s.passed
    ensures BatchesPassed(Step(s, e))
  {
  }

  /** An exchange of d is separated from those of every other client before it. */
  lemma SeparatedSnoc(s: State, x: Exchange)
    requires Separated(s.log)
    requires x.from.Client? ==> forall c :: c != x.from.c ==> Undone(s.log, c)
    ensures Separated(s.log + [x])
  {
    hide Undone;
    var log := s.log + [x];
    forall i, k, c, d | 0 <= i < k < |log| && c != d && By(log[i], c) && By(log[k], d)
      ensures UndoneBetween(log, c, i, k)
    {
      if k == |s.log| {
        UndoneAt(s.log, c, i, x);
      } else {
        assert UndoneBetween(s.log, c, i, k);
        BetweenGrows(s.log, c, i, k, x);
      }
    }
  }

  lemma UndoneAt(log: seq<Exchange>, c: nat, i: nat, x: Exchange)
    requires Undone(log, c) && i < |log| && By(log[i], c)
    ensures UndoneBetween(log + [x], c, i, |log|)
  {
    BetweenGrows(log, c, i, |log|, x);
  }

  lemma BetweenGrows(log: seq<Exchange>, c: nat, i: nat, k: nat, x: Exchange)
    requires k <= |log| && UndoneBetween(log, c, i, k)
    ensures UndoneBetween(log + [x], c, i, k)
  {
    var j :| i <= j < k && j < |log| && log[j] == Exchange(Client(c), Rollback);
    assert (log + [x])[j] == log[j];
  }

  /** An exchange of somebody else changes nothing for c. */
  lemma OtherExchange(log: seq<Exchange>, x: Exchange, c: nat)
    requires !By(x, c)
    ensures NoneBy(log, c) ==> NoneBy(log + [x], c)
    ensures NoUndoBy(log, c) <==> NoUndoBy(log + [x], c)
    ensures Undone(log, c) ==> Undone(log + [x], c)
    ensures UndoIsLast(log, c) ==> UndoIsLast(log + [x], c)
  {
    hide Undone;
    OtherUndo(log, x, c);
    if Undone(log, c) {
      OtherUndone(log, x, c);
    }
  }

  lemma OtherUndo(log: seq<Exchange>, x: Exchange, c: nat)
    requires !By(x, c)
    ensures NoUndoBy(log, c) <==> NoUndoBy(log + [x], c)
  {
    var l := log + [x];
    assert forall i :: 0 <= i < |log| ==> log[i] == l[i];
  }

  lemma OtherUndone(log: seq<Exchange>, x: Exchange, c: nat)
    requires !By(x, c) && Undone(log, c)
    ensures Undone(log + [x], c)
  {
    hide UndoneBetween;
    forall i | 0 <= i < |log + [x]| && By((log + [x])[i], c)
      ensures UndoneBetween(log + [x], c, i, |log + [x]|)
    {
      assert By(log[i], c);
      BetweenGrows(log, c, i, |log|, x);
      BetweenWidens(log + [x], c, i, |log|);
    }
  }

  lemma BetweenWidens(log: seq<Exchange>, c: nat, i: nat, k: nat)
    requires UndoneBetween(log, c, i, k) && k <= |log|
    ensures UndoneBetween(log, c, i, |log|)
  {
    var j :| i <= j < k && j < |log| && log[j] == Exchange(Client(c), Rollback);
    assert j < |log|;
  }

  lemma OwnBatch(log: seq<Exchange>, c: nat, bytes: seq<Byte>)
    requires NoUndoBy(log, c)
    ensures NoUndoBy(log + [Exchange(Client(c), Batch(bytes))], c)
    ensures UndoIsLast(log + [Exchange(Client(c), Batch(bytes))], c)
  {
  }

  lemma OwnUndo(log: seq<Exchange>, c: nat)
    requires NoUndoBy(log, c)
    ensures var l := log + [Exchange(Client(c), Rollback)];
            !NoUndoBy(l, c) && Undone(l, c) && UndoIsLast(l, c)
  {
    var l := log + [Exchange(Client(c), Rollback)];
    assert l[|log|] == Exchange(Client(c), Rollback);
  }

  lemma NothingYet(log: seq<Exchange>, c: nat)
    requires NoneBy(log, c)
    ensures NoUndoBy(log, c) && Undone(log, c)
  {
  }

  /** What the engine executes because of an event. */
  function Executed(e: Event): seq<Exchange> {
    match e
    case Serve(c, bytes, _) => [Exchange(Client(c), Batch(bytes))]
    case Undo(c) => [Exchange(Client(c), Rollback)]
    case AppQuery(bytes, _) => [Exchange(App, Batch(bytes))]
    case _ => []
  }

  lemma LogGrows(s: State, e: Event)
    requires Enabled(s, e)
    ensures Step(s, e).log == s.log + Executed(e)
  {
  }

  lemma KeepsSession(s: State, e: Event, c: nat)
    requires Enabled(s, e) && SlotOk(s) && SessionOk(s, c)
    ensures SessionOk(Step(s, e), c)
  {
    hide NoneBy, NoUndoBy, Undone, UndoIsLast;
    LogGrows(s, e);
    if NoneBy(s.log, c) {
      NothingYet(s.log, c);
    }
    if Executed(e) != [] {
      var x := Executed(e)[0];
      if !By(x, c) {
        OtherExchange(s.log, x, c);
      } else if e.Serve? {
        OwnBatch(s.log, c, e.bytes);
      } else {
        OwnUndo(s.log, c);
      }
    }
  }

  lemma KeepsSeparated(s: State, e: Event)
    requires Enabled(s, e) && Inv(s)
    ensures Separated(Step(s, e).log)
  {
    hide Separated, NoneBy, NoUndoBy, Undone, UndoIsLast, BatchesPassed;
    LogGrows(s, e);
    if Executed(e) != [] {
      var x := Executed(e)[0];
      if x.from.Client? {
        forall c | c != x.from.c ensures Undone(s.log, c) {
          assert SessionOk(s, c);
          if c !in s.phases {
            NothingYet(s.log, c);
          }
        }
      }
      SeparatedSnoc(s, x);
    }
  }

  lemma KeepsInv(s: State, e: Event)
    requires Enabled(s, e) && Orderly(s, e) && Inv(s)
    ensures Inv(Step(s, e))
  {
    hide Separated, BatchesPassed, Step, SlotOk, TransactionOk, NoneBy, NoUndoBy, Undone, UndoIsLast;
    if e.Serve? {
      assert SessionOk(s, e.c);
    }
    KeepsPassed(s, e);
    KeepsSlot(s, e);
    KeepsTransaction(s, e);
    KeepsSeparated(s, e);
    forall c ensures SessionOk(Step(s, e), c) {
      assert SessionOk(s, c);
      KeepsSession(s, e, c);
    }
  }

  lemma InvInitially()
    ensures Inv(INITIAL)
  {
  }

  lemma {:induction false} KeepsRun(s: State, es: seq<Event>)
    requires CanRun(s, es) && OrderlyRun(s, es) && Inv(s)
    ensures Inv(Run(s, es))
    decreases |es|
  {
    hide Inv, Step, Enabled, Orderly;
    if es != [] {
      KeepsRun(s, es[..|es| - 1]);
      KeepsInv(Run(s, es[..|es| - 1]), es[|es| - 1]);
    }
  }

  /**
   Over every orderly run: no two connections are live at once; batches come only from
   connections that passed the handshake; a session that is over ended with its ROLLBACK and
   had nothing executed behind it; and that ROLLBACK comes before any exchange of a later
   session. An open transaction never belongs to a session that is over.
   */
  lemma SessionsStayApart(es: seq<Event>)
    requires CanRun(INITIAL, es) && OrderlyRun(INITIAL, es)
    ensures var s := Run(INITIAL, es);
            && (forall c: nat, d: nat :: Live(s, c) && Live(s, d) ==> c == d)
            && Separated(s.log) && BatchesPassed(s) && TransactionOk(s)
            && forall c :: c in s.passed && !Live(s, c) ==>
                 Undone(s.log, c) && !NoUndoBy(s.log, c) && UndoIsLast(s.log, c)
  {
    hide Separated, BatchesPassed, NoneBy, NoUndoBy, Undone, UndoIsLast, Step, Enabled, Orderly;
    InvInitially();
    KeepsRun(INITIAL, es);
    var s := Run(INITIAL, es);
    forall c | c in s.passed && !Live(s, c)
      ensures Undone(s.log, c) && !NoUndoBy(s.log, c) && UndoIsLast(s.log, c)
    {
      assert SessionOk(s, c);
    }
    forall c: nat, d: nat | Live(s, c) && Live(s, d) ensures c == d {
      assert s.active == Some(c) && s.active == Some(d);
    }
  }

  /** A query of the app is executed whatever the server does. */
  lemma AppIsServed(s: State, bytes: seq<Byte>, effect: Effect)
    ensures Enabled(s, AppQuery(bytes, effect))
    ensures Step(s, AppQuery(bytes, effect)).log == s.log + [Exchange(App, Batch(bytes))]
  {
  }

  /** While a connection holds the slot, another is turned away and nothing else changes. */
  lemma BusyTurnsAway(s: State, c: nat)
    requires Enabled(s, Accept(c)) && s.active.Some?
    ensures Step(s, Accept(c)) == s.(phases := s.phases[c := Over])
  {
  }

  // ---------- the slot is given back ----------

  /** Over every orderly run, if the connection that holds the slot is over, its release is pending. */
  lemma ReleaseIsPending(es: seq<Event>, c: nat)
    requires CanRun(INITIAL, es) && OrderlyRun(INITIAL, es)
    requires Run(INITIAL, es).active == Some(c) && In(Run(INITIAL, es), c, Over)
    ensures Enabled(Run(INITIAL, es), Release(c))
  {
    InvInitially();
    KeepsRun(INITIAL, es);
  }

  /** What is left to happen to a connection that holds the slot. */
  function WayOut(s: State, c: nat): seq<Event> {
    if In(s, c, Handshaking) then [Refuse(c), Release(c)]
    else if In(s, c, Serving) then [Leave(c), Undo(c), Cancel(c), Release(c)]
    else if In(s, c, Closing) then [Undo(c), Cancel(c), Release(c)]
    else if In(s, c, RolledBack) then [Cancel(c), Release(c)]
    else [Release(c)]
  }

  lemma {:induction false} RunPrefix(s: State, a: seq<Event>, e: Event)
    requires CanRun(s, a) && Enabled(Run(s, a), e)
    ensures CanRun(s, a + [e]) && Run(s, a + [e]) == Step(Run(s, a), e)
  {
    assert (a + [e])[..|a|] == a;
  }

  /** es frees the slot, and touches no connection that is not known yet. */
  ghost predicate Frees(s: State, es: seq<Event>) {
    && CanRun(s, es) && Run(s, es).active == None && Run(s, es).listening == s.listening
    && forall d :: d !in s.phases ==> d !in Run(s, es).phases
  }

  lemma LastTwo(s: State, c: nat)
    requires s.active == Some(c)
    requires In(s, c, Handshaking) || In(s, c, RolledBack) || (In(s, c, Over) && c in s.released)
    ensures Frees(s, WayOut(s, c))
  {
    if In(s, c, Handshaking) {
      TwoEvents(s, Refuse(c), Release(c));
    } else if In(s, c, RolledBack) {
      TwoEvents(s, Cancel(c), Release(c));
    } else {
      OneEvent(s, Release(c));
    }
  }

  lemma OneFirst(s: State, e: Event, es: seq<Event>)
    requires Enabled(s, e) && Frees(Step(s, e), es)
    requires Step(s, e).listening == s.listening && forall d :: d !in s.phases ==> d !in Step(s, e).phases
    ensures Frees(s, [e] + es)
  {
    hide Step, Enabled, CanRun, Run;
    OneEvent(s, e);
    RunAppend(s, [e], es);
  }

  /** The last events of a connection free its slot. */
  lemma EndsFree(s: State, c: nat)
    requires SlotOk(s) && s.active == Some(c)
    ensures Frees(s, WayOut(s, c))
  {
    hide SlotOk, Frees;
    ActiveKnown(s);
    if In(s, c, Closing) {
      LastTwo(Step(s, Undo(c)), c);
      OneFirst(s, Undo(c), [Cancel(c), Release(c)]);
      assert [Undo(c)] + [Cancel(c), Release(c)] == WayOut(s, c);
    } else if In(s, c, Serving) {
      var s1 := Step(s, Leave(c));
      LastTwo(Step(s1, Undo(c)), c);
      OneFirst(s1, Undo(c), [Cancel(c), Release(c)]);
      OneFirst(s, Leave(c), [Undo(c)] + [Cancel(c), Release(c)]);
      assert [Leave(c)] + ([Undo(c)] + [Cancel(c), Release(c)]) == WayOut(s, c);
    } else {
      LastTwo(s, c);
    }
  }

  lemma ActiveKnown(s: State)
    requires SlotOk(s) && s.active.Some?
    ensures var c := s.active.value;
            && (Live(s, c) || In(s, c, RolledBack) || In(s, c, Over))
            && (In(s, c, Over) ==> c in s.released)
  {
  }

  /**
   From every good listening state in which a connection holds the slot, its own remaining events
   free the slot, and the next connection is then in its handshake and holds it.
   */
  lemma NextClientGetsIn(s: State, c: nat, d: nat)
    requires Inv(s) && s.listening && s.active == Some(c) && d !in s.phases
    ensures CanRun(s, WayOut(s, c)) && Run(s, WayOut(s, c)).active == None
    ensures var es := WayOut(s, c) + [Accept(d)];
            && CanRun(s, es)
            && Run(s, es).active == Some(d) && In(Run(s, es), d, Handshaking)
  {
    hide Inv, CanRun, Run;
    InvSlot(s);
    EndsFree(s, c);
    RunPrefix(s, WayOut(s, c), Accept(d));
  }

  /** A whole session: its batches, its ROLLBACK, and the slot given back. */
  function Visit(c: nat, batches: seq<seq<Byte>>): seq<Event> {
    [Accept(c), Pass(c)] + Serves(c, batches) + [Leave(c), Undo(c), Cancel(c), Release(c)]
  }

  function Serves(c: nat, batches: seq<seq<Byte>>): seq<Event> {
    if batches == [] then [] else Serves(c, batches[..|batches| - 1]) + [Serve(c, batches[|batches| - 1], Keeps)]
  }

  /** The log entries of batches. */
  function Entries(c: nat, batches: seq<seq<Byte>>): (r: seq<Exchange>)
    ensures |r| == |batches| && forall i :: 0 <= i < |r| ==> r[i] == Exchange(Client(c), Batch(batches[i]))
  {
    if batches == [] then []
    else Entries(c, batches[..|batches| - 1]) + [Exchange(Client(c), Batch(batches[|batches| - 1]))]
  }

  lemma {:induction false} ServesRun(s: State, c: nat, batches: seq<seq<Byte>>)
    requires In(s, c, Serving)
    ensures CanRun(s, Serves(c, batches))
    ensures Run(s, Serves(c, batches)) == s.(log := s.log + Entries(c, batches))
    decreases |batches|
  {
    if batches == [] {
      assert s.log + [] == s.log;
    } else {
      var n := |batches| - 1;
      ServesRun(s, c, batches[..n]);
      RunPrefix(s, Serves(c, batches[..n]), Serve(c, batches[n], Keeps));
      Assoc(s.log, Entries(c, batches[..n]), [Exchange(Client(c), Batch(batches[n]))]);
    }
  }

  /**
   A client that finds the slot free is served: its batches are executed in order, then a ROLLBACK,
   and the slot is free again.
   */
  lemma VisitRuns(s: State, c: nat, batches: seq<seq<Byte>>)
    requires s.listening && s.active == None && c !in s.phases && c !in s.released
    ensures CanRun(s, Visit(c, batches))
    ensures Run(s, Visit(c, batches)) ==
            s.(phases := s.phases[c := Over], passed := s.passed + {c}, transaction := None,
               log := s.log + Entries(c, batches) + [Exchange(Client(c), Rollback)])
  {
    hide CanRun, Run, Entries, Serves;
    TwoEvents(s, Accept(c), Pass(c));
    var s1 := Run(s, [Accept(c), Pass(c)]);
    ServesRun(s1, c, batches);
    RunAppend(s, [Accept(c), Pass(c)], Serves(c, batches));
    var s2 := Run(s1, Serves(c, batches));
    TwoEvents(s2, Leave(c), Undo(c));
    var s3 := Run(s2, [Leave(c), Undo(c)]);
    TwoEvents(s3, Cancel(c), Release(c));
    RunAppend(s2, [Leave(c), Undo(c)], [Cancel(c), Release(c)]);
    assert [Leave(c), Undo(c)] + [Cancel(c), Release(c)] == [Leave(c), Undo(c), Cancel(c), Release(c)];
    RunAppend(s, [Accept(c), Pass(c)] + Serves(c, batches), [Leave(c), Undo(c), Cancel(c), Release(c)]);
    assert s.phases[c := Handshaking][c := Serving][c := Closing][c := RolledBack][c := Over] == s.phases[c := Over];
    assert s.released + {c} - {c} == s.released;
  }

  // ---------- a server that is stopped ----------

  /** Over every run, behind a Stop no connection is accepted before the next Start. */
  lemma {:induction false} NoAcceptWhenStopped(s: State, es: seq<Event>, c: nat)
    requires CanRun(s, [Stop] + es) && Start !in es
    ensures Accept(c) !in es && !Run(s, [Stop] + es).listening
    decreases |es|
  {
    var all := [Stop] + es;
    assert all[..|all| - 1] == if es == [] then [] else [Stop] + es[..|es| - 1];
    if es != [] {
      NoAcceptWhenStopped(s, es[..|es| - 1], c);
      assert es == es[..|es| - 1] + [es[|es| - 1]];
    }
  }

  // ---------- and exactly the disorderly events can break it ----------

  /** How the slot of a live connection c is given back early. */
  function GivenBack(e: Event): seq<Event> {
    if e.Fail? then [e, Release(e.c)] else [e]
  }

  /** Another connection comes in and opens a transaction. */
  function Intrusion(d: nat): seq<Event> {
    [Start, Accept(d), Pass(d), Serve(d, [], Begins)]
  }

  /** Then c ends its session. */
  function Ending(s: State, c: nat): seq<Event> {
    if In(s, c, Closing) then [Undo(c)] else [Leave(c), Undo(c)]
  }

  lemma {:induction false} RunAppend(s: State, a: seq<Event>, b: seq<Event>)
    requires CanRun(s, a) && CanRun(Run(s, a), b)
    ensures CanRun(s, a + b) && Run(s, a + b) == Run(Run(s, a), b)
    decreases |b|
  {
    hide Step, Enabled;
    if b == [] {
      assert a + b == a;
    } else {
      var n := |b| - 1;
      RunAppend(s, a, b[..n]);
      assert (a + b)[..|a + b| - 1] == a + b[..n];
    }
  }

  lemma OneEvent(s: State, e: Event)
    requires Enabled(s, e)
    ensures CanRun(s, [e]) && Run(s, [e]) == Step(s, e)
  {
    var es := [e];
    assert es[..|es| - 1] == [];
    assert CanRun(s, []) && Run(s, []) == s;
  }

  lemma TwoEvents(s: State, e: Event, f: Event)
    requires Enabled(s, e) && Enabled(Step(s, e), f)
    ensures CanRun(s, [e, f]) && Run(s, [e, f]) == Step(Step(s, e), f)
  {
    hide Step, Enabled;
    OneEvent(s, e);
    OneEvent(Step(s, e), f);
    RunAppend(s, [e], [f]);
    assert [e] + [f] == [e, f];
  }

  lemma KeepsTwo(s: State, e: Event, f: Event)
    requires Inv(s) && Enabled(s, e) && Enabled(Step(s, e), f)
    requires !e.Fail? && !e.Stop? && !f.Fail? && !f.Stop?
    ensures CanRun(s, [e, f]) && Run(s, [e, f]) == Step(Step(s, e), f) && Inv(Run(s, [e, f]))
  {
    hide Inv, Step, Enabled;
    TwoEvents(s, e, f);
    KeepsInv(s, e);
    KeepsInv(Step(s, e), f);
  }

  lemma GivenBackEarly(s: State, e: Event)
    requires Enabled(s, e) && !Orderly(s, e) && SlotOk(s)
    ensures var es := GivenBack(e);
            && CanRun(s, es) && Run(s, es).active == None && Run(s, es).transaction == s.transaction
            && Run(s, es).phases == s.phases && Run(s, es).log == s.log
  {
    if e.Fail? {
      TwoEvents(s, e, Release(e.c));
    } else {
      OneEvent(s, e);
    }
  }

  lemma Intrudes(s: State, d: nat)
    requires s.active == None && d !in s.phases
    ensures var es := Intrusion(d);
            && CanRun(s, es)
            && (forall c :: c != d ==>
                  Live(Run(s, es), c) == Live(s, c) && In(Run(s, es), c, Closing) == In(s, c, Closing))
            && Run(s, es).log == s.log + [Exchange(Client(d), Batch([]))]
            && Run(s, es).transaction == if s.transaction.Some? then s.transaction else Some(Client(d))
  {
    var s1 := Step(s, Start);
    var s2 := Step(s1, Accept(d));
    TwoEvents(s, Start, Accept(d));
    TwoEvents(s2, Pass(d), Serve(d, [], Begins));
    RunAppend(s, [Start, Accept(d)], [Pass(d), Serve(d, [], Begins)]);
    assert [Start, Accept(d)] + [Pass(d), Serve(d, [], Begins)] == Intrusion(d);
  }

  lemma Finishes(s: State, c: nat)
    requires Live(s, c)
    ensures CanRun(s, Ending(s, c))
    ensures Run(s, Ending(s, c)).log == s.log + [Exchange(Client(c), Rollback)]
    ensures Run(s, Ending(s, c)).transaction == None
  {
    if In(s, c, Closing) {
      OneEvent(s, Undo(c));
    } else {
      TwoEvents(s, Leave(c), Undo(c));
    }
  }

  lemma NotSeparated(log: seq<Exchange>, c: nat, d: nat, bytes: seq<Byte>)
    requires c != d
    ensures !Separated(log + [Exchange(Client(d), Batch(bytes))] + [Exchange(Client(c), Rollback)])
  {
    var l := log + [Exchange(Client(d), Batch(bytes))] + [Exchange(Client(c), Rollback)];
    var i := |log|;
    assert By(l[i], d) && By(l[i + 1], c);
    assert l[i] != Exchange(Client(d), Rollback);
  }

  /**
   If the transport fails under a live connection, or the server is stopped over one, then the
   server can go on without any further disorder to a point where the old session's ROLLBACK
   falls into the new session, behind its first batch. The transaction that batch ran in is then
   gone: the one it opened, if none was open, or else the one it found open.
   */
  lemma DisorderBreaks(s: State, e: Event, d: nat)
    requires Inv(s) && Enabled(s, e) && !Orderly(s, e) && d !in s.phases
    ensures var c := if e.Fail? then e.c else s.active.value;
            var before := GivenBack(e) + Intrusion(d);
            var es := before + Ending(s, c);
            && CanRun(s, before) && CanRun(s, es)
            && Run(s, before).transaction == (if s.transaction == None then Some(Client(d)) else s.transaction)
            && Run(s, es).transaction == None
            && !Separated(Run(s, es).log)
            && forall i :: 1 <= i < |es| ==> !es[i].Fail? && !es[i].Stop?
  {
    hide Inv, Step, Separated, CanRun, Run, Enabled;
    InvSlot(s);
    var c := if e.Fail? then e.c else s.active.value;
    GivenBackEarly(s, e);
    var s1 := Run(s, GivenBack(e));
    Intrudes(s1, d);
    RunAppend(s, GivenBack(e), Intrusion(d));
    var s2 := Run(s1, Intrusion(d));
    Finishes(s2, c);
    assert Ending(s2, c) == Ending(s, c);
    RunAppend(s, GivenBack(e) + Intrusion(d), Ending(s, c));
    NotSeparated(s.log, c, d, []);
  }

  lemma InvSlot(s: State)
    requires Inv(s)
    ensures SlotOk(s)
  {
  }

  // ---------- what reaches the engine without a handshake that passed ----------

  /** c left out of its handshake, and its ROLLBACK followed. */
  ghost predicate BrokeOff(es: seq<Event>, c: nat) {
    exists i, j :: 0 <= i < j < |es| && LeftHandshake(es, i, c) && es[j] == Undo(c)
  }

  ghost predicate LeftHandshake(es: seq<Event>, i: nat, c: nat) {
    i < |es| && es[i] == Leave(c) && Pass(c) !in es[..i]
  }

  /** What the events say about a connection that has not passed, in any run. */
  ghost predicate Told(s: State, es: seq<Event>, c: nat) {
    && (c in s.passed <==> Pass(c) in es)
    && (In(s, c, Serving) ==> c in s.passed)
    && (c !in s.passed ==>
          && (NoneBy(s.log, c) <==> Undo(c) !in es)
          && BatchesPassedBy(s, c)
          && (In(s, c, Closing) ==> exists i :: LeftHandshake(es, i, c))
          && (Undo(c) in es ==> BrokeOff(es, c)))
  }

  /** Nothing but its ROLLBACK was executed for c. */
  ghost predicate BatchesPassedBy(s: State, c: nat) {
    forall i :: 0 <= i < |s.log| && By(s.log[i], c) ==> s.log[i].what == Rollback
  }

  lemma LeftSnoc(es: seq<Event>, e: Event, c: nat)
    ensures forall i: nat :: LeftHandshake(es, i, c) ==> LeftHandshake(es + [e], i, c)
    ensures e == Leave(c) && Pass(c) !in es ==> LeftHandshake(es + [e], |es|, c)
  {
    assert (es + [e])[..|es|] == es;
    forall i: nat | LeftHandshake(es, i, c) ensures LeftHandshake(es + [e], i, c) {
      assert (es + [e])[..i] == es[..i];
    }
  }

  lemma BrokeOffSnoc(es: seq<Event>, e: Event, c: nat)
    ensures BrokeOff(es, c) ==> BrokeOff(es + [e], c)
    ensures e == Undo(c) && (exists i :: LeftHandshake(es, i, c)) ==> BrokeOff(es + [e], c)
  {
    hide LeftHandshake;
    var fs := es + [e];
    LeftSnoc(es, e, c);
    if BrokeOff(es, c) {
      var i, j :| 0 <= i < j < |es| && LeftHandshake(es, i, c) && es[j] == Undo(c);
      assert LeftHandshake(fs, i, c) && fs[j] == es[j];
    }
    if e == Undo(c) && exists i :: LeftHandshake(es, i, c) {
      var i :| LeftHandshake(es, i, c);
      LeftBound(es, i, c);
      assert LeftHandshake(fs, i, c) && fs[|es|] == Undo(c);
    }
  }

  lemma LeftBound(es: seq<Event>, i: nat, c: nat)
    requires LeftHandshake(es, i, c)
    ensures i < |es|
  {
  }

  lemma LogTells(log: seq<Exchange>, x: Exchange, c: nat)
    ensures NoneBy(log + [x], c) <==> NoneBy(log, c) && !By(x, c)
  {
    assert (log + [x])[|log|] == x;
    assert forall i :: 0 <= i < |log| ==> (log + [x])[i] == log[i];
  }

  lemma TellsStep(s: State, es: seq<Event>, e: Event, c: nat)
    requires Told(s, es, c) && Enabled(s, e)
    ensures Told(Step(s, e), es + [e], c)
  {
    hide LeftHandshake, BrokeOff, NoneBy;
    LogGrows(s, e);
    LeftSnoc(es, e, c);
    BrokeOffSnoc(es, e, c);
    if Executed(e) != [] {
      LogTells(s.log, Executed(e)[0], c);
    }
  }

  lemma {:induction false} EventsTell(es: seq<Event>, c: nat)
    requires CanRun(INITIAL, es)
    ensures Told(Run(INITIAL, es), es, c)
    decreases |es|
  {
    if es != [] {
      hide Told, Step, Enabled;
      var n := |es| - 1;
      EventsTell(es[..n], c);
      TellsStep(Run(INITIAL, es[..n]), es[..n], es[n], c);
      assert es[..n] + [es[n]] == es;
    }
  }

  /**
   Over every run, orderly or not: for a connection that never passed its handshake something was
   executed exactly if it left out of the handshake, by an error, and its ROLLBACK followed; and
   that ROLLBACK is all there was.
   */
  lemma UnauthenticatedIff(es: seq<Event>, c: nat)
    requires CanRun(INITIAL, es) && c !in Run(INITIAL, es).passed
    ensures !NoneBy(Run(INITIAL, es).log, c) <==> BrokeOff(es, c)
    ensures BatchesPassedBy(Run(INITIAL, es), c)
  {
    hide LeftHandshake, NoneBy, Run, CanRun;
    EventsTell(es, c);
  }

  // ---------- whose transaction survives ----------

  predicate EndsTransaction(e: Event) {
    match e
    case AppQuery(_, effect) => effect == Ends
    case Serve(_, _, effect) => effect == Ends
    case Undo(_) => true
    case _ => false
  }

  /** The transaction of o is open at the start of the run and behind each of its events. */
  predicate StaysOpen(s: State, es: seq<Event>, o: Owner)
    requires CanRun(s, es)
    decreases |es|
  {
    Run(s, es).transaction == Some(o) && (es == [] || StaysOpen(s, es[..|es| - 1], o))
  }

  /**
   A transaction, the app's say, stays open over a run exactly as long as neither the app nor a
   client ends it with a batch and no closing ROLLBACK falls in, whosever that is.
   */
  lemma {:induction false} StaysOpenIff(s: State, es: seq<Event>, o: Owner)
    requires CanRun(s, es) && s.transaction == Some(o)
    ensures StaysOpen(s, es, o) <==> forall i :: 0 <= i < |es| ==> !EndsTransaction(es[i])
    decreases |es|
  {
    hide Enabled, EndsTransaction;
    if es != [] {
      var n := |es| - 1;
      StaysOpenIff(s, es[..n], o);
      if Run(s, es[..n]).transaction == Some(o) {
        OneEnds(Run(s, es[..n]), es[n], o);
      }
      assert forall i :: 0 <= i < n ==> es[..n][i] == es[i];
    }
  }

  lemma OneEnds(s: State, e: Event, o: Owner)
    requires Enabled(s, e) && s.transaction == Some(o)
    ensures Step(s, e).transaction == Some(o) <==> !EndsTransaction(e)
  {
  }

  /** A client that connects while the app is in a transaction, and breaks off in its handshake. */
  function Stranger(c: nat): seq<Event> {
    [AppQuery([], Begins), Accept(c), Leave(c), Undo(c)]
  }

  /**
   So the app's transaction can be undone without a password: a connection whose handshake
   throws gets its ROLLBACK executed like any other.
   */
  lemma StrangerUndoesApp(s: State, c: nat)
    requires Inv(s) && s.listening && s.active == None && c !in s.phases && s.transaction == None
    ensures CanRun(s, Stranger(c)) && CanRun(s, Stranger(c)[..1])
    ensures Run(s, Stranger(c)[..1]).transaction == Some(App)
    ensures Run(s, Stranger(c)).transaction == None && c !in Run(s, Stranger(c)).passed
    ensures Inv(Run(s, Stranger(c)))
  {
    hide Inv, Separated, CanRun, Run;
    InvSlot(s);
    var es := Stranger(c);
    assert es[..1] == [AppQuery([], Begins)];
    OneEvent(s, AppQuery([], Begins));
    KeepsTwo(s, AppQuery([], Begins), Accept(c));
    var s2 := Run(s, [AppQuery([], Begins), Accept(c)]);
    KeepsTwo(s2, Leave(c), Undo(c));
    RunAppend(s, [AppQuery([], Begins), Accept(c)], [Leave(c), Undo(c)]);
    assert [AppQuery([], Begins), Accept(c)] + [Leave(c), Undo(c)] == es;
  }

  // ---------- the server object ----------

  /** The two fields of the server that its handlers on the queue read and write. */
  class Server {
    var listening: bool
    var active: Option<nat>

    ghost predicate Shows(s: State)
      reads this
    {
      listening == s.listening && active == s.active
    }

    constructor ()
      ensures Shows(INITIAL)
    {
      listening := false;
      active := None;
    }

    method StartListening(ghost s: State)
      requires Shows(s)
      modifies this
      ensures Shows(Step(s, Start))
    {
      listening := true;
    }

    /** A connection beyond the first is cancelled on the spot. */
    method AcceptConnection(c: nat, ghost s: State) returns (cancelled: bool)
      requires Shows(s) && Enabled(s, Accept(c))
      modifies this
      ensures Shows(Step(s, Accept(c)))
      ensures cancelled <==> Step(s, Accept(c)).phases[c] == Over
    {
      if active.Some? {
        return true;
      }
      active := Some(c);
      cancelled := false;
    }

    /** The handler queued when the transport reports the end of c. */
    method ClearSlot(c: nat, ghost s: State)
      requires Shows(s) && Enabled(s, Release(c))
      modifies this
      ensures Shows(Step(s, Release(c)))
    {
      if active == Some(c) {
        active := None;
      }
    }

    method StopListening(ghost s: State) returns (cancelled: Option<nat>)
      requires Shows(s)
      modifies this
      ensures Shows(Step(s, Stop)) && cancelled == s.active
    {
      listening := false;
      cancelled := active;
      active := None;
    }
  }
}
