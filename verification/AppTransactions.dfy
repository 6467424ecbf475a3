/**
 The app's withTransaction in front of the localhost server: what the server's events are to a
 closure that awaits, and what that does to its promise.
 */
module AppTransactions {
  import opened Bytes
  import S = ServerSessions
  import T = Transactions

  /** A batch of a client, by what it does to the transaction; one that ends it either commits or rolls back. */
  function ItemOf(e: S.Event, commits: bool): seq<T.Item> {
    match e
    case AppQuery(_, _) => [T.Own(0, true, false)]
    case Undo(_) => [T.OtherRollback]
    case Serve(_, _, Keeps) => [T.OtherQuery(0, true)]
    case Serve(_, _, Begins) => [T.OtherBegin]
    case Serve(_, _, Ends) => if commits then [T.OtherCommit(true)] else [T.OtherRollback]
    case _ => []
  }

  /** The schedule of a closure whose statements are the app's queries in a run of the server. */
  function ScheduleOf(es: seq<S.Event>, commits: bool): seq<T.Item> {
    if es == [] then [] else ScheduleOf(es[..|es| - 1], commits) + ItemOf(es[|es| - 1], commits)
  }

  /** Where the item of event i stands in the schedule. */
  function Place(es: seq<S.Event>, i: nat, commits: bool): nat
    requires i <= |es|
  {
    |ScheduleOf(es[..i], commits)|
  }

  lemma {:induction false} PlaceHolds(es: seq<S.Event>, i: nat, commits: bool)
    requires i < |es| && ItemOf(es[i], commits) != []
    ensures Place(es, i, commits) < |ScheduleOf(es, commits)|
    ensures ScheduleOf(es, commits)[Place(es, i, commits)] == ItemOf(es[i], commits)[0]
    decreases |es|
  {
    hide ItemOf;
    var n := |es| - 1;
    if i < n {
      PlaceHolds(es[..n], i, commits);
      assert es[..n][..i] == es[..i];
    }
  }

  /** The item of an event stands before those of later events. */
  lemma PlacesRise(es: seq<S.Event>, i: nat, j: nat, commits: bool)
    requires i < j < |es| && ItemOf(es[i], commits) != []
    ensures Place(es, i, commits) < Place(es, j, commits)
  {
    hide ItemOf;
    PlaceHolds(es[..j], i, commits);
    assert es[..j][..i] == es[..i];
  }

  /** An item that ends the transaction comes from an event that does. */
  lemma {:induction false} EndersEnd(es: seq<S.Event>, l: nat, commits: bool)
    requires l < |ScheduleOf(es, commits)|
    requires ScheduleOf(es, commits)[l].OtherRollback? || ScheduleOf(es, commits)[l].OtherCommit?
    ensures exists i :: 0 <= i < |es| && S.EndsTransaction(es[i]) && ItemOf(es[i], commits) != []
                        && Place(es, i, commits) == l
    decreases |es|
  {
    var n := |es| - 1;
    if l < |ScheduleOf(es[..n], commits)| {
      EndersEnd(es[..n], l, commits);
      var i :| 0 <= i < n && S.EndsTransaction(es[..n][i]) && ItemOf(es[..n][i], commits) != []
               && Place(es[..n], i, commits) == l;
      assert es[..n][i] == es[i] && es[..n][..i] == es[..i];
    } else {
      assert S.EndsTransaction(es[n]) && Place(es, n, commits) == l;
    }
  }

  /** A run of the server in which nothing ends the transaction leaves the promise intact. */
  lemma ServerLeavesAlone(es: seq<S.Event>, commits: bool)
    requires forall i :: 0 <= i < |es| ==> !S.EndsTransaction(es[i])
    ensures T.OneFate(ScheduleOf(es, commits), true, false, false)
  {
    hide ItemOf, ScheduleOf, T.OneFate;
    var items := ScheduleOf(es, commits);
    forall l | 0 <= l < |items| ensures !items[l].OtherCommit? && !items[l].OtherRollback? {
      if items[l].OtherCommit? || items[l].OtherRollback? {
        EndersEnd(es, l, commits);
      }
    }
    T.UndisturbedKeeps(items, false);
  }

  /**
   A closing ROLLBACK between two statements of the closure, with nothing behind the second that
   ends a transaction, breaks it, whosever ROLLBACK it is.
   */
  lemma ClosingSplits(es: seq<S.Event>, i: nat, j: nat, k: nat, commits: bool)
    requires i < j < k < |es| && es[i].AppQuery? && es[j].Undo? && es[k].AppQuery?
    requires forall l :: k < l < |es| ==> !S.EndsTransaction(es[l])
    ensures !T.OneFate(ScheduleOf(es, commits), true, false, false)
  {
    hide ScheduleOf, T.OneFate, Place;
    var items := ScheduleOf(es, commits);
    PlaceHolds(es, i, commits);
    PlaceHolds(es, j, commits);
    PlaceHolds(es, k, commits);
    PlacesRise(es, i, j, commits);
    PlacesRise(es, j, k, commits);
    var at := Place(es, k, commits);
    forall l | 0 <= l < |items| && l > at ensures !items[l].OtherRollback? {
      if items[l].OtherRollback? {
        EndersEnd(es, l, commits);
        var e :| 0 <= e < |es| && S.EndsTransaction(es[e]) && ItemOf(es[e], commits) != []
                 && Place(es, e, commits) == l;
        if e < k {
          PlacesRise(es, e, k, commits);
        }
      }
    }
    T.SplitBreaks(items, Place(es, i, commits), Place(es, j, commits), at, true, false, false);
  }

  /** Two queries of the closure, and between them a client that breaks off in its handshake. */
  function Intruded(c: nat): seq<S.Event> {
    [S.AppQuery([], S.Keeps), S.Accept(c), S.Leave(c), S.Undo(c), S.AppQuery([], S.Keeps)]
  }

  /**
   While the app is in a transaction and the slot is free, a connection that never passes its
   handshake can break the promise in an orderly run: there are outcomes of the same statements
   with which part of the closure is committed, or all of it by a call that throws.
   */
  lemma StrangerBreaksPromise(s: S.State, c: nat, b: T.Backend)
    requires S.Inv(s) && s.listening && s.active == None && c !in s.phases && s.transaction == Some(S.App)
    requires b.status == T.Idle && T.BackendOk(b)
    ensures S.CanRun(s, Intruded(c)) && S.Inv(S.Run(s, Intruded(c))) && c !in S.Run(s, Intruded(c)).passed
    ensures exists actual, throws, commitOk ::
              T.SameSchedule(ScheduleOf(Intruded(c), true), actual) && !T.Keeps(b, T.Body(actual, throws), commitOk)
  {
    hide T.OneFate, T.Keeps, T.SameSchedule, ScheduleOf, S.Separated, S.Inv;
    var es := Intruded(c);
    StrangerRuns(s, c);
    ClosingSplits(es, 0, 3, 4, true);
    T.KeepsIff(b, ScheduleOf(es, true));
  }

  lemma StrangerRuns(s: S.State, c: nat)
    requires S.Inv(s) && s.listening && s.active == None && c !in s.phases
    ensures S.CanRun(s, Intruded(c)) && S.Inv(S.Run(s, Intruded(c))) && c !in S.Run(s, Intruded(c)).passed
  {
    hide S.Inv, S.Separated, S.CanRun, S.Run;
    S.InvSlot(s);
    var q := S.AppQuery([], S.Keeps);
    S.KeepsTwo(s, q, S.Accept(c));
    var s2 := S.Run(s, [q, S.Accept(c)]);
    S.KeepsTwo(s2, S.Leave(c), S.Undo(c));
    var s4 := S.Run(s2, [S.Leave(c), S.Undo(c)]);
    S.OneEvent(s4, q);
    S.KeepsInv(s4, q);
    S.RunAppend(s2, [S.Leave(c), S.Undo(c)], [q]);
    S.RunAppend(s, [q, S.Accept(c)], [S.Leave(c), S.Undo(c)] + [q]);
    assert [q, S.Accept(c)] + ([S.Leave(c), S.Undo(c)] + [q]) == Intruded(c);
  }
}
