/**
 PGliteDatabase.withTransaction over PostgreSQL's transaction states: outside a transaction, in
 one, or in one that has failed and accepts nothing but its end. The actor is reentrant and the
 backend session is shared, so while the closure awaits, statements of other tasks fall in.
 */
module Transactions {
  import opened Bytes

  datatype Status = Idle | Open | Failed

  /** What a statement does to the data, for this call's closure or for another task. */
  datatype Effect = Mine(value: int) | Theirs(value: int)

  datatype Backend = Backend(status: Status, committed: seq<Effect>, pending: seq<Effect>)

  /** `ok` is whether the statement, or the commit, succeeds if it is carried out at all. */
  datatype Statement = Plain(effect: Effect, ok: bool) | Begin | Commit(ok: bool) | Rollback

  predicate BackendOk(b: Backend) {
    b.status != Open ==> b.pending == []
  }

  /** The engine answers with an error. */
  predicate Errs(b: Backend, s: Statement) {
    match s
    case Plain(_, ok) => b.status == Failed || !ok
    case Begin => b.status == Failed
    case Commit(ok) => b.status == Open && !ok
    case Rollback => false
  }

  function Execute(b: Backend, s: Statement): Backend {
    match s
    case Plain(effect, ok) =>
      if b.status == Failed then b
      else if b.status == Idle then if ok then b.(committed := b.committed + [effect]) else b
      else if ok then b.(pending := b.pending + [effect])
      else Backend(Failed, b.committed, [])
    case Begin => if b.status == Idle then b.(status := Open) else b
    case Commit(ok) =>
      if b.status == Open && ok then Backend(Idle, b.committed + b.pending, [])
      else Backend(Idle, b.committed, [])
    case Rollback => Backend(Idle, b.committed, [])
  }

  /** A statement of the closure, which may catch its error, or one of another task. */
  datatype Item =
    | Own(value: int, ok: bool, caught: bool)
    | OtherQuery(value: int, ok: bool)
    | OtherBegin
    | OtherCommit(ok: bool)
    | OtherRollback

  function StatementOf(i: Item): Statement {
    match i
    case Own(v, ok, _) => Plain(Mine(v), ok)
    case OtherQuery(v, ok) => Plain(Theirs(v), ok)
    case OtherBegin => Begin
    case OtherCommit(ok) => Commit(ok)
    case OtherRollback => Rollback
  }

  /** The closure's statements and what falls in between, and whether it throws of its own accord at the end. */
  datatype Body = Body(items: seq<Item>, throws: bool)

  datatype After = After(backend: Backend, threw: bool)

  /** Once the closure has thrown, only other tasks go on. */
  function RunItems(b: Backend, items: seq<Item>, threw: bool): After
    decreases |items|
  {
    if items == [] then After(b, threw)
    else if items[0].Own? && threw then RunItems(b, items[1..], threw)
    else
      var s := StatementOf(items[0]);
      RunItems(Execute(b, s), items[1..], threw || (items[0].Own? && Errs(b, s) && !items[0].caught))
  }

  function RunBody(b: Backend, body: Body): After {
    var r := RunItems(b, body.items, false);
    After(r.backend, r.threw || body.throws)
  }

  function WithTransaction(b: Backend, body: Body, commitOk: bool): After {
    if Errs(b, Begin) then After(Execute(b, Begin), true)
    else
      var r := RunBody(Execute(b, Begin), body);
      if r.threw then After(Execute(r.backend, Rollback), true)
      else if Errs(r.backend, Commit(commitOk)) then
        After(Execute(Execute(r.backend, Commit(commitOk)), Rollback), true)
      else After(Execute(r.backend, Commit(commitOk)), false)
  }

  // ---------- with no other task ending the transaction ----------

  /** No other task commits or rolls back meanwhile. */
  predicate Undisturbed(items: seq<Item>) {
    forall i :: 0 <= i < |items| ==> !items[i].OtherCommit? && !items[i].OtherRollback?
  }

  predicate Fine(i: Item) {
    (i.Own? || i.OtherQuery? || i.OtherCommit?) ==> i.ok
  }

  predicate AllOk(items: seq<Item>) {
    forall i :: 0 <= i < |items| ==> Fine(items[i])
  }

  function EffectOf(i: Item): seq<Effect> {
    if i.Own? then [Mine(i.value)] else if i.OtherQuery? then [Theirs(i.value)] else []
  }

  function Effects(items: seq<Item>): seq<Effect> {
    if items == [] then [] else EffectOf(items[0]) + Effects(items[1..])
  }

  /** An error gets out of the closure: it does not catch what fails at or behind the first failure. */
  predicate LetsThrough(items: seq<Item>) {
    items != [] &&
    if Fine(items[0]) then LetsThrough(items[1..]) else NotAllCaught(items)
  }

  predicate NotAllCaught(items: seq<Item>) {
    exists i :: 0 <= i < |items| && items[i].Own? && !items[i].caught
  }

  lemma ItemsCons(items: seq<Item>)
    requires items != []
    ensures Undisturbed(items) ==> Undisturbed(items[1..])
    ensures AllOk(items) <==> Fine(items[0]) && AllOk(items[1..])
    ensures NotAllCaught(items) <==> (items[0].Own? && !items[0].caught) || NotAllCaught(items[1..])
  {
    var rest := items[1..];
    assert forall i :: 1 <= i < |items| ==> rest[i - 1] == items[i];
    assert forall i :: 0 <= i < |rest| ==> items[i + 1] == rest[i];
  }

  lemma {:induction false} FailedStays(b: Backend, items: seq<Item>, threw: bool)
    requires b.status == Failed && Undisturbed(items)
    ensures RunItems(b, items, threw) == After(b, threw || NotAllCaught(items))
    decreases |items|
  {
    if items != [] {
      ItemsCons(items);
      hide NotAllCaught, Undisturbed;
      FailedStays(b, items[1..], threw || (items[0].Own? && !items[0].caught));
    }
  }

  lemma {:induction false} OpenRuns(b: Backend, items: seq<Item>)
    requires b.status == Open && Undisturbed(items)
    ensures AllOk(items) ==>
              && RunItems(b, items, false) == After(b.(pending := b.pending + Effects(items)), false)
              && !LetsThrough(items)
    ensures !AllOk(items) ==>
              RunItems(b, items, false) == After(Backend(Failed, b.committed, []), LetsThrough(items))
    decreases |items|
  {
    if items == [] {
      assert b.pending + Effects(items) == b.pending;
    } else {
      ItemsCons(items);
      hide NotAllCaught, AllOk;
      assert !items[0].OtherCommit? && !items[0].OtherRollback?;
      hide Undisturbed;
      var c := Execute(b, StatementOf(items[0]));
      if Fine(items[0]) {
        OpenRuns(c, items[1..]);
        Assoc(b.pending, EffectOf(items[0]), Effects(items[1..]));
        assert b.pending + [] == b.pending;
      } else {
        FailedStays(c, items[1..], items[0].Own? && !items[0].caught);
      }
    }
  }

  /**
   From outside a transaction, with no other task ending it, everything done meanwhile is
   committed, in order, or nothing is, and no transaction is left open. All of it is committed
   exactly if every statement succeeded, other tasks' included, the closure returned and the
   commit succeeded.
   */
  lemma AllOrNothing(b: Backend, body: Body, commitOk: bool)
    requires b.status == Idle && BackendOk(b) && Undisturbed(body.items)
    ensures var r := WithTransaction(b, body, commitOk);
            r.backend == if AllOk(body.items) && !body.throws && commitOk
                         then b.(committed := b.committed + Effects(body.items)) else b
  {
    hide AllOk, Undisturbed;
    OpenRuns(Execute(b, Begin), body.items);
    assert [] + Effects(body.items) == Effects(body.items);
  }

  /**
   It throws exactly if an error is let through or the commit fails. So it returns as if all were
   well, with everything rolled back, exactly if a statement failed and the closure caught every
   error of its own from there on; the failing statement may be another task's.
   */
  lemma ThrowsIff(b: Backend, body: Body, commitOk: bool)
    requires b.status == Idle && BackendOk(b) && Undisturbed(body.items)
    ensures var r := WithTransaction(b, body, commitOk);
            && (r.threw <==> body.throws || LetsThrough(body.items) || (AllOk(body.items) && !commitOk))
            && (!r.threw && !AllOk(body.items) ==> r.backend == b)
  {
    hide AllOk, Undisturbed, LetsThrough;
    OpenRuns(Execute(b, Begin), body.items);
  }

  /**
   Inside an open transaction there is no nesting: the inner call ends the outer transaction,
   and commits or drops what the outer one had done along with its own. Inside a failed one it
   only throws, and leaves the failure to its owner.
   */
  lemma NestedEndsOuter(b: Backend, body: Body, commitOk: bool)
    requires BackendOk(b) && Undisturbed(body.items)
    ensures var r := WithTransaction(b, body, commitOk);
            && (b.status == Open ==>
                  r.backend == Backend(Idle,
                    b.committed + if AllOk(body.items) && !body.throws && commitOk
                                  then b.pending + Effects(body.items) else [], []))
            && (b.status == Failed ==> r == After(b, true))
            && (r.backend.status == Idle <==> b.status != Failed)
  {
    hide AllOk, Undisturbed;
    if b.status == Open {
      OpenRuns(b, body.items);
    } else if b.status == Idle {
      AllOrNothing(b, body, commitOk);
    }
  }

  // ---------- with other tasks doing anything ----------

  function MineOf(es: seq<Effect>): seq<int> {
    if es == [] then []
    else MineOf(es[..|es| - 1]) + if es[|es| - 1].Mine? then [es[|es| - 1].value] else []
  }

  function OwnValues(items: seq<Item>): seq<int> {
    if items == [] then [] else (if items[0].Own? then [items[0].value] else []) + OwnValues(items[1..])
  }

  /** What the call promises for the closure's own statements: all or nothing, and nothing if it throws. */
  predicate Keeps(b: Backend, body: Body, commitOk: bool) {
    var r := WithTransaction(b, body, commitOk);
    var before, behind := MineOf(b.committed), MineOf(r.backend.committed);
    && (behind == before || behind == before + OwnValues(body.items))
    && (r.threw ==> behind == before)
  }

  /** The same statements in the same order; which of them fail, and what is caught, may differ. */
  predicate SameSchedule(a: seq<Item>, b: seq<Item>) {
    |a| == |b| && forall i :: 0 <= i < |a| ==> Bare(a[i]) == Bare(b[i])
  }

  function Bare(i: Item): Item {
    match i
    case Own(v, _, _) => Own(v, true, false)
    case OtherQuery(v, _) => OtherQuery(v, true)
    case OtherCommit(_) => OtherCommit(true)
    case _ => i
  }

  /**
   A walk over the schedule. The closure's statements must all fall inside a transaction, none of
   them may be committed by another task, and they may not be split between transactions another
   task has rolled back and the one that the call ends itself. `within` says that a transaction is
   open, `held` that statements of the closure are in it, `lost` that some were rolled back.
   */
  predicate OneFate(items: seq<Item>, within: bool, held: bool, lost: bool)
    decreases |items|
  {
    if items == [] then !(lost && held)
    else
      var rest := items[1..];
      match items[0]
      case Own(_, _, _) => within && OneFate(rest, true, true, lost)
      case OtherQuery(_, _) => OneFate(rest, within, held, lost)
      case OtherBegin => OneFate(rest, true, held, lost)
      case OtherCommit(_) => !held && OneFate(rest, false, false, lost)
      case OtherRollback => OneFate(rest, false, false, lost || held)
  }

  lemma {:induction false} MineOfAppend(a: seq<Effect>, b: seq<Effect>)
    ensures MineOf(a + b) == MineOf(a) + MineOf(b)
    decreases |b|
  {
    if b == [] {
      assert a + b == a;
    } else {
      var n := |b| - 1;
      assert (a + b)[..|a + b| - 1] == a + b[..n];
      MineOfAppend(a, b[..n]);
    }
  }

  lemma MineOfSnoc(a: seq<Effect>, e: Effect)
    ensures MineOf(a + [e]) == MineOf(a) + if e.Mine? then [e.value] else []
  {
    assert (a + [e])[..|a|] == a;
  }

  /** What one item does to the effects of the closure. */
  lemma ItemTells(b: Backend, i: Item)
    ensures var c := Execute(b, StatementOf(i));
            match i
            case Own(v, ok, _) =>
              && (b.status == Idle ==>
                    c.status == Idle && MineOf(c.committed) == MineOf(b.committed) + if ok then [v] else [])
              && (b.status == Open && ok ==>
                    c.status == Open && c.committed == b.committed && MineOf(c.pending) == MineOf(b.pending) + [v])
              && (b.status == Failed || (b.status == Open && !ok) ==> c.status == Failed && c.committed == b.committed)
            case OtherQuery(_, ok) =>
              && MineOf(c.committed) == MineOf(b.committed)
              && (c.status == b.status || (b.status == Open && !ok && c.status == Failed))
              && (c.status == Open ==> MineOf(c.pending) == MineOf(b.pending))
            case OtherBegin =>
              && c.committed == b.committed && c.pending == b.pending
              && c.status == if b.status == Idle then Open else b.status
            case OtherCommit(ok) =>
              c.status == Idle && MineOf(c.committed) ==
              MineOf(b.committed) + if b.status == Open && ok then MineOf(b.pending) else []
            case OtherRollback => c.status == Idle && c.committed == b.committed
  {
    match i
    case Own(v, _, _) =>
      MineOfSnoc(b.committed, Mine(v));
      MineOfSnoc(b.pending, Mine(v));
    case OtherQuery(v, _) =>
      MineOfSnoc(b.committed, Theirs(v));
      MineOfSnoc(b.pending, Theirs(v));
    case OtherCommit(_) =>
      MineOfAppend(b.committed, b.pending);
    case _ =>
  }

  /** On a schedule with one fate nothing of the closure is committed early, and all or none of it is pending last. */
  lemma {:induction false} FateHolds(b: Backend, items: seq<Item>, threw: bool, held: seq<int>, lost: bool)
    requires OneFate(items, b.status != Idle, held != [], lost) && BackendOk(b)
    requires b.status == Idle ==> held == []
    requires b.status == Open ==> MineOf(b.pending) == if threw then [] else held
    ensures var r := RunItems(b, items, threw);
            && BackendOk(r.backend) && MineOf(r.backend.committed) == MineOf(b.committed)
            && (!r.threw && r.backend.status == Open ==>
                  MineOf(r.backend.pending) == [] ||
                  (!lost && MineOf(r.backend.pending) == held + OwnValues(items)))
    decreases |items|
  {
    hide MineOf, Execute;
    NoneMine();
    if items != [] {
      var i := items[0];
      var next := if i.Own? then held + [i.value] else if i.OtherCommit? || i.OtherRollback? then [] else held;
      Assoc(held, if i.Own? then [i.value] else [], OwnValues(items[1..]));
      if i.Own? && threw {
        FateHolds(b, items[1..], threw, next, lost);
      } else {
        var s := StatementOf(i);
        ItemTells(b, i);
        StaysOk(b, s);
        FateHolds(Execute(b, s), items[1..], threw || (i.Own? && Errs(b, s) && !i.caught), next,
                  lost || (i.OtherRollback? && held != []));
      }
    }
  }

  lemma NoneMine()
    ensures MineOf([]) == []
  {
  }

  lemma StaysOk(b: Backend, s: Statement)
    requires BackendOk(b)
    ensures BackendOk(Execute(b, s))
  {
  }

  /** The same statements, all of which succeed. */
  function Succeeding(items: seq<Item>): (r: seq<Item>)
    ensures |r| == |items|
    ensures forall i :: 0 <= i < |items| ==> r[i] == Bare(items[i])
  {
    if items == [] then [] else [Bare(items[0])] + Succeeding(items[1..])
  }

  /**
   On a schedule without one fate, if every statement succeeds, then something of the closure is
   committed early, or some but not all of it is pending at the end.
   */
  lemma {:induction false} FateFails(b: Backend, items: seq<Item>, held: seq<int>, lost: bool)
    requires BackendOk(b) && b.status != Failed && (b.status == Idle ==> held == [])
    requires b.status == Open ==> MineOf(b.pending) == held
    ensures var r := RunItems(b, Succeeding(items), false);
            var early := |MineOf(r.backend.committed)| - |MineOf(b.committed)|;
            var late := |MineOf(r.backend.pending)|;
            && !r.threw && early >= 0 && BackendOk(r.backend) && r.backend.status != Failed
            && (early == 0 ==> late <= |held| + |OwnValues(items)|)
            && (!OneFate(items, b.status == Open, held != [], lost) && early == 0 ==>
                  0 < late && (lost || late < |held| + |OwnValues(items)|))
    decreases |items|
  {
    hide MineOf, Execute;
    NoneMine();
    if items != [] {
      var i := Bare(items[0]);
      var next := if i.Own? then held + [i.value] else if i.OtherCommit? || i.OtherRollback? then [] else held;
      var s := StatementOf(i);
      ItemTells(b, i);
      StaysOk(b, s);
      NeverFails(b, s);
      assert Succeeding(items)[1..] == Succeeding(items[1..]);
      FateFails(Execute(b, s), items[1..], if b.status == Idle && i.Own? then [] else next,
                lost || (i.OtherRollback? && held != []));
    }
  }

  lemma NeverFails(b: Backend, s: Statement)
    requires b.status != Failed && (s.Plain? || s.Commit? ==> s.ok)
    ensures Execute(b, s).status != Failed && !Errs(b, s)
  {
  }

  lemma {:induction false} SameFate(a: seq<Item>, b: seq<Item>, within: bool, held: bool, lost: bool)
    requires SameSchedule(a, b)
    ensures OneFate(a, within, held, lost) == OneFate(b, within, held, lost)
    ensures OwnValues(a) == OwnValues(b)
    decreases |a|
  {
    if a != [] {
      assert Bare(a[0]) == Bare(b[0]);
      var ra, rb := a[1..], b[1..];
      assert forall i :: 0 <= i < |ra| ==> Bare(a[i + 1]) == Bare(b[i + 1]) && ra[i] == a[i + 1] && rb[i] == b[i + 1];
      match a[0]
      case Own(_, _, _) => SameFate(ra, rb, true, true, lost);
      case OtherQuery(_, _) => SameFate(ra, rb, within, held, lost);
      case OtherBegin => SameFate(ra, rb, true, held, lost);
      case OtherCommit(_) => SameFate(ra, rb, false, false, lost);
      case OtherRollback => SameFate(ra, rb, false, false, lost || held);
    }
  }

  lemma OneFateKeeps(b: Backend, body: Body, commitOk: bool)
    requires b.status == Idle && BackendOk(b) && OneFate(body.items, true, false, false)
    ensures Keeps(b, body, commitOk)
  {
    hide MineOf, OneFate, OwnValues;
    NoneMine();
    FateHolds(Execute(b, Begin), body.items, false, [], false);
    var r := RunItems(Execute(b, Begin), body.items, false);
    assert [] + OwnValues(body.items) == OwnValues(body.items);
    MineOfAppend(r.backend.committed, r.backend.pending);
  }

  lemma NoFateBreaks(b: Backend, items: seq<Item>)
    requires b.status == Idle && BackendOk(b) && !OneFate(items, true, false, false)
    ensures SameSchedule(items, Succeeding(items))
    ensures !Keeps(b, Body(Succeeding(items), true), true) || !Keeps(b, Body(Succeeding(items), false), true)
  {
    hide MineOf, OneFate, OwnValues;
    NoneMine();
    var o := Execute(b, Begin);
    FateFails(o, items, [], false);
    var r := RunItems(o, Succeeding(items), false);
    MineOfAppend(r.backend.committed, r.backend.pending);
    BareTwice(items);
    SameFate(items, Succeeding(items), true, false, false);
  }

  lemma BareTwice(items: seq<Item>)
    ensures SameSchedule(items, Succeeding(items))
  {
  }

  /**
   All-or-nothing, and nothing for a call that throws, holds whatever fails and whatever is caught
   exactly on the schedules with one fate.
   */
  lemma KeepsIff(b: Backend, items: seq<Item>)
    requires b.status == Idle && BackendOk(b)
    ensures (forall actual, throws, commitOk ::
               SameSchedule(items, actual) ==> Keeps(b, Body(actual, throws), commitOk)) <==>
            OneFate(items, true, false, false)
  {
    hide OneFate, Keeps, SameSchedule;
    if OneFate(items, true, false, false) {
      forall actual, throws, commitOk | SameSchedule(items, actual) ensures Keeps(b, Body(actual, throws), commitOk) {
        SameFate(items, actual, true, false, false);
        OneFateKeeps(b, Body(actual, throws), commitOk);
      }
    } else {
      NoFateBreaks(b, items);
    }
  }

  lemma {:induction false} UndisturbedKeeps(items: seq<Item>, held: bool)
    requires Undisturbed(items)
    ensures OneFate(items, true, held, false)
    decreases |items|
  {
    if items != [] {
      ItemsCons(items);
      UndisturbedKeeps(items[1..], held || items[0].Own?);
    }
  }

  lemma {:induction false} HeldThenCommit(items: seq<Item>, j: nat, lost: bool)
    requires j < |items| && items[j].OtherCommit? && forall k :: 0 <= k < j ==> !items[k].OtherRollback?
    ensures !OneFate(items, true, true, lost)
    decreases |items|
  {
    if j > 0 && !items[0].OtherCommit? {
      assert !items[0].OtherRollback?;
      assert forall k :: 0 <= k < j - 1 ==> items[1..][k] == items[k + 1];
      HeldThenCommit(items[1..], j - 1, lost);
    }
  }

  /** Two such calls at once break each other as soon as one commits behind a statement of the other. */
  lemma {:induction false} EarlyCommitBreaks(items: seq<Item>, i: nat, j: nat, within: bool, held: bool, lost: bool)
    requires i < j < |items| && items[i].Own? && items[j].OtherCommit?
    requires forall k :: i < k < j ==> !items[k].OtherRollback?
    ensures !OneFate(items, within, held, lost)
    decreases i
  {
    var rest := items[1..];
    assert forall k :: 0 <= k < |rest| ==> rest[k] == items[k + 1];
    if i == 0 {
      HeldThenCommit(rest, j - 1, lost);
    } else {
      match items[0]
      case Own(_, _, _) => EarlyCommitBreaks(rest, i - 1, j - 1, true, true, lost);
      case OtherQuery(_, _) => EarlyCommitBreaks(rest, i - 1, j - 1, within, held, lost);
      case OtherBegin => EarlyCommitBreaks(rest, i - 1, j - 1, true, held, lost);
      case OtherCommit(_) => EarlyCommitBreaks(rest, i - 1, j - 1, false, false, lost);
      case OtherRollback => EarlyCommitBreaks(rest, i - 1, j - 1, false, false, lost || held);
    }
  }

  /** Nothing behind item k takes the closure's statement there back. */
  predicate NoRollbackBehind(items: seq<Item>, k: int) {
    forall l :: 0 <= l < |items| && l > k ==> !items[l].OtherRollback?
  }

  lemma {:induction false} LostThenHeld(items: seq<Item>)
    requires NoRollbackBehind(items, -1)
    ensures !OneFate(items, true, true, true)
    decreases |items|
  {
    if items != [] {
      assert !items[0].OtherRollback?;
      assert forall l :: 0 <= l < |items| - 1 ==> items[1..][l] == items[l + 1];
      LostThenHeld(items[1..]);
    }
  }

  lemma {:induction false} LostThenOwn(items: seq<Item>, k: nat, within: bool, held: bool)
    requires k < |items| && items[k].Own? && NoRollbackBehind(items, k)
    ensures !OneFate(items, within, held, true)
    decreases |items|
  {
    var rest := items[1..];
    assert forall l :: 0 <= l < |rest| ==> rest[l] == items[l + 1];
    if k == 0 {
      LostThenHeld(rest);
    } else {
      match items[0]
      case Own(_, _, _) => LostThenOwn(rest, k - 1, true, true);
      case OtherQuery(_, _) => LostThenOwn(rest, k - 1, within, held);
      case OtherBegin => LostThenOwn(rest, k - 1, true, held);
      case OtherCommit(_) => LostThenOwn(rest, k - 1, false, false);
      case OtherRollback => LostThenOwn(rest, k - 1, false, false);
    }
  }

  lemma {:induction false} HeldThenSplit(items: seq<Item>, j: nat, k: nat, lost: bool)
    requires j < k < |items| && items[j].OtherRollback? && items[k].Own? && NoRollbackBehind(items, k)
    ensures !OneFate(items, true, true, lost)
    decreases |items|
  {
    var rest := items[1..];
    assert forall l :: 0 <= l < |rest| ==> rest[l] == items[l + 1];
    if items[0].OtherRollback? {
      LostThenOwn(rest, k - 1, false, false);
    } else if !items[0].OtherCommit? {
      HeldThenSplit(rest, j - 1, k - 1, lost);
    }
  }

  /**
   A ROLLBACK of another task between two statements of the closure, with none behind the second,
   always breaks it: the first is lost and the second is not.
   */
  lemma {:induction false} SplitBreaks(items: seq<Item>, i: nat, j: nat, k: nat, within: bool, held: bool, lost: bool)
    requires i < j < k < |items| && items[i].Own? && items[j].OtherRollback? && items[k].Own?
    requires NoRollbackBehind(items, k)
    ensures !OneFate(items, within, held, lost)
    decreases i
  {
    var rest := items[1..];
    assert forall l :: 0 <= l < |rest| ==> rest[l] == items[l + 1];
    if i == 0 {
      HeldThenSplit(rest, j - 1, k - 1, lost);
    } else {
      match items[0]
      case Own(_, _, _) => SplitBreaks(rest, i - 1, j - 1, k - 1, true, true, lost);
      case OtherQuery(_, _) => SplitBreaks(rest, i - 1, j - 1, k - 1, within, held, lost);
      case OtherBegin => SplitBreaks(rest, i - 1, j - 1, k - 1, true, held, lost);
      case OtherCommit(_) => SplitBreaks(rest, i - 1, j - 1, k - 1, false, false, lost);
      case OtherRollback => SplitBreaks(rest, i - 1, j - 1, k - 1, false, false, lost || held);
    }
  }

  // ---------- the actor ----------

  class Database {
    var status: Status
    var committed: seq<Effect>
    var pending: seq<Effect>

    ghost function Value(): Backend
      reads this
    {
      Backend(status, committed, pending)
    }

    constructor ()
      ensures Value() == Backend(Idle, [], [])
    {
      status := Idle;
      committed := [];
      pending := [];
    }

    method ExecuteOne(s: Statement) returns (threw: bool)
      modifies this
      ensures Value() == Execute(old(Value()), s) && threw == Errs(old(Value()), s)
    {
      threw := Errs(Backend(status, committed, pending), s);
      var b := Execute(Backend(status, committed, pending), s);
      status, committed, pending := b.status, b.committed, b.pending;
    }

    /** The closure's statements; at each await those of other tasks fall in. */
    method RunClosure(body: Body) returns (threw: bool)
      modifies this
      ensures After(Value(), threw) == RunBody(old(Value()), body)
    {
      hide Execute, Errs, StatementOf;
      threw := false;
      var i := 0;
      while i < |body.items|
        invariant 0 <= i <= |body.items|
        invariant RunItems(old(Value()), body.items, false) == RunItems(Value(), body.items[i..], threw)
      {
        var item := body.items[i];
        assert body.items[i..][0] == item && body.items[i..][1..] == body.items[i + 1..];
        if !item.Own? {
          var ignored := ExecuteOne(StatementOf(item));
        } else if !threw {
          var error := ExecuteOne(StatementOf(item));
          threw := error && !item.caught;
        }
        i := i + 1;
      }
      threw := threw || body.throws;
    }

    method InTransaction(body: Body, commitOk: bool) returns (threw: bool)
      modifies this
      ensures After(Value(), threw) == WithTransaction(old(Value()), body, commitOk)
    {
      hide Execute, Errs, RunBody;
      threw := ExecuteOne(Begin);
      if threw {
        return;
      }
      threw := RunClosure(body);
      if !threw {
        threw := ExecuteOne(Commit(commitOk));
        if !threw {
          return;
        }
      }
      var ignored := ExecuteOne(Rollback);
      threw := true;
    }
  }
}
