/**
 What the guest sees of the descriptor table: a partial map from guest numbers to open files.
 Every call of the table is one small change of that map, and whole runs follow it.
 */
module FdBindings {
  import opened FdTable
  import opened HostCalls
  import opened Errno

  type Bindings = map<nat, Slot>

  function Bound(slots: seq<Slot>): Bindings {
    map i: nat | i < |slots| && Live(slots, i) :: slots[i]
  }

  /** k is the lowest number not in use. */
  ghost predicate IsLeastUnbound(m: Bindings, k: nat) {
    k < MAX_FDS && k !in m && forall j: nat :: j < k ==> j in m
  }

  ghost predicate Full(m: Bindings) {
    forall j: nat :: j < MAX_FDS ==> j in m
  }

  /** The abstract calls, as relations between the map before and after. */
  ghost predicate Next(m: Bindings, op: Op, m': Bindings) {
    match op
    case Close(fd) => m' == m - {fd}
    case Renumber(from, to) =>
      if from !in m || to >= MAX_FDS then m' == m
      else if from == to then m' == m - {from}
      else m' == (m - {from})[to := m[from]]
    case Open(q) =>
      if q.dirfd !in m || !q.pathOk || Full(m) || q.answer < 0 then m' == m
      else exists k: nat :: IsLeastUnbound(m, k)
                            && m' == m[k := Slot(q.answer, q.filetype, q.fdflags % 0x1_0000, -1)]
    case List(_, _) => m' == m
  }

  lemma LeastFreeIsLeastUnbound(slots: seq<Slot>)
    requires |slots| == MAX_FDS
    ensures LeastFree(slots, 0) < 0 <==> Full(Bound(slots))
    ensures LeastFree(slots, 0) >= 0 ==> IsLeastUnbound(Bound(slots), LeastFree(slots, 0))
  {
    var r := LeastFree(slots, 0);
    if r >= 0 {
      assert r !in Bound(slots);
      forall j: nat | j < r ensures j in Bound(slots) {
        assert Live(slots, j);
      }
    } else {
      forall j: nat | j < MAX_FDS ensures j in Bound(slots) {
        assert Live(slots, j);
      }
    }
  }

  /**
   What the guest finds behind init, by the kernel's answers: 0 is /dev/null if that opened, 1 and 2
   are the log, appending, and 3 and 4 the two directories with their place in the preopen list. An
   init that fails leaves what it had bound by then. It succeeds exactly if the seed file, the log
   and both directories open.
   */
  lemma InitBinds(a: InitAnswers)
    ensures var s := AfterInit(a);
            var input := if a.devNull >= 0 then map[0 := Slot(a.devNull, 2, 0, -1)] else map[];
            var stdio := input + map[1 := Slot(a.log, 2, 1, -1), 2 := Slot(a.log, 2, 1, -1)];
            && Bound(s.slots) ==
               (if a.urandom < 0 || a.log < 0 then map[]
                else if a.tmp < 0 then stdio
                else if a.dev < 0 then stdio + map[3 := Slot(a.tmp, 3, 0, 0)]
                else stdio + map[3 := Slot(a.tmp, 3, 0, 0), 4 := Slot(a.dev, 3, 0, 1)])
            && s.preopens == (if a.urandom < 0 || a.log < 0 || a.tmp < 0 then []
                              else if a.dev < 0 then [a.tmp] else [a.tmp, a.dev])
            && s.logFd == (if a.urandom < 0 then -1 else a.log)
    ensures InitCode(a) == if a.urandom >= 0 && a.log >= 0 && a.tmp >= 0 && a.dev >= 0 then 0 else -1
  {
    hide Bound, Zeroed, WithStdio, WithPreopen;
    NothingBinds(-1, []);
    if a.urandom >= 0 && a.log < 0 {
      NothingBinds(a.log, [Opened(a.urandom)] + [Closed(a.urandom)]);
    } else if a.urandom >= 0 && a.log >= 0 {
      StdioBinds(a);
      if a.tmp >= 0 {
        PreopenBinds(WithStdio(a), a.tmp);
        if a.dev >= 0 {
          PreopenBinds(WithPreopen(WithStdio(a), a.tmp), a.dev);
        }
      }
    }
  }

  lemma NothingBinds(log: int, calls: seq<HostCall>)
    ensures var s := Zeroed().(logFd := log, calls := calls);
            Bound(s.slots) == map[] && s.preopens == []
    ensures Zeroed().logFd == -1 && Zeroed().calls == []
  {
  }

  lemma StdioBinds(a: InitAnswers)
    requires a.log >= 0
    ensures var s := WithStdio(a);
            && |s.slots| == MAX_FDS && s.preopens == [] && s.logFd == a.log
            && Bound(s.slots) == (if a.devNull >= 0 then map[0 := Slot(a.devNull, 2, 0, -1)] else map[])
                                 + map[1 := Slot(a.log, 2, 1, -1), 2 := Slot(a.log, 2, 1, -1)]
  {
    var s := WithStdio(a);
    forall j: nat ensures Live(s.slots, j) <==> (j == 0 && a.devNull >= 0) || j == 1 || j == 2 {
    }
  }

  lemma PreopenBinds(s: State, answer: int)
    requires |s.slots| == MAX_FDS && |s.preopens| < 2 && answer >= 0
    ensures var t := WithPreopen(s, answer);
            && |t.slots| == MAX_FDS && t.preopens == s.preopens + [answer] && t.logFd == s.logFd
            && Bound(t.slots) == Bound(s.slots)[3 + |s.preopens| := Slot(answer, 3, 0, |s.preopens|)]
  {
    var t := WithPreopen(s, answer);
    forall j: nat ensures Live(t.slots, j) <==> Live(s.slots, j) || j == 3 + |s.preopens| {
    }
  }

  /** Unknown descriptors are answered with 8, bad pointers with 21, and success is 0. */
  lemma CodesTold(s: State, q: OpenRequest, fd: nat, to: nat)
    ensures CloseCode(s, fd) == if Live(s.slots, fd) then 0 else 8
    ensures RenumberCode(s, fd, to) == if Live(s.slots, fd) && to < 256 then 0 else 8
    ensures OpenCode(s, q) == if !Live(s.slots, q.dirfd) then 8 else if !q.pathOk then 21
                              else if LeastFree(s.slots, 0) < 0 then 8 else if q.answer < 0 then q.errno
                              else if q.storeOk then 0 else 21
  {
  }

  /** fd_close fails exactly on unbound numbers and otherwise unbinds just that one. */
  lemma CloseUnbinds(s: State, fd: nat)
    requires |s.slots| == MAX_FDS
    ensures CloseCode(s, fd) == ESUCCESS <==> fd in Bound(s.slots)
    ensures Bound(AfterClose(s, fd).slots) == Bound(s.slots) - {fd}
  {
    var t := AfterClose(s, fd);
    forall j: nat ensures j in Bound(t.slots) <==> j in Bound(s.slots) && j != fd {
      assert Live(t.slots, j) <==> Live(s.slots, j) && j != fd;
    }
  }

  /** fd_renumber moves one binding; renumbering a descriptor onto itself closes it. */
  lemma RenumberMoves(s: State, from: nat, to: nat)
    requires |s.slots| == MAX_FDS
    ensures RenumberCode(s, from, to) == ESUCCESS <==> from in Bound(s.slots) && to < MAX_FDS
    ensures Next(Bound(s.slots), Renumber(from, to), Bound(AfterRenumber(s, from, to).slots))
  {
    var t := AfterRenumber(s, from, to);
    if RenumberCode(s, from, to) == ESUCCESS {
      forall j: nat ensures Live(t.slots, j) <==> j != from && (j == to || Live(s.slots, j)) {
      }
      if from == to {
        assert Bound(t.slots) == Bound(s.slots) - {from};
      } else {
        assert Bound(t.slots) == (Bound(s.slots) - {from})[to := Bound(s.slots)[from]];
      }
    }
  }

  /**
   path_open binds the lowest unused number, fails for lack of one only when all 256 are in
   use, and disturbs no other binding.
   */
  lemma OpenBindsLeast(s: State, q: OpenRequest)
    requires |s.slots| == MAX_FDS
    ensures Next(Bound(s.slots), Open(q), Bound(AfterOpen(s, q).slots))
    ensures q.errno != ESUCCESS ==>
              (OpenCode(s, q) == ESUCCESS <==> Binds(s, q) && q.storeOk)
    ensures q.dirfd in Bound(s.slots) && q.pathOk && Full(Bound(s.slots)) ==> OpenCode(s, q) == EBADF
    ensures q.dirfd in Bound(s.slots) && q.pathOk && q.answer >= 0 && OpenCode(s, q) == EBADF ==> Full(Bound(s.slots))
  {
    LeastFreeIsLeastUnbound(s.slots);
    if Binds(s, q) {
      var t := AfterOpen(s, q);
      var k: nat := LeastFree(s.slots, 0);
      forall j: nat ensures Live(t.slots, j) <==> j == k || Live(s.slots, j) {
      }
      assert Bound(t.slots) == Bound(s.slots)[k := Slot(q.answer, q.filetype, q.fdflags % 0x1_0000, -1)];
    }
  }

  lemma StepRefines(s: State, op: Op)
    requires |s.slots| == MAX_FDS
    ensures Next(Bound(s.slots), op, Bound(Step(s, op).slots))
  {
    match op
    case Close(fd) => CloseUnbinds(s, fd);
    case Renumber(from, to) => RenumberMoves(s, from, to);
    case Open(q) => OpenBindsLeast(s, q);
    case List(_, _) =>
  }

  /** The abstract states a run passes through. */
  ghost function Trail(s: State, ops: seq<Op>): (r: seq<Bindings>)
    requires |s.slots| == MAX_FDS
    ensures |r| == |ops| + 1
    decreases |ops|
  {
    [Bound(s.slots)] + if ops == [] then [] else Trail(Step(s, ops[0]), ops[1..])
  }

  /** Every run of the table is, call by call, a run of the abstract map. */
  lemma {:induction false} RunRefines(s: State, ops: seq<Op>)
    requires |s.slots| == MAX_FDS
    ensures Trail(s, ops)[0] == Bound(s.slots)
    ensures Trail(s, ops)[|ops|] == Bound(Run(s, ops).slots)
    ensures forall i :: 0 <= i < |ops| ==> Next(Trail(s, ops)[i], ops[i], Trail(s, ops)[i + 1])
    decreases |ops|
  {
    hide Next, Bound, Step;
    if ops != [] {
      var t := Step(s, ops[0]);
      StepRefines(s, ops[0]);
      RunRefines(t, ops[1..]);
      assert Trail(s, ops)[1..] == Trail(t, ops[1..]);
      forall i | 0 <= i < |ops| ensures Next(Trail(s, ops)[i], ops[i], Trail(s, ops)[i + 1]) {
        if i > 0 {
          assert Next(Trail(t, ops[1..])[i - 1], ops[1..][i - 1], Trail(t, ops[1..])[i]);
        }
      }
    }
  }

  /** The engine's boot replay: close(0) and a successful open land on 0 again. */
  lemma ReopenLandsOnZero(s: State, q: OpenRequest)
    requires |s.slots| == MAX_FDS && Live(s.slots, 0) && q.errno != ESUCCESS
    ensures var t := AfterClose(s, 0);
            && (OpenCode(t, q) == ESUCCESS ==>
                  Bound(AfterOpen(t, q).slots) ==
                  Bound(s.slots)[0 := Slot(q.answer, q.filetype, q.fdflags % 0x1_0000, -1)])
            && (q.dirfd != 0 && Live(s.slots, q.dirfd) && q.pathOk && q.answer >= 0 && q.storeOk ==>
                  OpenCode(t, q) == ESUCCESS)
  {
    var t := AfterClose(s, 0);
    CloseUnbinds(s, 0);
    OpenBindsLeast(t, q);
    LeastFreeIsLeastUnbound(t.slots);
    assert !Live(t.slots, 0);
    assert LeastFree(t.slots, 0) == 0;
  }

  /** Behind dispose nothing is bound, listed or logged to. */
  lemma DisposeUnbinds(s: State)
    requires |s.slots| == MAX_FDS
    ensures Bound(AfterDispose(s).slots) == map[] && AfterDispose(s).preopens == [] && AfterDispose(s).logFd == -1
  {
  }

  /** fd_readdir duplicates one descriptor, and closes the duplicate. */
  lemma ListDuplicates(s: State, fd: nat, dup: int)
    requires Live(s.slots, fd) && dup >= 0
    ensures AfterList(s, fd, dup) == s.(calls := s.calls + [Opened(dup), Closed(dup)])
  {
  }
}
