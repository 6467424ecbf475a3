/**
 The WASI shim's descriptor table (native/shim/wasi_shim.c): 256 guest slots over host
 descriptors, with the log descriptor aliased by slots 1 and 2 and each preopened directory
 shared between its slot and the preopen list. The functions below give each call as a step
 on values; class Shim performs the same steps in place.
 */
module FdTable {
  import opened HostCalls
  import opened Errno

  const MAX_FDS := 256
  const MAX_PREOPENS := 4

  const FT_CHAR := 2
  const FT_DIR := 3
  const FDFLAG_APPEND := 1

  /** A slot is free when hostFd is negative; preopen indexes the preopen list or is -1. */
  datatype Slot = Slot(hostFd: int, filetype: nat, fdflags: nat, preopen: int)

  datatype State = State(slots: seq<Slot>, preopens: seq<int>, logFd: int, calls: seq<HostCall>)

  predicate Live(slots: seq<Slot>, fd: nat) {
    fd < |slots| && slots[fd].hostFd >= 0
  }

  /** The slot made free, as fd_close and fd_renumber leave it. */
  function Freed(e: Slot): Slot {
    e.(hostFd := -1, preopen := -1)
  }

  /** The test of fd_close and fd_renumber: by preopen index. */
  predicate ClosesHost(e: Slot, logFd: int) {
    e.hostFd >= 0 && e.hostFd != logFd && e.preopen < 0
  }

  // ---------- the calls as steps ----------

  function CloseCode(s: State, fd: nat): int {
    if Live(s.slots, fd) then ESUCCESS else EBADF
  }

  function AfterClose(s: State, fd: nat): State {
    if !Live(s.slots, fd) then s else
    var e := s.slots[fd];
    s.(slots := s.slots[fd := Freed(e)],
       calls := s.calls + if ClosesHost(e, s.logFd) then [Closed(e.hostFd)] else [])
  }

  function RenumberCode(s: State, from: nat, to: nat): int {
    if Live(s.slots, from) && to < MAX_FDS then ESUCCESS else EBADF
  }

  function AfterRenumber(s: State, from: nat, to: nat): State
    requires |s.slots| == MAX_FDS
  {
    if RenumberCode(s, from, to) != ESUCCESS then s else
    var moved := s.slots[to := s.slots[from]];
    s.(slots := moved[from := Freed(moved[from])],
       calls := s.calls + if ClosesHost(s.slots[to], s.logFd) then [Closed(s.slots[to].hostFd)] else [])
  }

  /** The least free slot at or above i, or -1. */
  function LeastFree(slots: seq<Slot>, i: nat): (r: int)
    requires i <= |slots|
    ensures r == -1 || i <= r < |slots|
    ensures r >= 0 ==> !Live(slots, r)
    ensures forall k :: i <= k < |slots| && (r < 0 || k < r) ==> Live(slots, k)
    decreases |slots| - i
  {
    if i == |slots| then -1 else if slots[i].hostFd < 0 then i else LeastFree(slots, i + 1)
  }

  /**
   path_open's arguments as far as the table goes: whether the guest path could be copied, what
   openat answered (a descriptor, or a negative number and a nonzero WASI errno), the file type
   fstat gave, the requested fdflags, and whether the result could be stored for the guest.
   */
  datatype OpenRequest = OpenRequest(
    dirfd: nat, pathOk: bool, answer: int, errno: int, filetype: nat, fdflags: nat, storeOk: bool)

  function OpenCode(s: State, q: OpenRequest): int {
    if !Live(s.slots, q.dirfd) then EBADF
    else if !q.pathOk then EFAULT
    else if LeastFree(s.slots, 0) < 0 then EBADF
    else if q.answer < 0 then q.errno
    else if q.storeOk then ESUCCESS else EFAULT
  }

  /** openat is reached and answers with a descriptor; the slot is bound even if storing its number faults. */
  predicate Binds(s: State, q: OpenRequest) {
    Live(s.slots, q.dirfd) && q.pathOk && LeastFree(s.slots, 0) >= 0 && q.answer >= 0
  }

  function AfterOpen(s: State, q: OpenRequest): State {
    if !Binds(s, q) then s else
    s.(slots := s.slots[LeastFree(s.slots, 0) := Slot(q.answer, q.filetype, q.fdflags % 0x1_0000, -1)],
       calls := s.calls + [Opened(q.answer)])
  }

  /** fd_readdir duplicates the directory's descriptor and closes the duplicate on every way out. */
  function AfterList(s: State, fd: nat, dup: int): State {
    if !Live(s.slots, fd) || dup < 0 then s
    else s.(calls := s.calls + [Opened(dup)] + [Closed(dup)])
  }

  /** The kernel's answers during init, in the order asked. */
  datatype InitAnswers = InitAnswers(urandom: int, log: int, devNull: int, tmp: int, dev: int)

  /** n slots as memset and the loop over host_fd leave them. */
  function Blank(n: nat): (r: seq<Slot>)
    ensures |r| == n
    ensures forall i :: 0 <= i < n ==> r[i] == Slot(-1, 0, 0, 0)
  {
    if n == 0 then [] else Blank(n - 1) + [Slot(-1, 0, 0, 0)]
  }

  function Zeroed(): State {
    State(Blank(MAX_FDS), [], -1, [])
  }

  /** Init up to the preopens, when the log could be opened. */
  function WithStdio(a: InitAnswers): State {
    State(Zeroed().slots[0 := Slot(a.devNull, FT_CHAR, 0, -1)]
                     [1 := Slot(a.log, FT_CHAR, FDFLAG_APPEND, -1)]
                     [2 := Slot(a.log, FT_CHAR, FDFLAG_APPEND, -1)],
          [], a.log,
          [Opened(a.urandom)] + [Closed(a.urandom)] + [Opened(a.log)] + OpenCalls(a.devNull))
  }

  function WithPreopen(s: State, answer: int): State
    requires |s.slots| == MAX_FDS && |s.preopens| < 2
  {
    s.(slots := s.slots[3 + |s.preopens| := Slot(answer, FT_DIR, 0, |s.preopens|)],
       preopens := s.preopens + [answer],
       calls := s.calls + [Opened(answer)])
  }

  function InitCode(a: InitAnswers): int {
    if a.urandom < 0 || a.log < 0 || a.tmp < 0 || a.dev < 0 then -1 else 0
  }

  function AfterInit(a: InitAnswers): (s: State)
    ensures |s.slots| == MAX_FDS
  {
    if a.urandom < 0 then Zeroed()
    else if a.log < 0 then Zeroed().(logFd := a.log, calls := [Opened(a.urandom)] + [Closed(a.urandom)])
    else if a.tmp < 0 then WithStdio(a)
    else if a.dev < 0 then WithPreopen(WithStdio(a), a.tmp)
    else WithPreopen(WithPreopen(WithStdio(a), a.tmp), a.dev)
  }

  /** Dispose's test: by host descriptor value. */
  predicate OwnedBySlot(s: State, i: nat)
    requires i < |s.slots|
  {
    s.slots[i].hostFd >= 0 && s.slots[i].hostFd != s.logFd && s.slots[i].hostFd !in s.preopens
  }

  /** What dispose closes for the first n slots. */
  function SlotCloses(s: State, n: nat): seq<HostCall>
    requires n <= |s.slots|
  {
    if n == 0 then [] else
    SlotCloses(s, n - 1) + if OwnedBySlot(s, n - 1) then [Closed(s.slots[n - 1].hostFd)] else []
  }

  /** What dispose closes for the first n preopens. */
  function PreopenCloses(s: State, n: nat): seq<HostCall>
    requires n <= |s.preopens|
  {
    if n == 0 then [] else PreopenCloses(s, n - 1) + [Closed(s.preopens[n - 1])]
  }

  /** The slots with the first n marked free, their other fields left as they were. */
  function Emptied(slots: seq<Slot>, n: nat): (r: seq<Slot>)
    requires n <= |slots|
    ensures |r| == |slots|
    ensures forall i :: 0 <= i < n ==> r[i].hostFd < 0
    ensures forall i :: n <= i < |slots| ==> r[i] == slots[i]
  {
    if n == 0 then slots else
    var r := Emptied(slots, n - 1);
    if r[n - 1].hostFd >= 0 then r[n - 1 := r[n - 1].(hostFd := -1)] else r
  }

  function AfterDispose(s: State): State {
    State(Emptied(s.slots, |s.slots|), [], -1,
          s.calls + SlotCloses(s, |s.slots|) + PreopenCloses(s, |s.preopens|)
            + if s.logFd >= 0 then [Closed(s.logFd)] else [])
  }

  // ---------- whole runs ----------

  datatype Op =
    | Close(fd: nat)
    | Renumber(from: nat, to: nat)
    | Open(request: OpenRequest)
    | List(dir: nat, dup: int)

  function Step(s: State, op: Op): (t: State)
    requires |s.slots| == MAX_FDS
    ensures |t.slots| == MAX_FDS
  {
    match op
    case Close(fd) => AfterClose(s, fd)
    case Renumber(from, to) => AfterRenumber(s, from, to)
    case Open(q) => AfterOpen(s, q)
    case List(dir, dup) => AfterList(s, dir, dup)
  }

  function Run(s: State, ops: seq<Op>): (t: State)
    requires |s.slots| == MAX_FDS
    ensures |t.slots| == MAX_FDS
    decreases |ops|
  {
    if ops == [] then s else Run(Step(s, ops[0]), ops[1..])
  }

  /** open(2)'s promise: a new descriptor is not one the shim still holds open. */
  predicate Fresh(calls: seq<HostCall>, answer: int) {
    answer < 0 || answer !in OpenSet(calls)
  }

  predicate HonestOp(s: State, op: Op) {
    match op
    case Open(q) => Fresh(s.calls, q.answer)
    case List(_, dup) => Fresh(s.calls, dup)
    case _ => true
  }

  predicate HonestRun(s: State, ops: seq<Op>)
    requires |s.slots| == MAX_FDS
    decreases |ops|
  {
    ops == [] || (HonestOp(s, ops[0]) && HonestRun(Step(s, ops[0]), ops[1..]))
  }

  predicate HonestInit(a: InitAnswers) {
    && (a.devNull >= 0 ==> a.devNull != a.log)
    && (a.tmp >= 0 ==> a.tmp !in {a.log, a.devNull})
    && (a.dev >= 0 ==> a.dev !in {a.log, a.devNull, a.tmp})
  }

  // ---------- the invariant ----------

  ghost predicate Refers(s: State, fd: int) {
    || (exists i :: 0 <= i < |s.slots| && s.slots[i].hostFd == fd && fd >= 0)
    || fd in s.preopens
    || (fd == s.logFd && fd >= 0)
  }

  ghost predicate PreopensDistinct(s: State) {
    && s.logFd !in s.preopens
    && (forall j :: 0 <= j < |s.preopens| ==> s.preopens[j] >= 0)
    && (forall j, k :: 0 <= j < k < |s.preopens| ==> s.preopens[j] != s.preopens[k])
  }

  /** The index test of fd_close and the value test of dispose agree on every live slot. */
  ghost predicate TestsAgree(s: State) {
    forall i :: 0 <= i < |s.slots| ==> (ClosesHost(s.slots[i], s.logFd) <==> OwnedBySlot(s, i))
  }

  ghost predicate Unshared(s: State) {
    forall i, j :: 0 <= i < j < |s.slots| && OwnedBySlot(s, i) ==> s.slots[i].hostFd != s.slots[j].hostFd
  }

  ghost predicate Inv(s: State) {
    && |s.slots| == MAX_FDS
    && PreopensDistinct(s)
    && TestsAgree(s)
    && Unshared(s)
    && Accounted(s.calls)
    && (forall fd :: fd in OpenSet(s.calls) <==> Refers(s, fd))
  }

  // ---------- every call keeps the invariant ----------

  /** Giving up slot fd when it is the only holder closes its descriptor and nothing else. */
  lemma KeepsFreeing(s: State, fd: nat, t: State)
    requires Inv(s) && Live(s.slots, fd)
    requires t == AfterClose(s, fd)
    ensures Inv(t)
  {
    var h := s.slots[fd].hostFd;
    assert Refers(s, h);
    Snoc(s.calls, Closed(h));
    assert s.calls + [] == s.calls;
    forall i | 0 <= i < |t.slots| ensures ClosesHost(t.slots[i], t.logFd) <==> OwnedBySlot(t, i) {
      assert ClosesHost(s.slots[i], s.logFd) <==> OwnedBySlot(s, i);
    }
    forall x ensures x in OpenSet(t.calls) <==> Refers(t, x) {
      if Refers(t, x) && !(x in t.preopens || x == t.logFd) {
        var i :| 0 <= i < |t.slots| && t.slots[i].hostFd == x && x >= 0;
        assert s.slots[i].hostFd == x;
      }
      if Refers(s, x) && x != h && !(x in s.preopens || x == s.logFd) {
        var i :| 0 <= i < |s.slots| && s.slots[i].hostFd == x && x >= 0;
        assert t.slots[i].hostFd == x;
      }
    }
  }

  /** Moving an open file onto a free slot changes only who refers to it. */
  lemma KeepsMoving(s: State, from: nat, to: nat, t: State)
    requires Inv(s) && Live(s.slots, from) && to < MAX_FDS && !Live(s.slots, to)
    requires t == s.(slots := s.slots[to := s.slots[from]][from := Freed(s.slots[from])])
    ensures Inv(t)
  {
    forall i | 0 <= i < |t.slots| ensures ClosesHost(t.slots[i], t.logFd) <==> OwnedBySlot(t, i) {
      assert ClosesHost(s.slots[i], s.logFd) <==> OwnedBySlot(s, i);
      assert ClosesHost(s.slots[from], s.logFd) <==> OwnedBySlot(s, from);
    }
    forall i, j | 0 <= i < j < |t.slots| && OwnedBySlot(t, i) ensures t.slots[i].hostFd != t.slots[j].hostFd {
      var i' := if i == to then from else i;
      var j' := if j == to then from else j;
      assert t.slots[i] == s.slots[i'];
      assert j != from ==> t.slots[j] == s.slots[j'];
      assert OwnedBySlot(s, i');
    }
    forall x ensures Refers(s, x) <==> Refers(t, x) {
      if Refers(t, x) && !(x in t.preopens || x == t.logFd) {
        var i :| 0 <= i < |t.slots| && t.slots[i].hostFd == x && x >= 0;
        assert s.slots[if i == to then from else i].hostFd == x;
      }
      if Refers(s, x) && !(x in s.preopens || x == s.logFd) {
        var i :| 0 <= i < |s.slots| && s.slots[i].hostFd == x && x >= 0;
        assert t.slots[if i == from then to else i].hostFd == x;
      }
    }
  }

  lemma KeepsRenumber(s: State, from: nat, to: nat)
    requires Inv(s)
    ensures Inv(AfterRenumber(s, from, to))
  {
    if RenumberCode(s, from, to) == ESUCCESS {
      var t := AfterRenumber(s, from, to);
      var u := AfterClose(s, to);
      assert s.calls + [] == s.calls;
      if Live(s.slots, to) {
        KeepsFreeing(s, to, u);
      }
      if from == to {
        assert t.slots == u.slots;
      } else {
        assert t.slots == u.slots[to := u.slots[from]][from := Freed(u.slots[from])];
        KeepsMoving(u, from, to, t);
      }
    }
  }

  /** Who is referred to when one more slot is bound. */
  lemma BindingRefers(s: State, k: nat, e: Slot, t: State)
    requires k < |s.slots| && !Live(s.slots, k) && e.hostFd >= 0
    requires t.slots == s.slots[k := e] && t.logFd == s.logFd
    requires t.preopens == s.preopens || t.preopens == s.preopens + [e.hostFd]
    ensures forall x :: Refers(t, x) <==> Refers(s, x) || x == e.hostFd
  {
    forall x ensures Refers(t, x) <==> Refers(s, x) || x == e.hostFd {
      assert t.slots[k].hostFd == e.hostFd;
      if Refers(t, x) && !(x in t.preopens || x == t.logFd) {
        var i :| 0 <= i < |t.slots| && t.slots[i].hostFd == x && x >= 0;
        assert i != k ==> s.slots[i].hostFd == x;
      }
      if Refers(s, x) && !(x in s.preopens || x == s.logFd) {
        var i :| 0 <= i < |s.slots| && s.slots[i].hostFd == x && x >= 0;
        assert t.slots[i].hostFd == x;
      }
    }
  }

  lemma KeepsOpen(s: State, q: OpenRequest)
    requires Inv(s) && Fresh(s.calls, q.answer)
    ensures Inv(AfterOpen(s, q))
  {
    if Binds(s, q) {
      var t := AfterOpen(s, q);
      var k := LeastFree(s.slots, 0);
      Snoc(s.calls, Opened(q.answer));
      assert !Refers(s, q.answer);
      assert forall i :: 0 <= i < |s.slots| ==> s.slots[i].hostFd != q.answer;
      BindingRefers(s, k, t.slots[k], t);
      forall i | 0 <= i < |t.slots| ensures ClosesHost(t.slots[i], t.logFd) <==> OwnedBySlot(t, i) {
        assert ClosesHost(s.slots[i], s.logFd) <==> OwnedBySlot(s, i);
      }
      forall i, j | 0 <= i < j < |t.slots| && OwnedBySlot(t, i) ensures t.slots[i].hostFd != t.slots[j].hostFd {
        assert i != k ==> OwnedBySlot(s, i);
      }
    }
  }

  lemma KeepsList(s: State, fd: nat, dup: int)
    requires Inv(s) && Fresh(s.calls, dup)
    ensures Inv(AfterList(s, fd, dup))
  {
    var t := AfterList(s, fd, dup);
    Snoc(s.calls, Opened(dup));
    Snoc(s.calls + [Opened(dup)], Closed(dup));
    assert OpenSet(t.calls) == OpenSet(s.calls);
    forall x ensures Refers(t, x) <==> Refers(s, x) {
      if Refers(s, x) && !(x in s.preopens || x == s.logFd) {
        var i :| 0 <= i < |s.slots| && s.slots[i].hostFd == x && x >= 0;
        assert t.slots[i].hostFd == x;
      }
    }
  }

  lemma KeepsStep(s: State, op: Op)
    requires Inv(s) && HonestOp(s, op)
    ensures Inv(Step(s, op))
  {
    match op
    case Close(fd) =>
      if Live(s.slots, fd) {
        KeepsFreeing(s, fd, AfterClose(s, fd));
      }
    case Renumber(from, to) => KeepsRenumber(s, from, to);
    case Open(q) => KeepsOpen(s, q);
    case List(dir, dup) => KeepsList(s, dir, dup);
  }

  /**
   After any calls whatever, every descriptor the shim opened and has not closed is held by a
   slot, a preopen or the log, and every one of those holds a descriptor that is still open.
   */
  lemma {:induction false} KeepsRun(s: State, ops: seq<Op>)
    requires Inv(s) && HonestRun(s, ops)
    ensures Inv(Run(s, ops))
    decreases |ops|
  {
    if ops != [] {
      KeepsStep(s, ops[0]);
      KeepsRun(Step(s, ops[0]), ops[1..]);
    }
  }

  // ---------- init establishes it, also when it stops part-way ----------

  lemma InvZeroed()
    ensures Inv(Zeroed())
  {
    var s := Zeroed();
    assert forall x :: !Refers(s, x);
  }

  lemma StdioCalls(a: InitAnswers)
    requires HonestInit(a) && a.urandom >= 0 && a.log >= 0
    ensures Accounted(WithStdio(a).calls)
    ensures OpenSet(WithStdio(a).calls) == {a.log} + if a.devNull >= 0 then {a.devNull} else {}
  {
    var c0: seq<HostCall> := [Opened(a.urandom)];
    assert [] + c0 == c0;
    Snoc([], Opened(a.urandom));
    Snoc(c0, Closed(a.urandom));
    Snoc(c0 + [Closed(a.urandom)], Opened(a.log));
    var c3 := c0 + [Closed(a.urandom)] + [Opened(a.log)];
    Snoc(c3, Opened(a.devNull));
    assert c3 + [] == c3;
  }

  lemma InvStdio(a: InitAnswers)
    requires HonestInit(a) && a.urandom >= 0 && a.log >= 0
    ensures Inv(WithStdio(a))
  {
    StdioCalls(a);
    var s := WithStdio(a);
    assert s.slots[0].hostFd == a.devNull && s.slots[1].hostFd == a.log;
    forall x ensures x in OpenSet(s.calls) <==> Refers(s, x) {
    }
  }

  lemma InvPreopen(s: State, answer: int)
    requires Inv(s) && |s.preopens| < 2 && !Live(s.slots, 3 + |s.preopens|)
    requires answer >= 0 && answer !in OpenSet(s.calls) && answer != s.logFd
    ensures Inv(WithPreopen(s, answer))
  {
    var t := WithPreopen(s, answer);
    var k := 3 + |s.preopens|;
    Snoc(s.calls, Opened(answer));
    assert !Refers(s, answer);
    assert forall i :: 0 <= i < |s.slots| ==> s.slots[i].hostFd != answer;
    forall i | 0 <= i < |t.slots| ensures ClosesHost(t.slots[i], t.logFd) <==> OwnedBySlot(t, i) {
      if i == k {
        assert t.preopens[|s.preopens|] == answer;
      } else {
        assert ClosesHost(s.slots[i], s.logFd) <==> OwnedBySlot(s, i);
      }
    }
    forall i, j | 0 <= i < j < |t.slots| && OwnedBySlot(t, i) ensures t.slots[i].hostFd != t.slots[j].hostFd {
      assert i != k;
      assert OwnedBySlot(s, i);
    }
    BindingRefers(s, k, t.slots[k], t);
  }

  lemma InvWithoutLog(a: InitAnswers)
    requires a.urandom >= 0 && a.log < 0
    ensures Inv(AfterInit(a))
  {
    InvZeroed();
    var s := AfterInit(a);
    assert [] + [Opened(a.urandom)] == [Opened(a.urandom)];
    Snoc([], Opened(a.urandom));
    Snoc([Opened(a.urandom)], Closed(a.urandom));
    assert forall x :: !Refers(s, x);
  }

  lemma WithStdioShape(a: InitAnswers)
    ensures WithStdio(a).preopens == [] && WithStdio(a).logFd == a.log
    ensures forall i :: 3 <= i < MAX_FDS ==> WithStdio(a).slots[i].hostFd < 0
  {
  }

  lemma InvInit(a: InitAnswers)
    requires HonestInit(a)
    ensures Inv(AfterInit(a))
  {
    hide Inv, WithStdio, Zeroed, OpenSet, Accounted;
    if a.urandom < 0 {
      InvZeroed();
    } else if a.log < 0 {
      InvWithoutLog(a);
    } else {
      InvStdio(a);
      StdioCalls(a);
      if a.tmp >= 0 {
        var s := WithStdio(a);
        WithStdioShape(a);
        InvPreopen(s, a.tmp);
        Snoc(s.calls, Opened(a.tmp));
        if a.dev >= 0 {
          WithStdioShape(a);
          InvPreopen(WithPreopen(s, a.tmp), a.dev);
        }
      }
    }
  }

  // ---------- dispose ----------

  /** Closing the descriptors of the first n slots, each once, and none that a later holder needs. */
  lemma {:induction false} SlotClosesAccounted(s: State, n: nat)
    requires Inv(s) && n <= |s.slots|
    ensures Accounted(s.calls + SlotCloses(s, n))
    ensures forall x :: x in OpenSet(s.calls + SlotCloses(s, n)) <==>
              x in OpenSet(s.calls) && !(exists i :: 0 <= i < n && OwnedBySlot(s, i) && s.slots[i].hostFd == x)
  {
    if n == 0 {
      assert s.calls + [] == s.calls;
    } else {
      hide OpenSet, Accounted;
      SlotClosesAccounted(s, n - 1);
      var before := s.calls + SlotCloses(s, n - 1);
      var h := s.slots[n - 1].hostFd;
      if OwnedBySlot(s, n - 1) {
        Snoc(before, Closed(h));
        assert s.calls + SlotCloses(s, n) == before + [Closed(h)];
        assert Refers(s, h);
      } else {
        assert s.calls + SlotCloses(s, n) == before;
      }
    }
  }

  lemma {:induction false} PreopenClosesAccounted(s: State, calls: seq<HostCall>, n: nat)
    requires Accounted(calls) && n <= |s.preopens| && PreopensDistinct(s)
    requires forall j :: 0 <= j < |s.preopens| ==> s.preopens[j] in OpenSet(calls)
    ensures Accounted(calls + PreopenCloses(s, n))
    ensures forall x :: x in OpenSet(calls + PreopenCloses(s, n)) <==> x in OpenSet(calls) && x !in s.preopens[..n]
  {
    if n == 0 {
      assert calls + [] == calls;
    } else {
      PreopenClosesAccounted(s, calls, n - 1);
      var before := calls + PreopenCloses(s, n - 1);
      Snoc(before, Closed(s.preopens[n - 1]));
      assert calls + PreopenCloses(s, n) == before + [Closed(s.preopens[n - 1])];
      assert s.preopens[..n] == s.preopens[..n - 1] + [s.preopens[n - 1]];
    }
  }

  lemma DisposeClosesEverything(s: State)
    requires Inv(s)
    ensures Accounted(AfterDispose(s).calls)
    ensures OpenSet(AfterDispose(s).calls) == {}
  {
    SlotClosesAccounted(s, |s.slots|);
    var c1 := s.calls + SlotCloses(s, |s.slots|);
    forall j | 0 <= j < |s.preopens| ensures s.preopens[j] in OpenSet(c1) {
      assert Refers(s, s.preopens[j]);
    }
    PreopenClosesAccounted(s, c1, |s.preopens|);
    assert s.preopens[..|s.preopens|] == s.preopens;
    var c2 := c1 + PreopenCloses(s, |s.preopens|);
    forall x | x in OpenSet(c2) ensures x == s.logFd && x >= 0 {
      assert Refers(s, x);
    }
    if s.logFd >= 0 {
      assert Refers(s, s.logFd);
      Snoc(c2, Closed(s.logFd));
    } else {
      assert c2 + [] == c2;
    }
  }

  /**
   From init (complete or stopped part-way) through any calls to dispose: each descriptor is
   closed exactly as often as it was opened, never while it is not open, and none stays open.
   */
  lemma LifecycleBalances(a: InitAnswers, ops: seq<Op>)
    requires HonestInit(a) && HonestRun(AfterInit(a), ops)
    ensures var end := AfterDispose(Run(AfterInit(a), ops));
            && Accounted(end.calls)
            && OpenSet(end.calls) == {}
            && forall fd :: Count(end.calls, Opened(fd)) == Count(end.calls, Closed(fd))
  {
    InvInit(a);
    KeepsRun(AfterInit(a), ops);
    var end := AfterDispose(Run(AfterInit(a), ops));
    DisposeClosesEverything(Run(AfterInit(a), ops));
    forall fd ensures Count(end.calls, Opened(fd)) == Count(end.calls, Closed(fd)) {
      OpensMatchCloses(end.calls, fd);
    }
  }

  /** A second dispose finds nothing to close. */
  lemma DisposeTwice(s: State)
    requires |s.slots| == MAX_FDS
    ensures AfterDispose(AfterDispose(s)) == AfterDispose(s)
  {
    var t := AfterDispose(s);
    NothingOwned(t, |t.slots|);
    EmptiedIsStable(t.slots, |t.slots|);
    assert t.calls + [] + [] + [] == t.calls;
  }

  lemma {:induction false} NothingOwned(s: State, n: nat)
    requires n <= |s.slots| && forall i :: 0 <= i < |s.slots| ==> s.slots[i].hostFd < 0
    ensures SlotCloses(s, n) == []
  {
    if n > 0 {
      NothingOwned(s, n - 1);
    }
  }

  lemma {:induction false} EmptiedIsStable(slots: seq<Slot>, n: nat)
    requires n <= |slots| && forall i :: 0 <= i < |slots| ==> slots[i].hostFd < 0
    ensures Emptied(slots, n) == slots
  {
    if n > 0 {
      EmptiedIsStable(slots, n - 1);
    }
  }
}
