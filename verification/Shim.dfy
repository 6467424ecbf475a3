/** The shim struct itself: the table, the preopen list and the log, updated in place. */
module Shim {
  import opened HostCalls
  import opened FdTable
  import opened Errno

  class WasiShim {
    var fds: array<Slot>
    var preopens: array<int>
    var nPreopens: nat
    var logFd: int
    ghost var calls: seq<HostCall>

    ghost predicate Valid()
      reads this
    {
      fds.Length == MAX_FDS && preopens.Length == MAX_PREOPENS && nPreopens <= MAX_PREOPENS
    }

    ghost function Value(): State
      requires Valid()
      reads this, fds, preopens
    {
      State(fds[..], preopens[..nPreopens], logFd, calls)
    }

    /** Storage for a shim; its contents mean nothing before Init. */
    constructor ()
      ensures Valid() && fresh(fds) && fresh(preopens)
    {
      fds := new Slot[MAX_FDS](_ => Slot(-1, 0, 0, 0));
      preopens := new int[MAX_PREOPENS](_ => 0);
      nPreopens := 0;
      logFd := -1;
      calls := [];
    }

    method FdAlloc() returns (slot: int)
      requires Valid()
      ensures slot == LeastFree(fds[..], 0)
    {
      var i := 0;
      while i < MAX_FDS
        invariant 0 <= i <= MAX_FDS
        invariant LeastFree(fds[..], 0) == LeastFree(fds[..], i)
      {
        if fds[i].hostFd < 0 {
          return i;
        }
        i := i + 1;
      }
      return -1;
    }

    method SetEntry(fd: nat, e: Slot)
      requires Valid() && fd < MAX_FDS
      modifies fds
      ensures Valid() && fds[..] == old(fds[..])[fd := e]
    {
      fds[fd] := e;
    }

    /** open(2) answered with `answer`; only the trail shows it. */
    ghost method NoteOpen(answer: int)
      modifies this`calls
      ensures calls == old(calls) + OpenCalls(answer)
    {
      calls := calls + OpenCalls(answer);
    }

    method HostClose(fd: int)
      modifies this`calls
      ensures calls == old(calls) + [Closed(fd)]
    {
      calls := calls + [Closed(fd)];
    }

    method FdClose(fd: nat) returns (code: int)
      requires Valid()
      modifies this`calls, fds
      ensures Valid() && Value() == AfterClose(old(Value()), fd) && code == CloseCode(old(Value()), fd)
    {
      if fd >= MAX_FDS || fds[fd].hostFd < 0 {
        return EBADF;
      }
      var hfd := fds[fd].hostFd;
      fds[fd] := fds[fd].(hostFd := -1);
      if hfd != logFd && fds[fd].preopen < 0 {
        HostClose(hfd);
      }
      fds[fd] := fds[fd].(preopen := -1);
      assert calls == old(calls) + (calls[|old(calls)|..]);
      return ESUCCESS;
    }

    method FdRenumber(from: nat, to: nat) returns (code: int)
      requires Valid()
      modifies this`calls, fds
      ensures Valid() && Value() == AfterRenumber(old(Value()), from, to)
      ensures code == RenumberCode(old(Value()), from, to)
    {
      if from >= MAX_FDS || fds[from].hostFd < 0 || to >= MAX_FDS {
        return EBADF;
      }
      if fds[to].hostFd >= 0 && fds[to].hostFd != logFd && fds[to].preopen < 0 {
        HostClose(fds[to].hostFd);
      }
      fds[to] := fds[from];
      fds[from] := fds[from].(hostFd := -1);
      fds[from] := fds[from].(preopen := -1);
      assert old(calls) + [] == old(calls);
      return ESUCCESS;
    }

    method PathOpen(q: OpenRequest) returns (code: int)
      requires Valid()
      modifies this`calls, fds
      ensures Valid() && Value() == AfterOpen(old(Value()), q) && code == OpenCode(old(Value()), q)
    {
      if q.dirfd >= MAX_FDS || fds[q.dirfd].hostFd < 0 {
        return EBADF;
      }
      if !q.pathOk {
        return EFAULT;
      }
      var slot := FdAlloc();
      if slot < 0 {
        return EBADF;
      }
      NoteOpen(q.answer);
      if q.answer < 0 {
        assert old(calls) + [] == old(calls);
        return q.errno;
      }
      SetEntry(slot, Slot(q.answer, q.filetype, q.fdflags % 0x1_0000, -1));
      return if q.storeOk then ESUCCESS else EFAULT;
    }

    method Init(a: InitAnswers) returns (code: int)
      requires Valid()
      modifies this, fds, preopens
      ensures Valid() && fds == old(fds) && preopens == old(preopens)
      ensures Value() == AfterInit(a) && code == InitCode(a)
    {
      nPreopens := 0;
      calls := [];
      logFd := -1;
      var i := 0;
      while i < MAX_FDS
        invariant 0 <= i <= MAX_FDS
        invariant Valid() && fds == old(fds) && preopens == old(preopens)
        invariant nPreopens == 0 && logFd == -1 && calls == []
        invariant forall k :: 0 <= k < i ==> fds[k] == Slot(-1, 0, 0, 0)
      {
        fds[i] := Slot(-1, 0, 0, 0);
        i := i + 1;
      }
      assert fds[..] == Zeroed().slots;

      NoteOpen(a.urandom);
      if a.urandom < 0 {
        return -1;
      }
      HostClose(a.urandom);

      logFd := a.log;
      NoteOpen(a.log);
      if logFd < 0 {
        return -1;
      }
      NoteOpen(a.devNull);
      SetEntry(0, Slot(a.devNull, FT_CHAR, 0, -1));
      SetEntry(1, Slot(logFd, FT_CHAR, FDFLAG_APPEND, -1));
      SetEntry(2, Slot(logFd, FT_CHAR, FDFLAG_APPEND, -1));
      assert calls == WithStdio(a).calls;

      code := AddPreopen(a.tmp);
      if code == 0 {
        code := AddPreopen(a.dev);
      }
    }

    /** One turn of init's loop over the two guest directories. */
    method AddPreopen(answer: int) returns (code: int)
      requires Valid() && nPreopens < 2
      modifies this`nPreopens, this`calls, fds, preopens
      ensures Valid()
      ensures answer < 0 ==> code == -1 && Value() == old(Value())
      ensures answer >= 0 ==> code == 0 && nPreopens == old(nPreopens) + 1
      ensures answer >= 0 ==> Value() == WithPreopen(old(Value()), answer)
    {
      preopens[nPreopens] := answer;
      NoteOpen(answer);
      if answer < 0 {
        assert old(calls) + [] == old(calls);
        return -1;
      }
      SetEntry(3 + nPreopens, Slot(answer, FT_DIR, 0, nPreopens));
      nPreopens := nPreopens + 1;
      return 0;
    }

    method IsPreopenFd(hfd: int) returns (found: bool)
      requires Valid()
      ensures found <==> hfd in preopens[..nPreopens]
    {
      found := false;
      var j := 0;
      while j < nPreopens
        invariant 0 <= j <= nPreopens
        invariant found <==> hfd in preopens[..j]
      {
        if preopens[j] == hfd {
          found := true;
        }
        j := j + 1;
      }
    }

    method Dispose()
      requires Valid()
      modifies this, fds
      ensures Valid() && fds == old(fds) && preopens == old(preopens)
      ensures Value() == AfterDispose(old(Value()))
    {
      ghost var s := Value();
      var i := 0;
      while i < MAX_FDS
        invariant 0 <= i <= MAX_FDS
        invariant Valid() && fds == old(fds) && preopens == old(preopens)
        invariant nPreopens == old(nPreopens) && logFd == old(logFd)
        invariant fds[..] == Emptied(s.slots, i)
        invariant calls == s.calls + SlotCloses(s, i)
      {
        var hfd := fds[i].hostFd;
        if hfd >= 0 {
          fds[i] := fds[i].(hostFd := -1);
          if hfd != logFd {
            var shared := IsPreopenFd(hfd);
            if !shared {
              HostClose(hfd);
            }
          }
        }
        i := i + 1;
      }
      var j := 0;
      ghost var c1 := calls;
      while j < nPreopens
        invariant 0 <= j <= nPreopens
        invariant Valid() && fds == old(fds) && preopens == old(preopens)
        invariant nPreopens == old(nPreopens) && logFd == old(logFd)
        invariant fds[..] == Emptied(s.slots, MAX_FDS)
        invariant calls == c1 + PreopenCloses(s, j)
      {
        HostClose(preopens[j]);
        j := j + 1;
      }
      if logFd >= 0 {
        HostClose(logFd);
      }
      logFd := -1;
      nPreopens := 0;
    }
  }
}
