/**
 The host kernel as the shim sees it: a trail of descriptors opened and closed. `OpenSet`
 replays the trail; `Accounted` says that no descriptor is closed unless it is open and that
 the kernel never hands out a number that is still open.
 */
module HostCalls {

  datatype HostCall = Opened(fd: int) | Closed(fd: int)

  function Apply(open: set<int>, c: HostCall): set<int> {
    match c
    case Opened(fd) => open + {fd}
    case Closed(fd) => open - {fd}
  }

  predicate Sound(open: set<int>, c: HostCall) {
    match c
    case Opened(fd) => fd !in open
    case Closed(fd) => fd in open
  }

  /** Descriptors opened and not closed since. */
  function OpenSet(calls: seq<HostCall>): set<int> {
    if calls == [] then {} else Apply(OpenSet(calls[..|calls| - 1]), calls[|calls| - 1])
  }

  predicate Accounted(calls: seq<HostCall>) {
    calls == [] ||
    (Accounted(calls[..|calls| - 1]) && Sound(OpenSet(calls[..|calls| - 1]), calls[|calls| - 1]))
  }

  /** What open(2) leaves on the trail: a negative answer opened nothing. */
  function OpenCalls(answer: int): seq<HostCall> {
    if answer >= 0 then [Opened(answer)] else []
  }

  lemma Snoc(calls: seq<HostCall>, c: HostCall)
    ensures OpenSet(calls + [c]) == Apply(OpenSet(calls), c)
    ensures Accounted(calls + [c]) <==> Accounted(calls) && Sound(OpenSet(calls), c)
  {
    assert (calls + [c])[..|calls|] == calls;
  }

  function Count(calls: seq<HostCall>, c: HostCall): nat {
    multiset(calls)[c]
  }

  /** On an accounted trail every descriptor number is opened as often as it is closed, plus once if still open. */
  lemma {:induction false} OpensMatchCloses(calls: seq<HostCall>, fd: int)
    requires Accounted(calls)
    ensures Count(calls, Opened(fd)) == Count(calls, Closed(fd)) + (if fd in OpenSet(calls) then 1 else 0)
  {
    if calls != [] {
      var n := |calls| - 1;
      OpensMatchCloses(calls[..n], fd);
      assert calls == calls[..n] + [calls[n]];
    }
  }
}
