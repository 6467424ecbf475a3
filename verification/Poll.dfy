/**
 poll_oneoff over guest memory. Subscriptions are 48 bytes, events 32; the guest may pass the
 same buffer for both. Every descriptor is always ready; with clocks only, the shim sleeps for
 the shortest and reports that one.
 */
module Poll {
  import opened Bytes
  import opened GuestMemory
  import opened Errno

  /** A little-endian 64-bit zero, and the 65536 bytes reported as ready. */
  const ZERO_8: seq<Byte> := [0, 0, 0, 0, 0, 0, 0, 0]
  const NBYTES: seq<Byte> := [0, 0, 1, 0, 0, 0, 0, 0]
  const CLOCK: Byte := 0
  const FD_READ: Byte := 1
  const FD_WRITE: Byte := 2

  type Sub = s: seq<Byte> | |s| == 48
    witness ZERO_8 + ZERO_8 + ZERO_8 + ZERO_8 + ZERO_8 + ZERO_8

  predicate IsFd(s: Sub) {
    s[8] == FD_READ || s[8] == FD_WRITE
  }

  predicate IsClock(s: Sub) {
    s[8] == CLOCK
  }

  function FdEvent(s: Sub): (e: seq<Byte>)
    ensures |e| == 32
  {
    s[..8] + [0, 0, s[8], 0, 0, 0, 0, 0] + NBYTES + ZERO_8
  }

  function ClockEvent(userdata: seq<Byte>): (e: seq<Byte>)
    requires |userdata| == 8
    ensures |e| == 32
  {
    userdata + [0, 0, CLOCK, 0, 0, 0, 0, 0] + ZERO_8 + ZERO_8
  }

  lemma {:induction false} ReadLeBound(s: seq<Byte>)
    ensures ReadLe(s) < Pow256(|s|)
  {
    if s != [] {
      ReadLeBound(s[1..]);
    }
  }

  /** The clock's wait in nanoseconds as an int64: a relative timeout of 2^63 or more turns negative. */
  function Wait(s: Sub, now: nat): (w: int)
    requires now < TWO_64
    ensures w < TWO_63
  {
    var timeout := ReadLe(s[24..32]);
    ReadLeBound(s[24..32]);
    Widths();
    if ReadLe(s[40..42]) % 2 == 1 then
      if timeout > now then Signed64(timeout - now) else 0
    else Signed64(timeout)
  }

  /** What each absolute clock reads when its turn comes. */
  type Readings = s: seq<nat> | forall i :: 0 <= i < |s| ==> s[i] < TWO_64 witness []

  function Subs(m: seq<Byte>, p: nat, n: nat): (r: seq<Sub>)
    requires p + 48 * n <= |m|
    ensures |r| == n
    ensures forall i :: 0 <= i < n ==> r[i] == m[p + 48 * i..p + 48 * i + 48]
  {
    if n == 0 then [] else
    Subs(m, p, n - 1) + [m[p + 48 * (n - 1)..p + 48 * n]]
  }

  /** The descriptor subscriptions, in order. */
  function FdSubs(subs: seq<Sub>): (r: seq<Sub>)
    ensures |r| <= |subs|
  {
    if subs == [] then [] else
    FdSubs(subs[..|subs| - 1]) + if IsFd(subs[|subs| - 1]) then [subs[|subs| - 1]] else []
  }

  function FdEvents(fds: seq<Sub>): (r: seq<Byte>)
    ensures |r| == 32 * |fds|
  {
    if fds == [] then [] else FdEvents(fds[..|fds| - 1]) + FdEvent(fds[|fds| - 1])
  }

  /** A subscription as the clock comparison sees it. */
  datatype Timer = NoTimer | Timer(wait: int, userdata: seq<Byte>)

  function TimerOf(s: Sub, now: nat): (t: Timer)
    requires now < TWO_64
    ensures t.Timer? ==> |t.userdata| == 8
  {
    if IsClock(s) then Timer(Wait(s, now), s[..8]) else NoTimer
  }

  function Timers(subs: seq<Sub>, now: Readings): (r: seq<Timer>)
    requires |now| == |subs|
    ensures |r| == |subs|
    ensures forall i :: 0 <= i < |subs| ==> r[i] == TimerOf(subs[i], now[i])
  {
    if subs == [] then [] else
    var n := |subs| - 1;
    Timers(subs[..n], now[..n]) + [TimerOf(subs[n], now[n])]
  }

  datatype Shortest = Shortest(wait: int, userdata: seq<Byte>)

  function NextSleep(sleep: Shortest, t: Timer): Shortest {
    if t.Timer? && (sleep.wait < 0 || t.wait < sleep.wait) then Shortest(t.wait, t.userdata) else sleep
  }

  /** The running minimum of the loop; a negative wait counts as none yet. */
  function ShortestOf(ts: seq<Timer>): Shortest {
    if ts == [] then Shortest(-1, ZERO_8) else NextSleep(ShortestOf(ts[..|ts| - 1]), ts[|ts| - 1])
  }

  lemma {:induction false} ShortestUserdata(ts: seq<Timer>)
    requires forall i :: 0 <= i < |ts| && ts[i].Timer? ==> |ts[i].userdata| == 8
    ensures |ShortestOf(ts).userdata| == 8
  {
    if ts != [] {
      ShortestUserdata(ts[..|ts| - 1]);
    }
  }

  /** What poll_oneoff reports. */
  function Events(subs: seq<Sub>, now: Readings): (r: seq<Byte>)
    requires |now| == |subs|
    ensures |r| == 32 * EventCount(subs, now)
  {
    var shortest := ShortestOf(Timers(subs, now));
    if FdSubs(subs) != [] then FdEvents(FdSubs(subs))
    else if shortest.wait >= 0 then ShortestUserdata(Timers(subs, now)); ClockEvent(shortest.userdata)
    else []
  }

  function EventCount(subs: seq<Sub>, now: Readings): (n: nat)
    requires |now| == |subs|
    ensures n <= |subs|
  {
    if FdSubs(subs) != [] then |FdSubs(subs)|
    else if ShortestOf(Timers(subs, now)).wait >= 0 then 1 else 0
  }

  /**
   Where events may go without reaching a subscription still to be read. Each turn reads 48 bytes
   and writes at most 32, so the output gains 16 on the input in the first turn already.
   */
  ghost predicate OutOfTheWay(inP: nat, outP: nat, n: nat) {
    outP <= inP + 16 || inP + 48 * n <= outP || n == 1
  }

  /** Events go out behind the subscriptions still to be read, even into the same buffer. */
  lemma UnreadSurvives(m0: seq<Byte>, m: seq<Byte>, inP: nat, outP: nat, i: nat, n: nat, events: seq<Byte>)
    requires i < n && inP + 48 * n <= |m0|
    requires OutOfTheWay(inP, outP, n)
    requires |events| <= 32 * i && outP + |events| <= |m0|
    requires m == WriteAt(m0, outP, events)
    ensures m[inP + 48 * i..inP + 48 * i + 48] == Subs(m0, inP, n)[i]
  {
    hide Subs, WriteAt;
    if events == [] {
      WriteNothing(m0, outP);
    } else {
      WriteElsewhere(m0, outP, events, inP + 48 * i);
    }
  }

  lemma WriteElsewhere(m: seq<Byte>, p: nat, w: seq<Byte>, a: nat)
    requires p + |w| <= |m| && a + 48 <= |m| && (a + 48 <= p || p + |w| <= a)
    ensures WriteAt(m, p, w)[a..a + 48] == m[a..a + 48]
  {
  }

  lemma {:induction false} FdSubsGrow(subs: seq<Sub>, i: nat)
    requires i <= |subs|
    ensures |FdSubs(subs[..i])| <= |FdSubs(subs)|
    decreases |subs|
  {
    if i < |subs| {
      FdSubsGrow(subs[..|subs| - 1], i);
      assert subs[..|subs| - 1][..i] == subs[..i];
    } else {
      assert subs[..i] == subs;
    }
  }

  /** The arguments under which the call can answer in full. */
  ghost predicate Answerable(m: seq<Byte>, inP: nat, outP: nat, now: Readings) {
    && |now| > 0
    && inP + 48 * |now| <= |m|
    && OutOfTheWay(inP, outP, |now|)
    && outP + |Events(Subs(m, inP, |now|), now)| <= |m|
  }

  // ---------- the loop, turn by turn, on values ----------

  /** Memory, events sent and shortest wait so far; ok is false once an address has faulted. */
  datatype Tally = Tally(mem: seq<Byte>, emitted: nat, sleep: Shortest, ok: bool)

  /** A guest address after 32-bit arithmetic. */
  function Wrapped(a: nat): (r: nat)
    ensures a < TWO_32 ==> r == a
  {
    a % TWO_32
  }

  /** One turn on the memory as it then is; guest addresses are 32-bit and wrap. */
  function Turn(t: Tally, inP: nat, outP: nat, i: nat, now: nat): (r: Tally)
    requires now < TWO_64
    ensures |r.mem| == |t.mem|
    ensures |t.sleep.userdata| == 8 ==> |r.sleep.userdata| == 8
  {
    var sub := Wrapped(inP + 48 * i);
    if sub + 48 > |t.mem| then t.(ok := false) else
    var s: Sub := t.mem[sub..sub + 48];
    if !IsFd(s) then t.(sleep := NextSleep(t.sleep, TimerOf(s, now))) else
    var dst := Wrapped(outP + 32 * t.emitted);
    if dst + 32 > |t.mem| then t.(ok := false) else
    t.(mem := WriteAt(t.mem, dst, FdEvent(s)), emitted := t.emitted + 1)
  }

  function Start(m: seq<Byte>): Tally {
    Tally(m, 0, Shortest(-1, ZERO_8), true)
  }

  /** The state after n turns, or after the turn that faulted. */
  function Turns(m: seq<Byte>, inP: nat, outP: nat, now: Readings, n: nat): (r: Tally)
    requires n <= |now|
    ensures |r.mem| == |m|
  {
    if n == 0 then Start(m) else
    var t := Turns(m, inP, outP, now, n - 1);
    if t.ok then Turn(t, inP, outP, n - 1, now[n - 1]) else t
  }

  /** How far the loop is: the first i subscriptions of the original memory are dealt with. */
  ghost predicate Progress(m0: seq<Byte>, inP: nat, outP: nat, now: Readings, i: nat, t: Tally)
    requires i <= |now| && inP + 48 * |now| <= |m0|
  {
    var seen := Subs(m0, inP, |now|)[..i];
    && t.ok
    && t.emitted == |FdSubs(seen)| && t.emitted <= i
    && outP + 32 * t.emitted <= |m0|
    && t.mem == WriteAt(m0, outP, FdEvents(FdSubs(seen)))
    && t.sleep == ShortestOf(Timers(Subs(m0, inP, |now|), now)[..i])
  }

  lemma ProgressReads(m0: seq<Byte>, inP: nat, outP: nat, now: Readings, i: nat, t: Tally)
    requires i < |now| && Answerable(m0, inP, outP, now)
    requires Progress(m0, inP, outP, now, i, t)
    ensures t.mem[inP + 48 * i..inP + 48 * i + 48] == Subs(m0, inP, |now|)[i]
    ensures IsFd(Subs(m0, inP, |now|)[i]) ==> outP + 32 * t.emitted + 32 <= |m0|
  {
    hide FdEvents, FdSubs, Subs, ShortestOf, Timers, WriteAt, ClockEvent, OutOfTheWay;
    var all := Subs(m0, inP, |now|);
    UnreadSurvives(m0, t.mem, inP, outP, i, |now|, FdEvents(FdSubs(all[..i])));
    FdSubsGrow(all, i + 1);
    FdSubsStep(all, i);
  }

  lemma PrefixSnoc<T>(s: seq<T>, i: nat)
    requires i < |s|
    ensures s[..i + 1] == s[..i] + [s[i]] && s[..i + 1][..i] == s[..i]
  {
  }

  lemma FdEventsSnoc(fds: seq<Sub>, s: Sub)
    ensures FdEvents(fds + [s]) == FdEvents(fds) + FdEvent(s)
  {
    assert (fds + [s])[..|fds|] == fds;
  }

  lemma FdSubsStep(all: seq<Sub>, i: nat)
    requires i < |all|
    ensures FdSubs(all[..i + 1]) == FdSubs(all[..i]) + if IsFd(all[i]) then [all[i]] else []
  {
    PrefixSnoc(all, i);
  }

  lemma ShortestStep(ts: seq<Timer>, i: nat)
    requires i < |ts|
    ensures ShortestOf(ts[..i + 1]) == NextSleep(ShortestOf(ts[..i]), ts[i])
  {
    PrefixSnoc(ts, i);
  }

  lemma FdStep(m0: seq<Byte>, inP: nat, outP: nat, now: Readings, i: nat, t: Tally, t': Tally)
    requires i < |now| && inP + 48 * |now| <= |m0| && IsFd(Subs(m0, inP, |now|)[i])
    requires Progress(m0, inP, outP, now, i, t)
    requires outP + 32 * t.emitted + 32 <= |m0|
    requires t' == t.(mem := WriteAt(t.mem, outP + 32 * t.emitted, FdEvent(Subs(m0, inP, |now|)[i])),
                      emitted := t.emitted + 1)
    ensures Progress(m0, inP, outP, now, i + 1, t')
  {
    hide Subs, FdSubs, ShortestOf, Timers, FdEvents, FdEvent, Wait;
    var all := Subs(m0, inP, |now|);
    var fds := FdSubs(all[..i]);
    FdSubsStep(all, i);
    ShortestStep(Timers(all, now), i);
    FdEventsSnoc(fds, all[i]);
    WriteAtCompose(m0, outP, FdEvents(fds), FdEvent(all[i]));
  }

  lemma OtherStep(m0: seq<Byte>, inP: nat, outP: nat, now: Readings, i: nat, t: Tally, t': Tally)
    requires i < |now| && inP + 48 * |now| <= |m0| && !IsFd(Subs(m0, inP, |now|)[i])
    requires Progress(m0, inP, outP, now, i, t)
    requires t' == t.(sleep := NextSleep(t.sleep, Timers(Subs(m0, inP, |now|), now)[i]))
    ensures Progress(m0, inP, outP, now, i + 1, t')
  {
    hide Subs, FdSubs, ShortestOf, Timers, FdEvents, FdEvent, Wait;
    var all := Subs(m0, inP, |now|);
    FdSubsStep(all, i);
    ShortestStep(Timers(all, now), i);
    assert FdSubs(all[..i]) + [] == FdSubs(all[..i]);
  }

  lemma TurnOnFd(t: Tally, inP: nat, outP: nat, i: nat, now: nat, s: Sub)
    requires now < TWO_64 && IsFd(s)
    requires inP + 48 * i + 48 <= |t.mem| <= TWO_32 && t.mem[inP + 48 * i..inP + 48 * i + 48] == s
    requires outP + 32 * t.emitted + 32 <= |t.mem|
    ensures Turn(t, inP, outP, i, now) ==
            t.(mem := WriteAt(t.mem, outP + 32 * t.emitted, FdEvent(s)), emitted := t.emitted + 1)
  {
  }

  lemma TurnOnOther(t: Tally, inP: nat, outP: nat, i: nat, now: nat, s: Sub)
    requires now < TWO_64 && !IsFd(s)
    requires inP + 48 * i + 48 <= |t.mem| <= TWO_32 && t.mem[inP + 48 * i..inP + 48 * i + 48] == s
    ensures Turn(t, inP, outP, i, now) == t.(sleep := NextSleep(t.sleep, TimerOf(s, now)))
  {
  }

  lemma TurnProgresses(m0: seq<Byte>, inP: nat, outP: nat, now: Readings, i: nat, t: Tally)
    requires i < |now| && |m0| == |t.mem| <= TWO_32 && Answerable(m0, inP, outP, now)
    requires Progress(m0, inP, outP, now, i, t)
    ensures Progress(m0, inP, outP, now, i + 1, Turn(t, inP, outP, i, now[i]))
  {
    ProgressReads(m0, inP, outP, now, i, t);
    var s := Subs(m0, inP, |now|)[i];
    var t' := Turn(t, inP, outP, i, now[i]);
    if IsFd(s) {
      TurnOnFd(t, inP, outP, i, now[i], s);
      FdStep(m0, inP, outP, now, i, t, t');
    } else {
      TurnOnOther(t, inP, outP, i, now[i], s);
      OtherStep(m0, inP, outP, now, i, t, t');
    }
  }

  lemma StartProgresses(m0: seq<Byte>, inP: nat, outP: nat, now: Readings)
    requires inP + 48 * |now| <= |m0| && outP <= |m0|
    ensures Progress(m0, inP, outP, now, 0, Start(m0))
  {
    hide Subs, Timers;
    assert Subs(m0, inP, |now|)[..0] == [];
  }

  lemma {:induction false} TurnsProgress(m0: seq<Byte>, inP: nat, outP: nat, now: Readings, n: nat)
    requires n <= |now| && |m0| <= TWO_32 && Answerable(m0, inP, outP, now)
    ensures Progress(m0, inP, outP, now, n, Turns(m0, inP, outP, now, n))
  {
    hide Turn, Progress, Events;
    if n == 0 {
      StartProgresses(m0, inP, outP, now);
    } else {
      var t := Turns(m0, inP, outP, now, n - 1);
      TurnsProgress(m0, inP, outP, now, n - 1);
      ProgressIsOk(m0, inP, outP, now, n - 1, t);
      TurnProgresses(m0, inP, outP, now, n - 1, t);
    }
  }

  lemma ProgressIsOk(m0: seq<Byte>, inP: nat, outP: nat, now: Readings, i: nat, t: Tally)
    requires i <= |now| && inP + 48 * |now| <= |m0| && Progress(m0, inP, outP, now, i, t)
    ensures t.ok
  {
  }

  /** Memory and return code of the whole call. */
  datatype Outcome = Outcome(mem: seq<Byte>, code: int)

  function Finish(t: Tally, outP: nat, neventsP: nat): Outcome {
    if !t.ok then Outcome(t.mem, EFAULT)
    else if t.emitted == 0 && t.sleep.wait >= 0 && |t.sleep.userdata| == 8 then
      if outP + 32 > |t.mem| then Outcome(t.mem, EFAULT)
      else Publish(WriteAt(t.mem, outP, ClockEvent(t.sleep.userdata)), neventsP, 1)
    else Publish(t.mem, neventsP, t.emitted)
  }

  function Publish(m: seq<Byte>, neventsP: nat, count: nat): Outcome {
    if neventsP + 4 > |m| then Outcome(m, EFAULT) else Outcome(WriteAt(m, neventsP, Le(count, 4)), ESUCCESS)
  }

  /** poll_oneoff on every input, faults and wrapping addresses included. */
  function PollResult(m: seq<Byte>, inP: nat, outP: nat, neventsP: nat, now: Readings): Outcome {
    if |now| == 0 then Outcome(m, EINVAL) else Finish(Turns(m, inP, outP, now, |now|), outP, neventsP)
  }

  /** The body of poll_oneoff's loop: a descriptor's event goes out at once, a clock is only compared. */
  method TakeTurn(mem: array<Byte>, inP: nat, outP: nat, i: nat, now: nat, emitted: nat, sleep: Shortest)
    returns (ok: bool, emitted': nat, sleep': Shortest)
    requires now < TWO_64
    modifies mem
    ensures Tally(mem[..], emitted', sleep', ok) ==
            Turn(Tally(old(mem[..]), emitted, sleep, true), inP, outP, i, now)
  {
    hide Wait, FdEvent, WriteAt;
    emitted', sleep' := emitted, sleep;
    var sub := Wrapped(inP + 48 * i);
    if sub + 48 > mem.Length {
      return false, emitted, sleep;
    }
    var s: Sub := mem[sub..sub + 48];
    assert s == mem[..][sub..sub + 48];
    if IsClock(s) {
      var timer := TimerOf(s, now);
      if sleep.wait < 0 || timer.wait < sleep.wait {
        sleep' := Shortest(timer.wait, timer.userdata);
      }
    } else if IsFd(s) {
      var dst := Wrapped(outP + 32 * emitted);
      if dst + 32 > mem.Length {
        return false, emitted, sleep;
      }
      Store(mem, dst, FdEvent(s));
      emitted' := emitted + 1;
    }
    ok := true;
  }

  lemma TurnsUnfold(m: seq<Byte>, inP: nat, outP: nat, now: Readings, n: nat)
    requires n < |now|
    ensures Turns(m, inP, outP, now, 0) == Start(m)
    ensures var t := Turns(m, inP, outP, now, n);
            Turns(m, inP, outP, now, n + 1) == if t.ok then Turn(t, inP, outP, n, now[n]) else t
  {
    hide Turn;
  }

  /** poll_oneoff; `now` holds what the clock would read at each of the nsubs subscriptions. */
  method PollOneoff(mem: array<Byte>, inP: nat, outP: nat, nsubs: nat, neventsP: nat, now: Readings)
    returns (code: int)
    requires |now| == nsubs
    modifies mem
    ensures Outcome(mem[..], code) == PollResult(old(mem[..]), inP, outP, neventsP, now)
  {
    hide Turn, Finish, Turns, PollResult;
    ghost var m0 := mem[..];
    PollUnfold(m0, inP, outP, neventsP, now);
    if nsubs == 0 {
      return EINVAL;
    }
    TurnsUnfold(m0, inP, outP, now, 0);
    var emitted, sleep := 0, Shortest(-1, ZERO_8);
    var i := 0;
    while i < nsubs
      invariant 0 <= i <= nsubs && |sleep.userdata| == 8
      invariant Turns(m0, inP, outP, now, i) == Tally(mem[..], emitted, sleep, true)
    {
      TurnsUnfold(m0, inP, outP, now, i);
      var ok;
      ok, emitted, sleep := TakeTurn(mem, inP, outP, i, now[i], emitted, sleep);
      i := i + 1;
      if !ok {
        TurnsStop(m0, inP, outP, now, i);
        return EFAULT;
      }
    }
    code := Report(mem, outP, neventsP, emitted, sleep);
  }

  lemma PollUnfold(m: seq<Byte>, inP: nat, outP: nat, neventsP: nat, now: Readings)
    ensures now == [] ==> PollResult(m, inP, outP, neventsP, now) == Outcome(m, EINVAL)
    ensures now != [] ==>
              var t := Turns(m, inP, outP, now, |now|);
              && PollResult(m, inP, outP, neventsP, now) == Finish(t, outP, neventsP)
              && (!t.ok ==> Finish(t, outP, neventsP) == Outcome(t.mem, EFAULT))
  {
    hide Turns;
  }

  /** poll_oneoff behind its loop: the shortest clock if nothing else, then the event count. */
  method Report(mem: array<Byte>, outP: nat, neventsP: nat, emitted: nat, sleep: Shortest) returns (code: int)
    requires |sleep.userdata| == 8
    modifies mem
    ensures Outcome(mem[..], code) == Finish(Tally(old(mem[..]), emitted, sleep, true), outP, neventsP)
  {
    var count := emitted;
    if emitted == 0 && sleep.wait >= 0 {
      if outP + 32 > mem.Length {
        return EFAULT;
      }
      Store(mem, outP, ClockEvent(sleep.userdata));
      count := 1;
    }
    var failed := WriteU32(mem, neventsP, count);
    return if failed then EFAULT else ESUCCESS;
  }

  lemma {:induction false} TurnsStop(m: seq<Byte>, inP: nat, outP: nat, now: Readings, n: nat)
    requires n <= |now| && !Turns(m, inP, outP, now, n).ok
    ensures Turns(m, inP, outP, now, |now|) == Turns(m, inP, outP, now, n)
    decreases |now| - n
  {
    if n < |now| {
      TurnsStop(m, inP, outP, now, n + 1);
    }
  }

  lemma ProgressDone(m0: seq<Byte>, inP: nat, outP: nat, now: Readings, t: Tally)
    requires inP + 48 * |now| <= |m0| && Progress(m0, inP, outP, now, |now|, t)
    ensures t.ok && outP <= |m0|
    ensures t.emitted == |FdSubs(Subs(m0, inP, |now|))|
    ensures t.mem == WriteAt(m0, outP, FdEvents(FdSubs(Subs(m0, inP, |now|))))
    ensures t.sleep == ShortestOf(Timers(Subs(m0, inP, |now|), now))
  {
    hide Subs, FdSubs, FdEvents, ShortestOf, Timers, WriteAt;
    var all := Subs(m0, inP, |now|);
    assert all[..|now|] == all;
    assert Timers(all, now)[..|now|] == Timers(all, now);
  }

  /**
   With everything in range, the call reports precisely Events: one event for each descriptor
   subscription, in order, or else the shortest clock. The output may start at or below the
   input, in particular in the same buffer: no subscription is overwritten before it is read.
   */
  lemma PollAnswers(m: seq<Byte>, inP: nat, outP: nat, neventsP: nat, now: Readings)
    requires |m| <= TWO_32 && Answerable(m, inP, outP, now) && neventsP + 4 <= |m|
    ensures var subs := Subs(m, inP, |now|);
            PollResult(m, inP, outP, neventsP, now) ==
            Outcome(WriteAt(WriteAt(m, outP, Events(subs, now)), neventsP, Le(EventCount(subs, now), 4)), ESUCCESS)
  {
    hide Progress, Turns, Subs, ShortestOf, Timers, FdSubs, Le, ClockEvent;
    TurnsProgress(m, inP, outP, now, |now|);
    var all := Subs(m, inP, |now|);
    var t := Turns(m, inP, outP, now, |now|);
    ProgressDone(m, inP, outP, now, t);
    ShortestUserdata(Timers(all, now));
    if FdSubs(all) == [] {
      WriteNothing(m, outP);
    }
  }

  lemma EventBytes(s: Sub)
    requires IsFd(s)
    ensures FdEvent(s)[0] == s[0] && FdEvent(s)[31] == 0
  {
  }

  /** Both turns of a call with two descriptor subscriptions, the second read from behind the first event. */
  lemma TwoTurns(m: seq<Byte>, inP: nat, outP: nat, now: Readings, s0: Sub, s1: Sub)
    requires |m| <= TWO_32 && |now| == 2 && inP + 96 <= |m| && outP + 64 <= |m|
    requires s0 == m[inP..inP + 48] && s1 == WriteAt(m, outP, FdEvent(s0))[inP + 48..inP + 96]
    requires IsFd(s0) && IsFd(s1)
    ensures Turns(m, inP, outP, now, 2).ok && Turns(m, inP, outP, now, 2).emitted == 2
    ensures Turns(m, inP, outP, now, 2).mem ==
            WriteAt(WriteAt(m, outP, FdEvent(s0)), outP + 32, FdEvent(s1))
  {
    hide Turn, WriteAt, FdEvent, IsFd;
    assert Turns(m, inP, outP, now, 0) == Start(m);
    assert Turns(m, inP, outP, now, 1) == Turn(Start(m), inP, outP, 0, now[0]);
    TurnOnFd(Start(m), inP, outP, 0, now[0], s0);
    TurnOnFd(Turns(m, inP, outP, now, 1), inP, outP, 1, now[1], s1);
  }

  /**
   Sixteen bytes is the most: with the output seventeen behind the input, the first event's last
   byte falls on the second subscription, and the call answers it with the wrong userdata.
   */
  lemma OverlapBreaks(m: seq<Byte>, inP: nat, neventsP: nat, now: Readings)
    requires |m| <= TWO_32 && |now| == 2 && inP + 96 <= |m| && neventsP + 4 <= |m|
    requires neventsP + 4 <= inP + 49 || inP + 81 <= neventsP
    requires IsFd(Subs(m, inP, 2)[0]) && IsFd(Subs(m, inP, 2)[1]) && m[inP + 48] != 0
    ensures var subs := Subs(m, inP, 2);
            PollResult(m, inP, inP + 17, neventsP, now) !=
            Outcome(WriteAt(WriteAt(m, inP + 17, Events(subs, now)), neventsP, Le(EventCount(subs, now), 4)), ESUCCESS)
  {
    hide FdEvent, Turns, Le, ShortestOf, Timers, ClockEvent;
    var outP := inP + 17;
    var subs := Subs(m, inP, 2);
    var s0: Sub := subs[0];
    var m1 := WriteAt(m, outP, FdEvent(s0));
    var s1: Sub := m1[inP + 48..inP + 96];
    EventBytes(s0);
    EventBytes(s1);
    EventBytes(subs[1]);
    assert m1[inP + 56] == m[inP + 56];
    TwoTurns(m, inP, outP, now, s0, s1);
    TwoEvents(subs);
    assert PollResult(m, inP, outP, neventsP, now).mem[outP + 32] == 0;
    assert WriteAt(m, outP, Events(subs, now))[outP + 32] == m[inP + 48];
  }

  lemma TwoEvents(subs: seq<Sub>)
    requires |subs| == 2 && IsFd(subs[0]) && IsFd(subs[1])
    ensures FdSubs(subs) == subs && FdEvents(subs) == FdEvent(subs[0]) + FdEvent(subs[1])
  {
    hide FdEvent, IsFd;
    assert subs[..1][..0] == [] && subs[..1] == [subs[0]];
    assert FdSubs(subs[..1]) == [subs[0]];
    assert FdEvents(subs[..1]) == [] + FdEvent(subs[0]);
  }

  // ---------- what the answer means ----------

  lemma ReadLeZero(rest: seq<Byte>)
    ensures ReadLe([0] + rest) == 256 * ReadLe(rest)
  {
    assert ([0] + rest)[1..] == rest;
  }

  lemma ReadLeLast(b: Byte)
    ensures ReadLe([b]) == b
  {
    assert [b][1..] == [];
  }

  /** The size reported as ready. */
  lemma ReadyBytes()
    ensures ReadLe([0, 0, 1, 0, 0, 0, 0, 0]) == 65536
  {
    hide ReadLe;
    ReadLeLast(0);
    ReadLeZero([0]);
    ReadLeZero([0, 0]);
    ReadLeZero([0, 0, 0]);
    ReadLeZero([0, 0, 0, 0]);
    assert [0] + [0] == [0, 0] && [0] + [0, 0] == [0, 0, 0] && [0] + [0, 0, 0] == [0, 0, 0, 0];
    assert [0] + [0, 0, 0, 0] == [0, 0, 0, 0, 0];
    OneFirst([0, 0, 0, 0, 0]);
    assert [1] + [0, 0, 0, 0, 0] == [1, 0, 0, 0, 0, 0];
    ReadLeZero([1, 0, 0, 0, 0, 0]);
    assert [0] + [1, 0, 0, 0, 0, 0] == [0, 1, 0, 0, 0, 0, 0];
    ReadLeZero([0, 1, 0, 0, 0, 0, 0]);
    assert [0] + [0, 1, 0, 0, 0, 0, 0] == [0, 0, 1, 0, 0, 0, 0, 0];
  }

  lemma OneFirst(rest: seq<Byte>)
    ensures ReadLe([1] + rest) == 1 + 256 * ReadLe(rest)
  {
    assert ([1] + rest)[1..] == rest;
  }

  /** Event j is for the j-th descriptor subscription: its userdata, no error, its tag, 65536 bytes ready. */
  lemma {:induction false} EventAt(fds: seq<Sub>, j: nat)
    requires j < |fds|
    ensures FdEvents(fds)[32 * j..32 * j + 32] ==
            fds[j][..8] + [0, 0, fds[j][8], 0, 0, 0, 0, 0] + [0, 0, 1, 0, 0, 0, 0, 0] + [0, 0, 0, 0, 0, 0, 0, 0]
  {
    var n := |fds| - 1;
    var all := FdEvents(fds);
    if j < n {
      var some := FdEvents(fds[..n]);
      EventAt(fds[..n], j);
      assert all == some + FdEvent(fds[n]);
      assert all[32 * j..32 * j + 32] == some[32 * j..32 * j + 32];
    }
  }

  ghost predicate Overlong(ts: seq<Timer>, i: nat) {
    i < |ts| && ts[i].Timer? && ts[i].wait < 0
  }

  /** i is the first timer of least wait among those at lo and above. */
  ghost predicate FirstShortest(ts: seq<Timer>, lo: nat, i: nat) {
    && lo <= i < |ts| && ts[i].Timer?
    && (forall j :: lo <= j < |ts| && ts[j].Timer? ==> ts[i].wait <= ts[j].wait)
    && (forall j :: lo <= j < i && ts[j].Timer? ==> ts[i].wait < ts[j].wait)
  }

  /**
   The running minimum, characterised. A wait of 2^63 or more wipes out what came before it: the
   minimum runs over the timers behind the last such one.
   */
  lemma {:induction false} ShortestFrom(ts: seq<Timer>, lo: nat)
    requires lo <= |ts| && (lo == 0 || Overlong(ts, lo - 1))
    requires forall j :: lo <= j < |ts| ==> !Overlong(ts, j)
    ensures ShortestOf(ts).wait < 0 <==> forall j :: lo <= j < |ts| ==> ts[j].NoTimer?
    ensures ShortestOf(ts).wait >= 0 ==>
              exists i: nat :: FirstShortest(ts, lo, i) && ShortestOf(ts) == Shortest(ts[i].wait, ts[i].userdata)
  {
    if |ts| > 0 {
      var n := |ts| - 1;
      var some := ts[..n];
      if lo == |ts| {
        assert Overlong(ts, n);
      } else {
        assert !Overlong(ts, n);
        assert lo > 0 ==> Overlong(some, lo - 1);
        forall j | lo <= j < n ensures !Overlong(some, j) {
          assert !Overlong(ts, j);
        }
        ShortestFrom(some, lo);
        if ShortestOf(ts) != ShortestOf(some) {
          assert FirstShortest(ts, lo, n);
        } else if ShortestOf(some).wait >= 0 {
          var i: nat :| FirstShortest(some, lo, i) && ShortestOf(some) == Shortest(some[i].wait, some[i].userdata);
          assert FirstShortest(ts, lo, i);
        }
      }
    }
  }

  /** The loop ends without a clock to report exactly when there is none or the last one is overlong. */
  lemma NoWaitIff(ts: seq<Timer>)
    ensures ShortestOf(ts).wait < 0 <==> LastTimer(ts) == 0 || ts[LastTimer(ts) - 1].wait < 0
  {
    hide ShortestOf, LastTimer;
    var lo := LastOverlong(ts);
    ShortestFrom(ts, lo);
    var k := LastTimer(ts);
    if k > 0 && ts[k - 1].wait < 0 {
      assert Overlong(ts, k - 1);
    }
    if k > 0 && ts[k - 1].wait >= 0 && lo > 0 {
      assert Overlong(ts, lo - 1);
    }
  }

  /**
   With clocks alone the call answers with nothing exactly when there is no clock or the last
   one waits 2^63 ns or more; relative waits below that are always answered.
   */
  lemma NoAnswerIff(subs: seq<Sub>, now: Readings)
    requires |now| == |subs| && FdSubs(subs) == []
    ensures Events(subs, now) == [] <==>
              forall i :: 0 <= i < |subs| && IsClock(subs[i])
                          && (forall j :: i < j < |subs| ==> !IsClock(subs[j]))
                          ==> Wait(subs[i], now[i]) < 0
  {
    hide ShortestOf, Timers, Wait, LastTimer, FdSubs, FdEvents, ClockEvent;
    var ts := Timers(subs, now);
    NoWaitIff(ts);
    var k := LastTimer(ts);
    forall j | 0 <= j < |subs| ensures IsClock(subs[j]) <==> ts[j].Timer? {
    }
    assert ts == Timers(subs, now);
  }

  /** A relative clock of 2^63 ns. */
  function OverlongClock(userdata: seq<Byte>): Sub
    requires |userdata| == 8
  {
    userdata + ZERO_8 + ZERO_8 + [0, 0, 0, 0, 0, 0, 0, 128] + ZERO_8 + ZERO_8
  }

  /** On its own it is never answered, whatever the clock reads. */
  lemma OverlongClockUnanswered(userdata: seq<Byte>, now: nat)
    requires |userdata| == 8 && now < TWO_64
    ensures Events([OverlongClock(userdata)], [now]) == [] && EventCount([OverlongClock(userdata)], [now]) == 0
  {
    hide ReadLe;
    var s := OverlongClock(userdata);
    var subs, readings: Readings := [s], [now];
    assert s[8] == CLOCK;
    assert s[24..32] == [0, 0, 0, 0, 0, 0, 0, 128] && s[40..42] == [0, 0];
    HighByte();
    assert Wait(s, now) == -TWO_63;
    assert FdSubs(subs) == [] by {
      assert subs[..0] == [];
    }
    NoAnswerIff(subs, readings);
  }

  lemma HighByte()
    ensures ReadLe([0, 0, 0, 0, 0, 0, 0, 128]) == TWO_63 && ReadLe([0, 0]) == 0
  {
    hide ReadLe;
    ReadLeLast(128);
    ReadLeLast(0);
    ReadLeZero([0]);
    ReadLeZero([128]);
    ReadLeZero([0, 128]);
    ReadLeZero([0, 0, 128]);
    ReadLeZero([0, 0, 0, 128]);
    ReadLeZero([0, 0, 0, 0, 128]);
    ReadLeZero([0, 0, 0, 0, 0, 128]);
    ReadLeZero([0, 0, 0, 0, 0, 0, 128]);
    assert [0] + [0] == [0, 0] && [0] + [128] == [0, 128] && [0] + [0, 128] == [0, 0, 128];
    assert [0] + [0, 0, 128] == [0, 0, 0, 128] && [0] + [0, 0, 0, 128] == [0, 0, 0, 0, 128];
    assert [0] + [0, 0, 0, 0, 128] == [0, 0, 0, 0, 0, 128];
    assert [0] + [0, 0, 0, 0, 0, 128] == [0, 0, 0, 0, 0, 0, 128];
    assert [0] + [0, 0, 0, 0, 0, 0, 128] == [0, 0, 0, 0, 0, 0, 0, 128];
  }

  /** One past the last overlong timer, or 0. */
  ghost function LastOverlong(ts: seq<Timer>): (lo: nat)
    ensures lo <= |ts| && (lo == 0 || Overlong(ts, lo - 1))
    ensures forall j :: lo <= j < |ts| ==> !Overlong(ts, j)
  {
    if ts == [] then 0
    else if Overlong(ts, |ts| - 1) then |ts|
    else
      var lo := LastOverlong(ts[..|ts| - 1]);
      assert lo > 0 ==> Overlong(ts, lo - 1);
      assert forall j :: lo <= j < |ts| - 1 ==> !Overlong(ts[..|ts| - 1], j) && ts[..|ts| - 1][j] == ts[j];
      lo
  }

  /** One past the last timer, or 0. */
  ghost function LastTimer(ts: seq<Timer>): (k: nat)
    ensures k <= |ts| && (k == 0 || ts[k - 1].Timer?)
    ensures forall j :: k <= j < |ts| ==> ts[j].NoTimer?
  {
    if ts == [] then 0 else if ts[|ts| - 1].Timer? then |ts| else LastTimer(ts[..|ts| - 1])
  }

  // ---------- the answer, byte by byte, in guest memory ----------

  /** How many of the first n subscriptions are of descriptors. */
  lemma {:induction false} FdSubsCount(subs: seq<Sub>, n: nat)
    requires n <= |subs|
    ensures |FdSubs(subs[..n])| == |set k | 0 <= k < n && (subs[k][8] == 1 || subs[k][8] == 2)|
  {
    if n > 0 {
      hide FdSubs;
      FdSubsCount(subs, n - 1);
      FdSubsStep(subs, n - 1);
      var less := set k | 0 <= k < n - 1 && (subs[k][8] == 1 || subs[k][8] == 2);
      var all := set k | 0 <= k < n && (subs[k][8] == 1 || subs[k][8] == 2);
      if IsFd(subs[n - 1]) {
        assert all == less + {n - 1};
      } else {
        assert all == less;
      }
    } else {
      assert subs[..0] == [];
    }
  }

  /** Descriptor subscription i is the next behind those before it. */
  lemma {:induction false} FdSubsAt(subs: seq<Sub>, i: nat)
    requires i < |subs| && IsFd(subs[i])
    ensures var j := |FdSubs(subs[..i])|; j < |FdSubs(subs)| && FdSubs(subs)[j] == subs[i]
    decreases |subs|
  {
    var n := |subs| - 1;
    if i < n {
      FdSubsAt(subs[..n], i);
      assert subs[..n][..i] == subs[..i];
    }
  }

  /**
   For every subscription i of a descriptor, with j such before it, the j-th event in guest memory
   behind the call carries its eight bytes of userdata as they were before the call, no error, its
   type, 65536 ready bytes and nothing else; and the number of events is that of descriptors.
   `subs` are the subscriptions in guest memory before the call.
   */
  lemma FdAnswerTold(m: seq<Byte>, inP: nat, outP: nat, neventsP: nat, now: Readings, subs: seq<Sub>, i: nat)
    requires |m| <= 0x1_0000_0000 && Answerable(m, inP, outP, now) && neventsP + 4 <= |m|
    requires |subs| == |now| && forall k :: 0 <= k < |subs| ==> subs[k] == m[inP + 48 * k..inP + 48 * k + 48]
    requires neventsP + 4 <= outP || outP + |Events(subs, now)| <= neventsP
    requires i < |subs| && (subs[i][8] == 1 || subs[i][8] == 2)
    ensures var r := PollResult(m, inP, outP, neventsP, now);
            var j := |set k | 0 <= k < i && (subs[k][8] == 1 || subs[k][8] == 2)|;
            var count := |set k | 0 <= k < |subs| && (subs[k][8] == 1 || subs[k][8] == 2)|;
            && r.code == 0 && j < count && outP + 32 * j + 32 <= |r.mem| == |m|
            && r.mem[outP + 32 * j..outP + 32 * j + 32] ==
               subs[i][..8] + [0, 0, subs[i][8], 0, 0, 0, 0, 0] + [0, 0, 1, 0, 0, 0, 0, 0] + [0, 0, 0, 0, 0, 0, 0, 0]
            && r.mem[neventsP..neventsP + 4] ==
               [count % 0x100, count / 0x100 % 0x100, count / 0x1_0000 % 0x100, count / 0x100_0000 % 0x100]
  {
    hide FdEvents, FdSubs, Subs, Le, ReadLe, ShortestOf, Timers, ClockEvent, PollResult, WriteAt, OutOfTheWay;
    AllSubs(m, inP, subs);
    PollAnswers(m, inP, outP, neventsP, now);
    FdSubsCount(subs, i);
    FdSubsCount(subs, |subs|);
    assert subs[..|subs|] == subs;
    FdSubsAt(subs, i);
    var j := |FdSubs(subs[..i])|;
    EventAt(FdSubs(subs), j);
    LittleEndian(|FdSubs(subs)|);
    InMemory(m, outP, FdEvents(FdSubs(subs)), neventsP, Le(|FdSubs(subs)|, 4), 32 * j);
  }

  lemma {:induction false} AllSubs(m: seq<Byte>, inP: nat, subs: seq<Sub>)
    requires inP + 48 * |subs| <= |m|
    requires forall k :: 0 <= k < |subs| ==> subs[k] == m[inP + 48 * k..inP + 48 * k + 48]
    ensures Subs(m, inP, |subs|) == subs
  {
  }

  /** Two writes that do not meet, read back. */
  lemma InMemory(m: seq<Byte>, p: nat, w: seq<Byte>, q: nat, v: seq<Byte>, at: nat)
    requires p + |w| <= |m| && q + |v| <= |m| && (q + |v| <= p || p + |w| <= q) && at + 32 <= |w|
    ensures var r := WriteAt(WriteAt(m, p, w), q, v);
            r[p + at..p + at + 32] == w[at..at + 32] && r[q..q + |v|] == v
  {
  }

  /**
   With clocks alone, all of less than 2^63 ns, the one event in guest memory carries the userdata
   of the first clock of least wait, and zeros: no error, type 0. An absolute clock waits from its
   reading on, a relative one for its timeout.
   */
  lemma ClockAnswerTold(m: seq<Byte>, inP: nat, outP: nat, neventsP: nat, now: Readings, subs: seq<Sub>,
                        wait: seq<int>, i: nat)
    requires |m| <= 0x1_0000_0000 && Answerable(m, inP, outP, now) && neventsP + 4 <= |m|
    requires neventsP + 4 <= outP || outP + 32 <= neventsP
    requires |subs| == |now| && forall k :: 0 <= k < |subs| ==> subs[k] == m[inP + 48 * k..inP + 48 * k + 48]
    requires forall k :: 0 <= k < |subs| ==> subs[k][8] != 1 && subs[k][8] != 2
    requires |wait| == |now| && forall k :: 0 <= k < |now| && subs[k][8] == 0 ==>
               && wait[k] < 0x8000_0000_0000_0000
               && wait[k] ==
                  var timeout := ReadLe(subs[k][24..32]);
                  if ReadLe(subs[k][40..42]) % 2 == 1 then if timeout > now[k] then timeout - now[k] else 0
                  else timeout
    requires i < |subs| && subs[i][8] == 0
    requires forall k :: 0 <= k < |subs| && subs[k][8] == 0 ==> wait[i] <= wait[k] && (k < i ==> wait[i] < wait[k])
    ensures var r := PollResult(m, inP, outP, neventsP, now);
            && r.code == 0 && outP + 32 <= |r.mem| == |m|
            && r.mem[outP..outP + 32] ==
               subs[i][..8] + [0, 0, 0, 0, 0, 0, 0, 0] + [0, 0, 0, 0, 0, 0, 0, 0] + [0, 0, 0, 0, 0, 0, 0, 0]
            && r.mem[neventsP..neventsP + 4] == [1, 0, 0, 0]
  {
    hide FdSubs, Subs, Le, ReadLe, ShortestOf, Timers, Wait, PollResult, WriteAt, OutOfTheWay, ClockEvent;
    AllSubs(m, inP, subs);
    PollAnswers(m, inP, outP, neventsP, now);
    NoFds(subs);
    LeastClock(subs, now, wait, i);
    ClockMemory(m, outP, subs[i][..8], neventsP);
  }

  lemma ClockMemory(m: seq<Byte>, p: nat, userdata: seq<Byte>, q: nat)
    requires |userdata| == 8 && p + 32 <= |m| && q + 4 <= |m| && (q + 4 <= p || p + 32 <= q)
    ensures var r := WriteAt(WriteAt(m, p, ClockEvent(userdata)), q, Le(1, 4));
            && r[p..p + 32] ==
               userdata + [0, 0, 0, 0, 0, 0, 0, 0] + [0, 0, 0, 0, 0, 0, 0, 0] + [0, 0, 0, 0, 0, 0, 0, 0]
            && r[q..q + 4] == [1, 0, 0, 0]
  {
    hide WriteAt, Le;
    LittleEndian(1);
    var e := ClockEvent(userdata);
    assert e[0..32] == e;
    InMemory(m, p, e, q, Le(1, 4), 0);
  }

  lemma LeastClock(subs: seq<Sub>, now: Readings, wait: seq<int>, i: nat)
    requires |subs| == |now| == |wait| && i < |subs| && IsClock(subs[i])
    requires forall k :: 0 <= k < |now| && subs[k][8] == 0 ==>
               && wait[k] < 0x8000_0000_0000_0000
               && wait[k] ==
                  var timeout := ReadLe(subs[k][24..32]);
                  if ReadLe(subs[k][40..42]) % 2 == 1 then if timeout > now[k] then timeout - now[k] else 0
                  else timeout
    requires forall k :: 0 <= k < |subs| && subs[k][8] == 0 ==> wait[i] <= wait[k] && (k < i ==> wait[i] < wait[k])
    ensures ShortestOf(Timers(subs, now)) == Shortest(wait[i], subs[i][..8]) && wait[i] >= 0
  {
    hide ReadLe, ShortestOf, Timers, Wait;
    var ts := Timers(subs, now);
    forall k | 0 <= k < |subs| && IsClock(subs[k]) ensures ts[k] == Timer(wait[k], subs[k][..8]) && wait[k] >= 0 {
      WaitTold(subs[k], now[k], wait[k]);
    }
    forall k | 0 <= k < |subs| ensures !Overlong(ts, k) {
    }
    ShortestFrom(ts, 0);
    assert ts[i].Timer?;
    var f: nat :| FirstShortest(ts, 0, f) && ShortestOf(ts) == Shortest(ts[f].wait, ts[f].userdata);
    assert f == i;
  }

  lemma {:induction false} NoFds(subs: seq<Sub>)
    requires forall k :: 0 <= k < |subs| ==> subs[k][8] != 1 && subs[k][8] != 2
    ensures FdSubs(subs) == []
  {
    if subs != [] {
      NoFds(subs[..|subs| - 1]);
    }
  }

  lemma WaitTold(s: Sub, now: nat, wait: int)
    requires now < TWO_64 && wait < 0x8000_0000_0000_0000
    requires wait ==
             var timeout := ReadLe(s[24..32]);
             if ReadLe(s[40..42]) % 2 == 1 then if timeout > now then timeout - now else 0
             else timeout
    ensures Wait(s, now) == wait && wait >= 0
  {
    hide ReadLe;
  }

  /** Without subscriptions the call is an error and writes nothing. */
  lemma NothingToPoll(m: seq<Byte>, inP: nat, outP: nat, neventsP: nat)
    ensures PollResult(m, inP, outP, neventsP, []) == Outcome(m, 28)
  {
  }

  /** A first subscription outside of memory is a fault and writes nothing. */
  lemma FirstFaults(m: seq<Byte>, inP: nat, outP: nat, neventsP: nat, now: Readings)
    requires |m| < inP + 48 && inP < 0x1_0000_0000 && now != []
    ensures PollResult(m, inP, outP, neventsP, now) == Outcome(m, 21)
  {
    hide WriteAt;
    TurnsUnfold(m, inP, outP, now, 0);
    TurnsStop(m, inP, outP, now, 1);
  }
}
