/**
 What one exchange with the engine amounts to, given what the engine does at each tick: the
 reply gathered from the memory channel and the spill file, until ReadyForQuery or ten silent
 ticks in a row. A guest call may return, leave through proc_exit, or trap.
 */
module Pump {
  import opened Bytes
  import opened Framing

  datatype Call<T> = Returned(value: T) | Exited | Trapped

  /**
   The guest calls of one tick in order (one step, flush, size of the reply in the channel,
   channel offset, reset), the guest memory they leave, and the spill file if there is one.
   */
  datatype Tick = Tick(
    one: Call<()>, flush: Call<()>, read: Call<nat>, channel: Call<nat>, reset: Call<()>,
    mem: seq<Byte>, file: Option<seq<Byte>>)

  /** Values of guest calls are 32-bit. */
  predicate TickOk(t: Tick) {
    && (t.read.Returned? ==> t.read.value < TWO_32)
    && (t.channel.Returned? ==> t.channel.value < TWO_32)
  }

  type Ticks = s: seq<Tick> | forall t :: t in s ==> TickOk(t) witness []

  const SILENT := Tick(Returned(()), Returned(()), Returned(0), Returned(0), Returned(()), [], None)

  /** What the engine does at tick i; it has gone quiet behind the last one given. */
  function TickAt(ts: Ticks, i: nat): (t: Tick)
    ensures TickOk(t)
  {
    if i < |ts| then ts[i] else SILENT
  }

  /** Channel bytes of a tick, or None if a call trapped. */
  function FromChannel(t: Tick): Option<seq<Byte>>
    requires TickOk(t)
  {
    if t.read.Trapped? then None else
    var wsize := if t.read.Returned? then t.read.value else 0;
    if wsize == 0 then Some([])
    else if t.channel.Trapped? || t.reset.Trapped? then None
    else
      var ch := if t.channel.Returned? then t.channel.value else 0;
      if Signed32(ch) > 0 && ch + wsize <= |t.mem| then Some(t.mem[ch..ch + wsize]) else Some([])
  }

  function FromFile(t: Tick): seq<Byte> {
    if t.file.Some? then t.file.value else []
  }

  /** Everything one tick delivers, or None if the engine died in it. */
  function Drained(t: Tick): Option<seq<Byte>>
    requires TickOk(t)
  {
    if t.one.Trapped? || t.flush.Trapped? || FromChannel(t).None? then None
    else Some(FromChannel(t).value + FromFile(t))
  }

  /** How an exchange's pump ends, after how many ticks. */
  datatype Outcome = Died(ticks: nat) | Replied(bytes: seq<Byte>, ticks: nat)

  predicate Ready(b: seq<Byte>) {
    ContainsReady(Frames(b))
  }

  function Pumped(ts: Ticks, i: nat, idle: nat, acc: seq<Byte>): Outcome
    requires idle <= 10
    decreases if i < |ts| then |ts| - i else 0, 10 - idle
  {
    if idle == 10 || Ready(acc) then Replied(acc, i) else
    match Drained(TickAt(ts, i))
    case None => Died(i + 1)
    case Some(b) => Pumped(ts, i + 1, if b == [] then idle + 1 else 0, acc + b)
  }

  // ---------- what the reply is ----------

  /** Everything the engine delivered in the first n ticks, in order. */
  function Gathered(ts: Ticks, n: nat): seq<Byte> {
    if n == 0 then [] else
    Gathered(ts, n - 1) + Delivered(ts, n - 1)
  }

  function Delivered(ts: Ticks, i: nat): seq<Byte> {
    var d := Drained(TickAt(ts, i));
    if d.Some? then d.value else []
  }

  /** How many of the first n ticks delivered something. */
  function Deliveries(ts: Ticks, n: nat): nat {
    if n == 0 then 0 else Deliveries(ts, n - 1) + if Delivered(ts, n - 1) == [] then 0 else 1
  }

  ghost predicate Alive(ts: Ticks, n: nat) {
    forall i :: 0 <= i < n ==> Drained(TickAt(ts, i)).Some?
  }

  ghost predicate NotReadyBefore(ts: Ticks, n: nat) {
    forall i :: 0 <= i < n ==> !Ready(Gathered(ts, i))
  }

  ghost predicate SilentSince(ts: Ticks, from: nat, n: nat) {
    forall i :: from <= i < n ==> Delivered(ts, i) == []
  }

  /** The last ten of the first n ticks were silent. */
  ghost predicate Paused(ts: Ticks, n: nat) {
    n >= 10 && SilentSince(ts, n - 10, n)
  }

  ghost predicate NotPausedBefore(ts: Ticks, n: nat) {
    forall i :: 0 <= i < n ==> !Paused(ts, i)
  }

  /** Nothing before tick n makes the pump stop. */
  ghost predicate Running(ts: Ticks, n: nat) {
    Alive(ts, n) && NotReadyBefore(ts, n) && NotPausedBefore(ts, n)
  }

  /** The reply is complete after n ticks, or the engine has gone quiet. */
  ghost predicate Stops(ts: Ticks, n: nat) {
    Ready(Gathered(ts, n)) || Paused(ts, n)
  }

  /** What holds after i ticks, exactly the last `idle` of them silent, while the pump still runs. */
  ghost predicate Stage(ts: Ticks, i: nat, idle: nat) {
    && idle <= 10 && idle <= i && i <= 10 * Deliveries(ts, i) + idle
    && Running(ts, i) && SilentSince(ts, i - idle, i)
    && (idle < i ==> Delivered(ts, i - idle - 1) != [])
  }

  /** Ten silent ticks are what the counter counts. */
  lemma StagePaused(ts: Ticks, i: nat, idle: nat)
    requires Stage(ts, i, idle)
    ensures idle <= 10
    ensures Paused(ts, i) <==> idle == 10
  {
    hide Delivered, Deliveries, Running;
  }

  lemma SilentTick(ts: Ticks, i: nat)
    ensures i >= |ts| ==> Drained(TickAt(ts, i)) == Some([])
    ensures Gathered(ts, i + 1) == Gathered(ts, i) + Delivered(ts, i)
    ensures Drained(TickAt(ts, i)).Some? ==> Drained(TickAt(ts, i)) == Some(Delivered(ts, i))
  {
    hide Ready;
    Quiet();
  }

  lemma Quiet()
    ensures Drained(SILENT) == Some([])
  {
    var t := SILENT;
    assert FromChannel(t) == Some([]);
    assert FromFile(t) == [];
    assert FromChannel(t).value + FromFile(t) == [];
  }

  lemma StageStep(ts: Ticks, i: nat, idle: nat)
    requires Stage(ts, i, idle) && !Stops(ts, i) && Drained(TickAt(ts, i)).Some?
    ensures idle < 10 && Stage(ts, i + 1, if Delivered(ts, i) == [] then idle + 1 else 0)
  {
    hide Ready, Drained, Gathered, Delivered, Running, SilentSince;
    StagePaused(ts, i, idle);
    OneMore(ts, i, i - idle);
  }

  lemma OneMore(ts: Ticks, i: nat, from: nat)
    requires Running(ts, i) && SilentSince(ts, from, i)
    requires !Stops(ts, i) && Drained(TickAt(ts, i)).Some?
    ensures Running(ts, i + 1) && SilentSince(ts, i + 1, i + 1)
    ensures Delivered(ts, i) == [] ==> SilentSince(ts, from, i + 1)
  {
    hide Ready, Drained, Gathered, Delivered, Paused;
  }

  /** How the pump ends, told by the ticks alone. */
  ghost predicate Finished(ts: Ticks, r: Outcome) {
    match r
    case Replied(bytes, n) =>
      && Running(ts, n) && Stops(ts, n)
      && bytes == Gathered(ts, n) && n <= 10 * (Deliveries(ts, n) + 1)
    case Died(n) =>
      n > 0 && Running(ts, n - 1) && !Stops(ts, n - 1) && Drained(TickAt(ts, n - 1)).None?
  }

  lemma {:induction false} PumpedFrom(ts: Ticks, i: nat, idle: nat)
    requires Stage(ts, i, idle)
    ensures Finished(ts, Pumped(ts, i, idle, Gathered(ts, i)))
    decreases if i < |ts| then |ts| - i else 0, 10 - idle
  {
    hide Ready, Drained, Delivered, Gathered, Running, Paused, Deliveries, SilentSince;
    StagePaused(ts, i, idle);
    if !Stops(ts, i) {
      SilentTick(ts, i);
      if Drained(TickAt(ts, i)).Some? {
        StageStep(ts, i, idle);
        PumpedFrom(ts, i + 1, if Delivered(ts, i) == [] then idle + 1 else 0);
      }
    }
  }

  lemma PumpedEnds(ts: Ticks)
    ensures Finished(ts, Pumped(ts, 0, 0, []))
  {
    assert Stage(ts, 0, 0);
    PumpedFrom(ts, 0, 0);
  }

  /** There is only one tick at which the pump can end. */
  lemma OneEnd(ts: Ticks, n: nat, m: nat)
    requires Running(ts, n) && (Stops(ts, n) || Drained(TickAt(ts, n)).None?)
    requires Running(ts, m) && (Stops(ts, m) || Drained(TickAt(ts, m)).None?)
    ensures n == m
  {
    hide Ready, Drained, Gathered, Paused;
  }

  /**
   The pump replies after n ticks exactly if that is where the reply is complete or the engine
   has been silent for ten ticks, neither having been so before, and no call has trapped. The
   reply is then everything delivered so far. That takes at most ten ticks for every delivery
   and ten more.
   */
  lemma PumpedReplyIff(ts: Ticks, n: nat)
    ensures Pumped(ts, 0, 0, []) == Replied(Gathered(ts, n), n) <==> Running(ts, n) && Stops(ts, n)
    ensures Running(ts, n) && Stops(ts, n) ==> n <= 10 * (Deliveries(ts, n) + 1)
  {
    hide Pumped, Running, Stops, Drained, Gathered, Deliveries;
    PumpedEnds(ts);
    if Running(ts, n) && Stops(ts, n) {
      var r := Pumped(ts, 0, 0, []);
      OneEnd(ts, n, if r.Died? then r.ticks - 1 else r.ticks);
    }
  }

  /** The pump dies in tick n exactly if a call traps there, with nothing before it to stop the pump. */
  lemma PumpedDiesIff(ts: Ticks, n: nat)
    ensures Pumped(ts, 0, 0, []) == Died(n + 1) <==>
              Running(ts, n) && !Stops(ts, n) && Drained(TickAt(ts, n)).None?
  {
    hide Pumped, Running, Stops, Drained, Gathered, Deliveries;
    PumpedEnds(ts);
    if Running(ts, n) && !Stops(ts, n) && Drained(TickAt(ts, n)).None? {
      var r := Pumped(ts, 0, 0, []);
      OneEnd(ts, n, if r.Died? then r.ticks - 1 else r.ticks);
    }
  }

  // ---------- told by what the guest calls did ----------

  /**
   A tick kills the engine exactly if a call of it traps, where the channel is asked for only if
   it holds something; a call that leaves through proc_exit does not. Otherwise it delivers what
   lies in the channel, if that is inside guest memory, and then the spill file, all of it.
   */
  lemma TickTells(t: Tick)
    requires TickOk(t)
    ensures Drained(t).None? <==>
              t.one.Trapped? || t.flush.Trapped? || t.read.Trapped? ||
              (t.read.Returned? && t.read.value > 0 && (t.channel.Trapped? || t.reset.Trapped?))
    ensures Drained(t).Some? ==>
              Drained(t).value ==
              (if t.read.Returned? && t.read.value > 0 && t.channel.Returned? && 0 < t.channel.value < 0x8000_0000
                  && t.channel.value + t.read.value <= |t.mem|
               then t.mem[t.channel.value..t.channel.value + t.read.value] else [])
              + (match t.file
                 case Some(spilled) => spilled
                 case None => [])
  {
  }

  /** A tick in which every call returns and the channel lies in memory loses nothing. */
  lemma CleanTick(t: Tick)
    requires TickOk(t) && t.one.Returned? && t.flush.Returned?
    requires t.read.Returned? && t.channel.Returned? && t.reset.Returned?
    requires t.read.value > 0 ==> 0 < t.channel.value < 0x8000_0000 && t.channel.value + t.read.value <= |t.mem|
    ensures var channel := if t.read.value == 0 then [] else t.mem[t.channel.value..t.channel.value + t.read.value];
            && (forall spilled :: t.file == Some(spilled) ==> Drained(t) == Some(channel + spilled))
            && (t.file == None ==> Drained(t) == Some(channel))
  {
    hide Drained;
    TickTells(t);
    var channel := if t.read.value == 0 then [] else t.mem[t.channel.value..t.channel.value + t.read.value];
    assert channel + [] == channel;
  }

  function Parts(ts: Ticks, n: nat): (parts: seq<seq<Byte>>)
    ensures |parts| == n && forall i :: 0 <= i < n ==> parts[i] == Delivered(ts, i)
  {
    if n == 0 then [] else Parts(ts, n - 1) + [Delivered(ts, n - 1)]
  }

  lemma {:induction false} PartsGather(ts: Ticks, n: nat)
    ensures Flatten(Parts(ts, n)) == Gathered(ts, n)
  {
    hide Delivered, Flatten;
    if n == 0 {
      NothingGathered(ts);
    } else {
      PartsGather(ts, n - 1);
      FlattenSnoc(Parts(ts, n - 1), Delivered(ts, n - 1));
    }
  }

  lemma NothingGathered(ts: Ticks)
    ensures Gathered(ts, 0) == [] && Flatten(Parts(ts, 0)) == []
  {
  }

  lemma PartTold(ts: Ticks, i: nat)
    requires Drained(TickAt(ts, i)).Some?
    ensures Delivered(ts, i) ==
            if i >= |ts| then []
            else
              (if ts[i].read.Returned? && ts[i].read.value > 0
                  && ts[i].channel.Returned? && 0 < ts[i].channel.value < 0x8000_0000
                  && ts[i].channel.value + ts[i].read.value <= |ts[i].mem|
               then ts[i].mem[ts[i].channel.value..ts[i].channel.value + ts[i].read.value] else [])
              + (match ts[i].file
                 case Some(spilled) => spilled
                 case None => [])
  {
    hide Drained;
    SilentTick(ts, i);
    if i < |ts| {
      TickTells(ts[i]);
    }
  }

  /** What was gathered is, tick by tick, channel bytes and then spilled bytes. */
  lemma GatheredTold(ts: Ticks, n: nat)
    requires Alive(ts, n)
    ensures exists parts: seq<seq<Byte>> ::
              && |parts| == n && Gathered(ts, n) == Flatten(parts)
              && forall i :: 0 <= i < n ==>
                   parts[i] ==
                   if i >= |ts| then []
                   else
                     (if ts[i].read.Returned? && ts[i].read.value > 0
                         && ts[i].channel.Returned? && 0 < ts[i].channel.value < 0x8000_0000
                         && ts[i].channel.value + ts[i].read.value <= |ts[i].mem|
                      then ts[i].mem[ts[i].channel.value..ts[i].channel.value + ts[i].read.value] else [])
                     + (match ts[i].file
                        case Some(spilled) => spilled
                        case None => [])
  {
    hide Drained, Delivered, Gathered, Flatten;
    PartsGather(ts, n);
    var parts := Parts(ts, n);
    forall i | 0 <= i < n ensures parts[i] == Delivered(ts, i) && Drained(TickAt(ts, i)).Some? {
    }
    forall i | 0 <= i < n
      ensures parts[i] ==
              if i >= |ts| then []
              else
                (if ts[i].read.Returned? && ts[i].read.value > 0
                    && ts[i].channel.Returned? && 0 < ts[i].channel.value < 0x8000_0000
                    && ts[i].channel.value + ts[i].read.value <= |ts[i].mem|
                 then ts[i].mem[ts[i].channel.value..ts[i].channel.value + ts[i].read.value] else [])
                + (match ts[i].file
                   case Some(spilled) => spilled
                   case None => [])
    {
      PartTold(ts, i);
    }
  }

  /**
   A ReadyForQuery that comes with the spill file ends the pump in that tick, though the channel
   stayed empty.
   */
  lemma SpilledReadyEnds(ts: Ticks, n: nat, spilled: seq<Byte>)
    requires n < |ts| && Running(ts, n) && !Stops(ts, n)
    requires ts[n].one.Returned? && ts[n].flush.Returned? && ts[n].read == Returned(0) && ts[n].file == Some(spilled)
    requires exists i :: 0 <= i < |Frames(Gathered(ts, n) + spilled)| && Frames(Gathered(ts, n) + spilled)[i].kind == 90
    ensures Pumped(ts, 0, 0, []) == Replied(Gathered(ts, n) + spilled, n + 1)
  {
    hide Drained, Pumped, Frames, Paused, Alive, NotReadyBefore, NotPausedBefore;
    TickTells(ts[n]);
    assert [] + spilled == spilled;
    SilentTick(ts, n);
    NextRunning(ts, n);
    PumpedReplyIff(ts, n + 1);
  }

  lemma NextRunning(ts: Ticks, n: nat)
    requires Running(ts, n) && !Stops(ts, n) && Drained(TickAt(ts, n)).Some?
    ensures Running(ts, n + 1)
  {
    hide Drained, Ready, Gathered, Paused;
  }

  /** An engine that does nothing is given ten ticks, and its reply is empty. */
  lemma TenSilentTicks()
    ensures Pumped([], 0, 0, []) == Replied([], 10)
  {
    hide Drained, Frames;
    var ts: Ticks := [];
    NothingReady();
    forall i: nat ensures Drained(TickAt(ts, i)) == Some([]) {
      SilentTick(ts, i);
    }
    var none: seq<Byte> := [];
    assert none + none == none;
    assert Pumped(ts, 9, 9, []) == Pumped(ts, 10, 10, []) == Replied([], 10);
    assert Pumped(ts, 7, 7, []) == Pumped(ts, 8, 8, []) == Pumped(ts, 9, 9, []);
    assert Pumped(ts, 5, 5, []) == Pumped(ts, 6, 6, []) == Pumped(ts, 7, 7, []);
    assert Pumped(ts, 3, 3, []) == Pumped(ts, 4, 4, []) == Pumped(ts, 5, 5, []);
    assert Pumped(ts, 1, 1, []) == Pumped(ts, 2, 2, []) == Pumped(ts, 3, 3, []);
    assert Pumped(ts, 0, 0, []) == Pumped(ts, 1, 1, []);
  }

  lemma NothingReady()
    ensures !Ready([])
  {
  }

  // ---------- the guest calls made ----------

  /** Publish carries guest memory as the engine finds it, and the size of the request in it. */
  datatype GuestCall =
    | Start | InitDb | Backend
    | UseWire | Publish(mem: seq<Byte>, size: nat)
    | One | Flush | Read | Channel | Reset

  function TickCalls(t: Tick): seq<GuestCall> {
    if t.one.Trapped? then [One] else [One, Flush] + if t.flush.Trapped? then [] else DrainCalls(t)
  }

  function DrainCalls(t: Tick): seq<GuestCall> {
    if !(t.read.Returned? && t.read.value > 0) then [Read]
    else if t.channel.Trapped? then [Read, Channel]
    else [Read, Channel, Reset]
  }

  function TicksCalls(ts: Ticks, n: nat): seq<GuestCall> {
    if n == 0 then [] else TicksCalls(ts, n - 1) + TickCalls(TickAt(ts, n - 1))
  }

  /**
   The calls of a tick: the engine takes one step and flushes; if the channel then holds something
   it is asked where, and reset, so that nothing is collected twice. A trap is the last call.
   */
  lemma CallsTold(t: Tick)
    ensures t.one.Trapped? ==> TickCalls(t) == [One]
    ensures !t.one.Trapped? && t.flush.Trapped? ==> TickCalls(t) == [One, Flush]
    ensures !t.one.Trapped? && !t.flush.Trapped? && !(t.read.Returned? && t.read.value > 0) ==>
              TickCalls(t) == [One, Flush, Read]
    ensures !t.one.Trapped? && !t.flush.Trapped? && t.read.Returned? && t.read.value > 0 ==>
              TickCalls(t) == if t.channel.Trapped? then [One, Flush, Read, Channel]
                              else [One, Flush, Read, Channel, Reset]
  {
  }
}
