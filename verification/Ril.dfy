/** The wake lock, the timed callbacks and the event loop of the daemon, over the linked lists of `EventLoops`. */
module Ril {
  import opened Options
  import opened RilVersions
  import opened Timevals
  import opened RilEvents
  import TQ = TimerQueue
  import WL = WakeLock
  import opened WatchTables
  import opened EventLoops

  const TIMEVAL_WAKE_TIMEOUT := Timeval(0, 200000)

  function KindOf(func: Callback): TQ.Kind {
    match func
    case WatchCallback => TQ.Watch
    case UserTimerCallback(callback) => if callback == WakeTimeoutCallback then TQ.WakeTimeout else TQ.UserTimer
  }

  function Interval(relativeTime: Option<Timeval>): int {
    if relativeTime.Some? then relativeTime.value.Micros() else 0
  }

  class Daemon {
    const version: int
    const loop: EventLoop
    var clock: int
    var held: bool
    var wakelockCount: int
    var last: RilEvent?

    ghost const start: int
    /** The steps taken so far; the fields show the state that these steps lead to. */
    ghost var trace: WL.Trace<RilEvent>

    /** The linked structures are sound. */
    ghost predicate Linked()
      reads loop`timers, loop`pending, loop`nodes, loop.nodes`next, loop.nodes`prev, loop.nodes`fd, loop.nodes`timeout
      reads loop.watch, loop.watch.slots, loop.watch.events`fd, loop.watch.events`index, loop.watch.events`persist
    {
      loop.Valid() && loop.watch.Valid() && loop.watch.events <= loop.nodes
    }

    /** A listed record does what its flight says, and a wake timeout is cancelled iff its parameter is set. */
    ghost predicate Bound(f: Flight, poked: set<RilEvent>)
      reads loop`nodes, loop.nodes`func, loop.nodes`param
    {
      f.ev in loop.nodes && f.kind == KindOf(f.ev.func) &&
      (f.kind == TQ.WakeTimeout ==> (f.ev in poked <==> f.ev.param != 0))
    }

    ghost predicate AllBound(fs: seq<Flight>, poked: set<RilEvent>)
      reads loop`nodes, loop.nodes`func, loop.nodes`param
    {
      forall i | 0 <= i < |fs| :: Bound(fs[i], poked)
    }

    /** The lists are those of `s`, and every record on them does what its flight says. */
    ghost predicate Lists(s: WL.State<RilEvent>)
      reads loop`timers, loop`pending, loop`nodes, loop.nodes`func, loop.nodes`param
    {
      s.timers == loop.timers && s.pending == loop.pending &&
      AllBound(loop.timers, s.poked) && AllBound(loop.pending, s.poked)
    }

    ghost function Latest(): Option<RilEvent>
      reads this`last
    {
      if last == null then None else Some(last)
    }

    /** The counter, the lock and the latest timer are those of `s`. */
    ghost predicate Scalars(s: WL.State<RilEvent>)
      reads this`held, this`wakelockCount, this`last, loop`nodes, loop.nodes`func
    {
      && s.held == held && s.count == wakelockCount && s.last == Latest()
      && (last != null ==> last in loop.nodes && last.func == UserTimerCallback(WakeTimeoutCallback))
    }

    ghost predicate WatchKnown()
      reads loop.watch`events, loop.watch.events`func
    {
      forall ev | ev in loop.watch.events :: ev.func == WatchCallback
    }

    ghost predicate Shows(r: WL.Run<RilEvent>)
      reads this`clock, this`held, this`wakelockCount, this`last, loop`timers, loop`pending
      reads loop`nodes, loop.nodes`func, loop.nodes`param, loop.watch`events, loop.watch.events`func
    {
      r.clock <= clock && Lists(r.s) && Scalars(r.s) && WatchKnown()
    }

    ghost function Now(): WL.Run<RilEvent>
      reads this`trace
      requires WL.Legal(version, WL.Init(start), trace)
    {
      WL.Exec(version, WL.Init(start), trace)
    }

    /** The fields show where the trace has led. */
    ghost predicate Follows()
      reads this, loop`timers, loop`pending, loop`nodes
      reads loop.nodes`func, loop.nodes`param, loop.watch`events, loop.watch.events`func
    {
      WL.Legal(version, WL.Init(start), trace) && Shows(Now())
    }

    ghost predicate Valid()
      reads this, loop, loop.nodes, loop.watch, loop.watch.slots, loop.watch.events
    {
      Linked() && Follows()
    }

    constructor (version: int, clock: int)
      ensures Valid() && this.version == version && trace == WL.Start && !held
      ensures loop.watch.events == {} && fresh(loop) && fresh(loop.nodes) && fresh(loop.watch)
      ensures fresh(loop.watch.slots)
    {
      this.version, this.clock, start := version, clock, clock;
      loop := new EventLoop();
      held, wakelockCount, last := false, 0, null;
      trace := WL.Start;
    }

    /** The monotone clock: any amount of time may have passed since it was read last. */
    method GetNow() returns (now: Timeval)
      modifies this`clock
      ensures clock >= old(clock)
      ensures now.Normal() && now.Micros() == clock
    {
      var passed :| 0 <= passed;
      clock := clock + passed;
      now := Timeval(clock / USEC_PER_SEC, clock % USEC_PER_SEC);
    }

    // ---------------------------------------------------------------- steps

    ghost function NextStep(step: WL.Step<RilEvent>): WL.Run<RilEvent>
      reads this`trace
      requires WL.Legal(version, WL.Init(start), trace) && WL.Enabled(Now(), step)
    {
      WL.Next(version, Now(), step)
    }

    /** Records a step whose outcome the fields already show. */
    ghost method Took(step: WL.Step<RilEvent>)
      requires WL.Legal(version, WL.Init(start), trace) && WL.Enabled(Now(), step) && Shows(NextStep(step))
      modifies this`trace
      ensures Follows() && trace == WL.Then(old(trace), step) && Now() == old(NextStep(step))
    {
      trace := WL.Then(trace, step);
    }

    /** After a record joined or left, or was cleared, whatever else is listed stays bound. */
    lemma BoundLess(fs: seq<Flight>, poked: set<RilEvent>, ev: RilEvent)
      requires AllBound(fs, poked) && forall i | 0 <= i < |fs| :: fs[i].ev != ev
      ensures AllBound(fs, poked - {ev})
    {
      forall i | 0 <= i < |fs| ensures Bound(fs[i], poked - {ev}) {
        assert Bound(fs[i], poked);
      }
    }

    lemma BoundInsert(fs: seq<Flight>, f: Flight, poked: set<RilEvent>)
      requires AllBound(fs, poked) && Bound(f, poked)
      ensures AllBound(TQ.Insert(fs, f), poked)
    {
      var r := TQ.Insert(fs, f);
      TQ.InsertMembers(fs, f);
      forall i | 0 <= i < |r| ensures Bound(r[i], poked) {
        assert r[i] in r;
      }
    }

    // ---------------------------------------------------------------- timers and the wake lock

    /** `f` has just been scheduled; the trace does not know of it yet. */
    ghost predicate Registered(f: Flight)
      reads this, loop, loop.nodes, loop.watch, loop.watch.slots, loop.watch.events
    {
      && Linked() && WL.Legal(version, WL.Init(start), trace) && f.ev in loop.nodes
      && Now().clock <= clock && !WL.InFlight(Now().s, f.ev)
      && loop.timers == TQ.Insert(Now().s.timers, f) && loop.pending == Now().s.pending
      && AllBound(loop.timers, Now().s.poked - {f.ev}) && AllBound(loop.pending, Now().s.poked - {f.ev})
      && Scalars(Now().s) && WatchKnown()
    }

    /** A cleared record, scheduled `relativeTime` from now. */
    method ScheduleNew(callback: TimedCallback, param: int, relativeTime: Timeval)
      returns (info: RilEvent, ghost f: Flight)
      requires Linked() && relativeTime.Normal()
      modifies this`clock, loop`timers, loop`nodes, loop.nodes`next, loop.nodes`prev
      ensures Linked() && clock >= old(clock) && fresh(info) && loop.nodes == old(loop.nodes) + {info}
      ensures info.func == UserTimerCallback(callback) && info.param == param
      ensures f == TQ.Flight(info, clock + relativeTime.Micros(), KindOf(info.func))
      ensures loop.timers == TQ.Insert(old(loop.timers), f)
    {
      info := new RilEvent(-1, false, UserTimerCallback(callback), param);
      var now := GetNow();
      f := TQ.Flight(info, clock + relativeTime.Micros(), KindOf(info.func));
      loop.TimerAdd(info, Some(relativeTime), now, f);
    }

    /** The same, and what was listed before stays bound. */
    method ScheduleBound(callback: TimedCallback, param: int, relativeTime: Timeval, ghost poked: set<RilEvent>)
      returns (info: RilEvent, ghost f: Flight)
      requires Linked() && relativeTime.Normal() && (callback == WakeTimeoutCallback ==> param == 0)
      requires AllBound(loop.timers, poked) && AllBound(loop.pending, poked)
      modifies this`clock, loop`timers, loop`nodes, loop.nodes`next, loop.nodes`prev
      ensures Linked() && clock >= old(clock) && fresh(info) && loop.nodes == old(loop.nodes) + {info}
      ensures info.func == UserTimerCallback(callback) && info.param == param
      ensures f == TQ.Flight(info, clock + relativeTime.Micros(), KindOf(info.func))
      ensures loop.timers == TQ.Insert(old(loop.timers), f)
      ensures AllBound(loop.timers, poked - {info}) && AllBound(loop.pending, poked - {info})
    {
      info, f := ScheduleNew(callback, param, relativeTime);
      forall i | 0 <= i < |old(loop.timers)| ensures Bound(old(loop.timers)[i], poked - {info}) {
        assert old(Bound(loop.timers[i], poked));
      }
      forall i | 0 <= i < |loop.pending| ensures Bound(loop.pending[i], poked - {info}) {
        assert old(Bound(loop.pending[i], poked));
      }
      BoundInsert(old(loop.timers), f, poked - {info});
    }

    /** `internalRequestTimedCallback`, for a relative time or none, which counts as zero. */
    method InternalRequestTimedCallback(callback: TimedCallback, param: int, relativeTime: Option<Timeval>)
      returns (info: RilEvent, ghost f: Flight)
      requires Valid() && (relativeTime.Some? ==> relativeTime.value.Normal())
      requires callback == WakeTimeoutCallback ==> param == 0
      modifies this`clock, loop`timers, loop`nodes, loop.nodes`next, loop.nodes`prev
      ensures Registered(f) && fresh(loop.nodes - old(loop.nodes)) && clock >= old(clock)
      ensures fresh(info) && info.func == UserTimerCallback(callback) && info.param == param
      ensures f == TQ.Flight(info, clock + Interval(relativeTime), KindOf(info.func))
    {
      var myRelativeTime := if relativeTime.Some? then relativeTime.value else ZERO;
      info, f := ScheduleBound(callback, param, myRelativeTime, Now().s.poked);
    }

    /** `RIL_requestTimedCallback`. */
    method RequestTimedCallback(param: int, relativeTime: Option<Timeval>)
      requires Valid() && (relativeTime.Some? ==> relativeTime.value.Normal())
      modifies this`clock, this`trace, loop`timers, loop`nodes, loop.nodes`next, loop.nodes`prev
      ensures Valid() && fresh(loop.nodes - old(loop.nodes))
      ensures clock >= old(clock) && trace.Then? && trace.before == old(trace)
      ensures trace.step.AddTimer? && trace.step.now == clock
      ensures relativeTime.None? ==> trace.step.interval == 0
      ensures relativeTime.Some? ==> trace.step.interval == relativeTime.value.sec * 1000000 + relativeTime.value.usec
      ensures fresh(trace.step.ev) && trace.step.ev.param == param
      ensures trace.step.ev.func == UserTimerCallback(ClientCallback)
    {
      var info, f := InternalRequestTimedCallback(ClientCallback, param, relativeTime);
      TookTimer(f, Interval(relativeTime));
    }

    ghost method TookTimer(f: Flight, interval: int)
      requires Registered(f) && f == TQ.Flight(f.ev, clock + interval, TQ.UserTimer)
      modifies this`trace
      ensures Valid() && trace == WL.Then(old(trace), WL.AddTimer(f.ev, clock, interval))
    {
      Took(WL.AddTimer(f.ev, clock, interval));
    }

    /** Cancels the latest wake timeout, if any, through its userParam. */
    method PokeLatest(ghost fs: seq<Flight>, ghost gs: seq<Flight>, ghost poked: set<RilEvent>)
      requires AllBound(fs, poked) && AllBound(gs, poked) && Linked()
      requires last != null ==> last in loop.nodes
      modifies loop.nodes`param
      ensures Linked() && AllBound(fs, WL.Poke(poked, Latest())) && AllBound(gs, WL.Poke(poked, Latest()))
    {
      if last != null {
        last.param := 1;
        ghost var now := WL.Poke(poked, Latest());
        forall i | 0 <= i < |fs| ensures Bound(fs[i], now) {
          assert old(Bound(fs[i], poked));
        }
        forall i | 0 <= i < |gs| ensures Bound(gs[i], now) {
          assert old(Bound(gs[i], poked));
        }
      }
    }

    /** `grabPartialWakeLock`, allocation succeeding. */
    method GrabPartialWakeLock()
      requires Valid()
      modifies this`clock, this`held, this`wakelockCount, this`last, this`trace
      modifies loop`timers, loop`nodes, loop.nodes`next, loop.nodes`prev, loop.nodes`param
      ensures Valid() && fresh(loop.nodes - old(loop.nodes)) && clock >= old(clock)
      ensures trace.Then? && trace.before == old(trace) && trace.step.Grab? && trace.step.now == clock
      ensures held && wakelockCount == old(wakelockCount) + if version >= ACK_VERSION then 1 else 0
    {
      if version >= ACK_VERSION {
        var info, f := InternalRequestTimedCallback(WakeTimeoutCallback, 0, Some(TIMEVAL_WAKE_TIMEOUT));
        CountGrab(info, f);
      } else {
        GrabUncounted();
      }
    }

    /** What grabPartialWakeLock does, under its mutex, besides scheduling the timer. */
    method CountGrab(info: RilEvent, ghost f: Flight)
      requires version >= ACK_VERSION && Registered(f) && info.func == UserTimerCallback(WakeTimeoutCallback)
      requires f == TQ.Flight(info, clock + WL.WAKE_TIMEOUT, TQ.WakeTimeout)
      modifies this`held, this`wakelockCount, this`last, this`trace, loop.nodes`param
      ensures Valid() && trace == WL.Then(old(trace), WL.Grab(info, clock))
      ensures held && wakelockCount == old(wakelockCount) + 1
    {
      PokeLatest(loop.timers, loop.pending, Now().s.poked - {info});
      SetLatest(info, f);
    }

    method SetLatest(info: RilEvent, ghost f: Flight)
      requires version >= ACK_VERSION && WL.Legal(version, WL.Init(start), trace)
      requires info in loop.nodes && info.func == UserTimerCallback(WakeTimeoutCallback)
      requires f == TQ.Flight(info, clock + WL.WAKE_TIMEOUT, TQ.WakeTimeout) && Now().clock <= clock
      requires !WL.InFlight(Now().s, info)
      requires loop.timers == TQ.Insert(Now().s.timers, f) && loop.pending == Now().s.pending
      requires AllBound(loop.timers, WL.Poke(Now().s.poked - {info}, Latest()))
      requires AllBound(loop.pending, WL.Poke(Now().s.poked - {info}, Latest()))
      requires Scalars(Now().s) && WatchKnown()
      modifies this`held, this`wakelockCount, this`last, this`trace
      ensures Follows() && trace == WL.Then(old(trace), WL.Grab(info, clock))
      ensures held && wakelockCount == old(wakelockCount) + 1
    {
      ghost var s := Now().s;
      WL.LatestFields(s.(held := true, count := s.count + 1), info, clock);
      held := true;
      wakelockCount := wakelockCount + 1;
      last := info;
      assert Lists(WL.AfterGrab(version, s, info, clock)) && Scalars(WL.AfterGrab(version, s, info, clock));
      Took(WL.Grab(info, clock));
    }

    method GrabUncounted()
      requires Valid() && version < ACK_VERSION
      modifies this`held, this`trace
      ensures held
      ensures Valid() && trace.Then? && trace.before == old(trace) && trace.step.Grab? && trace.step.now == clock
    {
      held := true;
      ghost var e := loop.timerList; // no record is involved, so any that is not listed stands for it
      assert forall i | 0 <= i < |loop.timers| :: Evs(loop.timers)[i] in Evs(loop.timers);
      assert forall i | 0 <= i < |loop.pending| :: Evs(loop.pending)[i] in Evs(loop.pending);
      assert !WL.InFlight(Now().s, e);
      Took(WL.Grab(e, clock));
    }

    /** The end of `RIL_onUnsolicitedResponse`: before ACK_VERSION a wake timeout is set here, allocation succeeding. */
    method SetLegacyTimeout()
      requires Valid()
      modifies this`clock, this`last, this`trace
      modifies loop`timers, loop`nodes, loop.nodes`next, loop.nodes`prev, loop.nodes`param
      ensures Valid() && fresh(loop.nodes - old(loop.nodes)) && clock >= old(clock)
      ensures version >= ACK_VERSION ==> trace == old(trace)
      ensures version < ACK_VERSION ==> trace.Then? && trace.before == old(trace)
      ensures version < ACK_VERSION ==> trace.step.SetTimeout? && trace.step.now == clock
    {
      if version < ACK_VERSION {
        var info, f := InternalRequestTimedCallback(WakeTimeoutCallback, 0, Some(TIMEVAL_WAKE_TIMEOUT));
        CancelAndKeep(info, f);
      }
    }

    /** The timeout before is cancelled, and this one kept. */
    method CancelAndKeep(info: RilEvent, ghost f: Flight)
      requires version < ACK_VERSION && Registered(f) && info.func == UserTimerCallback(WakeTimeoutCallback)
      requires f == TQ.Flight(info, clock + WL.WAKE_TIMEOUT, TQ.WakeTimeout)
      modifies this`last, this`trace, loop.nodes`param
      ensures Valid() && trace == WL.Then(old(trace), WL.SetTimeout(info, clock))
    {
      PokeLatest(loop.timers, loop.pending, Now().s.poked - {info});
      KeepLatest(info, f);
    }

    method KeepLatest(info: RilEvent, ghost f: Flight)
      requires version < ACK_VERSION && WL.Legal(version, WL.Init(start), trace)
      requires info in loop.nodes && info.func == UserTimerCallback(WakeTimeoutCallback)
      requires f == TQ.Flight(info, clock + WL.WAKE_TIMEOUT, TQ.WakeTimeout) && Now().clock <= clock
      requires !WL.InFlight(Now().s, info)
      requires loop.timers == TQ.Insert(Now().s.timers, f) && loop.pending == Now().s.pending
      requires AllBound(loop.timers, WL.Poke(Now().s.poked - {info}, Latest()))
      requires AllBound(loop.pending, WL.Poke(Now().s.poked - {info}, Latest()))
      requires Scalars(Now().s) && WatchKnown()
      modifies this`last, this`trace
      ensures Follows() && trace == WL.Then(old(trace), WL.SetTimeout(info, clock))
    {
      last := info;
      Took(WL.SetTimeout(info, clock));
    }

    /** The body of releaseWakeLock, for the state `s` that the fields show. */
    method DropLock(ghost s: WL.State<RilEvent>)
      requires Linked() && Lists(s) && Scalars(s)
      modifies this`held, this`wakelockCount, loop.nodes`param
      ensures Linked() && Lists(WL.AfterRelease(version, s)) && Scalars(WL.AfterRelease(version, s))
      ensures version >= ACK_VERSION ==>
        if old(wakelockCount) > 1 then wakelockCount == old(wakelockCount) - 1 && held == old(held)
        else wakelockCount == 0 && !held
      ensures version < ACK_VERSION ==> wakelockCount == old(wakelockCount) && !held
    {
      if version >= ACK_VERSION {
        if wakelockCount > 1 {
          wakelockCount := wakelockCount - 1;
        } else {
          wakelockCount := 0;
          held := false;
          PokeLatest(loop.timers, loop.pending, s.poked);
        }
      } else {
        held := false;
      }
    }

    /** `releaseWakeLock`. */
    method ReleaseWakeLock()
      requires Valid()
      modifies this`held, this`wakelockCount, this`trace, loop.nodes`param
      ensures Valid() && trace == WL.Then(old(trace), WL.Release)
      ensures version >= ACK_VERSION ==>
        if old(wakelockCount) > 1 then wakelockCount == old(wakelockCount) - 1 && held == old(held)
        else wakelockCount == 0 && !held
      ensures version < ACK_VERSION ==> wakelockCount == old(wakelockCount) && !held
    {
      DropLock(Now().s);
      Took(WL.Release);
    }

    /** `wakeTimeoutCallback`: a parameter other than NULL means that the timeout was cancelled. */
    method WakeTimeout(param: int, ghost s: WL.State<RilEvent>)
      requires Linked() && Lists(s) && Scalars(s)
      modifies this`held, this`wakelockCount, loop.nodes`param
      ensures Linked() && Lists(WL.AfterWakeTimeout(version, s, param != 0))
      ensures Scalars(WL.AfterWakeTimeout(version, s, param != 0))
      ensures param != 0 ==> wakelockCount == old(wakelockCount) && held == old(held)
      ensures param == 0 ==> !held && (version >= ACK_VERSION ==> wakelockCount == 0)
    {
      if version >= ACK_VERSION {
        if param == 0 {
          wakelockCount := 0;
          held := false;
        }
      } else {
        if param == 0 {
          DropLock(s);
        }
      }
    }

    // ---------------------------------------------------------------- firing

    /** The first pending record was just unlinked; the state `s` still has it. */
    ghost predicate Unlinked(f: Flight, s: WL.State<RilEvent>)
      reads this, loop, loop.nodes, loop.watch, loop.watch.slots, loop.watch.events
    {
      && Linked() && s.pending == [f] + loop.pending && s.timers == loop.timers && Bound(f, s.poked)
      && AllBound(loop.timers, s.poked - {f.ev}) && AllBound(loop.pending, s.poked - {f.ev})
      && Scalars(s) && WatchKnown()
    }

    method Unlink(ev: RilEvent, ghost f: Flight)
      requires Valid() && loop.pending != [] && f == loop.pending[0] && ev == f.ev
      modifies loop`pending, loop.nodes`next, loop.nodes`prev
      ensures Unlinked(f, Now().s) && loop.pending == old(loop.pending)[1..]
    {
      ghost var s := Now().s;
      loop.FirstPendingIsAlone();
      BoundLess(loop.timers, s.poked, ev);
      assert AllBound(loop.pending[1..], s.poked);
      BoundLess(loop.pending[1..], s.poked, ev);
      assert Bound(f, s.poked);
      loop.TakeFirst(ev);
    }

    /** Exactly this record was fired, in the same pass. */
    ghost predicate Fires(f: Flight, was: WL.Run<RilEvent>, now: WL.Run<RilEvent>) {
      now.reading == was.reading && now.fired == was.fired + [WL.Firing(f, was.reading)]
    }

    /** Nothing was fired, and no pass began. */
    ghost predicate Idle(was: WL.Run<RilEvent>, now: WL.Run<RilEvent>) {
      now.reading == was.reading && now.fired == was.fired
    }

    /** userTimerCallback for a wake timeout: run it, then forget it if it is the latest. */
    method WakeFired(info: RilEvent, ghost f: Flight)
      requires WL.Legal(version, WL.Init(start), trace) && Unlinked(f, Now().s) && Now().clock <= clock
      requires info == f.ev && info.func == UserTimerCallback(WakeTimeoutCallback)
      modifies this`held, this`wakelockCount, this`last, this`trace, loop.nodes`param
      ensures Valid() && Fires(f, old(Now()), Now())
    {
      ghost var s := Now().s;
      ghost var s1 := s.(pending := loop.pending, poked := s.poked - {info});
      var userParam := info.param;
      WakeTimeout(userParam, s1);
      ForgetFired(info, f, s1, userParam != 0);
    }

    method ForgetFired(info: RilEvent, ghost f: Flight, ghost s1: WL.State<RilEvent>, ghost cancelled: bool)
      requires WL.Legal(version, WL.Init(start), trace) && Now().clock <= clock && WatchKnown()
      requires Now().s.pending == [f] + s1.pending
      requires s1 == Now().s.(pending := s1.pending, poked := Now().s.poked - {info})
      requires info == f.ev && f.kind == TQ.WakeTimeout && (cancelled <==> info in Now().s.poked)
      requires Lists(WL.AfterWakeTimeout(version, s1, cancelled))
      requires Scalars(WL.AfterWakeTimeout(version, s1, cancelled))
      modifies this`last, this`trace
      ensures Follows() && Fires(f, old(Now()), Now())
    {
      ghost var s := Now().s;
      FireIs(s, f, s1, cancelled);
      if last != null && last == info {
        last := null;
      }
      Took(WL.Fire);
    }

    lemma FireIs(s: WL.State<RilEvent>, f: Flight, s1: WL.State<RilEvent>, cancelled: bool)
      requires s.pending == [f] + s1.pending && s1 == s.(pending := s1.pending, poked := s.poked - {f.ev})
      requires f.kind == TQ.WakeTimeout && (cancelled <==> f.ev in s.poked)
      ensures var s2 := WL.AfterWakeTimeout(version, s1, cancelled);
        WL.AfterFire(version, s) == s2.(last := if s2.last == Some(f.ev) then None else s2.last)
    {
      assert s.pending[1..] == s1.pending;
    }

    // ---------------------------------------------------------------- watched descriptors

    /** `ril_event_set` and `ril_event_add` for a descriptor that is not watched yet. */
    method WatchNew(fd: int, persist: bool) returns (ev: RilEvent)
      requires Valid() && fd >= 0 && fd !in loop.watch.readFds
      modifies loop`nodes, loop.watch, loop.watch.slots
      ensures Valid() && fresh(ev) && loop.nodes == old(loop.nodes) + {ev}
      ensures loop.watch.events == old(loop.watch.events) + {ev}
      ensures Taken(old(loop.watch.table), loop.watch.table, ev.index, Used(ev, fd, persist))
    {
      ev := new RilEvent(fd, persist, WatchCallback, 0);
      Join(ev);
    }

    /** A record of a watched event that is not known yet. */
    method Join(ev: RilEvent)
      requires Valid() && ev !in loop.nodes && ev.func == WatchCallback
      requires ev.index == -1 && ev.fd >= 0 && ev.fd !in loop.watch.readFds
      modifies loop`nodes, loop.watch, loop.watch.slots, ev`index
      ensures Valid() && loop.nodes == old(loop.nodes) + {ev} && loop.watch.events == old(loop.watch.events) + {ev}
      ensures Taken(old(loop.watch.table), loop.watch.table, ev.index, Used(ev, ev.fd, ev.persist))
    {
      ghost var poked := Now().s.poked;
      loop.EventAdd(ev);
      forall i | 0 <= i < |loop.timers| ensures Bound(loop.timers[i], poked) {
        assert old(Bound(loop.timers[i], poked));
      }
      forall i | 0 <= i < |loop.pending| ensures Bound(loop.pending[i], poked) {
        assert old(Bound(loop.pending[i], poked));
      }
    }

    /** `ril_event_del`, for a record that was watched at some time. */
    method Unwatch(ev: RilEvent)
      requires Valid() && ev in loop.watch.events
      modifies loop.watch, loop.watch.slots, ev`index
      ensures Valid() && loop.watch.events == old(loop.watch.events)
      ensures if 0 <= old(ev.index) < MAX_FD_EVENTS
              then loop.watch.table == old(loop.watch.table)[old(ev.index) := Free] && ev.index == -1
              else loop.watch.table == old(loop.watch.table) && ev.index == old(ev.index)
    {
      loop.watch.Delete(ev);
    }

    /** `ril_event_add` again, for a record that has left the table. */
    method Rewatch(ev: RilEvent)
      requires Valid() && ev in loop.watch.events && ev.index == -1 && ev.fd >= 0 && ev.fd !in loop.watch.readFds
      modifies loop`nodes, loop.watch, loop.watch.slots, ev`index
      ensures Valid() && loop.nodes == old(loop.nodes) && loop.watch.events == old(loop.watch.events)
      ensures Taken(old(loop.watch.table), loop.watch.table, ev.index, Used(ev, ev.fd, ev.persist))
    {
      loop.EventAdd(ev);
      assert loop.nodes == old(loop.nodes) && loop.watch.events == old(loop.watch.events);
    }

    /** A descriptor is watched, or a watched one no longer, or once more. */
    method WatchCode()
      requires Valid()
      modifies loop`nodes, loop.watch, loop.watch.slots, loop.watch.events`index
      ensures Valid() && fresh(loop.nodes - old(loop.nodes)) && fresh(loop.watch.events - old(loop.watch.events))
    {
      var fd :| 0 <= fd;
      var i :| 0 <= i < MAX_FD_EVENTS;
      var persist, again: bool := *, *;
      var ev := loop.watch.slots[i];
      if ev == null {
        if fd !in loop.watch.readFds {
          var added := WatchNew(fd, persist);
        }
      } else {
        Unwatch(ev);
        if again && ev.index == -1 && ev.fd >= 0 && ev.fd !in loop.watch.readFds {
          Rewatch(ev);
        }
      }
    }

    /** One call of a callback or of another thread: on the wake lock, a timer or a watched event. */
    method ClientCall()
      requires Valid()
      modifies this`clock, this`held, this`wakelockCount, this`last, this`trace
      modifies loop`timers, loop`nodes, loop.nodes`next, loop.nodes`prev, loop.nodes`param
      modifies loop.watch, loop.watch.slots, loop.watch.events`index
      ensures Valid() && loop.pending == old(loop.pending) && Idle(old(Now()), Now())
      ensures fresh(loop.nodes - old(loop.nodes)) && fresh(loop.watch.events - old(loop.watch.events))
    {
      var which: int :| true;
      if which == 0 {
        GrabPartialWakeLock();
      } else if which == 1 {
        ReleaseWakeLock();
      } else if which == 2 {
        WatchCode();
      } else if which == 3 {
        SetLegacyTimeout();
      } else {
        var usec :| 0 <= usec < USEC_PER_SEC;
        var sec: int :| true;
        RequestTimedCallback(which, Some(Timeval(sec, usec)));
      }
    }

    /** Any number of such calls, in any order. */
    method ClientCode()
      requires Valid()
      modifies this`clock, this`held, this`wakelockCount, this`last, this`trace
      modifies loop`timers, loop`nodes, loop.nodes`next, loop.nodes`prev, loop.nodes`param
      modifies loop.watch, loop.watch.slots, loop.watch.events`index
      ensures Valid() && loop.pending == old(loop.pending) && Idle(old(Now()), Now())
      ensures fresh(loop.nodes - old(loop.nodes)) && fresh(loop.watch.events - old(loop.watch.events))
    {
      var calls :| 0 <= calls;
      while calls > 0
        invariant Valid() && loop.pending == old(loop.pending) && Idle(old(Now()), Now())
        invariant fresh(loop.nodes - old(loop.nodes)) && fresh(loop.watch.events - old(loop.watch.events))
      {
        ClientCall();
        calls := calls - 1;
      }
    }

    /** One turn of firePending, `userTimerCallback` included. */
    method FireFirst(ev: RilEvent)
      requires Valid() && loop.pending != [] && ev == loop.pending[0].ev
      modifies this`clock, this`held, this`wakelockCount, this`last, this`trace
      modifies loop`timers, loop`pending, loop`nodes, loop.nodes`next, loop.nodes`prev, loop.nodes`param
      modifies loop.watch, loop.watch.slots, loop.watch.events`index
      ensures Valid() && loop.pending == old(loop.pending)[1..]
      ensures fresh(loop.nodes - old(loop.nodes)) && fresh(loop.watch.events - old(loop.watch.events))
      ensures Fires(old(loop.pending)[0], old(Now()), Now())
    {
      ghost var f := loop.pending[0];
      Unlink(ev, f);
      if ev.func == UserTimerCallback(WakeTimeoutCallback) {
        WakeFired(ev, f);
      } else {
        ClientFired(ev, f);
      }
    }

    /** The latest wake timeout is never the record of another callback, so the check that forgets it never applies. */
    method ClientFired(ev: RilEvent, ghost f: Flight)
      requires WL.Legal(version, WL.Init(start), trace) && Unlinked(f, Now().s) && Now().clock <= clock
      requires ev == f.ev && ev.func != UserTimerCallback(WakeTimeoutCallback)
      modifies this`clock, this`held, this`wakelockCount, this`last, this`trace
      modifies loop`timers, loop`nodes, loop.nodes`next, loop.nodes`prev, loop.nodes`param
      modifies loop.watch, loop.watch.slots, loop.watch.events`index
      ensures Valid() && loop.pending == old(loop.pending) && Fires(f, old(Now()), Now())
      ensures fresh(loop.nodes - old(loop.nodes)) && fresh(loop.watch.events - old(loop.watch.events))
    {
      Took(WL.Fire);
      ClientCode();
      assert last != ev;
    }

    /** A turn of firePending, and what other threads do after it. */
    method FireTurn(ev: RilEvent)
      requires Valid() && loop.pending != [] && ev == loop.pending[0].ev
      modifies this`clock, this`held, this`wakelockCount, this`last, this`trace
      modifies loop`timers, loop`pending, loop`nodes, loop.nodes`next, loop.nodes`prev, loop.nodes`param
      modifies loop.watch, loop.watch.slots, loop.watch.events`index
      ensures Valid() && loop.pending == old(loop.pending)[1..] && Fires(old(loop.pending)[0], old(Now()), Now())
      ensures fresh(loop.nodes - old(loop.nodes)) && fresh(loop.watch.events - old(loop.watch.events))
    {
      FireFirst(ev);
      ClientCode();
    }

    /** `firePending`. */
    method FirePending()
      requires Valid()
      modifies this`clock, this`held, this`wakelockCount, this`last, this`trace
      modifies loop`timers, loop`pending, loop`nodes, loop.nodes`next, loop.nodes`prev, loop.nodes`param
      modifies loop.watch, loop.watch.slots, loop.watch.events`index
      ensures Valid() && loop.pending == [] && Now().reading == old(Now().reading)
      ensures Now().fired == old(Now().fired + WL.Fired(loop.pending, Now().reading))
      ensures fresh(loop.nodes - old(loop.nodes)) && fresh(loop.watch.events - old(loop.watch.events))
    {
      assert Link(loop.pendingList, Evs(loop.pending), -1);
      var ev := loop.pendingList.next;
      while ev != loop.pendingList
        invariant Valid() && Now().reading == old(Now().reading)
        invariant WL.Outcome(Now()) == old(WL.Outcome(Now()))
        invariant fresh(loop.nodes - old(loop.nodes)) && fresh(loop.watch.events - old(loop.watch.events))
        invariant ev == At(loop.pendingList, Evs(loop.pending), 0)
        decreases |loop.pending|
      {
        assert Link(loop.pendingList, Evs(loop.pending), 0);
        var next := ev.next;
        WL.FireOutcome(Now().fired, loop.pending, Now().reading);
        FireTurn(ev);
        ev := next;
      }
    }

    // ---------------------------------------------------------------- the loop

    lemma BoundSplit(fs: seq<Flight>, k: nat, poked: set<RilEvent>)
      requires AllBound(fs, poked) && k <= |fs|
      ensures AllBound(fs[..k], poked) && AllBound(fs[k..], poked)
    {
      assert forall i | 0 <= i < k :: fs[..k][i] == fs[i];
      assert forall i | 0 <= i < |fs| - k :: fs[k..][i] == fs[k + i];
    }

    method RunTimeouts(now: Timeval)
      requires Linked() && loop.pending == [] && now.Normal()
      modifies loop`timers, loop`pending, loop.nodes`next, loop.nodes`prev
      ensures Linked() && OnlyTimers(loop.pending)
      ensures loop.timers == old(loop.timers)[TQ.CountBelow(old(loop.timers), now.Micros())..]
      ensures loop.pending == old(loop.timers)[..TQ.CountBelow(old(loop.timers), now.Micros())]
    {
      ghost var expired := loop.timers[..TQ.CountBelow(loop.timers, now.Micros())];
      assert OnlyTimers(expired);
      assert [] + expired == expired;
      loop.ProcessTimeouts(now);
    }

    /** processTimeouts on the reading `now` of the clock. */
    method ExpireTimers(now: Timeval)
      requires Valid() && loop.pending == [] && now.Normal() && now.Micros() == clock
      modifies this`trace, loop`timers, loop`pending, loop.nodes`next, loop.nodes`prev
      ensures Valid() && Now().reading == clock && OnlyTimers(loop.pending) && Now().fired == old(Now().fired)
      ensures loop.pending == old(loop.timers)[..TQ.CountBelow(old(loop.timers), clock)]
    {
      ghost var fs, k := loop.timers, TQ.CountBelow(loop.timers, now.Micros());
      BoundSplit(fs, k, Now().s.poked);
      RunTimeouts(now);
      TookPass(fs, k);
    }

    ghost method TookPass(fs: seq<Flight>, k: nat)
      requires WL.Legal(version, WL.Init(start), trace) && Now().s.timers == fs && Now().s.pending == []
      requires Now().clock <= clock
      requires k == TQ.CountBelow(fs, clock) && loop.timers == fs[k..] && loop.pending == fs[..k]
      requires AllBound(fs[..k], Now().s.poked) && AllBound(fs[k..], Now().s.poked) && Scalars(Now().s) && WatchKnown()
      modifies this`trace
      ensures Follows() && Now().reading == clock && Now().fired == old(Now().fired)
    {
      assert [] + fs[..k] == fs[..k];
      Took(WL.BeginPass(clock));
    }

    /** processReadReadies for what select reported. */
    method QueueReadies(rfds: set<int>, n: int)
      requires Valid() && OnlyTimers(loop.pending)
      modifies this`trace, loop`pending, loop.nodes`next
      modifies loop.nodes`prev, loop.watch, loop.watch.slots, loop.watch.events`index
      ensures Valid() && Now().reading == old(Now().reading) && loop.watch.events == old(loop.watch.events)
      ensures trace == WL.Then(old(trace), WL.Ready(SweepFrom(old(loop.watch.table), rfds, n, 0, []).found))
      ensures Idle(old(Now()), Now())
      ensures var found := SweepFrom(old(loop.watch.table), rfds, n, 0, []).found;
        loop.pending == old(loop.pending) + TQ.Watched(found, Now().reading)
    {
      ghost var before, reading := loop.pending, Now().reading;
      ghost var found := SweepFrom(loop.watch.table, rfds, n, 0, []).found;
      FoundWatched(rfds, n);
      loop.ProcessReadReadies(rfds, n, reading);
      loop.AppendedAreNew(before, found, reading);
      TookReady(before, found);
    }

    lemma FoundWatched(rfds: set<int>, n: int)
      requires loop.watch.Valid()
      ensures forall ev | ev in SweepFrom(loop.watch.table, rfds, n, 0, []).found :: ev in loop.watch.events
    {
      ghost var t := loop.watch.table;
      assert forall j | 0 <= j < |t| && t[j].Used? :: t[j].ev in loop.watch.events;
      SweepFindsWatched(t, rfds, n, 0, [], loop.watch.events);
    }

    ghost method TookReady(before: seq<Flight>, found: seq<RilEvent>)
      requires WL.Legal(version, WL.Init(start), trace) && Now().s.timers == loop.timers && Now().s.pending == before
      requires Now().clock <= clock && loop.pending == before + TQ.Watched(found, Now().reading)
      requires forall i | 0 <= i < |found| :: found[i] in loop.nodes && found[i] in loop.watch.events
      requires forall i | 0 <= i < |found| :: !TQ.Holds(loop.timers, found[i]) && !TQ.Holds(before, found[i])
      requires forall i, j | 0 <= i < j < |found| :: found[i] != found[j]
      requires AllBound(loop.timers, Now().s.poked) && AllBound(before, Now().s.poked) && Scalars(Now().s)
      requires WatchKnown()
      modifies this`trace
      ensures Follows() && trace == WL.Then(old(trace), WL.Ready(found)) && Idle(old(Now()), Now())
    {
      Took(WL.Ready(found));
    }

    /** The first phase of a turn, and what other threads do after it, unless none gets between. */
    method ExpirePhase(alone: bool)
      requires Valid() && loop.pending == []
      modifies this`clock, this`held, this`wakelockCount, this`last, this`trace
      modifies loop`timers, loop`pending, loop`nodes, loop.nodes`next, loop.nodes`prev, loop.nodes`param
      modifies loop.watch, loop.watch.slots, loop.watch.events`index
      ensures Valid() && OnlyTimers(loop.pending) && Now().reading >= old(clock) && Now().fired == old(Now().fired)
      ensures loop.pending == old(loop.timers)[..TQ.CountBelow(old(loop.timers), Now().reading)]
      ensures fresh(loop.nodes - old(loop.nodes)) && fresh(loop.watch.events - old(loop.watch.events))
      ensures alone ==> loop.watch.table == old(loop.watch.table)
    {
      var now := GetNow();
      ExpireTimers(now);
      if !alone {
        ClientCode();
      }
    }

    /** The second phase, likewise. */
    method QueuePhase(rfds: set<int>, n: int)
      requires Valid() && OnlyTimers(loop.pending)
      modifies this`clock, this`held, this`wakelockCount, this`last, this`trace
      modifies loop`timers, loop`pending, loop`nodes, loop.nodes`next, loop.nodes`prev, loop.nodes`param
      modifies loop.watch, loop.watch.slots, loop.watch.events`index
      ensures Valid() && Idle(old(Now()), Now())
      ensures var found := SweepFrom(old(loop.watch.table), rfds, n, 0, []).found;
        loop.pending == old(loop.pending) + TQ.Watched(found, Now().reading)
      ensures fresh(loop.nodes - old(loop.nodes)) && fresh(loop.watch.events - old(loop.watch.events))
    {
      QueueReadies(rfds, n);
      ClientCode();
    }

    /** The theorems about every run, for the fields. */
    lemma NotHeldForLong()
      requires Valid() && version >= ACK_VERSION && loop.pending == []
      ensures wakelockCount == WL.Outstanding(version, start, trace) && (held <==> wakelockCount > 0)
      ensures WL.LastPass(start, trace) > WL.LastGrab(start, trace) + 200000 ==> !held
    {
      WL.CountIsOutstanding(version, start, trace);
      if WL.LastPass(start, trace) > WL.LastGrab(start, trace) + 200000 {
        WL.LockIsReleasedInTime(version, start, trace);
      }
    }

    /** The theorems about every run before ACK_VERSION, for the fields. */
    lemma LegacyNotHeldForLong()
      requires Valid() && version < ACK_VERSION && loop.pending == []
      ensures held <==> WL.GrabbedLast(version, start, trace)
      ensures WL.LastPass(start, trace) > WL.LastTimeout(start, trace) + 200000 && !WL.GrabPending(trace) ==> !held
    {
      WL.LegacyHeldIffGrabbedLast(version, start, trace);
      if WL.LastPass(start, trace) > WL.LastTimeout(start, trace) + 200000 && !WL.GrabPending(trace) {
        WL.LegacyLockIsReleasedInTime(version, start, trace);
      }
    }

    /**
      One turn of `ril_event_loop` after select has reported `n` descriptors `rfds`, with other threads at work
      between its phases and between the callbacks; `alone` if none gets between the first two phases. It fires
      exactly the timers that had expired at its reading, in order, and then what the scan of the table, as it was
      then, finds. Afterwards no record is pending, and the
      wake lock is not held unless it was grabbed within WAKE_TIMEOUT of the reading; before ACK_VERSION unless it
      was grabbed since the latest timeout was set, or that timeout was set within WAKE_TIMEOUT of the reading.
     */
    method LoopTurn(rfds: set<int>, n: int, alone: bool) returns (ghost table: seq<Slot<RilEvent>>)
      requires Valid() && loop.pending == []
      modifies this`clock, this`held, this`wakelockCount, this`last, this`trace
      modifies loop`timers, loop`pending, loop`nodes, loop.nodes`next, loop.nodes`prev, loop.nodes`param
      modifies loop.watch, loop.watch.slots, loop.watch.events`index
      ensures Valid() && loop.pending == [] && Now().reading >= old(clock) && Now().reading == WL.LastPass(start, trace)
      ensures var reading, found := Now().reading, SweepFrom(table, rfds, n, 0, []).found;
        var expired := old(loop.timers)[..TQ.CountBelow(old(loop.timers), reading)];
        Now().fired == old(Now().fired) + WL.Fired(expired + TQ.Watched(found, reading), reading)
      ensures alone ==> table == old(loop.watch.table)
      ensures version >= ACK_VERSION ==> wakelockCount == WL.Outstanding(version, start, trace)
      ensures version >= ACK_VERSION ==> (held <==> wakelockCount > 0)
      ensures version < ACK_VERSION ==> (held <==> WL.GrabbedLast(version, start, trace))
      ensures version >= ACK_VERSION && WL.LastPass(start, trace) > WL.LastGrab(start, trace) + 200000 ==> !held
      ensures version < ACK_VERSION && !WL.GrabPending(trace) ==>
        WL.LastPass(start, trace) > WL.LastTimeout(start, trace) + 200000 ==> !held
    {
      ExpirePhase(alone);
      table := loop.watch.table;
      QueuePhase(rfds, n);
      FirePending();
      WL.TimesAreTold(version, start, trace);
      if version >= ACK_VERSION {
        NotHeldForLong();
      } else {
        LegacyNotHeldForLong();
      }
    }
  }
}
