/**
  The wake lock of the radio daemon together with the event loop that times it out, as atomic steps:
  grabs and releases from any thread, timers scheduled by anybody, and the passes of the event loop.
  Event records are identified by values of type `E`; a record may be reused once it has been freed.
 */
module WakeLock {
  import opened Options
  import opened RilVersions
  import opened TimerQueue

  const WAKE_TIMEOUT := 200000

  /**
    held    - the kernel lock "radio-interface", which does not count
    count   - s_wakelock_count
    last    - s_last_wake_timeout_info
    poked   - the records whose userParam has been set, which cancels a wake timeout
   */
  datatype State<E> = State(held: bool, count: int, last: Option<E>, poked: set<E>,
                            timers: seq<Flight<E>>, pending: seq<Flight<E>>)

  /** A flight that left the pending list, with the clock reading of the pass that fired it. */
  datatype Firing<E> = Firing(flight: Flight<E>, reading: int)

  /** A state with its history. */
  datatype Run<E> = Run(s: State<E>,
                        clock: int,       // latest reading of the monotone clock
                        reading: int,     // the reading on which the latest pass expired timers
                        grabbed: int,     // when the lock was grabbed most recently
                        timed: int,       // when a wake timeout was scheduled most recently
                        owed: bool,       // has the lock been grabbed since then?
                        fired: seq<Firing<E>>,
                        scheduled: multiset<Flight<E>>)

  datatype Step<E> =
    | Grab(ev: E, now: int)
    | Release
    | SetTimeout(ev: E, now: int)  // the end of an unsolicited response
    | AddTimer(ev: E, now: int, interval: int)
    | BeginPass(now: int)
    | Ready(evs: seq<E>)
    | Fire

  function Init<E>(t0: int): Run<E> {
    Run(State(false, 0, None, {}, [], []), t0, t0, t0, t0, false, [], multiset{})
  }

  predicate InFlight<E(==)>(s: State<E>, e: E) {
    Holds(s.timers, e) || Holds(s.pending, e)
  }

  // ---------------------------------------------------------------- the state changes

  /** A fresh record on the timer list; calloc has cleared its userParam. */
  function Schedule<E(==)>(s: State<E>, f: Flight<E>): State<E> {
    s.(timers := Insert(s.timers, f), poked := s.poked - {f.ev})
  }

  /** Setting userParam of the record that s_last_wake_timeout_info points to, if any. */
  function Poke<E(==)>(poked: set<E>, last: Option<E>): set<E> {
    if last.Some? then poked + {last.value} else poked
  }

  /** A new wake timeout, which cancels the one before. */
  function SetLatest<E(==)>(s: State<E>, e: E, now: int): State<E> {
    var s1 := Schedule(s, Flight(e, now + WAKE_TIMEOUT, WakeTimeout));
    s1.(poked := Poke(s1.poked, s.last), last := Some(e))
  }

  function AfterGrab<E(==)>(version: int, s: State<E>, e: E, now: int): State<E> {
    if version >= ACK_VERSION then SetLatest(s.(held := true, count := s.count + 1), e, now) else s.(held := true)
  }

  /** Before ACK_VERSION the timeout is not set by the grab but when the response has been sent. */
  function AfterSetTimeout<E(==)>(version: int, s: State<E>, e: E, now: int): State<E> {
    if version < ACK_VERSION then SetLatest(s, e, now) else s
  }

  lemma LatestFields<E>(s: State<E>, e: E, now: int)
    ensures var s' := SetLatest(s, e, now);
      && s'.timers == Insert(s.timers, Flight(e, now + WAKE_TIMEOUT, WakeTimeout)) && s'.pending == s.pending
      && s'.poked == Poke(s.poked - {e}, s.last) && s'.last == Some(e) && s'.held == s.held && s'.count == s.count
  {}

  function AfterRelease<E(==)>(version: int, s: State<E>): State<E> {
    if version < ACK_VERSION then s.(held := false)
    else if s.count > 1 then s.(count := s.count - 1)
    else s.(count := 0, held := false, poked := Poke(s.poked, s.last))
  }

  function AfterExpiry<E>(s: State<E>, now: int): State<E> {
    var k := CountBelow(s.timers, now);
    s.(timers := s.timers[k..], pending := s.pending + s.timers[..k])
  }

  /** wakeTimeoutCallback: does nothing when its record was poked. */
  function AfterWakeTimeout<E(==)>(version: int, s: State<E>, cancelled: bool): State<E> {
    if cancelled then s
    else if version >= ACK_VERSION then s.(count := 0, held := false)
    else AfterRelease(version, s)
  }

  /** One turn of firePending: unlink the first record, run its callback, free it. */
  function AfterFire<E(==)>(version: int, s: State<E>): State<E>
    requires s.pending != []
  {
    var f := s.pending[0];
    var s1 := s.(pending := s.pending[1..]);
    var s2 := if f.kind == WakeTimeout then AfterWakeTimeout(version, s1, f.ev in s.poked) else s1;
    s2.(last := if s2.last == Some(f.ev) && f.kind != Watch then None else s2.last, poked := s2.poked - {f.ev})
  }

  // ---------------------------------------------------------------- runs

  predicate Enabled<E(==)>(r: Run<E>, step: Step<E>) {
    match step
    case Grab(e, now) => r.clock <= now && !InFlight(r.s, e)
    case Release => true
    case SetTimeout(e, now) => r.clock <= now && !InFlight(r.s, e)
    case AddTimer(e, now, _) => r.clock <= now && !InFlight(r.s, e)
    case BeginPass(now) => r.clock <= now && r.s.pending == []
    case Ready(evs) =>
      (forall i | 0 <= i < |evs| :: !InFlight(r.s, evs[i])) && (forall i, j | 0 <= i < j < |evs| :: evs[i] != evs[j])
    case Fire => r.s.pending != []
  }

  function Timed<E(==)>(r: Run<E>, e: E, now: int): Run<E> {
    r.(timed := now, owed := false, scheduled := r.scheduled + multiset{Flight(e, now + WAKE_TIMEOUT, WakeTimeout)})
  }

  function Next<E(==)>(version: int, r: Run<E>, step: Step<E>): Run<E>
    requires Enabled(r, step)
  {
    match step
    case Grab(e, now) =>
      var r' := r.(s := AfterGrab(version, r.s, e, now), clock := now, grabbed := now, owed := true);
      if version >= ACK_VERSION then Timed(r', e, now) else r'
    case SetTimeout(e, now) =>
      var r' := r.(s := AfterSetTimeout(version, r.s, e, now), clock := now);
      if version < ACK_VERSION then Timed(r', e, now) else r'
    case Release =>
      r.(s := AfterRelease(version, r.s))
    case AddTimer(e, now, interval) =>
      var f := Flight(e, now + interval, UserTimer);
      r.(s := Schedule(r.s, f), clock := now, scheduled := r.scheduled + multiset{f})
    case BeginPass(now) =>
      r.(s := AfterExpiry(r.s, now), clock := now, reading := now)
    case Ready(evs) =>
      var fs := Watched(evs, r.reading);
      r.(s := r.s.(pending := r.s.pending + fs), scheduled := r.scheduled + multiset(fs))
    case Fire =>
      r.(s := AfterFire(version, r.s), fired := r.fired + [Firing(r.s.pending[0], r.reading)])
  }

  /** A finite run, latest step outermost. */
  datatype Trace<E> = Start | Then(before: Trace<E>, step: Step<E>)

  /** Every step of the trace is enabled when its turn comes. */
  predicate Legal<E(==)>(version: int, r: Run<E>, trace: Trace<E>)
    decreases trace, 0
  {
    match trace
    case Start => true
    case Then(before, step) => Legal(version, r, before) && Enabled(Exec(version, r, before), step)
  }

  function Exec<E(==)>(version: int, r: Run<E>, trace: Trace<E>): Run<E>
    requires Legal(version, r, trace)
    decreases trace, 1
  {
    match trace
    case Start => r
    case Then(before, step) => Next(version, Exec(version, r, before), step)
  }

  // ---------------------------------------------------------------- the invariant

  /** The wake timeouts in flight that nobody has cancelled. */
  ghost function LiveWake<E>(s: State<E>): set<Flight<E>> {
    set f | f in s.timers + s.pending && f.kind == WakeTimeout && f.ev !in s.poked
  }

  ghost predicate Linked<E>(s: State<E>) {
    Sorted(s.timers) && Distinct(s.timers) && Distinct(s.pending) && Apart(s.timers, s.pending)
  }

  /** What ties the counter, the lock and the latest timer together. */
  ghost predicate LockInv<E>(s: State<E>) {
    && s.count >= 0
    && (s.held <==> s.count > 0)
    && (s.held <==> s.last.Some? && s.last.value !in s.poked)
    && LatestIsListed(s)
    && OnlyLatestLive(s, s.timers)
    && OnlyLatestLive(s, s.pending)
  }

  ghost predicate LatestIsListed<E>(s: State<E>) {
    s.last.Some? ==> WakesOn(s.timers, s.last.value) || WakesOn(s.pending, s.last.value)
  }

  ghost predicate WakesOn<E>(fs: seq<Flight<E>>, e: E) {
    exists f | f in fs :: f.kind == WakeTimeout && f.ev == e
  }

  ghost predicate OnlyLatestLive<E>(s: State<E>, fs: seq<Flight<E>>) {
    forall f | f in fs :: f.kind == WakeTimeout && f.ev !in s.poked ==> s.last == Some(f.ev)
  }

  /** Where a timer may sit depends on its deadline and the reading of the latest pass. */
  ghost predicate TimeInv<E>(r: Run<E>) {
    && r.reading <= r.clock
    && r.timed <= r.clock && r.grabbed <= r.clock
    && (forall f | f in r.s.timers && f.kind == WakeTimeout :: f.deadline >= r.reading)
    && LatestTimesOut(r, r.s.timers)
    && LatestTimesOut(r, r.s.pending)
  }

  ghost predicate LatestTimesOut<E>(r: Run<E>, fs: seq<Flight<E>>) {
    forall f | f in fs :: f.kind == WakeTimeout && r.s.last == Some(f.ev) ==> f.deadline == r.timed + WAKE_TIMEOUT
  }

  /** What has fired and what is about to had expired, and nothing that was scheduled is missing. */
  ghost predicate LogInv<E>(r: Run<E>) {
    && (forall f | f in r.s.pending && f.kind != Watch :: f.deadline < r.reading)
    && (forall g | g in r.fired && g.flight.kind != Watch :: g.flight.deadline < g.reading)
    && r.scheduled == multiset(r.s.timers) + multiset(r.s.pending) + multiset(Flights(r.fired))
  }

  ghost function Flights<E>(gs: seq<Firing<E>>): seq<Flight<E>> {
    seq(|gs|, i requires 0 <= i < |gs| => gs[i].flight)
  }

  /** From ACK_VERSION on. */
  ghost predicate Inv<E>(r: Run<E>) {
    Linked(r.s) && LockInv(r.s) && TimeInv(r) && LogInv(r) && r.timed == r.grabbed
  }

  /** Before ACK_VERSION: nothing is counted, and releasing the lock leaves its timeout alive. */
  ghost predicate LegacyInv<E>(r: Run<E>) {
    var s := r.s;
    && (s.last.Some? ==> s.last.value !in s.poked)
    && LatestIsListed(s)
    && OnlyLatestLive(s, s.timers)
    && OnlyLatestLive(s, s.pending)
    && (s.held && !r.owed ==> s.last.Some?)
  }

  lemma ExpiryMembers<E>(s: State<E>, now: int)
    requires Sorted(s.timers)
    ensures var s' := AfterExpiry(s, now);
      && (forall f | f in s'.timers :: f in s.timers && f.deadline >= now)
      && (forall f :: f in s'.pending <==> f in s.pending || (f in s.timers && f.deadline < now))
      && (forall f | f in s.timers :: f in s'.timers || f in s'.pending)
      && multiset(s'.timers) + multiset(s'.pending) == multiset(s.timers) + multiset(s.pending)
  {
    SplitIsComplete(s.timers, now);
  }

  lemma FireMembers<E>(version: int, s: State<E>)
    requires s.pending != []
    ensures var s' := AfterFire(version, s);
      && s'.timers == s.timers
      && s.pending == [s.pending[0]] + s'.pending
      && (forall f :: f in s.pending <==> f == s.pending[0] || f in s'.pending)
  {
    assert s.pending == [s.pending[0]] + s.pending[1..];
  }

  lemma ExpiryLinked<E>(s: State<E>, now: int)
    requires Linked(s) && s.pending == []
    ensures Linked(AfterExpiry(s, now))
  {
    var k := CountBelow(s.timers, now);
    assert s.pending + s.timers[..k] == s.timers[..k];
  }

  lemma FireLinked<E>(version: int, s: State<E>)
    requires Linked(s) && s.pending != []
    ensures Linked(AfterFire(version, s))
  {
    FireMembers(version, s);
    var s' := AfterFire(version, s);
    assert forall i | 0 <= i < |s'.pending| :: s'.pending[i] == s.pending[i + 1];
  }

  lemma ReadyLinked<E>(s: State<E>, evs: seq<E>, reading: int)
    requires Linked(s) && forall i | 0 <= i < |evs| :: !InFlight(s, evs[i])
    requires forall i, j | 0 <= i < j < |evs| :: evs[i] != evs[j]
    ensures Linked(s.(pending := s.pending + Watched(evs, reading)))
  {
    var p, longer := s.pending, s.pending + Watched(evs, reading);
    forall i | 0 <= i < |longer| ensures i >= |p| ==> longer[i].ev == evs[i - |p|] && !InFlight(s, longer[i].ev) {}
    forall i, j | 0 <= i < j < |longer| ensures longer[i].ev != longer[j].ev {
      assert i < |p| ==> longer[i] == p[i];
    }
  }

  lemma LatestLinked<E>(s: State<E>, e: E, now: int)
    requires Linked(s) && !InFlight(s, e)
    ensures Linked(SetLatest(s, e, now))
  {
    var f := Flight(e, now + WAKE_TIMEOUT, WakeTimeout);
    ScheduleLinked(s, f);
    assert SetLatest(s, e, now).timers == Schedule(s, f).timers;
  }

  lemma GrabLinked<E>(version: int, s: State<E>, e: E, now: int)
    requires Linked(s) && !InFlight(s, e)
    ensures Linked(AfterGrab(version, s, e, now)) && Linked(AfterSetTimeout(version, s, e, now))
  {
    LatestLinked(s, e, now);
    LatestLinked(s.(held := true, count := s.count + 1), e, now);
  }

  lemma {:induction false} LinkedKept<E>(version: int, r: Run<E>, step: Step<E>)
    requires Linked(r.s) && Enabled(r, step)
    ensures Linked(Next(version, r, step).s)
  {
    match step
    case Grab(e, now) => GrabLinked(version, r.s, e, now);
    case SetTimeout(e, now) => GrabLinked(version, r.s, e, now);
    case AddTimer(e, now, interval) => ScheduleLinked(r.s, Flight(e, now + interval, UserTimer));
    case Release =>
    case BeginPass(now) => ExpiryLinked(r.s, now);
    case Ready(evs) => ReadyLinked(r.s, evs, r.reading);
    case Fire => FireLinked(version, r.s);
  }

  lemma ScheduleLinked<E>(s: State<E>, f: Flight<E>)
    requires Linked(s) && !InFlight(s, f.ev)
    ensures Linked(Schedule(s, f))
  {
    InsertSorted(s.timers, f);
    InsertDistinct(s.timers, f);
    InsertMembers(s.timers, f);
    var r := Insert(s.timers, f);
    forall i, j | 0 <= i < |r| && 0 <= j < |s.pending| ensures r[i].ev != s.pending[j].ev {
      assert r[i] in r;
    }
  }

  lemma GrabLock<E>(version: int, s: State<E>, e: E, now: int)
    requires version >= ACK_VERSION && LockInv(s) && !InFlight(s, e)
    ensures LockInv(AfterGrab(version, s, e, now))
  {
    var f := Flight(e, now + WAKE_TIMEOUT, WakeTimeout);
    InsertMembers(s.timers, f);
    assert f in AfterGrab(version, s, e, now).timers;
  }

  lemma TimerLock<E>(s: State<E>, f: Flight<E>)
    requires LockInv(s) && f.kind == UserTimer && !InFlight(s, f.ev)
    ensures LockInv(Schedule(s, f))
  {
    InsertMembers(s.timers, f);
  }

  lemma ExpiryLock<E>(s: State<E>, now: int)
    requires LockInv(s) && Sorted(s.timers)
    ensures LockInv(AfterExpiry(s, now))
  {
    ExpiryMembers(s, now);
  }

  lemma FireLock<E>(version: int, s: State<E>)
    requires version >= ACK_VERSION && LockInv(s) && Linked(s) && s.pending != []
    ensures LockInv(AfterFire(version, s))
  {
    FireMembers(version, s);
  }

  lemma {:induction false} LockKept<E>(version: int, r: Run<E>, step: Step<E>)
    requires version >= ACK_VERSION && Linked(r.s) && LockInv(r.s) && Enabled(r, step)
    ensures LockInv(Next(version, r, step).s)
  {
    match step
    case Grab(e, now) => GrabLock(version, r.s, e, now);
    case SetTimeout(e, now) =>
    case AddTimer(e, now, interval) => TimerLock(r.s, Flight(e, now + interval, UserTimer));
    case Release =>
    case BeginPass(now) => ExpiryLock(r.s, now);
    case Ready(evs) =>
    case Fire => FireLock(version, r.s);
  }

  /** A new latest timeout is due when it was set plus its interval. */
  lemma LatestTime<E>(r: Run<E>, s: State<E>, e: E, now: int, r': Run<E>)
    requires TimeInv(r) && r.clock <= now && !InFlight(r.s, e)
    requires s.timers == r.s.timers && s.pending == r.s.pending
    requires r'.s == SetLatest(s, e, now) && r'.timed == now && r'.clock == now
    requires r'.reading == r.reading && r'.grabbed <= now
    ensures TimeInv(r')
  {
    InsertMembers(r.s.timers, Flight(e, now + WAKE_TIMEOUT, WakeTimeout));
  }

  lemma GrabTime<E>(version: int, r: Run<E>, e: E, now: int)
    requires TimeInv(r) && Enabled(r, Grab(e, now))
    ensures TimeInv(Next(version, r, Grab(e, now))) && TimeInv(Next(version, r, SetTimeout(e, now)))
  {
    if version >= ACK_VERSION {
      LatestTime(r, r.s.(held := true, count := r.s.count + 1), e, now, Next(version, r, Grab(e, now)));
    } else {
      LatestTime(r, r.s, e, now, Next(version, r, SetTimeout(e, now)));
    }
  }

  lemma TimerTime<E>(version: int, r: Run<E>, e: E, now: int, interval: int)
    requires TimeInv(r) && Enabled(r, AddTimer(e, now, interval))
    ensures TimeInv(Next(version, r, AddTimer(e, now, interval)))
  {
    InsertMembers(r.s.timers, Flight(e, now + interval, UserTimer));
  }

  lemma ScheduledLog<E>(r: Run<E>, f: Flight<E>, r': Run<E>)
    requires LogInv(r)
    requires r'.s.timers == Insert(r.s.timers, f) && r'.s.pending == r.s.pending
    requires r'.fired == r.fired && r'.reading == r.reading && r'.scheduled == r.scheduled + multiset{f}
    ensures LogInv(r')
  {
    InsertBag(r.s.timers, CountBelow(r.s.timers, f.deadline), f);
  }

  lemma GrabLog<E>(version: int, r: Run<E>, e: E, now: int)
    requires LogInv(r) && Enabled(r, Grab(e, now))
    ensures LogInv(Next(version, r, Grab(e, now))) && LogInv(Next(version, r, SetTimeout(e, now)))
  {
    var f := Flight(e, now + WAKE_TIMEOUT, WakeTimeout);
    if version >= ACK_VERSION {
      ScheduledLog(r, f, Next(version, r, Grab(e, now)));
    } else {
      ScheduledLog(r, f, Next(version, r, SetTimeout(e, now)));
    }
  }

  lemma TimerLog<E>(version: int, r: Run<E>, e: E, now: int, interval: int)
    requires LogInv(r) && Enabled(r, AddTimer(e, now, interval))
    ensures LogInv(Next(version, r, AddTimer(e, now, interval)))
  {
    ScheduledLog(r, Flight(e, now + interval, UserTimer), Next(version, r, AddTimer(e, now, interval)));
  }

  lemma FireLog<E>(version: int, r: Run<E>)
    requires LogInv(r) && Enabled(r, Fire)
    ensures LogInv(Next(version, r, Fire))
  {
    FireMembers(version, r.s);
    var f := r.s.pending[0];
    assert Flights(r.fired + [Firing(f, r.reading)]) == Flights(r.fired) + [f];
  }

  lemma PassLog<E>(version: int, r: Run<E>, now: int)
    requires Linked(r.s) && LogInv(r) && Enabled(r, BeginPass(now))
    ensures LogInv(Next(version, r, BeginPass(now)))
  {
    ExpiryMembers(r.s, now);
  }

  lemma ReadyLog<E>(version: int, r: Run<E>, evs: seq<E>)
    requires LogInv(r) && Enabled(r, Ready(evs))
    ensures LogInv(Next(version, r, Ready(evs)))
  {}

  lemma {:induction false} LogKept<E>(version: int, r: Run<E>, step: Step<E>)
    requires Linked(r.s) && LogInv(r) && Enabled(r, step)
    ensures LogInv(Next(version, r, step))
  {
    match step
    case Grab(e, now) => GrabLog(version, r, e, now);
    case SetTimeout(e, now) => GrabLog(version, r, e, now);
    case AddTimer(e, now, interval) => TimerLog(version, r, e, now, interval);
    case Release =>
    case BeginPass(now) => PassLog(version, r, now);
    case Ready(evs) => ReadyLog(version, r, evs);
    case Fire => FireLog(version, r);
  }

  lemma {:induction false} TimeKept<E>(version: int, r: Run<E>, step: Step<E>)
    requires Linked(r.s) && TimeInv(r) && LatestIsListed(r.s) && Enabled(r, step)
    ensures TimeInv(Next(version, r, step))
  {
    match step
    case Grab(e, now) => GrabTime(version, r, e, now);
    case SetTimeout(e, now) => GrabTime(version, r, e, now);
    case AddTimer(e, now, interval) => TimerTime(version, r, e, now, interval);
    case Release =>
    case BeginPass(now) => ExpiryMembers(r.s, now);
    case Ready(evs) =>
    case Fire => FireMembers(version, r.s);
  }

  /** The lists and the log are sound in every state that any run reaches, whatever the version. */
  lemma {:induction false} ListsReachable<E>(version: int, t0: int, trace: Trace<E>)
    requires Legal(version, Init(t0), trace)
    ensures Linked(Exec(version, Init(t0), trace).s) && LogInv(Exec(version, Init(t0), trace))
  {
    if trace.Then? {
      ListsReachable(version, t0, trace.before);
      var r := Exec(version, Init(t0), trace.before);
      LinkedKept(version, r, trace.step);
      LogKept(version, r, trace.step);
    }
  }

  /** The whole invariant holds in every state that any run reaches. */
  lemma {:induction false} Reachable<E>(version: int, t0: int, trace: Trace<E>)
    requires version >= ACK_VERSION && Legal(version, Init(t0), trace)
    ensures Inv(Exec(version, Init(t0), trace))
  {
    ListsReachable(version, t0, trace);
    if trace.Then? {
      Reachable(version, t0, trace.before);
      var r := Exec(version, Init(t0), trace.before);
      LockKept(version, r, trace.step);
      TimeKept(version, r, trace.step);
    }
  }

  // ---------------------------------------------------------------- what the invariant means

  lemma LiveTimer<E>(s: State<E>) returns (f: Flight<E>)
    requires Linked(s) && LockInv(s) && s.held
    ensures f in LiveWake(s) && s.last == Some(f.ev)
    ensures forall g | g in LiveWake(s) :: g == f
  {
    var e := s.last.value;
    if WakesOn(s.timers, e) {
      f :| f in s.timers && f.kind == WakeTimeout && f.ev == e;
    } else {
      f :| f in s.pending && f.kind == WakeTimeout && f.ev == e;
    }
    forall g | g in LiveWake(s) ensures g == f {
      assert g.ev == f.ev;
      SameRecordSameFlight(s, f, g);
    }
  }

  lemma SameRecordSameFlight<E>(s: State<E>, f: Flight<E>, g: Flight<E>)
    requires Linked(s) && f.ev == g.ev
    requires f in s.timers || f in s.pending
    requires g in s.timers || g in s.pending
    ensures f == g
  {}

  /**
    The lock is held exactly while the count is positive, and exactly while one wake timeout in flight
    is uncancelled; that one is the latest, and the latest is never a record that has been freed.
   */
  lemma {:induction false} LockHeldIffOneTimerLives<E>(version: int, t0: int, trace: Trace<E>)
    requires version >= ACK_VERSION && Legal(version, Init(t0), trace)
    ensures var s := Exec(version, Init(t0), trace).s;
      && (s.held <==> s.count > 0)
      && (s.held <==> |LiveWake(s)| == 1)
      && (!s.held <==> LiveWake(s) == {})
      && (forall f | f in LiveWake(s) :: s.last == Some(f.ev))
      && (s.last.Some? ==> InFlight(s, s.last.value))
  {
    Reachable(version, t0, trace);
    var s := Exec(version, Init(t0), trace).s;
    if s.held {
      var f := LiveTimer(s);
      assert LiveWake(s) == {f};
    } else {
      assert forall f :: f !in LiveWake(s);
    }
    if s.last.Some? {
      LatestInFlight(s);
    }
  }

  lemma LatestInFlight<E>(s: State<E>)
    requires LockInv(s) && s.last.Some?
    ensures InFlight(s, s.last.value)
  {}

  /**
    The time bound: once a pass whose reading is past the latest grab by more than the wake timeout
    has fired everything it found, the lock is not held, whatever else happened before or meanwhile.
   */
  lemma {:induction false} LockIsReleasedInTime<E>(version: int, t0: int, trace: Trace<E>)
    requires version >= ACK_VERSION && Legal(version, Init(t0), trace)
    requires Exec(version, Init(t0), trace).s.pending == []
    requires LastPass(t0, trace) > LastGrab(t0, trace) + 200000
    ensures !Exec(version, Init(t0), trace).s.held
  {
    Reachable(version, t0, trace);
    TimesAreTold(version, t0, trace);
    var r := Exec(version, Init(t0), trace);
    if r.s.held {
      var f := LiveTimer(r.s);
      assert false;
    }
  }

  /**
    Every scheduled event is in exactly one place, and no timer ever fires on a reading that is not past its
    deadline.
   */
  lemma {:induction false} NothingLostNothingEarly<E>(version: int, t0: int, trace: Trace<E>)
    requires Legal(version, Init(t0), trace)
    ensures var r := Exec(version, Init(t0), trace);
      && r.scheduled == multiset(r.s.timers) + multiset(r.s.pending) + multiset(Flights(r.fired))
      && (forall g | g in r.fired && g.flight.kind != Watch :: g.flight.deadline < g.reading)
      && Sorted(r.s.timers)
  {
    ListsReachable(version, t0, trace);
  }

  // ---------------------------------------------------------------- what the steps of a run add up to

  /** Does this step fire a wake timeout that nobody has cancelled? */
  predicate TimesOut<E(==)>(r: Run<E>, step: Step<E>) {
    step.Fire? && r.s.pending != [] && r.s.pending[0].kind == WakeTimeout && r.s.pending[0].ev !in r.s.poked
  }

  /** The grabs that neither a release nor a timeout has undone. */
  function Outstanding<E(==)>(version: int, t0: int, trace: Trace<E>): nat
    requires Legal(version, Init(t0), trace)
  {
    if trace.Start? then 0
    else
      var n := Outstanding(version, t0, trace.before);
      if trace.step.Grab? then n + 1
      else if trace.step.Release? then (if n > 0 then n - 1 else 0)
      else if TimesOut(Exec(version, Init(t0), trace.before), trace.step) then 0
      else n
  }

  /** Was the latest grab, release or timeout a grab? */
  predicate GrabbedLast<E(==)>(version: int, t0: int, trace: Trace<E>)
    requires Legal(version, Init(t0), trace)
  {
    trace.Then? &&
    if trace.step.Grab? then true
    else !trace.step.Release? && !TimesOut(Exec(version, Init(t0), trace.before), trace.step)
         && GrabbedLast(version, t0, trace.before)
  }

  lemma CountStep<E>(version: int, r: Run<E>, step: Step<E>)
    requires version >= ACK_VERSION && LockInv(r.s) && Enabled(r, step)
    ensures Next(version, r, step).s.count ==
              if step.Grab? then r.s.count + 1
              else if step.Release? && r.s.count > 0 then r.s.count - 1
              else if TimesOut(r, step) then 0
              else r.s.count
  {}

  /** From ACK_VERSION on the counter is the number of outstanding grabs, and the lock is held while there are any. */
  lemma {:induction false} CountIsOutstanding<E>(version: int, t0: int, trace: Trace<E>)
    requires version >= ACK_VERSION && Legal(version, Init(t0), trace)
    ensures var s := Exec(version, Init(t0), trace).s;
      s.count == Outstanding(version, t0, trace) && (s.held <==> Outstanding(version, t0, trace) > 0)
  {
    Reachable(version, t0, trace);
    if trace.Then? {
      CountIsOutstanding(version, t0, trace.before);
      Reachable(version, t0, trace.before);
      CountStep(version, Exec(version, Init(t0), trace.before), trace.step);
    }
  }

  /** Before ACK_VERSION the lock is held if and only if a grab came last. */
  lemma {:induction false} LegacyHeldIffGrabbedLast<E>(version: int, t0: int, trace: Trace<E>)
    requires version < ACK_VERSION && Legal(version, Init(t0), trace)
    ensures Exec(version, Init(t0), trace).s.held <==> GrabbedLast(version, t0, trace)
  {
    if trace.Then? {
      LegacyHeldIffGrabbedLast(version, t0, trace.before);
    }
  }

  /** When the steps that a reader of the trace would look for came last. */
  function LastGrab<E>(t0: int, trace: Trace<E>): int {
    if trace.Start? then t0 else if trace.step.Grab? then trace.step.now else LastGrab(t0, trace.before)
  }

  function LastPass<E>(t0: int, trace: Trace<E>): int {
    if trace.Start? then t0 else if trace.step.BeginPass? then trace.step.now else LastPass(t0, trace.before)
  }

  function LastTimeout<E>(t0: int, trace: Trace<E>): int {
    if trace.Start? then t0 else if trace.step.SetTimeout? then trace.step.now else LastTimeout(t0, trace.before)
  }

  /** Has a grab come since the latest timeout was set? */
  predicate GrabPending<E>(trace: Trace<E>) {
    trace.Then? && (trace.step.Grab? || (!trace.step.SetTimeout? && GrabPending(trace.before)))
  }

  lemma {:induction false} TimesAreTold<E>(version: int, t0: int, trace: Trace<E>)
    requires Legal(version, Init(t0), trace)
    ensures var r := Exec(version, Init(t0), trace);
      r.grabbed == LastGrab(t0, trace) && r.reading == LastPass(t0, trace)
  {
    if trace.Then? {
      TimesAreTold(version, t0, trace.before);
    }
  }

  lemma {:induction false} TimeoutsAreTold<E>(version: int, t0: int, trace: Trace<E>)
    requires version < ACK_VERSION && Legal(version, Init(t0), trace)
    ensures var r := Exec(version, Init(t0), trace);
      r.timed == LastTimeout(t0, trace) && (r.owed <==> GrabPending(trace))
  {
    if trace.Then? {
      TimeoutsAreTold(version, t0, trace.before);
    }
  }

  /** The events that a step schedules, when the latest pass had this reading. */
  function ScheduledBy<E(==)>(version: int, reading: int, step: Step<E>): multiset<Flight<E>> {
    match step
    case Grab(e, now) => if version >= ACK_VERSION then multiset{Flight(e, now + 200000, WakeTimeout)} else multiset{}
    case SetTimeout(e, now) =>
      if version < ACK_VERSION then multiset{Flight(e, now + 200000, WakeTimeout)} else multiset{}
    case AddTimer(e, now, interval) => multiset{Flight(e, now + interval, UserTimer)}
    case Ready(evs) => multiset(Watched(evs, reading))
    case _ => multiset{}
  }

  function AllScheduled<E(==)>(version: int, t0: int, trace: Trace<E>): multiset<Flight<E>> {
    if trace.Start? then multiset{}
    else AllScheduled(version, t0, trace.before) + ScheduledBy(version, LastPass(t0, trace.before), trace.step)
  }

  lemma ScheduledStep<E>(version: int, r: Run<E>, step: Step<E>)
    requires Enabled(r, step)
    ensures Next(version, r, step).scheduled == r.scheduled + ScheduledBy(version, r.reading, step)
  {}

  /** What the log calls scheduled is what the steps of the run have scheduled. */
  lemma {:induction false} ScheduledIsTold<E>(version: int, t0: int, trace: Trace<E>)
    requires Legal(version, Init(t0), trace)
    ensures Exec(version, Init(t0), trace).scheduled == AllScheduled(version, t0, trace)
  {
    if trace.Then? {
      ScheduledIsTold(version, t0, trace.before);
      TimesAreTold(version, t0, trace.before);
      ScheduledStep(version, Exec(version, Init(t0), trace.before), trace.step);
    }
  }

  ghost predicate WithinPass<E>(trace: Trace<E>) {
    trace.Then? ==> WithinPass(trace.before) && !trace.step.BeginPass?
  }

  ghost function Fired<E>(fs: seq<Flight<E>>, reading: int): seq<Firing<E>> {
    seq(|fs|, i requires 0 <= i < |fs| => Firing(fs[i], reading))
  }

  ghost predicate OnlyWatched<E>(gs: seq<Firing<E>>) {
    forall g | g in gs :: g.flight.kind == Watch
  }

  /** What has fired, and after it what the present pass is still going to fire. */
  ghost function Outcome<E>(r: Run<E>): seq<Firing<E>> {
    r.fired + Fired(r.s.pending, r.reading)
  }

  lemma ReadyOutcome<E>(p: seq<Flight<E>>, evs: seq<E>, reading: int)
    ensures Fired(p + Watched(evs, reading), reading) == Fired(p, reading) + Fired(Watched(evs, reading), reading)
    ensures OnlyWatched(Fired(Watched(evs, reading), reading))
  {}

  lemma FireOutcome<E>(fired: seq<Firing<E>>, p: seq<Flight<E>>, reading: int)
    requires p != []
    ensures fired + Fired(p, reading) == (fired + [Firing(p[0], reading)]) + Fired(p[1..], reading)
  {
    assert Fired(p, reading) == [Firing(p[0], reading)] + Fired(p[1..], reading);
  }

  lemma QueueStep<E>(version: int, r: Run<E>, step: Step<E>) returns (joined: seq<Firing<E>>)
    requires Enabled(r, step) && !step.BeginPass?
    ensures OnlyWatched(joined)
    ensures Next(version, r, step).reading == r.reading
    ensures Outcome(Next(version, r, step)) == Outcome(r) + joined
  {
    var r' := Next(version, r, step);
    if step.Ready? {
      joined := Fired(Watched(step.evs, r.reading), r.reading);
      ReadyOutcome(r.s.pending, step.evs, r.reading);
      OutcomesJoin(r.fired, Fired(r.s.pending, r.reading), joined);
    } else {
      joined := [];
      if step.Fire? {
        FireOutcome(r.fired, r.s.pending, r.reading);
      } else {
        assert r'.s.pending == r.s.pending && r'.fired == r.fired;
      }
      assert Outcome(r) + [] == Outcome(r);
    }
  }

  lemma OutcomesJoin<E>(a: seq<Firing<E>>, b: seq<Firing<E>>, c: seq<Firing<E>>)
    ensures (a + b) + c == a + (b + c)
    ensures OnlyWatched(b) && OnlyWatched(c) ==> OnlyWatched(b + c)
  {}

  /** During a pass the pending list is a queue: it fires from the front, and only watched events join it. */
  lemma {:induction false} PassIsQueue<E>(version: int, r: Run<E>, trace: Trace<E>) returns (joined: seq<Firing<E>>)
    requires Legal(version, r, trace) && WithinPass(trace)
    ensures OnlyWatched(joined)
    ensures Exec(version, r, trace).reading == r.reading
    ensures Outcome(Exec(version, r, trace)) == Outcome(r) + joined
  {
    joined := [];
    if trace.Then? {
      var joined0 := PassIsQueue(version, r, trace.before);
      var joined1 := QueueStep(version, Exec(version, r, trace.before), trace.step);
      joined := joined0 + joined1;
      OutcomesJoin(Outcome(r), joined0, joined1);
    }
  }

  /**
    A whole pass: whatever callbacks and other threads do meanwhile, when the pending list has been emptied
    the pass has fired exactly the timers that had expired at its reading, once each and in deadline order,
    followed by watched events only.
   */
  lemma {:induction false} PassFiresExpiredTimers<E>(version: int, t0: int, trace: Trace<E>, now: int, more: Trace<E>)
      returns (joined: seq<Firing<E>>)
    requires Legal(version, Init(t0), trace)
    requires Enabled(Exec(version, Init(t0), trace), BeginPass(now))
    requires WithinPass(more)
    requires Legal(version, Next(version, Exec(version, Init(t0), trace), BeginPass(now)), more)
    requires Exec(version, Next(version, Exec(version, Init(t0), trace), BeginPass(now)), more).s.pending == []
    ensures OnlyWatched(joined)
    ensures var r := Exec(version, Init(t0), trace);
      && Exec(version, Next(version, r, BeginPass(now)), more).fired == r.fired + Fired(Expired(r, now), now) + joined
      && Sorted(Expired(r, now)) && Distinct(Expired(r, now))
      && (forall f :: f in Expired(r, now) <==> f in r.s.timers && f.deadline < now)
  {
    ListsReachable(version, t0, trace);
    joined := PassFrom(version, Exec(version, Init(t0), trace), now, more);
    ExpiredAre(Exec(version, Init(t0), trace), now);
  }

  ghost function Expired<E>(r: Run<E>, now: int): seq<Flight<E>> {
    r.s.timers[..CountBelow(r.s.timers, now)]
  }

  lemma ExpiredAre<E>(r: Run<E>, now: int)
    requires Linked(r.s)
    ensures Sorted(Expired(r, now)) && Distinct(Expired(r, now))
    ensures forall f :: f in Expired(r, now) <==> f in r.s.timers && f.deadline < now
  {
    SplitIsComplete(r.s.timers, now);
  }

  lemma PassFrom<E>(version: int, r: Run<E>, now: int, more: Trace<E>) returns (joined: seq<Firing<E>>)
    requires Enabled(r, BeginPass(now))
    requires WithinPass(more) && Legal(version, Next(version, r, BeginPass(now)), more)
    requires Exec(version, Next(version, r, BeginPass(now)), more).s.pending == []
    ensures OnlyWatched(joined)
    ensures Exec(version, Next(version, r, BeginPass(now)), more).fired ==
                  r.fired + Fired(Expired(r, now), now) + joined
  {
    var r1 := Next(version, r, BeginPass(now));
    joined := PassIsQueue(version, r1, more);
    assert r1.s.pending == Expired(r, now);
    var r2 := Exec(version, r1, more);
    assert Outcome(r2) == r2.fired;
  }

  ghost function Fires<E>(trace: Trace<E>): nat {
    if trace.Start? then 0 else Fires(trace.before) + if trace.step.Fire? then 1 else 0
  }

  ghost predicate WithoutReady<E>(trace: Trace<E>) {
    trace.Then? ==> WithoutReady(trace.before) && !trace.step.Ready?
  }

  lemma PendingStep<E>(version: int, r: Run<E>, step: Step<E>)
    requires Enabled(r, step) && !step.BeginPass? && !step.Ready?
    ensures |Next(version, r, step).s.pending| == |r.s.pending| - if step.Fire? then 1 else 0
  {}

  /** Callbacks that grab, release or schedule never prolong a pass: firing n records shortens the queue by n. */
  lemma {:induction false} CallbacksNeverProlongPass<E>(version: int, r: Run<E>, trace: Trace<E>)
    requires Legal(version, r, trace) && WithinPass(trace) && WithoutReady(trace)
    ensures |Exec(version, r, trace).s.pending| == |r.s.pending| - Fires(trace)
  {
    if trace.Then? {
      CallbacksNeverProlongPass(version, r, trace.before);
      PendingStep(version, Exec(version, r, trace.before), trace.step);
    }
  }

  // ---------------------------------------------------------------- before ACK_VERSION

  lemma LegacyTimeout<E>(version: int, r: Run<E>, e: E, now: int)
    requires version < ACK_VERSION && LegacyInv(r) && Enabled(r, SetTimeout(e, now))
    ensures LegacyInv(Next(version, r, SetTimeout(e, now)))
  {
    var f := Flight(e, now + WAKE_TIMEOUT, WakeTimeout);
    InsertMembers(r.s.timers, f);
    assert f in AfterSetTimeout(version, r.s, e, now).timers;
  }

  lemma LegacyTimer<E>(version: int, r: Run<E>, e: E, now: int, interval: int)
    requires LegacyInv(r) && Enabled(r, AddTimer(e, now, interval))
    ensures LegacyInv(Next(version, r, AddTimer(e, now, interval)))
  {
    InsertMembers(r.s.timers, Flight(e, now + interval, UserTimer));
  }

  lemma LegacyFire<E>(version: int, r: Run<E>)
    requires version < ACK_VERSION && LegacyInv(r) && Linked(r.s) && Enabled(r, Fire)
    ensures LegacyInv(Next(version, r, Fire))
  {
    FireMembers(version, r.s);
  }

  lemma {:induction false} LegacyKept<E>(version: int, r: Run<E>, step: Step<E>)
    requires version < ACK_VERSION && LegacyInv(r) && Linked(r.s) && Enabled(r, step)
    ensures LegacyInv(Next(version, r, step))
  {
    match step
    case Grab(e, now) =>
    case Release =>
    case SetTimeout(e, now) => LegacyTimeout(version, r, e, now);
    case AddTimer(e, now, interval) => LegacyTimer(version, r, e, now, interval);
    case BeginPass(now) => ExpiryMembers(r.s, now);
    case Ready(evs) =>
    case Fire => LegacyFire(version, r);
  }

  lemma {:induction false} LegacyReachable<E>(version: int, t0: int, trace: Trace<E>)
    requires version < ACK_VERSION && Legal(version, Init(t0), trace)
    ensures var r := Exec(version, Init(t0), trace); Linked(r.s) && TimeInv(r) && LegacyInv(r)
  {
    ListsReachable(version, t0, trace);
    if trace.Then? {
      LegacyReachable(version, t0, trace.before);
      var r := Exec(version, Init(t0), trace.before);
      TimeKept(version, r, trace.step);
      LegacyKept(version, r, trace.step);
    }
  }

  lemma LegacyLive<E>(r: Run<E>) returns (f: Flight<E>)
    requires Linked(r.s) && LegacyInv(r) && r.s.last.Some?
    ensures f in LiveWake(r.s) && r.s.last == Some(f.ev)
    ensures forall g | g in LiveWake(r.s) :: g == f
  {
    var s := r.s;
    var e := s.last.value;
    if WakesOn(s.timers, e) {
      f :| f in s.timers && f.kind == WakeTimeout && f.ev == e;
    } else {
      f :| f in s.pending && f.kind == WakeTimeout && f.ev == e;
    }
    forall g | g in LiveWake(s) ensures g == f {
      assert g.ev == f.ev;
      SameRecordSameFlight(s, f, g);
    }
  }

  /** There is a latest timeout exactly while one wake timeout in flight is uncancelled, and it is that one. */
  lemma {:induction false} LegacyOneTimerLives<E>(version: int, t0: int, trace: Trace<E>)
    requires version < ACK_VERSION && Legal(version, Init(t0), trace)
    ensures var s := Exec(version, Init(t0), trace).s;
      && (s.last.Some? <==> |LiveWake(s)| == 1)
      && (s.last.None? <==> LiveWake(s) == {})
      && (forall f | f in LiveWake(s) :: s.last == Some(f.ev))
      && (s.last.Some? ==> InFlight(s, s.last.value))
  {
    LegacyReachable(version, t0, trace);
    var r := Exec(version, Init(t0), trace);
    if r.s.last.Some? {
      var f := LegacyLive(r);
      assert LiveWake(r.s) == {f};
    } else {
      assert forall f :: f !in LiveWake(r.s);
    }
  }

  /**
    The time bound: unless the lock has been grabbed again since the latest timeout was set, a pass whose reading is
    past that moment by more than the wake timeout leaves it released.
   */
  lemma {:induction false} LegacyLockIsReleasedInTime<E>(version: int, t0: int, trace: Trace<E>)
    requires version < ACK_VERSION && Legal(version, Init(t0), trace)
    requires Exec(version, Init(t0), trace).s.pending == []
    requires LastPass(t0, trace) > LastTimeout(t0, trace) + 200000 && !GrabPending(trace)
    ensures !Exec(version, Init(t0), trace).s.held
  {
    LegacyReachable(version, t0, trace);
    TimesAreTold(version, t0, trace);
    TimeoutsAreTold(version, t0, trace);
    var r := Exec(version, Init(t0), trace);
    if r.s.held {
      var f := LegacyLive(r);
      assert false;
    }
  }
}
