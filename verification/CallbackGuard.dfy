/**
  Recovery from a dead client in `ril_service.cpp`: any number of threads report failures through checkReturnStatus
  while clients register through setResponseFunctions, all under read-write locks and generation counters.
 */
module CallbackGuard {
  import opened Options

  type Thread = nat
  type Id = nat

  datatype Service = Radio | OemHook

  /** The callbacks of one service on one slot. */
  datatype Key = Key(slot: int, service: Service)

  /** `getRadioServiceRwlock`, which numbers the slots from one: the first two slots share a lock. */
  function LockOf(simCount: int, slot: int): (l: nat)
    ensures l < 4
  {
    if simCount >= 4 && slot == 4 then 3
    else if simCount >= 3 && slot == 3 then 2
    else if simCount >= 2 && slot == 2 then 1
    else 0
  }

  /** A read-write lock; a reader that locked twice would be counted twice. */
  datatype Rw = Rw(readers: multiset<Thread>, writer: Option<Thread>)

  datatype Mode = Read | Write

  /**
    Where a thread is. `on` is the registration its failed call was made on.
      Inside     - holds the lock and may call the client (NITZ indications hold it for writing)
      Failed     - a call has just failed, and checkReturnStatus begins
      Noted      - the counter has been read
      Released   - the lock of the caller has been given up
      Exclusive  - the write lock has been taken
      Checked    - the counters have been compared, and the callbacks dropped or not
      Between    - the write lock has been released; next is the read lock, and back to Inside
      Installing - setResponseFunctions has the write lock
      Installed  - it has stored the callbacks and counted
   */
  datatype Pc =
    | Idle
    | Inside(slot: int, mode: Mode)
    | Failed(key: Key, mode: Mode, on: Id)
    | Noted(key: Key, mode: Mode, on: Id, counter: int)
    | Released(key: Key, on: Id, counter: int)
    | Exclusive(key: Key, on: Id, counter: int)
    | Checked(key: Key)
    | Between(key: Key)
    | Installing(key: Key)
    | Installed(key: Key)

  datatype Event = Clear(key: Key, on: Id, was: Option<Id>)

  datatype State = State(locks: seq<Rw>, pcs: map<Thread, Pc>, counters: map<Key, int>,
                         installed: map<Key, Id>, next: Id, log: seq<Event>)

  datatype Step =
    | Rdlock(t: Thread, slot: int)
    | WrlockNitz(t: Thread, slot: int)
    | Call(t: Thread, key: Key)
    | Note(t: Thread)
    | Unlock(t: Thread)
    | Wrlock(t: Thread)
    | Check(t: Thread)
    | Relock(t: Thread)
    | Leave(t: Thread)
    | Register(t: Thread, key: Key)
    | Install(t: Thread, isNull: bool)

  datatype Trace = Start | Then(before: Trace, step: Step)

  const FREE := Rw(multiset{}, None)

  function Init(): State {
    State([FREE, FREE, FREE, FREE], map[], map[], map[], 0, [])
  }

  function PcOf(s: State, t: Thread): Pc {
    if t in s.pcs then s.pcs[t] else Idle
  }

  function CounterOf(s: State, key: Key): int {
    if key in s.counters then s.counters[key] else 0
  }

  function InstalledOn(s: State, key: Key): Option<Id> {
    if key in s.installed then Some(s.installed[key]) else None
  }

  // ---------------------------------------------------------------- locks

  predicate CanRead(l: Rw) {
    l.writer.None?
  }

  predicate CanWrite(l: Rw) {
    l.writer.None? && l.readers == multiset{}
  }

  function Unlocked(l: Rw, t: Thread): Rw {
    if l.writer == Some(t) then l.(writer := None) else l.(readers := l.readers - multiset{t})
  }

  function SetLock(s: State, i: nat, l: Rw): State
    requires i < |s.locks|
  {
    s.(locks := s.locks[i := l])
  }

  function Move(s: State, t: Thread, pc: Pc): State {
    s.(pcs := s.pcs[t := pc])
  }

  /** The slot a thread is at work on. */
  function SlotOf(pc: Pc): int
    requires !pc.Idle?
  {
    if pc.Inside? then pc.slot else pc.key.slot
  }

  // ---------------------------------------------------------------- steps

  predicate Enabled(simCount: int, s: State, step: Step) {
    |s.locks| == 4 &&
    var pc := PcOf(s, step.t);
    match step
    case Rdlock(_, slot) => pc.Idle? && CanRead(s.locks[LockOf(simCount, slot)])
    case WrlockNitz(_, slot) => pc.Idle? && CanWrite(s.locks[LockOf(simCount, slot)])
    case Call(_, key) => pc.Inside? && pc.slot == key.slot && InstalledOn(s, key).Some?
    case Note(_) => pc.Failed?
    case Unlock(_) => pc.Noted? || pc.Checked?
    case Wrlock(_) => pc.Released? && CanWrite(s.locks[LockOf(simCount, pc.key.slot)])
    case Check(_) => pc.Exclusive?
    case Relock(_) => pc.Between? && CanRead(s.locks[LockOf(simCount, pc.key.slot)])
    case Leave(_) => pc.Inside? || pc.Installed?
    case Register(_, key) => pc.Idle? && CanWrite(s.locks[LockOf(simCount, key.slot)])
    case Install(_, _) => pc.Installing?
  }

  /**
    `checkReturnStatus` under the write lock: the callbacks are dropped only if nobody registered or cleared since
    the counter was noted.
   */
  function AfterCheck(s: State, key: Key, on: Id, counter: int): State {
    if counter == CounterOf(s, key) then
      s.(installed := s.installed - {key}, counters := s.counters[key := counter + 1],
         log := s.log + [Clear(key, on, InstalledOn(s, key))])
    else s
  }

  /**
    `setResponseFunctions` under the write lock: a registration has an identity of its own; registering null
    callbacks leaves none installed.
   */
  function AfterInstall(s: State, key: Key, isNull: bool): State {
    s.(installed := if isNull then s.installed - {key} else s.installed[key := s.next],
       counters := s.counters[key := CounterOf(s, key) + 1], next := s.next + 1)
  }

  function Next(simCount: int, s: State, step: Step): State
    requires Enabled(simCount, s, step)
  {
    var t, pc := step.t, PcOf(s, step.t);
    match step
    case Rdlock(_, slot) =>
      var i := LockOf(simCount, slot);
      Move(SetLock(s, i, s.locks[i].(readers := s.locks[i].readers + multiset{t})), t, Inside(slot, Read))
    case WrlockNitz(_, slot) =>
      var i := LockOf(simCount, slot);
      Move(SetLock(s, i, s.locks[i].(writer := Some(t))), t, Inside(slot, Write))
    case Call(_, key) => Move(s, t, Failed(key, pc.mode, InstalledOn(s, key).value))
    case Note(_) => Move(s, t, Noted(pc.key, pc.mode, pc.on, CounterOf(s, pc.key)))
    case Unlock(_) =>
      var i := LockOf(simCount, pc.key.slot);
      Move(SetLock(s, i, Unlocked(s.locks[i], t)), t,
           if pc.Noted? then Released(pc.key, pc.on, pc.counter) else Between(pc.key))
    case Wrlock(_) =>
      var i := LockOf(simCount, pc.key.slot);
      Move(SetLock(s, i, s.locks[i].(writer := Some(t))), t, Exclusive(pc.key, pc.on, pc.counter))
    case Check(_) => Move(AfterCheck(s, pc.key, pc.on, pc.counter), t, Checked(pc.key))
    case Relock(_) =>
      var i := LockOf(simCount, pc.key.slot);
      Move(SetLock(s, i, s.locks[i].(readers := s.locks[i].readers + multiset{t})), t, Inside(pc.key.slot, Read))
    case Leave(_) =>
      var i := LockOf(simCount, SlotOf(pc));
      Move(SetLock(s, i, Unlocked(s.locks[i], t)), t, Idle)
    case Register(_, key) =>
      var i := LockOf(simCount, key.slot);
      Move(SetLock(s, i, s.locks[i].(writer := Some(t))), t, Installing(key))
    case Install(_, isNull) => Move(AfterInstall(s, pc.key, isNull), t, Installed(pc.key))
  }

  predicate Legal(simCount: int, trace: Trace)
    decreases trace, 0
  {
    trace.Then? ==> Legal(simCount, trace.before) && Enabled(simCount, Exec(simCount, trace.before), trace.step)
  }

  function Exec(simCount: int, trace: Trace): State
    requires Legal(simCount, trace)
    decreases trace, 1
  {
    if trace.Start? then Init() else Next(simCount, Exec(simCount, trace.before), trace.step)
  }

  // ---------------------------------------------------------------- the invariant

  /** The lock a thread must be holding at this point, and how. */
  function Holding(simCount: int, pc: Pc): Option<(nat, Mode)> {
    match pc
    case Idle => None
    case Inside(slot, mode) => Some((LockOf(simCount, slot), mode))
    case Failed(key, mode, _) => Some((LockOf(simCount, key.slot), mode))
    case Noted(key, mode, _, _) => Some((LockOf(simCount, key.slot), mode))
    case Released(_, _, _) => None
    case Exclusive(key, _, _) => Some((LockOf(simCount, key.slot), Write))
    case Checked(key) => Some((LockOf(simCount, key.slot), Write))
    case Between(_) => None
    case Installing(key) => Some((LockOf(simCount, key.slot), Write))
    case Installed(key) => Some((LockOf(simCount, key.slot), Write))
  }

  /** A lock is held by exactly the threads that are where they need it, once each, and writers hold it alone. */
  ghost predicate LockInv(simCount: int, s: State, i: nat)
    requires i < |s.locks|
  {
    && (forall t: Thread :: s.locks[i].readers[t] == if Holding(simCount, PcOf(s, t)) == Some((i, Read)) then 1 else 0)
    && (forall t: Thread :: s.locks[i].writer == Some(t) <==> Holding(simCount, PcOf(s, t)) == Some((i, Write)))
    && (s.locks[i].writer.Some? ==> s.locks[i].readers == multiset{})
  }

  ghost predicate LocksInv(simCount: int, s: State) {
    |s.locks| == 4 && forall i | 0 <= i < 4 :: LockInv(simCount, s, i)
  }

  /** The counter a thread has noted is current exactly while the registration it failed on is still installed. */
  ghost predicate ThreadInv(s: State, pc: Pc) {
    match pc
    case Failed(key, _, on) => InstalledOn(s, key) == Some(on)
    case Noted(key, _, on, counter) => Tracks(s, key, on, counter)
    case Released(key, on, counter) => Tracks(s, key, on, counter)
    case Exclusive(key, on, counter) => Tracks(s, key, on, counter)
    case _ => true
  }

  ghost predicate Tracks(s: State, key: Key, on: Id, counter: int) {
    && on < s.next && counter <= CounterOf(s, key)
    && (counter == CounterOf(s, key) <==> InstalledOn(s, key) == Some(on))
  }

  ghost predicate LogInv(s: State) {
    && (forall key | key in s.installed :: s.installed[key] < s.next)
    && (forall i | 0 <= i < |s.log| :: s.log[i].was == Some(s.log[i].on) && s.log[i].on < s.next)
    && (forall i, key | 0 <= i < |s.log| && key in s.installed :: s.log[i].on != s.installed[key])
    && (forall k1, k2 | k1 in s.installed && k2 in s.installed && k1 != k2 :: s.installed[k1] != s.installed[k2])
    && (forall i, j | 0 <= i < j < |s.log| :: s.log[i].on != s.log[j].on)
  }

  ghost predicate Inv(simCount: int, s: State) {
    LocksInv(simCount, s) && LogInv(s) && forall t | t in s.pcs :: ThreadInv(s, s.pcs[t])
  }

  // ---------------------------------------------------------------- every step keeps the invariant

  lemma AcquireRead(simCount: int, s: State, i: nat, t: Thread, pc: Pc)
    requires LocksInv(simCount, s) && i < 4 && CanRead(s.locks[i])
    requires Holding(simCount, PcOf(s, t)) == None && Holding(simCount, pc) == Some((i, Read))
    ensures LocksInv(simCount, Move(SetLock(s, i, s.locks[i].(readers := s.locks[i].readers + multiset{t})), t, pc))
  {
    var s' := Move(SetLock(s, i, s.locks[i].(readers := s.locks[i].readers + multiset{t})), t, pc);
    forall j | 0 <= j < 4 ensures LockInv(simCount, s', j) {
      assert LockInv(simCount, s, j);
    }
  }

  lemma AcquireWrite(simCount: int, s: State, i: nat, t: Thread, pc: Pc)
    requires LocksInv(simCount, s) && i < 4 && CanWrite(s.locks[i])
    requires Holding(simCount, PcOf(s, t)) == None && Holding(simCount, pc) == Some((i, Write))
    ensures LocksInv(simCount, Move(SetLock(s, i, s.locks[i].(writer := Some(t))), t, pc))
  {
    var s' := Move(SetLock(s, i, s.locks[i].(writer := Some(t))), t, pc);
    forall j | 0 <= j < 4 ensures LockInv(simCount, s', j) {
      assert LockInv(simCount, s, j);
    }
  }

  lemma Release(simCount: int, s: State, i: nat, t: Thread, mode: Mode, pc: Pc)
    requires LocksInv(simCount, s) && i < 4
    requires Holding(simCount, PcOf(s, t)) == Some((i, mode)) && Holding(simCount, pc) == None
    ensures LocksInv(simCount, Move(SetLock(s, i, Unlocked(s.locks[i], t)), t, pc))
  {
    var s' := Move(SetLock(s, i, Unlocked(s.locks[i], t)), t, pc);
    forall j | 0 <= j < 4 ensures LockInv(simCount, s', j) {
      assert LockInv(simCount, s, j);
    }
  }

  lemma Stay(simCount: int, s: State, s0: State, t: Thread, pc: Pc)
    requires LocksInv(simCount, s) && s0.locks == s.locks && s0.pcs == s.pcs
    requires Holding(simCount, PcOf(s, t)) == Holding(simCount, pc)
    ensures LocksInv(simCount, Move(s0, t, pc))
  {
    forall j | 0 <= j < 4 ensures LockInv(simCount, Move(s0, t, pc), j) {
      assert LockInv(simCount, s, j);
    }
  }

  lemma LocksKept(simCount: int, s: State, step: Step)
    requires LocksInv(simCount, s) && Enabled(simCount, s, step)
    ensures LocksInv(simCount, Next(simCount, s, step))
  {
    var t, pc := step.t, PcOf(s, step.t);
    match step
    case Rdlock(_, slot) => AcquireRead(simCount, s, LockOf(simCount, slot), t, Inside(slot, Read));
    case WrlockNitz(_, slot) => AcquireWrite(simCount, s, LockOf(simCount, slot), t, Inside(slot, Write));
    case Call(_, key) => Stay(simCount, s, s, t, Failed(key, pc.mode, InstalledOn(s, key).value));
    case Note(_) => Stay(simCount, s, s, t, Noted(pc.key, pc.mode, pc.on, CounterOf(s, pc.key)));
    case Unlock(_) =>
      if pc.Noted? {
        Release(simCount, s, LockOf(simCount, pc.key.slot), t, pc.mode, Released(pc.key, pc.on, pc.counter));
      } else {
        Release(simCount, s, LockOf(simCount, pc.key.slot), t, Write, Between(pc.key));
      }
    case Wrlock(_) => AcquireWrite(simCount, s, LockOf(simCount, pc.key.slot), t, Exclusive(pc.key, pc.on, pc.counter));
    case Check(_) => Stay(simCount, s, AfterCheck(s, pc.key, pc.on, pc.counter), t, Checked(pc.key));
    case Relock(_) => AcquireRead(simCount, s, LockOf(simCount, pc.key.slot), t, Inside(pc.key.slot, Read));
    case Leave(_) =>
      if pc.Inside? {
        Release(simCount, s, LockOf(simCount, pc.slot), t, pc.mode, Idle);
      } else {
        Release(simCount, s, LockOf(simCount, pc.key.slot), t, Write, Idle);
      }
    case Register(_, key) => AcquireWrite(simCount, s, LockOf(simCount, key.slot), t, Installing(key));
    case Install(_, isNull) => Stay(simCount, s, AfterInstall(s, pc.key, isNull), t, Installed(pc.key));
  }

  /**
    Whoever may change the registration of a key is alone: no other thread has a failed call in hand under the
    lock.
   */
  lemma WriterIsAlone(simCount: int, s: State, t: Thread, u: Thread, key: Key)
    requires LocksInv(simCount, s) && t != u
    requires Holding(simCount, PcOf(s, t)) == Some((LockOf(simCount, key.slot), Write))
    ensures !(PcOf(s, u).Failed? && PcOf(s, u).key == key)
  {
    var l := LockOf(simCount, key.slot);
    assert LockInv(simCount, s, l);
    assert s.locks[l].writer == Some(t) != Some(u);
    assert s.locks[l].readers == multiset{};
    assert Holding(simCount, PcOf(s, u)) != Some((l, Read)) by {
      assert s.locks[l].readers[u] == 0;
    }
    assert Holding(simCount, PcOf(s, u)) != Some((l, Write));
    match PcOf(s, u)
    case Failed(_, mode, _) => assert mode == Read || mode == Write;
    case _ =>
  }

  lemma ThreadsKept(simCount: int, s: State, step: Step)
    requires Inv(simCount, s) && Enabled(simCount, s, step)
    ensures var s' := Next(simCount, s, step); forall u | u in s'.pcs :: ThreadInv(s', s'.pcs[u])
  {
    var t, pc, s' := step.t, PcOf(s, step.t), Next(simCount, s, step);
    assert ThreadInv(s, pc);
    forall u | u in s'.pcs ensures ThreadInv(s', s'.pcs[u]) {
      if u != t {
        assert ThreadInv(s, s.pcs[u]);
        if step.Check? || step.Install? {
          WriterIsAlone(simCount, s, t, u, pc.key);
        }
      }
    }
  }

  lemma LogKept(simCount: int, s: State, step: Step)
    requires Inv(simCount, s) && Enabled(simCount, s, step)
    ensures LogInv(Next(simCount, s, step))
  {
    assert ThreadInv(s, PcOf(s, step.t));
  }

  lemma {:induction false} Reachable(simCount: int, trace: Trace)
    requires Legal(simCount, trace)
    ensures Inv(simCount, Exec(simCount, trace))
  {
    if trace.Then? {
      Reachable(simCount, trace.before);
      var s := Exec(simCount, trace.before);
      LocksKept(simCount, s, trace.step);
      ThreadsKept(simCount, s, trace.step);
      LogKept(simCount, s, trace.step);
    }
  }

  // ---------------------------------------------------------------- what it means

  /**
    The read lock a reporting thread came with, or took again, is held exactly once when it is back from
    checkReturnStatus.
   */
  lemma {:induction false} HoldsReadLockOnce(simCount: int, trace: Trace, t: Thread)
    requires Legal(simCount, trace)
    ensures var s := Exec(simCount, trace);
      forall i | 0 <= i < 4 ::
        && s.locks[i].readers[t] == (if Holding(simCount, PcOf(s, t)) == Some((i, Read)) then 1 else 0)
        && (s.locks[i].writer == Some(t) <==> Holding(simCount, PcOf(s, t)) == Some((i, Write)))
        && (s.locks[i].writer.Some? ==> s.locks[i].readers == multiset{})
  {
    Reachable(simCount, trace);
    var s := Exec(simCount, trace);
    forall i | 0 <= i < 4
      ensures s.locks[i].readers[t] == (if Holding(simCount, PcOf(s, t)) == Some((i, Read)) then 1 else 0)
      ensures s.locks[i].writer == Some(t) <==> Holding(simCount, PcOf(s, t)) == Some((i, Write))
      ensures s.locks[i].writer.Some? ==> s.locks[i].readers == multiset{}
    {
      assert LockInv(simCount, s, i);
    }
  }

  /**
    A check drops the callbacks if and only if the registration that its thread failed on is still installed,
    and then drops that one; any other client, registered meanwhile or not, is left alone.
   */
  lemma {:induction false} CheckDropsExactlyTheDeadClient(simCount: int, trace: Trace, t: Thread)
    requires Legal(simCount, trace) && Enabled(simCount, Exec(simCount, trace), Check(t))
    ensures var s := Exec(simCount, trace);
      var pc, s' := PcOf(s, t), Next(simCount, s, Check(t));
      && InstalledOn(s', pc.key) == (if InstalledOn(s, pc.key) == Some(pc.on) then None else InstalledOn(s, pc.key))
      && (forall key | key != pc.key :: InstalledOn(s', key) == InstalledOn(s, key))
      && s'.log == (if InstalledOn(s, pc.key) == Some(pc.on) then s.log + [Clear(pc.key, pc.on, Some(pc.on))]
                        else s.log)
  {
    Reachable(simCount, trace);
    assert ThreadInv(Exec(simCount, trace), PcOf(Exec(simCount, trace), t));
  }

  /** Over any run, every clearing hit the registration it was meant for, and no registration was cleared twice. */
  lemma {:induction false} ClearedOnceAndOnPurpose(simCount: int, trace: Trace)
    requires Legal(simCount, trace)
    ensures var log := Exec(simCount, trace).log;
      && (forall i | 0 <= i < |log| :: log[i].was == Some(log[i].on))
      && (forall i, j | 0 <= i < j < |log| :: log[i].on != log[j].on)
  {
    Reachable(simCount, trace);
  }

  /** Slots 2 to 4 have locks of their own, as far as they are compiled in; all others share one. */
  predicate HasOwnLock(simCount: int, slot: int) {
    2 <= slot <= 4 && slot <= simCount
  }

  predicate ShareLock(simCount: int, i: int, j: int) {
    i == j || (!HasOwnLock(simCount, i) && !HasOwnLock(simCount, j))
  }

  lemma WhoSharesALock(simCount: int, i: int, j: int)
    ensures LockOf(simCount, i) == LockOf(simCount, j) <==> ShareLock(simCount, i, j)
  {}

  /**
    In every reachable state a slot can be locked for writing if and only if no thread is inside a slot that shares
    its lock, and for reading if and only if none is there to write.
   */
  lemma {:induction false} LockFreeIff(simCount: int, trace: Trace, slot: int)
    requires Legal(simCount, trace)
    ensures var s := Exec(simCount, trace);
      var lock := s.locks[LockOf(simCount, slot)];
      && (CanWrite(lock) <==> forall t :: !InSlot(simCount, s, t, slot, {Read, Write}))
      && (CanRead(lock) <==> forall t :: !InSlot(simCount, s, t, slot, {Write}))
  {
    Reachable(simCount, trace);
    var s := Exec(simCount, trace);
    var l := LockOf(simCount, slot);
    assert LockInv(simCount, s, l);
    forall t ensures InSlot(simCount, s, t, slot, {Read, Write}) <==>
                     s.locks[l].readers[t] > 0 || s.locks[l].writer == Some(t)
             ensures InSlot(simCount, s, t, slot, {Write}) <==> s.locks[l].writer == Some(t)
    {
      if !PcOf(s, t).Idle? {
        WhoSharesALock(simCount, slot, SlotOf(PcOf(s, t)));
      }
    }
    if s.locks[l].readers != multiset{} {
      var t :| t in s.locks[l].readers;
      assert InSlot(simCount, s, t, slot, {Read, Write});
    }
    if s.locks[l].writer.Some? {
      assert InSlot(simCount, s, s.locks[l].writer.value, slot, {Write});
      assert InSlot(simCount, s, s.locks[l].writer.value, slot, {Read, Write});
    }
  }

  /** Has the thread the lock of a slot that shares this one's, in one of these modes? */
  predicate InSlot(simCount: int, s: State, t: Thread, slot: int, modes: set<Mode>) {
    var pc := PcOf(s, t);
    match Holding(simCount, pc)
    case None => false
    case Some((_, mode)) => ShareLock(simCount, slot, SlotOf(pc)) && mode in modes
  }
}
