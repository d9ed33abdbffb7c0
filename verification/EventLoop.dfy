/** The timer list and the pending list of `ril_event`, refined to the sequences of `TimerQueue`. */
module EventLoops {
  import opened Options
  import opened Sequences
  import opened Timevals
  import opened RilEvents
  import TQ = TimerQueue
  import opened WatchTables

  type Flight = TQ.Flight<RilEvent>

  function Evs(fs: seq<Flight>): (r: seq<RilEvent>)
    ensures |r| == |fs|
    ensures forall i | 0 <= i < |fs| :: r[i] == fs[i].ev
  {
    seq(|fs|, i requires 0 <= i < |fs| => fs[i].ev)
  }

  /** A listed record carries its deadline; timers are told from watched events by their invalid descriptor. */
  ghost predicate Carries(f: Flight)
    reads f.ev`fd, f.ev`timeout
  {
    if f.kind == TQ.Watch then f.ev.fd >= 0
    else f.ev.fd == -1 && f.ev.timeout.Normal() && f.ev.timeout.Micros() == f.deadline
  }

  ghost predicate AllCarry(fs: seq<Flight>)
    reads Evs(fs)`fd, Evs(fs)`timeout
  {
    forall i | 0 <= i < |fs| :: Carries(fs[i])
  }

  ghost predicate OnlyTimers(fs: seq<Flight>) {
    forall i | 0 <= i < |fs| :: fs[i].kind != TQ.Watch
  }

  lemma EvsInsert(fs: seq<Flight>, k: nat, f: Flight)
    requires k <= |fs|
    ensures Evs(InsertAt(fs, k, f)) == InsertAt(Evs(fs), k, f.ev)
  {}

  lemma TimersInsert(fs: seq<Flight>, f: Flight)
    requires TQ.Sorted(fs) && OnlyTimers(fs) && f.kind != TQ.Watch
    ensures TQ.Sorted(TQ.Insert(fs, f)) && OnlyTimers(TQ.Insert(fs, f))
  {
    var r := TQ.Insert(fs, f);
    TQ.InsertSorted(fs, f);
    TQ.InsertMembers(fs, f);
    assert forall i | 0 <= i < |r| :: r[i] in r;
  }

  lemma CarryInsert(fs: seq<Flight>, f: Flight)
    requires AllCarry(fs) && Carries(f)
    ensures AllCarry(TQ.Insert(fs, f))
  {
    var r := TQ.Insert(fs, f);
    TQ.InsertMembers(fs, f);
    forall i | 0 <= i < |r| ensures Carries(r[i]) {
      assert r[i] in r;
    }
  }

  class EventLoop {
    const timerList: RilEvent
    const pendingList: RilEvent
    const watch: WatchTable
    ghost var timers: seq<Flight>
    ghost var pending: seq<Flight>
    /** The sentinels and every record that was ever linked or watched. */
    ghost var nodes: set<RilEvent>

    /** Two separate rings, the timers sorted by deadline. */
    ghost predicate Valid()
      reads this`timers, this`pending, this`nodes, nodes`next, nodes`prev, nodes`fd, nodes`timeout
    {
      && timerList in nodes && pendingList in nodes && Within(timers) && Within(pending)
      && TwoRings(timerList, Evs(timers), pendingList, Evs(pending))
      && TQ.Sorted(timers) && OnlyTimers(timers)
      && AllCarry(timers) && AllCarry(pending)
      && timerList.fd == -1 && pendingList.fd == -1
    }

    ghost predicate Within(fs: seq<Flight>)
      reads this`nodes
    {
      forall i | 0 <= i < |fs| :: fs[i].ev in nodes
    }

    /** A record that can be linked in. */
    ghost predicate Unlisted(ev: RilEvent)
      reads this`timers, this`pending
    {
      ev != timerList && ev != pendingList && ev !in Evs(timers) && ev !in Evs(pending)
    }

    /** `ril_event_init`. */
    constructor ()
      ensures Valid() && watch.Valid() && watch.events == {}
      ensures fresh(timerList) && fresh(pendingList) && fresh(watch) && fresh(watch.slots)
      ensures timers == [] && pending == [] && nodes == {timerList, pendingList}
    {
      timerList := new RilEvent.InitList();
      pendingList := new RilEvent.InitList();
      watch := new WatchTable();
      timers, pending, nodes := [], [], {timerList, pendingList};
    }

    /** The search loop of `ril_timer_add`: the first record whose deadline is not before that of `ev`. */
    method FindPlace(ev: RilEvent, ghost deadline: int) returns (list: RilEvent)
      requires Valid() && ev.timeout.Normal() && ev.timeout.Micros() == deadline
      ensures list == At(timerList, Evs(timers), TQ.CountBelow(timers, deadline))
    {
      assert Link(timerList, Evs(timers), -1);
      list := timerList.next;
      ghost var k := 0;
      while TimerLess(list.timeout, ev.timeout) && list != timerList
        invariant 0 <= k <= |timers| && list == At(timerList, Evs(timers), k)
        invariant forall i | 0 <= i < k :: timers[i].deadline < deadline
        decreases |timers| - k
      {
        assert Link(timerList, Evs(timers), k);
        assert Carries(timers[k]);
        list := list.next;
        k := k + 1;
      }
      assert k < |timers| ==> Carries(timers[k]);
      TQ.CountBelowIs(timers, deadline, k);
    }

    /** `ril_timer_add`, with the clock reading taken under the mutex as a parameter. */
    method TimerAdd(ev: RilEvent, tv: Option<Timeval>, now: Timeval, ghost f: Flight)
      requires Valid() && watch.Valid() && Unlisted(ev) && ev.index == -1
      requires now.Normal() && (tv.Some? ==> tv.value.Normal() && f.deadline == now.Micros() + tv.value.Micros())
      requires f.ev == ev && f.kind != TQ.Watch
      modifies this`timers, this`nodes, ev`next, ev`prev, ev`fd, ev`timeout, nodes`next, nodes`prev
      ensures Valid() && watch.Valid() && old(nodes) <= nodes <= old(nodes) + {ev}
      ensures tv.None? ==> timers == old(timers)
      ensures tv.Some? ==> timers == TQ.Insert(old(timers), f) && ev in nodes
    {
      if tv.None? {
        return;
      }
      Stamp(ev, now, tv.value);
      var list := FindPlace(ev, f.deadline);
      LinkTimer(ev, list, f);
    }

    /** An unwatched record becomes a timer: its descriptor is made invalid and its deadline is set. */
    method Stamp(ev: RilEvent, now: Timeval, tv: Timeval)
      requires Valid() && watch.Valid() && Unlisted(ev) && ev.index == -1
      requires now.Normal() && tv.Normal()
      modifies ev`fd, ev`timeout
      ensures Valid() && watch.Valid()
      ensures ev.fd == -1 && ev.timeout.Normal() && ev.timeout.Micros() == now.Micros() + tv.Micros()
    {
      assert forall i | 0 <= i < MAX_FD_EVENTS :: watch.slots[i] != ev;
      assert forall i | 0 <= i < |timers| :: Evs(timers)[i] != ev;
      assert forall i | 0 <= i < |pending| :: Evs(pending)[i] != ev;
      ev.fd := -1;
      ev.timeout := Timevals.TimerAdd(now, tv);
    }

    method LinkTimer(ev: RilEvent, list: RilEvent, ghost f: Flight)
      requires Valid() && Unlisted(ev) && f.ev == ev && Carries(f) && f.kind != TQ.Watch
      requires list == At(timerList, Evs(timers), TQ.CountBelow(timers, f.deadline))
      modifies this`timers, this`nodes, ev`next, ev`prev, nodes`next, nodes`prev
      ensures Valid() && timers == TQ.Insert(old(timers), f) && nodes == old(nodes) + {ev}
    {
      ghost var k, longer := TQ.CountBelow(timers, f.deadline), TQ.Insert(timers, f);
      EvsInsert(timers, k, f);
      TimersInsert(timers, f);
      AddBeside(ev, list, timerList, Evs(timers), k, pendingList, Evs(pending));
      CarryInsert(timers, f);
      nodes := nodes + {ev};
      WithinInsert(timers, f);
      timers := longer;
    }

    lemma WithinInsert(fs: seq<Flight>, f: Flight)
      requires Within(fs) && f.ev in nodes
      ensures Within(TQ.Insert(fs, f))
    {
      var r := TQ.Insert(fs, f);
      TQ.InsertMembers(fs, f);
      assert forall i | 0 <= i < |r| :: r[i] in r;
    }

    /** The loop body of processTimeouts: the first timer goes to the tail of the pending list. */
    method MoveFirst(tev: RilEvent)
      requires Valid() && timers != [] && tev == timers[0].ev
      modifies this`timers, this`pending, nodes`next, nodes`prev
      ensures Valid()
      ensures timers == old(timers)[1..] && pending == old(pending) + [old(timers)[0]]
    {
      ghost var rest, longer := timers[1..], pending + [timers[0]];
      assert Evs(rest) == Evs(timers)[1..];
      assert Evs(longer) == Evs(pending) + [tev];
      MoveToTail(tev, pendingList, timerList, Evs(timers), Evs(pending));
      timers, pending := rest, longer;
    }

    /** `processTimeouts`. */
    method ProcessTimeouts(now: Timeval)
      requires Valid() && now.Normal()
      modifies this`timers, this`pending, nodes`next, nodes`prev
      ensures Valid()
      ensures timers == old(timers)[TQ.CountBelow(old(timers), now.Micros())..]
      ensures pending == old(pending) + old(timers)[..TQ.CountBelow(old(timers), now.Micros())]
    {
      ghost var was := timers;
      ghost var k := 0;
      assert Link(timerList, Evs(timers), -1);
      var tev := timerList.next;
      while tev != timerList && TimerLess(tev.timeout, now)
        invariant Valid() && k <= |was|
        invariant timers == was[k..] && pending == old(pending) + was[..k]
        invariant forall i | 0 <= i < k :: was[i].deadline < now.Micros()
        invariant tev == At(timerList, Evs(timers), 0)
        decreases |was| - k
      {
        assert Link(timerList, Evs(timers), 0) && Carries(timers[0]);
        var next := tev.next;
        assert was[k..][1..] == was[k + 1..] && was[..k] + [was[k]] == was[..k + 1];
        MoveFirst(tev);
        tev := next;
        k := k + 1;
      }
      assert k < |was| ==> Carries(timers[0]);
      TQ.CountBelowIs(was, now.Micros(), k);
    }

    /** `calcNextTimeout`: how long select may block, over the whole list although only its first record is read. */
    method CalcNextTimeout(now: Timeval) returns (r: int, tv: Timeval)
      requires Valid() && now.Normal()
      ensures r == if timers == [] then -1 else 0
      ensures r == 0 ==> tv.Normal()
      ensures r == 0 ==> exists f | f in timers :: (forall g | g in timers :: f.deadline <= g.deadline)
                           && tv.Micros() == if f.deadline > now.Micros() then f.deadline - now.Micros() else 0
    {
      tv := ZERO;
      assert Link(timerList, Evs(timers), -1);
      var tev := timerList.next;
      if tev == timerList {
        return -1, tv;
      }
      assert Carries(timers[0]) && timers[0] in timers;
      TQ.FirstIsEarliest(timers);
      if TimerLess(now, tev.timeout) {
        tv := TimerSub(tev.timeout, now);
      }
      return 0, tv;
    }

    /** The unlinking part of one turn of firePending. */
    method TakeFirst(ev: RilEvent)
      requires Valid() && pending != [] && ev == pending[0].ev
      modifies this`pending, nodes`next, nodes`prev
      ensures Valid() && pending == old(pending)[1..]
      ensures ev.next == null && ev.prev == null
    {
      ghost var rest := pending[1..];
      assert Evs(rest) == Evs(pending)[1..];
      RemoveFirst(ev, pendingList, timerList, Evs(timers), Evs(pending));
      pending := rest;
    }

    lemma FirstPendingIsAlone()
      requires Valid() && pending != []
      ensures forall i | 0 <= i < |timers| :: timers[i].ev != pending[0].ev
      ensures forall i | 0 < i < |pending| :: pending[i].ev != pending[0].ev
    {
      assert Evs(pending)[0] in Evs(pending);
      assert forall i | 0 <= i < |timers| :: Evs(timers)[i] in Evs(timers);
      assert forall i | 0 < i < |pending| :: Evs(pending)[i] != Evs(pending)[0];
    }

    /** What a scan has appended was on neither list before, and is not repeated. */
    lemma AppendedAreNew(before: seq<Flight>, evs: seq<RilEvent>, reading: int)
      requires Valid() && pending == before + TQ.Watched(evs, reading)
      ensures forall i | 0 <= i < |evs| :: evs[i] in nodes && !TQ.Holds(timers, evs[i]) && !TQ.Holds(before, evs[i])
      ensures forall i, j | 0 <= i < j < |evs| :: evs[i] != evs[j]
    {
      var b := |before|;
      assert forall i | 0 <= i < |evs| :: pending[b + i].ev == evs[i] == Evs(pending)[b + i];
      assert forall i | 0 <= i < b :: pending[i] == before[i] && Evs(pending)[i] == before[i].ev;
      assert forall i | 0 <= i < |timers| :: Evs(timers)[i] in Evs(timers);
      assert forall i | 0 <= i < |pending| :: Evs(pending)[i] in Evs(pending);
    }

    /** `ril_event_add`, for a new record or for one that has left the table. */
    method EventAdd(ev: RilEvent)
      requires Valid() && watch.Valid() && watch.events <= nodes
      requires ev.index == -1 && ev.fd >= 0 && ev.fd !in watch.readFds
      modifies this`nodes, watch, watch.slots, ev`index
      ensures Valid() && watch.Valid() && watch.events <= nodes
      ensures nodes == old(nodes) + {ev} && watch.events == old(watch.events) + {ev}
      ensures Taken(old(watch.table), watch.table, ev.index, Used(ev, ev.fd, ev.persist))
    {
      nodes := nodes + {ev};
      watch.Add(ev);
    }

    /** Watched events have a descriptor, so none of them is a timer or a sentinel. */
    lemma WatchedIsUnlisted(i: int)
      requires Valid() && watch.Valid() && OnlyTimers(pending)
      requires 0 <= i < MAX_FD_EVENTS && watch.slots[i] != null
      ensures Unlisted(watch.slots[i])
    {
      var ev := watch.slots[i];
      assert watch.table[i].fd == ev.fd;
      assert forall j | 0 <= j < |timers| :: Carries(timers[j]);
      assert forall j | 0 <= j < |pending| :: Carries(pending[j]);
    }

    method AppendPending(ev: RilEvent, ghost f: Flight)
      requires Valid() && Unlisted(ev) && f.ev == ev && Carries(f) && ev in nodes
      modifies this`pending, nodes`next, nodes`prev
      ensures Valid() && pending == old(pending) + [f]
    {
      ghost var longer := pending + [f];
      assert Evs(longer) == Evs(pending) + [ev];
      AddToTail(ev, pendingList, timerList, Evs(timers), Evs(pending));
      pending := longer;
    }

    /** The body of the loop in processReadReadies for a ready slot. */
    method QueueReady(rev: RilEvent, i: int, ghost reading: int)
      requires Valid() && watch.Valid() && rev in nodes
      requires 0 <= i < MAX_FD_EVENTS && watch.slots[i] == rev && Unlisted(rev)
      modifies this`pending, nodes`next, nodes`prev, watch, watch.slots, rev`index
      ensures Valid() && watch.Valid() && watch.events == old(watch.events)
      ensures pending == old(pending) + [TQ.Flight(rev, reading, TQ.Watch)]
      ensures watch.table == if rev.persist then old(watch.table) else old(watch.table)[i := Free]
      ensures watch.slots[..] == if rev.persist then old(watch.slots[..]) else old(watch.slots[..])[i := null]
    {
      assert watch.table[i].fd == rev.fd;
      AppendPending(rev, TQ.Flight(rev, reading, TQ.Watch));
      if rev.persist == false {
        watch.RemoveWatch(rev, i);
      }
    }

    /** Every watched event in a slot from `i` on is on neither list. */
    ghost predicate UnlistedFrom(i: int)
      reads this`timers, this`pending, watch.slots
      requires watch.slots.Length == MAX_FD_EVENTS
    {
      forall j | 0 <= i <= j < MAX_FD_EVENTS && watch.slots[j] != null :: Unlisted(watch.slots[j])
    }

    /** The state of a scan that has reached slot `i`. */
    ghost predicate Scanning(i: int)
      reads this`timers, this`pending, this`nodes, nodes`next, nodes`prev, nodes`fd, nodes`timeout
      reads watch, watch.slots, watch.events`fd, watch.events`index, watch.events`persist
    {
      Valid() && watch.Valid() && watch.events <= nodes && UnlistedFrom(i)
    }

    /** One turn of the scan: slot `i` is queued if it is ready, and leaves the table unless it is persistent. */
    method ScanSlot(i: int, rfds: set<int>, left: int, ghost reading: int,
                        ghost before: seq<Flight>, ghost found: seq<RilEvent>)
      returns (left': int, ghost found': seq<RilEvent>)
      requires Scanning(i) && 0 <= i < MAX_FD_EVENTS && left > 0
      requires pending == before + TQ.Watched(found, reading)
      modifies this`pending, nodes`next, nodes`prev, watch, watch.slots, watch.events`index
      ensures Scanning(i + 1) && watch.events == old(watch.events)
      ensures pending == before + TQ.Watched(found', reading)
      ensures SweepFrom(watch.table, rfds, left', i + 1, found') == SweepFrom(old(watch.table), rfds, left, i, found)
    {
      left', found' := left, found;
      var rev := watch.slots[i];
      assert watch.table[i] == WatchTable.SlotOf(rev);
      if rev != null && rev.fd in rfds {
        QueueReady(rev, i, reading);
        WatchedSnoc(found, rev, reading);
        left', found' := left - 1, found + [rev];
      }
    }

    /** `processReadReadies` for the ready set and the count that select returned. */
    method ProcessReadReadies(rfds: set<int>, n: int, ghost reading: int)
      requires Valid() && watch.Valid() && watch.events <= nodes && OnlyTimers(pending)
      modifies this`pending, nodes`next, nodes`prev, watch, watch.slots, watch.events`index
      ensures Valid() && watch.Valid() && watch.events == old(watch.events)
      ensures pending == old(pending) + TQ.Watched(SweepFrom(old(watch.table), rfds, n, 0, []).found, reading)
      ensures watch.table == SweepFrom(old(watch.table), rfds, n, 0, []).table
    {
      forall j | 0 <= j < MAX_FD_EVENTS && watch.slots[j] != null ensures Unlisted(watch.slots[j]) {
        WatchedIsUnlisted(j);
      }
      ghost var t := watch.table;
      ghost var found: seq<RilEvent> := [];
      var left := n;
      var i := 0;
      while i < MAX_FD_EVENTS && left > 0
        invariant 0 <= i <= MAX_FD_EVENTS
        invariant Scanning(i) && watch.events == old(watch.events)
        invariant pending == old(pending) + TQ.Watched(found, reading)
        invariant SweepFrom(watch.table, rfds, left, i, found) == SweepFrom(t, rfds, n, 0, [])
      {
        left, found := ScanSlot(i, rfds, left, reading, old(pending), found);
        i := i + 1;
      }
    }
  }

  lemma WatchedSnoc(evs: seq<RilEvent>, ev: RilEvent, reading: int)
    ensures TQ.Watched(evs + [ev], reading) == TQ.Watched(evs, reading) + [TQ.Flight(ev, reading, TQ.Watch)]
  {}
}
