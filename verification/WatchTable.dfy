/** The fixed table of watched descriptors, the fd set built from it, and the `nfds` bound for select. */
module WatchTables {
  import opened RilEvents

  const MAX_FD_EVENTS := 8

  /** One slot of the table as a value. */
  datatype Slot<+E> = Free | Used(ev: E, fd: int, persist: bool)

  function Fds<E(==)>(t: seq<Slot<E>>): set<int> {
    set i | 0 <= i < |t| && t[i].Used? :: t[i].fd
  }

  predicate DistinctFds<E>(t: seq<Slot<E>>) {
    forall i, j | 0 <= i < j < |t| && t[i].Used? && t[j].Used? :: t[i].fd != t[j].fd
  }

  /** `nfds` is the largest watched descriptor plus one, or at most one when nothing is watched. */
  predicate Bounds<E>(t: seq<Slot<E>>, nfds: int) {
    && 0 <= nfds
    && (forall i | 0 <= i < |t| && t[i].Used? :: 0 <= t[i].fd < nfds)
    && (nfds > 1 ==> exists i :: 0 <= i < |t| && t[i].Used? && t[i].fd + 1 == nfds)
  }

  lemma BoundsMeansLargest<E>(t: seq<Slot<E>>, nfds: int)
    requires Bounds(t, nfds)
    ensures Fds(t) != {} ==> nfds - 1 in Fds(t) && forall fd | fd in Fds(t) :: fd <= nfds - 1
    ensures Fds(t) == {} ==> nfds <= 1
  {
    if Fds(t) != {} {
      var fd :| fd in Fds(t);
      if nfds > 1 {
        var i :| 0 <= i < |t| && t[i].Used? && t[i].fd + 1 == nfds;
        assert t[i].fd in Fds(t);
      }
    } else {
      assert forall i | 0 <= i < |t| && t[i].Used? :: t[i].fd in Fds(t);
    }
  }

  predicate Consistent<E(==)>(t: seq<Slot<E>>, readFds: set<int>, nfds: int) {
    DistinctFds(t) && readFds == Fds(t) && Bounds(t, nfds)
  }

  // ---------------------------------------------------------------- which ready events the scan finds

  predicate IsReady<E>(slot: Slot<E>, rfds: set<int>) {
    slot.Used? && slot.fd in rfds
  }

  /** Everything ready, in slot order. */
  function AllReady<E>(t: seq<Slot<E>>, rfds: set<int>): seq<E> {
    if t == [] then []
    else (if IsReady(t[0], rfds) then [t[0].ev] else []) + AllReady(t[1..], rfds)
  }

  /** What a slot becomes when the scan has visited it: ready events leave unless they are persistent. */
  function AfterSlot<E>(t: seq<Slot<E>>, i: nat, rfds: set<int>): (u: seq<Slot<E>>)
    requires i < |t|
    ensures |u| == |t|
  {
    if IsReady(t[i], rfds) && !t[i].persist then t[i := Free] else t
  }

  /** The outcome of a scan: the events found, in order, and the table it leaves. */
  datatype Sweep<+E> = Sweep(found: seq<E>, table: seq<Slot<E>>)

  /** processReadReadies from slot `i` on: it stops once its countdown from `n` reaches zero. */
  function SweepFrom<E>(t: seq<Slot<E>>, rfds: set<int>, n: int, i: nat, found: seq<E>): (r: Sweep<E>)
    requires i <= |t|
    ensures |r.table| == |t|
    decreases |t| - i
  {
    if i == |t| || n <= 0 then Sweep(found, t)
    else if IsReady(t[i], rfds) then SweepFrom(AfterSlot(t, i, rfds), rfds, n - 1, i + 1, found + [t[i].ev])
    else SweepFrom(t, rfds, n, i + 1, found)
  }

  /** The scan finds nothing but watched events. */
  lemma {:induction false} SweepFindsWatched<E>(t: seq<Slot<E>>, rfds: set<int>, n: int, i: nat,
                                                found: seq<E>, evs: set<E>)
    requires i <= |t| && forall j | 0 <= j < |t| && t[j].Used? :: t[j].ev in evs
    requires forall ev | ev in found :: ev in evs
    ensures forall ev | ev in SweepFrom(t, rfds, n, i, found).found :: ev in evs
    decreases |t| - i
  {
    if i < |t| && n > 0 {
      if IsReady(t[i], rfds) {
        SweepFindsWatched(AfterSlot(t, i, rfds), rfds, n - 1, i + 1, found + [t[i].ev], evs);
      } else {
        SweepFindsWatched(t, rfds, n, i + 1, found, evs);
      }
    }
  }

  lemma {:induction false} CountdownSuffices<E>(t: seq<Slot<E>>, rfds: set<int>, n: int, i: nat, found: seq<E>)
    requires i <= |t| && n >= |AllReady(t[i..], rfds)|
    ensures SweepFrom(t, rfds, n, i, found).found == found + AllReady(t[i..], rfds)
    ensures forall j | 0 <= j < |t| ::
              SweepFrom(t, rfds, n, i, found).table[j] ==
              if j >= i && IsReady(t[j], rfds) && !t[j].persist then Free else t[j]
    decreases |t| - i
  {
    if i < |t| {
      assert t[i..][1..] == t[i + 1..];
      if n <= 0 {
        NoneReady(t[i..], rfds);
        assert forall j | i <= j < |t| :: t[j] == t[i..][j - i];
      } else {
        var u := AfterSlot(t, i, rfds);
        assert u[i + 1..] == t[i + 1..];
        CountdownSuffices(u, rfds, if IsReady(t[i], rfds) then n - 1 else n, i + 1,
                          if IsReady(t[i], rfds) then found + [t[i].ev] else found);
      }
    }
  }

  lemma {:induction false} NoneReady<E>(t: seq<Slot<E>>, rfds: set<int>)
    requires AllReady(t, rfds) == []
    ensures forall i | 0 <= i < |t| :: !IsReady(t[i], rfds)
  {
    if t != [] {
      NoneReady(t[1..], rfds);
      assert forall i | 0 < i < |t| :: t[i] == t[1..][i - 1];
    }
  }

  lemma FdsSplit<E>(t: seq<Slot<E>>)
    requires t != []
    ensures Fds(t) == (if t[0].Used? then {t[0].fd} else {}) + Fds(t[1..])
    ensures DistinctFds(t) ==> DistinctFds(t[1..]) && (t[0].Used? ==> t[0].fd !in Fds(t[1..]))
  {
    var rest := t[1..];
    forall fd | fd in Fds(rest) ensures fd in Fds(t) {
      var i :| 0 <= i < |rest| && rest[i].Used? && rest[i].fd == fd;
      assert t[i + 1] == rest[i];
    }
    forall fd | fd in Fds(t) ensures fd in Fds(rest) || (t[0].Used? && fd == t[0].fd) {
      var i :| 0 <= i < |t| && t[i].Used? && t[i].fd == fd;
      if i > 0 {
        assert rest[i - 1] == t[i];
      }
    }
  }

  /** With distinct descriptors the ready events are as many as the ready descriptors that are watched. */
  lemma {:induction false} ReadyCount<E>(t: seq<Slot<E>>, rfds: set<int>)
    requires DistinctFds(t)
    ensures |AllReady(t, rfds)| == |rfds * Fds(t)|
  {
    if t == [] {
      assert rfds * Fds(t) == {};
    } else {
      var rest := Fds(t[1..]);
      FdsSplit(t);
      ReadyCount(t[1..], rfds);
      if IsReady(t[0], rfds) {
        assert rfds * Fds(t) == {t[0].fd} + rfds * rest;
      } else {
        assert rfds * Fds(t) == rfds * rest;
      }
    }
  }

  /**
    When select reports n ready descriptors and all of them are watched, the countdown never cuts the
    scan short: every ready event is appended exactly once, in slot order, and exactly the ready events
    that are not persistent leave the table.
   */
  lemma ScanIsComplete<E>(t: seq<Slot<E>>, rfds: set<int>, n: int)
    requires DistinctFds(t) && rfds <= Fds(t) && n == |rfds|
    ensures SweepFrom(t, rfds, n, 0, []).found == AllReady(t, rfds)
    ensures forall i | 0 <= i < |t| ::
              SweepFrom(t, rfds, n, 0, []).table[i] == if IsReady(t[i], rfds) && !t[i].persist then Free else t[i]
  {
    ReadyCount(t, rfds);
    assert rfds * Fds(t) == rfds;
    assert t[0..] == t;
    CountdownSuffices(t, rfds, n, 0, []);
  }

  // ---------------------------------------------------------------- the table itself

  /** The first free slot was taken, and `index` names it; a full table stays as it was, and `index` is -1. */
  ghost predicate Taken<E>(was: seq<Slot<E>>, now: seq<Slot<E>>, index: int, slot: Slot<E>) {
    if exists i | 0 <= i < |was| :: was[i] == Free then
      && 0 <= index < |was| && was[index] == Free && (forall i | 0 <= i < index :: was[i] != Free)
      && now == was[index := slot]
    else index == -1 && now == was
  }

  class WatchTable {
    const slots: array<RilEvent?>
    var readFds: set<int>
    var nfds: int
    /** The slots as a value. */
    ghost var table: seq<Slot<RilEvent>>
    /** The records that were ever put into the table. */
    ghost var events: set<RilEvent>

    ghost predicate Valid()
      reads this, slots, events`fd, events`index, events`persist
    {
      && slots.Length == MAX_FD_EVENTS == |table|
      && (forall i | 0 <= i < MAX_FD_EVENTS && slots[i] != null :: slots[i] in events && slots[i].index == i)
      && (forall i | 0 <= i < MAX_FD_EVENTS :: table[i] == SlotOf(slots[i]))
      && (forall ev | ev in events && 0 <= ev.index < MAX_FD_EVENTS :: slots[ev.index] == ev)
      && Consistent(table, readFds, nfds)
    }

    static ghost function SlotOf(ev: RilEvent?): Slot<RilEvent>
      reads if ev == null then {} else {ev}`fd, if ev == null then {} else {ev}`persist
    {
      if ev == null then Free else Used(ev, ev.fd, ev.persist)
    }

    /** The table part of `ril_event_init`. */
    constructor ()
      ensures Valid() && fresh(slots)
      ensures events == {} && |table| == 8 && forall i | 0 <= i < 8 :: table[i] == Free
    {
      slots := new RilEvent?[MAX_FD_EVENTS](_ => null);
      readFds, nfds, events := {}, 0, {};
      table := seq(MAX_FD_EVENTS, _ => Free);
    }

    /** `ril_event_add`: first free slot; when there is none the event is dropped silently. */
    method Add(ev: RilEvent)
      requires Valid() && ev.index == -1 && ev.fd >= 0 && ev.fd !in readFds
      modifies this, slots, ev`index
      ensures Valid() && events == old(events) + {ev}
      ensures Taken(old(table), table, ev.index, Used(ev, ev.fd, ev.persist))
    {
      for i := 0 to MAX_FD_EVENTS
        invariant forall j | 0 <= j < i :: table[j] != Free
        invariant unchanged(this) && unchanged(slots) && unchanged(ev`index)
      {
        if slots[i] == null {
          Put(ev, i);
          return;
        }
      }
      events := events + {ev};
    }

    /** The body of the loop in `ril_event_add`. */
    method Put(ev: RilEvent, i: nat)
      requires Valid() && ev.index == -1 && ev.fd >= 0 && ev.fd !in readFds
      requires i < MAX_FD_EVENTS && slots[i] == null
      modifies this, slots, ev`index
      ensures Valid() && events == old(events) + {ev}
      ensures table == old(table)[i := Used(ev, ev.fd, ev.persist)] && ev.index == i
    {
      Added(table, readFds, nfds, i, Used(ev, ev.fd, ev.persist));
      slots[i] := ev;
      ev.index := i;
      events := events + {ev};
      table := table[i := Used(ev, ev.fd, ev.persist)];
      readFds := readFds + {ev.fd};
      if ev.fd >= nfds {
        nfds := ev.fd + 1;
      }
    }

    /** `removeWatch`. */
    method RemoveWatch(ev: RilEvent, index: int)
      requires Valid() && 0 <= index < MAX_FD_EVENTS && slots[index] == ev
      modifies this, slots, ev`index
      ensures Valid() && events == old(events)
      ensures table == old(table)[index := Free] && ev.index == -1
      ensures slots[..] == old(slots[..])[index := null]
    {
      slots[index] := null;
      ev.index := -1;
      table := table[index := Free];
      readFds := readFds - {ev.fd};
      if ev.fd + 1 == nfds {
        var n := 0;
        for i := 0 to MAX_FD_EVENTS
          invariant 0 <= n
          invariant forall j | 0 <= j < i && table[j].Used? :: table[j].fd <= n
          invariant n > 0 ==> exists j :: 0 <= j < i && table[j].Used? && table[j].fd == n
          invariant ev.index == -1
        {
          var rev := slots[i];
          assert table[i] == SlotOf(rev);
          if rev != null && rev.fd > n {
            n := rev.fd;
          }
        }
        nfds := n + 1;
      }
      Removed(old(table), old(readFds), old(nfds), index, nfds);
    }

    /** `ril_event_del`: leaves the table alone unless the event is in it. */
    method Delete(ev: RilEvent)
      requires Valid() && (ev in events || ev.index == -1)
      modifies this, slots, ev`index
      ensures Valid() && events == old(events)
      ensures if 0 <= old(ev.index) < MAX_FD_EVENTS then table == old(table)[old(ev.index) := Free] && ev.index == -1
              else table == old(table) && ev.index == old(ev.index)
    {
      if ev.index < 0 || ev.index >= MAX_FD_EVENTS {
        return;
      }
      RemoveWatch(ev, ev.index);
    }
  }

  lemma Added<E>(t: seq<Slot<E>>, readFds: set<int>, nfds: int, i: nat, slot: Slot<E>)
    requires Consistent(t, readFds, nfds)
    requires i < |t| && t[i] == Free && slot.Used? && slot.fd >= 0 && slot.fd !in readFds
    ensures Consistent(t[i := slot], readFds + {slot.fd}, if slot.fd >= nfds then slot.fd + 1 else nfds)
  {
    var t', n := t[i := slot], if slot.fd >= nfds then slot.fd + 1 else nfds;
    assert forall j | 0 <= j < |t| && t[j].Used? :: t[j].fd in readFds;
    forall fd ensures fd in Fds(t') <==> fd in readFds + {slot.fd} {
      if fd == slot.fd {
        assert t'[i].fd == fd;
      } else if fd in readFds {
        var j :| 0 <= j < |t| && t[j].Used? && t[j].fd == fd;
        assert t'[j] == t[j];
      }
    }
    if n > 1 {
      var j := if n == nfds then (var j :| 0 <= j < |t| && t[j].Used? && t[j].fd + 1 == nfds; j) else i;
      assert t'[j].Used? && t'[j].fd + 1 == n;
    }
  }

  lemma Removed<E>(t: seq<Slot<E>>, readFds: set<int>, nfds: int, i: nat, nfds': int)
    requires Consistent(t, readFds, nfds)
    requires i < |t| && t[i].Used?
    requires if t[i].fd + 1 == nfds then Bounds(t[i := Free], nfds') else nfds' == nfds
    ensures Consistent(t[i := Free], readFds - {t[i].fd}, nfds')
  {
    var t' := t[i := Free];
    forall fd ensures fd in Fds(t') <==> fd in readFds - {t[i].fd} {
      if fd in readFds && fd != t[i].fd {
        var j :| 0 <= j < |t| && t[j].Used? && t[j].fd == fd;
        assert t'[j] == t[j];
      }
    }
    if nfds' == nfds > 1 && t[i].fd + 1 != nfds {
      var j :| 0 <= j < |t| && t[j].Used? && t[j].fd + 1 == nfds;
      assert t'[j] == t[j];
    }
  }
}
