/** Event records and the intrusive circular doubly linked lists that hold them. */
module RilEvents {
  import opened Sequences
  import opened Timevals

  /** What a timed callback calls in turn: the wake timeout, or anything a client asked for. */
  datatype TimedCallback = WakeTimeoutCallback | ClientCallback

  datatype Callback = UserTimerCallback(callback: TimedCallback) | WatchCallback

  /**
    A `ril_event`. The event of a timed callback is embedded in a `UserCallbackInfo`, so one object stands
    for both: `func` then also says what to call, and `param` is the `userParam` to call it with.
   */
  class RilEvent {
    var next: RilEvent?
    var prev: RilEvent?
    var fd: int
    var index: int
    var persist: bool
    var timeout: Timeval
    var func: Callback
    var param: int

    /** `ril_event_set`; `O_NONBLOCK` on the descriptor is not part of the record. */
    constructor (fd: int, persist: bool, func: Callback, param: int)
      ensures this.next == null && this.prev == null
      ensures this.fd == fd && this.index == -1 && this.persist == persist
      ensures this.timeout == ZERO
      ensures this.func == func && this.param == param
    {
      this.next, this.prev := null, null;
      this.fd, this.index, this.persist := fd, -1, persist;
      this.timeout := ZERO;
      this.func, this.param := func, param;
    }

    /** `init_list`: a zeroed record that is a ring of its own. */
    constructor InitList()
      ensures Ring(this, [])
      ensures fd == -1 && timeout == ZERO
    {
      next, prev := this, this;
      fd, index, persist, timeout := -1, 0, false, ZERO;
      func, param := WatchCallback, 0;
    }
  }

  /** The record at position `i` of the ring; one step off either end is the head. */
  function At(head: RilEvent, s: seq<RilEvent>, i: int): RilEvent {
    if 0 <= i < |s| then s[i] else head
  }

  /** The records at positions `i` and `i + 1` point at each other. */
  ghost predicate Link(head: RilEvent, s: seq<RilEvent>, i: int)
    reads At(head, s, i)`next, At(head, s, i + 1)`prev
  {
    At(head, s, i).next == At(head, s, i + 1) && At(head, s, i + 1).prev == At(head, s, i)
  }

  ghost predicate NoRepeats(head: RilEvent, s: seq<RilEvent>) {
    head !in s && forall i, j | 0 <= i < j < |s| :: s[i] != s[j]
  }

  /** `head` and the records of `s`, in this order, form one circular doubly linked list. */
  ghost predicate Ring(head: RilEvent, s: seq<RilEvent>)
    reads head`next, head`prev, s`next, s`prev
  {
    NoRepeats(head, s) && forall i | -1 <= i < |s| :: Link(head, s, i)
  }

  lemma PlacesAfterInsert(head: RilEvent, s: seq<RilEvent>, k: nat, ev: RilEvent)
    requires k <= |s| && NoRepeats(head, s) && ev != head && ev !in s
    ensures NoRepeats(head, InsertAt(s, k, ev))
    ensures forall i | -1 <= i < k :: At(head, InsertAt(s, k, ev), i) == At(head, s, i)
    ensures forall i | k < i <= |s| + 1 :: At(head, InsertAt(s, k, ev), i) == At(head, s, i - 1)
    ensures At(head, InsertAt(s, k, ev), k) == ev
  {
    var r := InsertAt(s, k, ev);
    assert forall i | 0 <= i < |r| :: r[i] == if i < k then s[i] else if i == k then ev else s[i - 1];
  }

  lemma PlacesAfterRemove(head: RilEvent, s: seq<RilEvent>, k: nat)
    requires k < |s| && NoRepeats(head, s)
    ensures NoRepeats(head, RemoveAt(s, k))
    ensures forall i | -1 <= i < k :: At(head, RemoveAt(s, k), i) == At(head, s, i)
    ensures forall i | k <= i < |s| :: At(head, RemoveAt(s, k), i) == At(head, s, i + 1)
  {
    var r := RemoveAt(s, k);
    assert forall i | 0 <= i < |r| :: r[i] == if i < k then s[i] else s[i + 1];
  }

  /** `addToList`: links `ev` in before the record `list`, which may be the head itself. */
  method AddToList(ev: RilEvent, list: RilEvent, ghost head: RilEvent, ghost s: seq<RilEvent>, ghost k: nat)
    requires Ring(head, s) && ev != head && ev !in s
    requires k <= |s| && list == At(head, s, k)
    modifies ev`next, ev`prev, list`prev, At(head, s, k - 1)`next
    ensures Ring(head, InsertAt(s, k, ev))
  {
    assert Link(head, s, k - 1);
    ev.next := list;
    ev.prev := list.prev;
    ev.prev.next := ev;
    list.prev := ev;
    PlacesAfterInsert(head, s, k, ev);
    ghost var r := InsertAt(s, k, ev);
    forall i | -1 <= i < |r| ensures Link(head, r, i) {
      if i < k - 1 {
        assert old(Link(head, s, i));
      } else if i > k {
        assert old(Link(head, s, i - 1));
      }
    }
  }

  /** `removeFromList`. */
  method RemoveFromList(ev: RilEvent, ghost head: RilEvent, ghost s: seq<RilEvent>, ghost k: nat)
    requires Ring(head, s) && k < |s| && s[k] == ev
    modifies ev`next, ev`prev, At(head, s, k + 1)`prev, At(head, s, k - 1)`next
    ensures Ring(head, RemoveAt(s, k))
    ensures ev.next == null && ev.prev == null
  {
    assert Link(head, s, k - 1) && Link(head, s, k);
    ev.next.prev := ev.prev;
    ev.prev.next := ev.next;
    ev.next := null;
    ev.prev := null;
    PlacesAfterRemove(head, s, k);
    ghost var r := RemoveAt(s, k);
    forall i | -1 <= i < |r| ensures Link(head, r, i) {
      if i < k - 1 {
        assert old(Link(head, s, i));
      } else if i > k - 1 {
        assert old(Link(head, s, i + 1));
      }
    }
  }

  predicate OnRing(head: RilEvent, s: seq<RilEvent>, ev: RilEvent) {
    ev == head || ev in s
  }

  /** Two rings that share no record. */
  ghost predicate TwoRings(head: RilEvent, s: seq<RilEvent>, other: RilEvent, t: seq<RilEvent>)
    reads head`next, head`prev, s`next, s`prev, other`next, other`prev, t`next, t`prev
  {
    && Ring(head, s) && Ring(other, t)
    && head != other && head !in t && other !in s
    && forall ev | ev in s :: ev !in t
  }

  /** Linking into one of two rings leaves the other alone. */
  method AddBeside(ev: RilEvent, list: RilEvent, ghost head: RilEvent, ghost s: seq<RilEvent>, ghost k: nat,
                   ghost other: RilEvent, ghost t: seq<RilEvent>)
    requires TwoRings(head, s, other, t)
    requires ev != head && ev != other && ev !in s && ev !in t
    requires k <= |s| && list == At(head, s, k)
    modifies ev`next, ev`prev, head`next, head`prev, s`next, s`prev
    ensures TwoRings(head, InsertAt(s, k, ev), other, t)
  {
    assert OnRing(head, s, At(head, s, k - 1)) && OnRing(head, s, At(head, s, k));
    AddToList(ev, list, head, s, k);
    forall i | -1 <= i < |t| ensures Link(other, t, i) {
      assert old(Link(other, t, i));
      assert OnRing(other, t, At(other, t, i)) && OnRing(other, t, At(other, t, i + 1));
    }
  }

  method RemoveBeside(ev: RilEvent, ghost head: RilEvent, ghost s: seq<RilEvent>, ghost k: nat,
                      ghost other: RilEvent, ghost t: seq<RilEvent>)
    requires TwoRings(head, s, other, t) && k < |s| && s[k] == ev
    modifies head`next, head`prev, s`next, s`prev
    ensures TwoRings(head, RemoveAt(s, k), other, t)
    ensures ev.next == null && ev.prev == null
  {
    assert OnRing(head, s, At(head, s, k - 1)) && OnRing(head, s, At(head, s, k + 1));
    RemoveFromList(ev, head, s, k);
    forall i | -1 <= i < |t| ensures Link(other, t, i) {
      assert old(Link(other, t, i));
      assert OnRing(other, t, At(other, t, i)) && OnRing(other, t, At(other, t, i + 1));
    }
  }

  /** Moves the first record of one ring to the tail of the other. */
  method MoveToTail(ev: RilEvent, list: RilEvent, ghost head: RilEvent, ghost s: seq<RilEvent>, ghost t: seq<RilEvent>)
    requires TwoRings(head, s, list, t) && s != [] && s[0] == ev
    modifies head`next, head`prev, s`next, s`prev, list`next, list`prev, t`next, t`prev
    ensures TwoRings(head, s[1..], list, t + [ev])
  {
    RemoveBeside(ev, head, s, 0, list, t);
    ghost var rest := s[1..];
    assert RemoveAt(s, 0) == rest;
    AddBeside(ev, list, list, t, |t|, head, rest);
    assert InsertAt(t, |t|, ev) == t + [ev];
  }

  /** Appends to the second of two rings. */
  method AddToTail(ev: RilEvent, list: RilEvent, ghost head: RilEvent, ghost s: seq<RilEvent>, ghost t: seq<RilEvent>)
    requires TwoRings(head, s, list, t)
    requires ev != head && ev != list && ev !in s && ev !in t
    modifies ev`next, ev`prev, list`next, list`prev, t`next, t`prev
    ensures TwoRings(head, s, list, t + [ev])
  {
    AddBeside(ev, list, list, t, |t|, head, s);
    assert InsertAt(t, |t|, ev) == t + [ev];
  }

  /** Unlinks the first record of the second of two rings. */
  method RemoveFirst(ev: RilEvent, ghost list: RilEvent, ghost head: RilEvent,
                       ghost s: seq<RilEvent>, ghost t: seq<RilEvent>)
    requires TwoRings(head, s, list, t) && t != [] && t[0] == ev
    modifies list`next, list`prev, t`next, t`prev
    ensures TwoRings(head, s, list, t[1..])
    ensures ev.next == null && ev.prev == null
  {
    RemoveBeside(ev, list, t, 0, head, s);
    assert RemoveAt(t, 0) == t[1..];
  }
}
