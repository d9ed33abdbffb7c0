/** The timer list and the pending list of the event loop, as values: a timer in flight sits in one of the two. */
module TimerQueue {
  import opened Sequences

  /** What an event on one of the two lists will do when it fires. */
  datatype Kind = WakeTimeout | UserTimer | Watch

  /** An event in flight; `ev` is the identity of the event record, `deadline` is in microseconds. */
  datatype Flight<E> = Flight(ev: E, deadline: int, kind: Kind)

  predicate Sorted<E>(fs: seq<Flight<E>>) {
    forall i, j | 0 <= i < j < |fs| :: fs[i].deadline <= fs[j].deadline
  }

  lemma FirstIsEarliest<E>(fs: seq<Flight<E>>)
    requires Sorted(fs) && fs != []
    ensures forall g | g in fs :: fs[0].deadline <= g.deadline
  {
    forall g | g in fs ensures fs[0].deadline <= g.deadline {
      var i :| 0 <= i < |fs| && fs[i] == g;
    }
  }

  /** No event record is linked twice. */
  predicate Distinct<E(==)>(fs: seq<Flight<E>>) {
    forall i, j | 0 <= i < j < |fs| :: fs[i].ev != fs[j].ev
  }

  predicate Apart<E(==)>(fs: seq<Flight<E>>, gs: seq<Flight<E>>) {
    forall i, j | 0 <= i < |fs| && 0 <= j < |gs| :: fs[i].ev != gs[j].ev
  }

  predicate Holds<E(==)>(fs: seq<Flight<E>>, e: E) {
    exists i | 0 <= i < |fs| :: fs[i].ev == e
  }

  /** Length of the longest prefix whose deadlines are all before `t`. */
  function CountBelow<E>(fs: seq<Flight<E>>, t: int): (k: nat)
    ensures k <= |fs|
  {
    if fs == [] || fs[0].deadline >= t then 0 else 1 + CountBelow(fs[1..], t)
  }

  lemma {:induction false} CountBelowSplits<E>(fs: seq<Flight<E>>, t: int)
    ensures forall i | 0 <= i < CountBelow(fs, t) :: fs[i].deadline < t
    ensures CountBelow(fs, t) < |fs| ==> fs[CountBelow(fs, t)].deadline >= t
  {
    if fs != [] && fs[0].deadline < t {
      CountBelowSplits(fs[1..], t);
      assert forall i | 0 < i < |fs| :: fs[i] == fs[1..][i - 1];
    }
  }

  /** `CountBelow` is the only position that separates a prefix of earlier deadlines from a later one. */
  lemma CountBelowIs<E>(fs: seq<Flight<E>>, t: int, k: nat)
    requires k <= |fs|
    requires forall i | 0 <= i < k :: fs[i].deadline < t
    requires k < |fs| ==> fs[k].deadline >= t
    ensures k == CountBelow(fs, t)
  {
    CountBelowSplits(fs, t);
  }

  /** Ready events as flights; a reading stands in for the deadline they do not have. */
  function Watched<E>(evs: seq<E>, reading: int): seq<Flight<E>> {
    seq(|evs|, i requires 0 <= i < |evs| => Flight(evs[i], reading, Watch))
  }

  lemma InsertBag<T>(s: seq<T>, k: nat, x: T)
    requires k <= |s|
    ensures multiset(InsertAt(s, k, x)) == multiset(s) + multiset{x}
  {
    assert s == s[..k] + s[k..];
  }

  /** `ril_timer_add`: before the first deadline that is not less than the new one. */
  function Insert<E>(fs: seq<Flight<E>>, f: Flight<E>): seq<Flight<E>> {
    InsertAt(fs, CountBelow(fs, f.deadline), f)
  }

  lemma InsertSorted<E>(fs: seq<Flight<E>>, f: Flight<E>)
    requires Sorted(fs)
    ensures Sorted(Insert(fs, f))
  {
    var k, r := CountBelow(fs, f.deadline), Insert(fs, f);
    CountBelowSplits(fs, f.deadline);
    forall i, j | 0 <= i < j < |r| ensures r[i].deadline <= r[j].deadline {
      assert i < k ==> r[i] == fs[i];
      assert j < k ==> r[j] == fs[j];
      assert i > k ==> r[i] == fs[i - 1];
      assert j > k ==> r[j] == fs[j - 1];
    }
  }

  lemma InsertDistinct<E>(fs: seq<Flight<E>>, f: Flight<E>)
    requires Distinct(fs) && !Holds(fs, f.ev)
    ensures Distinct(Insert(fs, f))
  {
    var k, r := CountBelow(fs, f.deadline), Insert(fs, f);
    forall i, j | 0 <= i < j < |r| ensures r[i].ev != r[j].ev {
      assert i < k ==> r[i] == fs[i];
      assert j < k ==> r[j] == fs[j];
      assert i > k ==> r[i] == fs[i - 1];
      assert j > k ==> r[j] == fs[j - 1];
    }
  }

  lemma InsertMembers<E>(fs: seq<Flight<E>>, f: Flight<E>)
    ensures forall g :: g in Insert(fs, f) <==> g == f || g in fs
  {
    var r := Insert(fs, f);
    InsertBag(fs, CountBelow(fs, f.deadline), f);
    forall g ensures g in r <==> g == f || g in fs {
      assert g in r <==> g in multiset(r);
      assert g in fs <==> g in multiset(fs);
    }
  }

  lemma SplitBag<T>(s: seq<T>, k: nat)
    requires k <= |s|
    ensures multiset(s) == multiset(s[..k]) + multiset(s[k..])
  {
    assert s == s[..k] + s[k..];
  }

  lemma SplitMembers<T>(s: seq<T>, k: nat)
    requires k <= |s|
    ensures forall x :: x in s <==> x in s[..k] || x in s[k..]
  {
    assert s == s[..k] + s[k..];
  }

  /** On a sorted list the prefix before `t` is everything before `t`. */
  lemma SplitIsComplete<E>(fs: seq<Flight<E>>, t: int)
    requires Sorted(fs)
    ensures forall f | f in fs[CountBelow(fs, t)..] :: f.deadline >= t
    ensures forall f | f in fs[..CountBelow(fs, t)] :: f.deadline < t
    ensures forall f :: f in fs <==> f in fs[..CountBelow(fs, t)] || f in fs[CountBelow(fs, t)..]
    ensures multiset(fs) == multiset(fs[..CountBelow(fs, t)]) + multiset(fs[CountBelow(fs, t)..])
  {
    var k := CountBelow(fs, t);
    CountBelowSplits(fs, t);
    SplitBag(fs, k);
    SplitMembers(fs, k);
  }
}
