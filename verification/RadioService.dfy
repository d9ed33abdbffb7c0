/** The callback fields and generation counters of `ril_service.cpp`, changed as the threads of `CallbackGuard` step. */
module RadioServices {
  import opened Options
  import opened CallbackGuard

  /** A client object; only some implement version 1.1 of the interface. */
  datatype Client = Client(id: int, isV11: bool)

  function CastV11(c: Option<Client>): Option<Client> {
    if c.Some? && c.value.isV11 then c else None
  }

  predicate IsV11(c: Option<Client>) {
    c.Some? && c.value.isV11
  }

  /** The callbacks of one service on one slot, and their generation counter. */
  datatype Callbacks = Callbacks(response: Option<Client>, indication: Option<Client>,
                                 responseV11: Option<Client>, indicationV11: Option<Client>, counter: int)

  const NO_CALLBACKS := Callbacks(None, None, None, None, 0)

  /** The fields of a key say whether a registration is installed; version 1.1 callbacks come as a pair. */
  ghost predicate Matches(c: Callbacks, s: State, key: Key) {
    && c.counter == CounterOf(s, key)
    && (InstalledOn(s, key).Some? <==> c.response.Some? || c.indication.Some?)
    && (if IsV11(c.response) && IsV11(c.indication)
        then c.responseV11 == c.response && c.indicationV11 == c.indication
        else c.responseV11 == None && c.indicationV11 == None)
  }

  lemma OtherKeysMatch(simCount: int, s: State, step: Step, key: Key, c: Callbacks)
    requires Enabled(simCount, s, step) && Matches(c, s, key)
    requires step.Install? || step.Check? ==> PcOf(s, step.t).key != key
    ensures Matches(c, Next(simCount, s, step), key)
  {}

  /**
    A step of another thread, with what that thread knows: the key it works on, the clients it registers, the
    counter it has noted.
   */
  datatype Act = Act(step: Step, key: Key, response: Option<Client>, indication: Option<Client>, noted: int)

  /** The data of an act are those of its step. */
  predicate Fits(s: State, act: Act) {
    var pc := PcOf(s, act.step.t);
    && (act.step.Install? ==> pc == Installing(act.key))
    && (act.step.Install? ==> (act.step.isNull <==> act.response.None? && act.indication.None?))
    && (act.step.Check? ==> pc.Exclusive? && pc.key == act.key && pc.counter == act.noted)
  }

  /** What other threads may do, in this order, while thread `t` waits. */
  predicate Others(simCount: int, s: State, t: Thread, acts: seq<Act>)
    decreases |acts|
  {
    acts != [] ==>
      && acts[0].step.t != t && Enabled(simCount, s, acts[0].step) && Fits(s, acts[0])
      && Others(simCount, Next(simCount, s, acts[0].step), t, acts[1..])
  }

  function Ran(simCount: int, s: State, t: Thread, acts: seq<Act>): State
    requires Others(simCount, s, t, acts)
    decreases |acts|
  {
    if acts == [] then s else Ran(simCount, Next(simCount, s, acts[0].step), t, acts[1..])
  }

  /** Nobody else moves a thread, and no registration that has gone comes back. */
  lemma {:induction false} OthersLeave(simCount: int, s: State, t: Thread, acts: seq<Act>, key: Key, on: Id)
    requires Others(simCount, s, t, acts) && on < s.next && InstalledOn(s, key) != Some(on)
    ensures var s' := Ran(simCount, s, t, acts);
      PcOf(s', t) == PcOf(s, t) && on < s'.next && InstalledOn(s', key) != Some(on)
    decreases |acts|
  {
    if acts != [] {
      OthersLeave(simCount, Next(simCount, s, acts[0].step), t, acts[1..], key, on);
    }
  }

  lemma {:induction false} OthersLeavePc(simCount: int, s: State, t: Thread, acts: seq<Act>)
    requires Others(simCount, s, t, acts)
    ensures PcOf(Ran(simCount, s, t, acts), t) == PcOf(s, t)
    decreases |acts|
  {
    if acts != [] {
      OthersLeavePc(simCount, Next(simCount, s, acts[0].step), t, acts[1..]);
    }
  }

  /** The counter noted, and the lock of the caller given up. */
  function GivenUp(simCount: int, s: State, t: Thread): State
    requires Enabled(simCount, s, Note(t))
  {
    Next(simCount, Next(simCount, s, Note(t)), Step.Unlock(t))
  }

  /** Others run until the lock can be taken for writing. */
  predicate FirstWait(simCount: int, s: State, t: Thread, acts: seq<Act>) {
    && Enabled(simCount, s, Note(t)) && Others(simCount, GivenUp(simCount, s, t), t, acts)
    && Enabled(simCount, Ran(simCount, GivenUp(simCount, s, t), t, acts), Wrlock(t))
  }

  function Locked(simCount: int, s: State, t: Thread, acts: seq<Act>): State
    requires FirstWait(simCount, s, t, acts)
  {
    Next(simCount, Ran(simCount, GivenUp(simCount, s, t), t, acts), Wrlock(t))
  }

  /** The counters compared, and the write lock released. */
  function GivenBack(simCount: int, s: State, t: Thread): State
    requires Enabled(simCount, s, Check(t))
  {
    Next(simCount, Next(simCount, s, Check(t)), Step.Unlock(t))
  }

  /** Others run until the lock can be taken for reading. */
  predicate SecondWait(simCount: int, s: State, t: Thread, acts: seq<Act>) {
    && Enabled(simCount, s, Check(t)) && Others(simCount, GivenBack(simCount, s, t), t, acts)
    && Enabled(simCount, Ran(simCount, GivenBack(simCount, s, t), t, acts), Relock(t))
  }

  class RadioService {
    const simCount: int
    var fields: map<Key, Callbacks>
    ghost var trace: Trace

    ghost function Now(): State
      reads this`trace
      requires Legal(simCount, trace)
    {
      Exec(simCount, trace)
    }

    function Of(key: Key): Callbacks
      reads this`fields
    {
      if key in fields then fields[key] else NO_CALLBACKS
    }

    ghost predicate Shows(key: Key)
      reads this`fields, this`trace
      requires Legal(simCount, trace)
    {
      Matches(Of(key), Now(), key)
    }

    ghost predicate Valid()
      reads this`fields, this`trace
    {
      Legal(simCount, trace) && forall key :: Shows(key)
    }

    constructor (simCount: int)
      ensures Valid() && trace == Start
    {
      this.simCount := simCount;
      fields := map[];
      trace := Start;
    }

    /** A step that leaves the fields alone. */
    ghost method Took(step: Step)
      requires Valid() && Enabled(simCount, Now(), step) && !step.Check? && !step.Install?
      modifies this`trace
      ensures Valid() && trace == Then(old(trace), step) && Now() == old(Next(simCount, Now(), step))
    {
      assert forall key :: Shows(key);
      trace := Then(trace, step);
      forall key ensures Shows(key) {
        assert old(Shows(key));
      }
    }

    /** `setResponseFunctions` under the write lock. */
    method SetResponseFunctions(t: Thread, key: Key, responseParam: Option<Client>, indicationParam: Option<Client>)
      requires Valid() && PcOf(Now(), t) == Installing(key)
      requires Enabled(simCount, Now(), Install(t, responseParam.None? && indicationParam.None?))
      modifies this
      ensures Valid() && trace == Then(old(trace), Install(t, responseParam.None? && indicationParam.None?))
      ensures Now() == old(Next(simCount, Now(), Install(t, responseParam.None? && indicationParam.None?)))
      ensures Of(key).response == responseParam && Of(key).indication == indicationParam
      ensures var both := IsV11(responseParam) && IsV11(indicationParam);
        && Of(key).responseV11 == (if both then responseParam else None)
        && Of(key).indicationV11 == (if both then indicationParam else None)
      ensures forall k | k != key :: Of(k) == old(Of(k))
    {
      var responseV11, indicationV11 := CastV11(responseParam), CastV11(indicationParam);
      if responseV11.None? || indicationV11.None? {
        responseV11, indicationV11 := None, None;
      }
      fields := fields[key := Callbacks(responseParam, indicationParam, responseV11, indicationV11,
                                       Of(key).counter + 1)];
      trace := Then(trace, Install(t, responseParam.None? && indicationParam.None?));
      forall k ensures Shows(k) {
        assert old(Shows(k));
        if k != key {
          OtherKeysMatch(simCount, old(Now()), trace.step, k, Of(k));
        }
      }
    }

    /** `checkReturnStatus` under the write lock, for the counter that was noted before the lock was given up. */
    method ResetIfUnchanged(t: Thread, key: Key, noted: int)
      requires Valid() && Enabled(simCount, Now(), Check(t))
      requires PcOf(Now(), t).key == key && PcOf(Now(), t).counter == noted
      modifies this
      ensures Valid() && trace == Then(old(trace), Check(t)) && Now() == old(Next(simCount, Now(), Check(t)))
      ensures Of(key) == if noted == old(Of(key)).counter then NO_CALLBACKS.(counter := noted + 1) else old(Of(key))
      ensures forall k | k != key :: Of(k) == old(Of(k))
    {
      if noted == Of(key).counter {
        fields := fields[key := Callbacks(None, None, None, None, noted + 1)];
      }
      trace := Then(trace, Check(t));
      forall k ensures Shows(k) {
        assert old(Shows(k));
        if k != key {
          OtherKeysMatch(simCount, old(Now()), trace.step, k, Of(k));
        }
      }
    }

    /** One step of another thread. */
    method Perform(act: Act)
      requires Valid() && Enabled(simCount, Now(), act.step) && Fits(Now(), act)
      modifies this
      ensures Valid() && trace == Then(old(trace), act.step) && Now() == old(Next(simCount, Now(), act.step))
    {
      if act.step.Install? {
        SetResponseFunctions(act.step.t, act.key, act.response, act.indication);
      } else if act.step.Check? {
        ResetIfUnchanged(act.step.t, act.key, act.noted);
      } else {
        Took(act.step);
      }
    }

    /** What other threads do while `t` waits for a lock. */
    method Wait(t: Thread, acts: seq<Act>)
      requires Valid() && Others(simCount, Now(), t, acts)
      modifies this
      ensures Valid() && Now() == old(Ran(simCount, Now(), t, acts))
    {
      for i := 0 to |acts|
        invariant Valid() && Others(simCount, Now(), t, acts[i..])
        invariant Ran(simCount, Now(), t, acts[i..]) == old(Ran(simCount, Now(), t, acts))
      {
        assert acts[i..][1..] == acts[i + 1..];
        Perform(acts[i]);
      }
    }

    /** Up to the write lock. */
    method NoteAndLock(t: Thread, key: Key, acts: seq<Act>) returns (counter: int)
      requires Valid() && FirstWait(simCount, Now(), t, acts) && PcOf(Now(), t).key == key
      modifies this
      ensures Valid() && Now() == old(Locked(simCount, Now(), t, acts))
      ensures PcOf(Now(), t) == Exclusive(key, old(PcOf(Now(), t).on), counter)
    {
      counter := Of(key).counter;
      assert Shows(key);
      OthersLeavePc(simCount, GivenUp(simCount, Now(), t), t, acts);
      Took(Note(t));
      Took(Step.Unlock(t));
      Wait(t, acts);
      Took(Wrlock(t));
    }

    /** From the write lock on. */
    method CheckAndReturn(t: Thread, key: Key, counter: int, acts: seq<Act>, ghost on: Id)
      requires Valid() && PcOf(Now(), t) == Exclusive(key, on, counter) && SecondWait(simCount, Now(), t, acts)
      modifies this
      ensures Valid() && PcOf(Now(), t) == Inside(key.slot, Read) && InstalledOn(Now(), key) != Some(on)
    {
      CheckDropsExactlyTheDeadClient(simCount, trace, t);
      Reachable(simCount, trace);
      assert ThreadInv(Now(), PcOf(Now(), t));
      ResetIfUnchanged(t, key, counter);
      Took(Step.Unlock(t));
      OthersLeave(simCount, Now(), t, acts, key, on);
      Wait(t, acts);
      Took(Relock(t));
    }

    /**
      `checkReturnStatus` for a call that failed on the registration `on`, with other threads at work during its two
      waits: it returns with the read lock, held once, and the registration it failed on is not installed any more.
     */
    method CheckReturnStatus(t: Thread, key: Key, first: seq<Act>, second: seq<Act>)
      requires Valid() && FirstWait(simCount, Now(), t, first) && PcOf(Now(), t).key == key
      requires SecondWait(simCount, Locked(simCount, Now(), t, first), t, second)
      modifies this
      ensures Valid() && PcOf(Now(), t) == Inside(key.slot, Read)
      ensures var l := LockOf(simCount, key.slot); Now().locks[l].readers[t] == 1 && Now().locks[l].writer.None?
      ensures InstalledOn(Now(), key) != Some(old(PcOf(Now(), t).on))
    {
      ghost var on := PcOf(Now(), t).on;
      var counter := NoteAndLock(t, key, first);
      CheckAndReturn(t, key, counter, second, on);
      HoldsReadLockOnce(simCount, trace, t);
    }
  }
}
