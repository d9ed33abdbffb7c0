/** The pending requests of the daemon: singly linked lists, one per SIM slot, refined to the lists of `RequestLog`. */
module Requests {
  import opened RequestLog
  import opened RilVersions
  import opened Sequences

  class RequestInfo {
    const token: int
    const socketId: int
    const requestNumber: int
    var next: RequestInfo?
    var cancelled: int
    var local: int
    var wasAckSent: int

    /** `calloc` clears everything that is not set here. */
    constructor (token: int, socketId: int, requestNumber: int)
      ensures this.token == token && this.socketId == socketId && this.requestNumber == requestNumber
      ensures next == null && cancelled == 0 && local == 0 && wasAckSent == 0
    {
      this.token, this.socketId, this.requestNumber := token, socketId, requestNumber;
      next, cancelled, local, wasAckSent := null, 0, 0, 0;
    }
  }

  function At(s: seq<RequestInfo>, i: int): RequestInfo? {
    if 0 <= i < |s| then s[i] else null
  }

  ghost predicate Hop(s: seq<RequestInfo>, i: nat)
    requires i < |s|
    reads {s[i]}`next
  {
    s[i].next == At(s, i + 1)
  }

  /** Following `next` from `head` visits exactly `s`. */
  ghost predicate Chain(head: RequestInfo?, s: seq<RequestInfo>)
    reads s`next
  {
    head == At(s, 0) && forall i | 0 <= i < |s| :: Hop(s, i)
  }

  lemma {:induction false} WithoutIs<R>(s: seq<R>, i: nat)
    requires i < |s| && NoRepeats(s)
    ensures Without(s, s[i]) == RemoveAt(s, i)
  {
    if i > 0 {
      assert s[0] != s[i];
      WithoutIs(s[1..], i - 1);
      assert RemoveAt(s, i) == [s[0]] + RemoveAt(s[1..], i - 1);
    } else {
      assert RemoveAt(s, 0) == s[1..];
    }
  }

  lemma RemovedAt(s: seq<RequestInfo>, i: nat)
    requires i < |s|
    ensures forall n | 0 <= n < i :: At(RemoveAt(s, i), n) == s[n]
    ensures forall n | i <= n < |s| :: At(RemoveAt(s, i), n) == At(s, n + 1)
    ensures NoRepeats(s) ==> NoRepeats(RemoveAt(s, i))
  {
    var r := RemoveAt(s, i);
    assert forall n | 0 <= n < |r| :: r[n] == if n < i then s[n] else s[n + 1];
  }

  class PendingRequests {
    const simCount: int
    const version: int
    const heads: array<RequestInfo?>
    ghost var nodes: set<RequestInfo>
    ghost var s: State<RequestInfo>
    /** The calls so far. */
    ghost var history: History<RequestInfo>

    /** The lists and flags are those that the calls so far lead to, and those calls kept the discipline. */
    ghost predicate Valid()
      reads this, heads, nodes
    {
      Shape() && Told()
    }

    ghost predicate Told()
      reads this`s, this`history, this`nodes
    {
      && Disciplined(history) && s == Exec(simCount, version, history)
      && nodes == RequestLog.Requests(history)
      && forall r | r in nodes :: Added(history, r) && SocketOf(history, r) == r.socketId
    }

    ghost predicate Shape()
      reads this`nodes, this`s, heads, nodes
    {
      && heads.Length == 4 == |s.lists|
      && (forall k | 0 <= k < 4 :: OnList(k, s.lists[k]))
      && s.acked <= nodes && (forall r | r in nodes :: r.wasAckSent == 1 <==> r in s.acked)
    }

    /** The `k`-th list is `l`, without repetition, of known requests that belong there. */
    ghost predicate OnList(k: nat, l: seq<RequestInfo>)
      requires k < heads.Length
      reads this`nodes, heads, nodes`next
    {
      && (forall i | 0 <= i < |l| :: l[i] in nodes && ListOf(simCount, l[i].socketId) == k)
      && NoRepeats(l)
      && Chain(heads[k], l)
    }

    constructor (simCount: int, version: int)
      ensures Valid() && fresh(heads) && nodes == {} && history == Start
      ensures this.simCount == simCount && this.version == version
    {
      this.simCount, this.version := simCount, version;
      heads := new RequestInfo?[4](_ => null);
      nodes, s, history := {}, State([[], [], [], []], {}, []), Start;
    }

    /** Records a call whose effect the lists already show. */
    ghost method Took(step: Step<RequestInfo>)
      requires Shape() && Disciplined(history) && Disciplined(Then(history, step))
      requires s == Next(simCount, version, Exec(simCount, version, history), step)
      requires nodes == RequestLog.Requests(Then(history, step))
      requires forall r | r in RequestLog.Requests(history) :: Added(history, r) && SocketOf(history, r) == r.socketId
      requires step.socket == step.r.socketId
      modifies this`history
      ensures Valid() && history == Then(old(history), step)
    {
      forall r | r in nodes && (r in RequestLog.Requests(history) || step.Add?)
        ensures Added(Then(history, step), r) && SocketOf(Then(history, step), r) == r.socketId
      {
        RequestsAreAdded(Then(history, step), r);
      }
      history := Then(history, step);
    }

    /**
      Whatever has been called, a request got one response if it was completed, other than muted, and none
      otherwise.
     */
    lemma ResponsesSent(r: RequestInfo)
      requires Valid()
      ensures Responses(s.sent, r) ==
                if Answered(history, r) then [KindFor(version, BeforeAnswer(history, r), r)] else []
      ensures forall k | 0 <= k < 4 ::
                r in s.lists[k] <==> Pending(history, r) && k == OwnList(simCount, r.socketId)
    {
      OneResponseOverRun(simCount, version, history, r);
      RequestsAreAdded(history, r);
      PendingIsAdded(history, r);
      forall k | 0 <= k < 4
        ensures r in s.lists[k] <==> Pending(history, r) && k == OwnList(simCount, r.socketId)
      {
        if r in nodes {
          PendingInOwnList(simCount, version, history, r, k);
        } else {
          PendingPlace(simCount, version, history, r, k);
        }
      }
    }

    /** `addRequestToList`, allocation succeeding: the new request goes to the front of the list of its slot. */
    method AddRequestToList(serial: int, slotId: int, request: int) returns (pRI: RequestInfo)
      requires Valid()
      modifies this`nodes, this`s, this`history, heads
      ensures Valid() && fresh(pRI) && nodes == old(nodes) + {pRI}
      ensures pRI.token == serial && pRI.socketId == slotId && pRI.requestNumber == request
      ensures history == Then(old(history), Add(pRI, slotId))
      ensures forall k | 0 <= k < 4 ::
                s.lists[k] == if k == OwnList(simCount, slotId) then [pRI] + old(s).lists[k] else old(s).lists[k]
    {
      pRI := new RequestInfo(serial, slotId, request);
      RequestsAreAdded(history, pRI);
      AddedInFront(simCount, version, history, pRI, slotId);
      Prepend(pRI);
      Took(Add(pRI, slotId));
    }

    method Prepend(pRI: RequestInfo)
      requires Shape() && pRI !in nodes && pRI.wasAckSent == 0
      modifies this`nodes, this`s, heads, pRI`next
      ensures Shape() && nodes == old(nodes) + {pRI}
      ensures s == Next(simCount, version, old(s), Add(pRI, pRI.socketId))
    {
      var k := ListOf(simCount, pRI.socketId);
      ghost var was, l := s.lists[k], [pRI] + s.lists[k];
      pRI.next := heads[k];
      heads[k] := pRI;
      nodes := nodes + {pRI};
      s := s.(lists := s.lists[k := l]);
      forall j | 0 <= j < 4 ensures OnList(j, s.lists[j]) {
        assert old(OnList(j, s.lists[j]));
        forall i | 0 <= i < |s.lists[j]| ensures Hop(s.lists[j], i) {
          if j != k {
            assert old(Hop(s.lists[j], i));
          } else if i > 0 {
            assert old(Hop(was, i - 1));
            assert l[i] == was[i - 1] && At(l, i + 1) == At(was, i);
          }
        }
      }
    }

    /**
      `*ppCur = (*ppCur)->p_next`, where `ppCur` is the list head when `prev` is null and `&prev->p_next`
      otherwise.
     */
    method Splice(k: nat, prev: RequestInfo?, cur: RequestInfo, ghost i: nat)
      requires Shape() && k < 4 && i < |s.lists[k]| && s.lists[k][i] == cur && prev == At(s.lists[k], i - 1)
      modifies heads, nodes`next, this`s
      ensures Shape() && s == old(s).(lists := old(s).lists[k := Without(old(s).lists[k], cur)])
    {
      ghost var was, l := s.lists[k], RemoveAt(s.lists[k], i);
      assert OnList(k, was) && Hop(was, i);
      if prev == null {
        heads[k] := cur.next;
      } else {
        prev.next := cur.next;
      }
      WithoutIs(was, i);
      RemovedAt(was, i);
      s := s.(lists := s.lists[k := l]);
      forall j | 0 <= j < 4 ensures OnList(j, s.lists[j]) {
        assert old(OnList(j, s.lists[j]));
        forall n | 0 <= n < |s.lists[j]| ensures Hop(s.lists[j], n) {
          if j != k || n < i {
            assert old(Hop(if j == k then was else s.lists[j], n));
          } else {
            assert old(Hop(was, n + 1));
          }
        }
      }
    }

    /** `checkAndDequeueRequestInfoIfAck` for a token that was handed out at some time, or none. */
    method CheckAndDequeueRequestInfoIfAck(pRI: RequestInfo?, isAck: bool) returns (ret: bool)
      requires Shape() && (pRI != null ==> pRI in nodes)
      modifies heads, nodes`next, nodes`wasAckSent, this`s
      ensures Shape()
      ensures ret <==> pRI != null && pRI in old(s).lists[ListOf(simCount, pRI.socketId)]
      ensures !ret ==> s == old(s)
      ensures ret && isAck ==> s == old(s).(acked := old(s).acked + {pRI})
      ensures ret && !isAck ==>
        var k := ListOf(simCount, pRI.socketId);
        s == old(s).(lists := old(s).lists[k := Without<RequestInfo>(old(s).lists[k], pRI)])
    {
      if pRI == null {
        return false;
      }
      var k := ListOf(simCount, pRI.socketId);
      ghost var l, i := s.lists[k], 0;
      assert OnList(k, l);
      var prev: RequestInfo? := null;
      var cur := heads[k];
      while cur != null && cur != pRI
        invariant 0 <= i <= |l| && cur == At(l, i) && prev == At(l, i - 1)
        invariant forall n | 0 <= n < i :: l[n] != pRI
        decreases |l| - i
      {
        assert Hop(l, i);
        prev := cur;
        cur := cur.next;
        i := i + 1;
      }
      if cur == null {
        return false;
      }
      assert l[i] in l;
      if isAck {
        if pRI.wasAckSent != 1 {
          pRI.wasAckSent := 1;
        }
        s := s.(acked := s.acked + {pRI});
        forall j | 0 <= j < 4 ensures OnList(j, s.lists[j]) {
          assert old(OnList(j, s.lists[j]));
        }
      } else {
        Splice(k, prev, cur, i);
      }
      return true;
    }

    /** `RIL_onRequestAck`. */
    method OnRequestAck(t: RequestInfo?)
      requires Valid() && (t != null ==> t in nodes)
      modifies heads, nodes`next, nodes`wasAckSent, this`s, this`history
      ensures Valid()
      ensures history == if t == null then old(history) else Then(old(history), Ack(t, t.socketId, t.cancelled != 0))
      ensures s.sent == old(s).sent +
                        if t != null && Pending(old(history), t) && t.cancelled == 0
                        then [Event<RequestInfo>.Acknowledged(t)] else []
    {
      if t == null {
        return;
      }
      AckIsPassedOn(simCount, version, history, t, t.socketId, t.cancelled != 0);
      var ok := CheckAndDequeueRequestInfoIfAck(t, true);
      if ok && t.cancelled == 0 {
        s := s.(sent := s.sent + [Acknowledged(t)]);
      }
      Took(Ack(t, t.socketId, t.cancelled != 0));
    }

    /** The part of RIL_onRequestComplete that follows the dequeuing; `grab` says that the wake lock is grabbed. */
    method Respond(t: RequestInfo) returns (grab: bool)
      requires Shape() && t in nodes
      modifies this`s
      ensures Shape()
      ensures var kind := if version >= ACK_VERSION && t in s.acked then SolicitedAckExp else Solicited;
        var muted := t.local > 0 || t.cancelled != 0;
        && s == old(s).(sent := old(s).sent + if muted then [] else [Responded(t, kind)])
        && (grab <==> !muted && kind == SolicitedAckExp)
    {
      grab := false;
      if t.local > 0 {
        return;
      }
      if t.cancelled == 0 {
        if version >= ACK_VERSION && t.wasAckSent == 1 {
          grab := true;
          s := s.(sent := s.sent + [Responded(t, SolicitedAckExp)]);
        } else {
          s := s.(sent := s.sent + [Responded(t, Solicited)]);
        }
      }
    }

    /**
      `RIL_onRequestComplete`; `grab` says that grabPartialWakeLock was called on the way. The response itself
      is delivered by the response function of the command, which is not part of this model.
     */
    method OnRequestComplete(t: RequestInfo?) returns (grab: bool)
      requires Valid() && (t != null ==> t in nodes)
      modifies heads, nodes`next, nodes`wasAckSent, this`s, this`history
      ensures Valid()
      ensures history ==
                if t == null then old(history)
                else Then(old(history), Complete(t, t.socketId, t.local > 0 || t.cancelled != 0))
      ensures var answered := t != null && Pending(old(history), t) && t.local <= 0 && t.cancelled == 0;
        && (grab <==> answered && version >= 13 && AckAccepted(old(history), t))
        && s.sent == old(s).sent +
                     if answered then [Event<RequestInfo>.Responded(t, if grab then SolicitedAckExp else Solicited)]
                     else []
    {
      grab := false;
      if t == null {
        return;
      }
      Refines(simCount, version, history);
      CompletionIsAnswered(simCount, version, history, t, t.socketId, t.local > 0 || t.cancelled != 0);
      var ok := CheckAndDequeueRequestInfoIfAck(t, false);
      if ok {
        grab := Respond(t);
      }
      Took(Complete(t, t.socketId, t.local > 0 || t.cancelled != 0));
    }
  }
}
