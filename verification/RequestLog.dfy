/** The pending-request lists of the daemon as values, and what any run of adds, acks and completions does to them. */
module RequestLog {
  import opened RilVersions

  /**
    Index of the list that serves a socket when `simCount` lists are compiled in; sockets without one share the
    first.
   */
  function ListOf(simCount: int, socket: int): (k: nat)
    ensures k < 4
  {
    if simCount >= 2 && socket == 1 then 1
    else if simCount >= 3 && socket == 2 then 2
    else if simCount >= 4 && socket == 3 then 3
    else 0
  }

  datatype ResponseType = Solicited | SolicitedAckExp

  /** What the client sees: acknowledgements and responses. */
  datatype Event<R> = Acknowledged(r: R) | Responded(r: R, kind: ResponseType)

  /** Four lists, newest request first; the requests whose `wasAckSent` is set; what was sent to the client. */
  datatype State<R> = State(lists: seq<seq<R>>, acked: set<R>, sent: seq<Event<R>>)

  /**
    A muted request is one that is cancelled or, for a completion, local: it is handled but nothing is sent.
   */
  datatype Step<R> = Add(r: R, socket: int) | Ack(r: R, socket: int, muted: bool)
                     | Complete(r: R, socket: int, muted: bool)

  datatype History<R> = Start | Then(before: History<R>, step: Step<R>)

  function Without<R(==)>(s: seq<R>, r: R): seq<R> {
    if s == [] then [] else if s[0] == r then s[1..] else [s[0]] + Without(s[1..], r)
  }

  function Next<R(==)>(simCount: int, version: int, s: State<R>, step: Step<R>): (s': State<R>)
    requires |s.lists| == 4
    ensures |s'.lists| == 4
  {
    var k := ListOf(simCount, step.socket);
    match step
    case Add(r, _) => s.(lists := s.lists[k := [r] + s.lists[k]])
    case Ack(r, _, muted) =>
      if r in s.lists[k] then s.(acked := s.acked + {r}, sent := s.sent + if muted then [] else [Acknowledged(r)])
      else s
    case Complete(r, _, muted) =>
      if r in s.lists[k] then
        var kind := if version >= ACK_VERSION && r in s.acked then SolicitedAckExp else Solicited;
        s.(lists := s.lists[k := Without(s.lists[k], r)], sent := s.sent + if muted then [] else [Responded(r, kind)])
      else s
  }

  function Exec<R(==)>(simCount: int, version: int, h: History<R>): (s: State<R>)
    ensures |s.lists| == 4
  {
    match h
    case Start => State([[], [], [], []], {}, [])
    case Then(before, step) => Next(simCount, version, Exec(simCount, version, before), step)
  }

  // ---------------------------------------------------------------- the same run, told request by request

  predicate Added<R(==)>(h: History<R>, r: R) {
    h.Then? && (h.step == Add(r, h.step.socket) || Added(h.before, r))
  }

  /** Every request that was ever added. */
  function Requests<R>(h: History<R>): set<R> {
    if h.Start? then {}
    else if h.step.Add? then Requests(h.before) + {h.step.r}
    else Requests(h.before)
  }

  lemma {:induction false} RequestsAreAdded<R>(h: History<R>, r: R)
    ensures r in Requests(h) <==> Added(h, r)
  {
    if h.Then? {
      RequestsAreAdded(h.before, r);
    }
  }

  /** The socket of a request. */
  function SocketOf<R(==)>(h: History<R>, r: R): int
    requires Added(h, r)
  {
    if h.step == Add(r, h.step.socket) then h.step.socket else SocketOf(h.before, r)
  }

  /** Tokens are never reused, and a request is acked and completed under its own socket. */
  predicate Disciplined<R(==)>(h: History<R>) {
    h.Then? ==>
      && Disciplined(h.before)
      && (if h.step.Add? then !Added(h.before, h.step.r)
          else Added(h.before, h.step.r) ==> h.step.socket == SocketOf(h.before, h.step.r))
  }

  /** Added and not completed since. */
  predicate Pending<R(==)>(h: History<R>, r: R) {
    h.Then? &&
    match h.step
    case Add(r', _) => r' == r || Pending(h.before, r)
    case Ack(_, _, _) => Pending(h.before, r)
    case Complete(r', _, _) => r' != r && Pending(h.before, r)
  }

  /** Some ack came while the request was pending. */
  predicate AckAccepted<R(==)>(h: History<R>, r: R) {
    h.Then? && (AckAccepted(h.before, r) || (h.step.Ack? && h.step.r == r && Pending(h.before, r)))
  }

  /** Everything the client should have been sent, in order. */
  function Expected<R(==)>(version: int, h: History<R>): seq<Event<R>> {
    if h.Start? then []
    else Expected(version, h.before) + Expectation(version, h.before, h.step)
  }

  function Expectation<R(==)>(version: int, h: History<R>, step: Step<R>): seq<Event<R>> {
    if step.Add? || step.muted || !Pending(h, step.r) then []
    else if step.Ack? then [Acknowledged(step.r)]
    else [Responded(step.r, KindFor(version, h, step.r))]
  }

  function KindFor<R(==)>(version: int, h: History<R>, r: R): ResponseType {
    if version >= ACK_VERSION && AckAccepted(h, r) then SolicitedAckExp else Solicited
  }

  /** The requests that were added to list `k`, oldest first. */
  function Arrivals<R>(simCount: int, h: History<R>, k: nat): seq<R> {
    if h.Start? then []
    else Arrivals(simCount, h.before, k) +
             if h.step.Add? && ListOf(simCount, h.step.socket) == k then [h.step.r] else []
  }

  function NewestPending<R(==)>(s: seq<R>, h: History<R>): seq<R> {
    if s == [] then []
    else (if Pending(h, s[|s| - 1]) then [s[|s| - 1]] else []) + NewestPending(s[..|s| - 1], h)
  }

  lemma {:induction false} PendingIsAdded<R>(h: History<R>, r: R)
    ensures Pending(h, r) ==> Added(h, r)
  {
    if h.Then? {
      PendingIsAdded(h.before, r);
    }
  }

  // ---------------------------------------------------------------- the lists agree with the telling

  predicate NoRepeats<R(==)>(s: seq<R>) {
    forall i, j | 0 <= i < j < |s| :: s[i] != s[j]
  }

  lemma {:induction false} ArrivalsAre<R>(simCount: int, h: History<R>, k: nat)
    requires Disciplined(h)
    ensures NoRepeats(Arrivals(simCount, h, k))
    ensures forall r :: r in Arrivals(simCount, h, k) <==> Added(h, r) && ListOf(simCount, SocketOf(h, r)) == k
  {
    if h.Then? {
      ArrivalsAre(simCount, h.before, k);
    }
  }

  lemma {:induction false} NewestMembers<R>(s: seq<R>, h: History<R>)
    ensures forall r :: r in NewestPending(s, h) <==> r in s && Pending(h, r)
  {
    if s != [] {
      NewestMembers(s[..|s| - 1], h);
      assert s == s[..|s| - 1] + [s[|s| - 1]];
    }
  }

  lemma {:induction false} NewestSame<R>(s: seq<R>, h: History<R>, h': History<R>)
    requires forall r | r in s :: Pending(h, r) <==> Pending(h', r)
    ensures NewestPending(s, h) == NewestPending(s, h')
  {
    if s != [] {
      assert s[|s| - 1] in s;
      NewestSame(s[..|s| - 1], h, h');
    }
  }

  lemma WithoutAbsent<R>(s: seq<R>, r: R)
    requires r !in s
    ensures Without(s, r) == s
  {}

  lemma {:induction false} NewestWithout<R>(s: seq<R>, h: History<R>, h': History<R>, r: R)
    requires NoRepeats(s)
    requires !Pending(h', r) && forall x | x in s && x != r :: Pending(h, x) <==> Pending(h', x)
    ensures NewestPending(s, h') == Without(NewestPending(s, h), r)
  {
    if s != [] {
      var init, x := s[..|s| - 1], s[|s| - 1];
      assert forall y | y in init :: y in s;
      assert x in s;
      NewestMembers(init, h);
      if x == r {
        assert r !in init;
        NewestSame(init, h, h');
        assert NewestPending(s, h') == NewestPending(init, h');
        if !Pending(h, r) {
          assert NewestPending(s, h) == NewestPending(init, h);
          WithoutAbsent(NewestPending(init, h), r);
        } else {
          assert NewestPending(s, h)[1..] == NewestPending(init, h);
        }
      } else {
        NewestWithout(init, h, h', r);
        if Pending(h, x) {
          assert NewestPending(s, h) == [x] + NewestPending(init, h);
          assert NewestPending(s, h)[1..] == NewestPending(init, h);
          assert NewestPending(s, h') == [x] + NewestPending(init, h');
        } else {
          assert NewestPending(s, h) == NewestPending(init, h);
          assert NewestPending(s, h') == NewestPending(init, h');
        }
      }
    }
  }

  /** The lists and the messages of the code are those of the telling. */
  ghost predicate Agrees<R>(simCount: int, version: int, h: History<R>) {
    var s := Exec(simCount, version, h);
    && (forall k | 0 <= k < 4 :: s.lists[k] == NewestPending(Arrivals(simCount, h, k), h))
    && s.sent == Expected(version, h)
  }

  lemma InListIff<R>(simCount: int, version: int, h: History<R>, k: nat)
    requires Disciplined(h) && k < 4
    requires Exec(simCount, version, h).lists[k] == NewestPending(Arrivals(simCount, h, k), h)
    ensures forall r :: r in Exec(simCount, version, h).lists[k] <==>
                        Pending(h, r) && Added(h, r) && ListOf(simCount, SocketOf(h, r)) == k
  {
    ArrivalsAre(simCount, h, k);
    NewestMembers(Arrivals(simCount, h, k), h);
  }

  /** An ack or a completion finds the request exactly when it is pending. */
  lemma Recognised<R>(simCount: int, version: int, h: History<R>)
    requires h.Then? && !h.step.Add? && Disciplined(h) && Agrees(simCount, version, h.before)
    ensures var k := ListOf(simCount, h.step.socket);
      h.step.r in Exec(simCount, version, h.before).lists[k] <==> Pending(h.before, h.step.r)
  {
    InListIff(simCount, version, h.before, ListOf(simCount, h.step.socket));
    PendingIsAdded(h.before, h.step.r);
  }

  lemma ListStep<R>(simCount: int, version: int, h: History<R>, j: nat)
    requires h.Then? && Disciplined(h) && Agrees(simCount, version, h.before) && j < 4
    ensures Exec(simCount, version, h).lists[j] == NewestPending(Arrivals(simCount, h, j), h)
  {
    var b, r, k := h.before, h.step.r, ListOf(simCount, h.step.socket);
    var s := Arrivals(simCount, b, j);
    ArrivalsAre(simCount, b, j);
    if h.step.Add? {
      NewestSame(s, b, h);
      if j == k {
        var longer := s + [r];
        assert longer[..|longer| - 1] == s;
        assert NewestPending(longer, h) == [r] + NewestPending(s, h);
      } else {
        assert s + [] == s;
      }
    } else {
      assert s + [] == s;
      Recognised(simCount, version, h);
      if h.step.Ack? {
        NewestSame(s, b, h);
      } else {
        NewestWithout(s, b, h, r);
        if j != k || !Pending(b, r) {
          InListIff(simCount, version, b, j);
          WithoutAbsent(NewestPending(s, b), r);
        }
      }
    }
  }

  /** For every run, the code keeps exactly the lists, flags and messages that the telling prescribes. */
  lemma {:induction false} Refines<R>(simCount: int, version: int, h: History<R>)
    requires Disciplined(h)
    ensures Agrees(simCount, version, h)
    ensures forall r :: r in Exec(simCount, version, h).acked <==> AckAccepted(h, r)
  {
    if h.Then? {
      Refines(simCount, version, h.before);
      if !h.step.Add? {
        Recognised(simCount, version, h);
      }
      forall j | 0 <= j < 4 ensures Exec(simCount, version, h).lists[j] == NewestPending(Arrivals(simCount, h, j), h) {
        ListStep(simCount, version, h, j);
      }
    }
  }

  /** A request waits in the list of its own slot and in no other, once, as long as it is pending. */
  lemma {:induction false} PendingPlace<R>(simCount: int, version: int, h: History<R>, r: R, k: nat)
    requires Disciplined(h) && k < 4
    ensures r in Exec(simCount, version, h).lists[k] <==>
              Pending(h, r) && Added(h, r) && ListOf(simCount, SocketOf(h, r)) == k
    ensures NoRepeats(Exec(simCount, version, h).lists[k])
  {
    Refines(simCount, version, h);
    InListIff(simCount, version, h, k);
    ArrivalsAre(simCount, h, k);
    NewestNoRepeats(Arrivals(simCount, h, k), h);
  }

  /** The list of a socket, told by its number: up to four sockets have lists of their own, in their order. */
  function OwnList(simCount: int, socket: int): (k: nat)
    ensures k < 4
  {
    if 0 <= socket < simCount && socket < 4 then socket else 0
  }

  lemma ListsAreOwn(simCount: int, socket: int)
    ensures ListOf(simCount, socket) == OwnList(simCount, socket)
  {}

  /** A request under a socket that has a list of its own waits there, apart from those of every other such socket. */
  lemma {:induction false} PendingInOwnList<R>(simCount: int, version: int, h: History<R>, r: R, k: nat)
    requires Disciplined(h) && Added(h, r) && k < 4
    ensures r in Exec(simCount, version, h).lists[k] <==> Pending(h, r) && k == OwnList(simCount, SocketOf(h, r))
  {
    PendingPlace(simCount, version, h, r, k);
    ListsAreOwn(simCount, SocketOf(h, r));
  }

  /** A new request goes to the front of the list of its socket; the other lists and the client notice nothing. */
  lemma {:induction false} AddedInFront<R>(simCount: int, version: int, h: History<R>, r: R, socket: int)
    requires Disciplined(Then(h, Add(r, socket)))
    ensures var s, s' := Exec(simCount, version, h), Exec(simCount, version, Then(h, Add(r, socket)));
      && s'.sent == s.sent && s'.acked == s.acked
      && forall k | 0 <= k < 4 ::
        s'.lists[k] == if k == OwnList(simCount, socket) then [r] + s.lists[k] else s.lists[k]
  {
    ListsAreOwn(simCount, socket);
  }

  /**
    Every ack of a pending request is passed on to the client unless it is muted, the second one too, and leaves the
    lists alone.
   */
  lemma {:induction false} AckIsPassedOn<R>(simCount: int, version: int, h: History<R>, r: R, socket: int, muted: bool)
    requires Disciplined(Then(h, Ack(r, socket, muted)))
    ensures var s, s' := Exec(simCount, version, h), Exec(simCount, version, Then(h, Ack(r, socket, muted)));
      && s'.lists == s.lists
      && s'.sent == s.sent + (if Pending(h, r) && !muted then [Acknowledged(r)] else [])
      && (r in s'.acked <==> AckAccepted(h, r) || Pending(h, r))
  {
    Refines(simCount, version, h);
    Recognised(simCount, version, Then(h, Ack(r, socket, muted)));
  }

  /** A pending request that is completed is answered unless it is muted; any other completion is not. */
  lemma {:induction false} CompletionIsAnswered<R>(simCount: int, version: int, h: History<R>, r: R, socket: int,
                                                   muted: bool)
    requires Disciplined(Then(h, Complete(r, socket, muted)))
    ensures var s, s' := Exec(simCount, version, h), Exec(simCount, version, Then(h, Complete(r, socket, muted)));
      var kind := if version >= 13 && AckAccepted(h, r) then SolicitedAckExp else Solicited;
      s'.sent == s.sent + (if Pending(h, r) && !muted then [Responded(r, kind)] else [])
  {
    Refines(simCount, version, h);
    Recognised(simCount, version, Then(h, Complete(r, socket, muted)));
  }

  lemma {:induction false} NewestNoRepeats<R>(s: seq<R>, h: History<R>)
    requires NoRepeats(s)
    ensures NoRepeats(NewestPending(s, h))
  {
    if s != [] {
      var init := s[..|s| - 1];
      NewestNoRepeats(init, h);
      NewestMembers(init, h);
      assert s[|s| - 1] !in init;
    }
  }

  function Responses<R(==)>(sent: seq<Event<R>>, r: R): seq<ResponseType> {
    if sent == [] then []
    else (if sent[0].Responded? && sent[0].r == r then [sent[0].kind] else []) + Responses(sent[1..], r)
  }

  lemma ResponsesFirst<R>(e: Event<R>, rest: seq<Event<R>>, r: R)
    ensures Responses([e] + rest, r) == (if e.Responded? && e.r == r then [e.kind] else []) + Responses(rest, r)
  {
    assert ([e] + rest)[1..] == rest;
  }

  lemma {:induction false} ResponsesConcat<R>(a: seq<Event<R>>, b: seq<Event<R>>, r: R)
    ensures Responses(a + b, r) == Responses(a, r) + Responses(b, r)
  {
    if a == [] {
      assert a + b == b;
    } else {
      assert a + b == [a[0]] + (a[1..] + b) && a == [a[0]] + a[1..];
      ResponsesFirst(a[0], a[1..] + b, r);
      ResponsesFirst(a[0], a[1..], r);
      ResponsesConcat(a[1..], b, r);
    }
  }

  lemma {:induction false} NoResponseBeforeCompletion<R>(version: int, h: History<R>, r: R)
    requires Disciplined(h) && (Pending(h, r) || !Added(h, r))
    ensures Responses(Expected(version, h), r) == []
  {
    if h.Then? {
      PendingIsAdded(h.before, r);
      NoResponseBeforeCompletion(version, h.before, r);
      ResponsesConcat(Expected(version, h.before), Expectation(version, h.before, h.step), r);
    }
  }

  /** The first completion of a request, told apart from every later call. */
  predicate FirstCompletion<R(==)>(h: History<R>, r: R) {
    h.Then? && h.step.Complete? && h.step.r == r && Pending(h.before, r)
  }

  /**
    When a pending request is completed the client gets exactly one response for it, none before, and its
    kind asks for an acknowledgement iff the library is new enough and an ack was accepted earlier.
   */
  lemma {:induction false} OneResponse<R>(simCount: int, version: int, h: History<R>, r: R)
    requires Disciplined(h) && FirstCompletion(h, r) && !h.step.muted
    ensures Responses(Exec(simCount, version, h.before).sent, r) == []
    ensures Responses(Exec(simCount, version, h).sent, r) ==
              [if version >= ACK_VERSION && AckAccepted(h.before, r) then SolicitedAckExp else Solicited]
  {
    Refines(simCount, version, h);
    Refines(simCount, version, h.before);
    NoResponseBeforeCompletion(version, h.before, r);
    ResponsesConcat(Expected(version, h.before), Expectation(version, h.before, h.step), r);
  }

  /** Has the request been completed so far, other than muted? */
  predicate Answered<R(==)>(h: History<R>, r: R) {
    h.Then? && (Answered(h.before, r) || (FirstCompletion(h, r) && !h.step.muted))
  }

  /** The run before that completion. */
  function BeforeAnswer<R(==)>(h: History<R>, r: R): History<R>
    requires Answered(h, r)
  {
    if Answered(h.before, r) then BeforeAnswer(h.before, r) else h.before
  }

  lemma {:induction false} AnsweredIsDone<R>(h: History<R>, r: R)
    requires Disciplined(h) && Answered(h, r)
    ensures Added(h, r) && !Pending(h, r)
  {
    if Answered(h.before, r) {
      AnsweredIsDone(h.before, r);
    } else {
      PendingIsAdded(h.before, r);
    }
  }

  lemma {:induction false} OneResponseExpected<R>(version: int, h: History<R>, r: R)
    requires Disciplined(h)
    ensures Responses(Expected(version, h), r) ==
              if Answered(h, r) then [KindFor(version, BeforeAnswer(h, r), r)] else []
  {
    if h.Then? {
      var now := Expectation(version, h.before, h.step);
      ResponsesConcat(Expected(version, h.before), now, r);
      OneResponseExpected(version, h.before, r);
      if Answered(h.before, r) {
        AnsweredIsDone(h.before, r);
      }
      if now != [] {
        ResponsesFirst(now[0], [], r);
      }
    }
  }

  /**
    Over a whole run a request is sent one response if it has been completed, other than muted, and none otherwise;
    later completions add nothing, and the kind was settled before the first.
   */
  lemma {:induction false} OneResponseOverRun<R>(simCount: int, version: int, h: History<R>, r: R)
    requires Disciplined(h)
    ensures Responses(Exec(simCount, version, h).sent, r) ==
              if Answered(h, r) then [KindFor(version, BeforeAnswer(h, r), r)] else []
  {
    Refines(simCount, version, h);
    OneResponseExpected(version, h, r);
  }

  /** `later` continues `h`. */
  predicate Continues<R(==)>(h: History<R>, later: History<R>) {
    h == later || (later.Then? && Continues(h, later.before))
  }

  /** Once a request has been completed, or if it never was added, acks and completions of it change nothing at all. */
  lemma {:induction false} LateCallsDoNothing<R>(simCount: int, version: int, h: History<R>, step: Step<R>)
    requires Disciplined(Then(h, step)) && !step.Add? && !Pending(h, step.r)
    ensures Exec(simCount, version, Then(h, step)) == Exec(simCount, version, h)
  {
    Refines(simCount, version, h);
    Recognised(simCount, version, Then(h, step));
  }

  /** A completed request stays completed, whatever follows. */
  lemma {:induction false} CompletedForGood<R>(h: History<R>, r: R, later: History<R>)
    requires Disciplined(later) && Continues(h, later) && Added(h, r) && !Pending(h, r)
    ensures Added(later, r) && !Pending(later, r)
  {
    if h != later {
      CompletedForGood(h, r, later.before);
    }
  }

  /** Completing a request keeps the order of all the others in its list, and the other lists. */
  lemma {:induction false} CompletionKeepsOrder<R>(simCount: int, version: int, h: History<R>, r: R, k: nat)
    requires Disciplined(h) && FirstCompletion(h, r) && k < 4
    ensures var was, now := Exec(simCount, version, h.before).lists[k], Exec(simCount, version, h).lists[k];
      if r !in was then now == was
      else exists i | 0 <= i < |was| :: was[i] == r && now == was[..i] + was[i + 1..]
  {
    PendingPlace(simCount, version, h.before, r, k);
    Refines(simCount, version, h.before);
    Recognised(simCount, version, h);
    var was := Exec(simCount, version, h.before).lists[k];
    if r in was {
      var i := WithoutAt(was, r);
      assert was[i] == r && Without(was, r) == was[..i] + was[i + 1..];
    }
  }

  lemma {:induction false} WithoutAt<R>(s: seq<R>, r: R) returns (i: nat)
    requires r in s
    ensures i < |s| && s[i] == r && Without(s, r) == s[..i] + s[i + 1..]
  {
    if s[0] == r {
      i := 0;
    } else {
      var j := WithoutAt(s[1..], r);
      i := j + 1;
      assert s[..i] == [s[0]] + s[1..][..j];
      assert s[i + 1..] == s[1..][j + 1..];
    }
  }
}
