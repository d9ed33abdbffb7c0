/**
  The AT channel of `atchannel.c` as it is stored: a response whose intermediate lines hang on a singly linked
  list, filled at the head by the reader thread and reversed in place for the command thread.
 */
module AtChannels {
  import opened Options
  import opened AtProtocol

  class ATLine {
    const line: string
    var next: ATLine?

    constructor (line: string)
      ensures this.line == line && next == null
    {
      this.line := line;
      next := null;
    }
  }

  /** The list from `head` runs through these nodes, each once, and ends. */
  ghost predicate Linked(head: ATLine?, nodes: seq<ATLine>)
    reads nodes
    decreases |nodes|
  {
    if nodes == [] then head == null
    else head == nodes[0] && nodes[0] !in nodes[1..] && Linked(nodes[0].next, nodes[1..])
  }

  function LinesOn(nodes: seq<ATLine>): seq<string> {
    if nodes == [] then [] else [nodes[0].line] + LinesOn(nodes[1..])
  }

  lemma {:induction false} LinesOnConcat(a: seq<ATLine>, b: seq<ATLine>)
    ensures LinesOn(a + b) == LinesOn(a) + LinesOn(b)
  {
    if a == [] {
      assert a + b == b;
    } else {
      assert (a + b)[1..] == a[1..] + b;
      LinesOnConcat(a[1..], b);
    }
  }

  lemma {:induction false} LinesOnReversed(nodes: seq<ATLine>)
    ensures LinesOn(Reversed(nodes)) == Reversed(LinesOn(nodes))
  {
    if nodes != [] {
      LinesOnReversed(nodes[1..]);
      LinesOnConcat(Reversed(nodes[1..]), [nodes[0]]);
      assert LinesOn(nodes)[1..] == LinesOn(nodes[1..]);
    }
  }

  class ATResponse {
    var success: int
    var finalResponse: Option<string>
    var intermediates: ATLine?
    ghost var nodes: seq<ATLine>

    ghost predicate Valid()
      reads this, nodes
    {
      Linked(intermediates, nodes)
    }

    ghost function Model(): Response
      reads this
    {
      Response(success, finalResponse, LinesOn(nodes))
    }

    constructor ()
      ensures Valid() && Model() == Response(0, None, []) && nodes == []
    {
      success := 0;
      finalResponse := None;
      intermediates := null;
      nodes := [];
    }

    method AddIntermediate(line: string)
      requires Valid()
      modifies this`intermediates, this`nodes
      ensures Valid()
      ensures |nodes| == |old(nodes)| + 1 && nodes[1..] == old(nodes) && fresh(nodes[0]) && nodes[0].line == line
    {
      var new_ := new ATLine(line);
      new_.next := intermediates;
      intermediates := new_;
      nodes := [new_] + nodes;
    }

    /** In place: the same nodes, linked the other way round. */
    method ReverseIntermediates()
      requires Valid()
      modifies this`intermediates, this`nodes, nodes`next
      ensures Valid()
      ensures nodes == Reversed(old(nodes))
    {
      var cur := intermediates;
      intermediates := null;
      ghost var done: seq<ATLine>, rest: seq<ATLine> := [], nodes;
      assert Reversed(rest) + done == Reversed(nodes);
      while cur != null
        invariant nodes == old(nodes)
        invariant Linked(intermediates, done) && Linked(cur, rest)
        invariant forall n | n in rest :: n !in done && n in nodes
        invariant forall n | n in done :: n in nodes
        invariant Reversed(rest) + done == Reversed(nodes)
        decreases |rest|
      {
        assert cur in rest;
        var next := cur.next;
        cur.next := intermediates;
        intermediates := cur;
        assert (Reversed(rest[1..]) + [rest[0]]) + done == Reversed(rest[1..]) + ([rest[0]] + done);
        assert ([cur] + done)[1..] == done;
        done, rest := [cur] + done, rest[1..];
        cur := next;
      }
      assert Reversed(rest) + done == done;
      nodes := done;
    }
  }

  // ---------------------------------------------------------------- matching lines

  method StrStartsWith(line: string, prefix: string) returns (b: bool)
    ensures b <==> prefix <= line
  {
    var i := 0;
    while i < |line| && i < |prefix|
      invariant 0 <= i <= |line| && i <= |prefix|
      invariant line[..i] == prefix[..i]
    {
      if line[i] != prefix[i] {
        return false;
      }
      i := i + 1;
    }
    return i == |prefix|;
  }

  const FINAL_RESPONSES_ERROR := ["ERROR", "+CMS ERROR:", "+CME ERROR:", "NO CARRIER", "NO ANSWER", "NO DIALTONE"]
  const FINAL_RESPONSES_SUCCESS := ["OK", "CONNECT"]
  const SMS_UNSOLICITEDS := ["+CMT:", "+CDS:", "+CBM:"]

  ghost predicate StartsWithOneOf(line: string, table: seq<string>) {
    exists k | 0 <= k < |table| :: StartsWith(line, table[k])
  }

  /** The loop of `isFinalResponseError`, `isFinalResponseSuccess` and `isSMSUnsolicited`. */
  method InTable(line: string, table: seq<string>) returns (b: bool)
    ensures b <==> StartsWithOneOf(line, table)
  {
    for i := 0 to |table|
      invariant forall k | 0 <= k < i :: !StartsWith(line, table[k])
    {
      var starts := StrStartsWith(line, table[i]);
      if starts {
        return true;
      }
    }
    return false;
  }

  lemma TablesAreClasses(line: string)
    ensures StartsWithOneOf(line, FINAL_RESPONSES_ERROR) <==> IsFinalResponseError(line)
    ensures StartsWithOneOf(line, FINAL_RESPONSES_SUCCESS) <==> IsFinalResponseSuccess(line)
    ensures StartsWithOneOf(line, SMS_UNSOLICITEDS) <==> IsSmsUnsolicited(line)
  {
    var e, s, u := FINAL_RESPONSES_ERROR, FINAL_RESPONSES_SUCCESS, SMS_UNSOLICITEDS;
    assert e[0] == "ERROR" && e[1] == "+CMS ERROR:" && e[2] == "+CME ERROR:";
    assert e[3] == "NO CARRIER" && e[4] == "NO ANSWER" && e[5] == "NO DIALTONE";
    assert s[0] == "OK" && s[1] == "CONNECT";
    assert u[0] == "+CMT:" && u[1] == "+CDS:" && u[2] == "+CBM:";
  }

  // ---------------------------------------------------------------- the channel

  /** A list grows by nodes that did not exist before. */
  twostate predicate OnlyNew(before: seq<ATLine>, new after: seq<ATLine>) {
    forall n | n in after :: n in before || fresh(n)
  }

  class AtChannel {
    var ty: CommandType
    var responsePrefix: Option<string>
    var smsPdu: Option<string>
    var response: ATResponse?
    var readerClosed: bool
    var onReaderClosed: bool
    var line1: Option<string>
    var reading: bool
    ghost var roles: seq<Role>
    ghost var trace: Trace

    ghost function Model(): Channel
      reads this, response
    {
      Channel(ty, responsePrefix, smsPdu, if response == null then None else Some(response.Model()),
              readerClosed, onReaderClosed, line1, roles)
    }

    /** The fields hold what the run so far leads to. */
    ghost predicate Valid()
      reads this, response, if response == null then [] else response.nodes
    {
      && (response != null ==> response.Valid())
      && Legal(trace)
      && Exec(trace).c == Model()
      && Exec(trace).reading == reading
    }

    constructor (onReaderClosed: bool)
      ensures Valid() && fresh(this) && trace == Start(onReaderClosed)
    {
      ty, responsePrefix, smsPdu, response := NoResult, None, None, null;
      readerClosed, this.onReaderClosed, line1, reading := false, onReaderClosed, None, true;
      roles := [];
      trace := Start(onReaderClosed);
    }

    /** A line goes to the list, whatever else the switch decides. */
    method AddIntermediate(line: string)
      requires response != null && response.Valid()
      modifies this`roles, response`intermediates, response`nodes
      ensures response.Valid()
      ensures var r := old(Model()).response.value;
        Model() == Logged(old(Model()).(response := Some(r.(intermediates := [line] + r.intermediates))),
                      Intermediate(line))
      ensures OnlyNew(old(response.nodes), response.nodes)
    {
      response.AddIntermediate(line);
      roles := roles + [Intermediate(line)];
    }

    method HandleFinalResponse(line: string)
      requires response != null && response.Valid()
      modifies this`roles, response`finalResponse
      ensures response.Valid()
      ensures var r := old(Model()).response.value;
        Model() == Logged(old(Model()).(response := Some(r.(finalResponse := Some(line)))), Final(line))
    {
      response.finalResponse := Some(line);
      roles := roles + [Final(line)];
    }

    method HandleUnsolicited(line: string)
      modifies this`roles
      ensures Model() == Logged(old(Model()), Unsolicited(line))
    {
      roles := roles + [Unsolicited(line)];
    }

    /** The switch on the type of the pending command. */
    method ByType(line: string)
      requires response != null && response.Valid()
      requires ty == SingleLine || ty == MultiLine ==> responsePrefix.Some?
      modifies this`roles, response`intermediates, response`nodes
      ensures response.Valid()
      ensures var c := old(Model());
        var r := c.response.value;
        Model() == if TakesIntermediate(c.ty, c.responsePrefix, r.intermediates, line)
                   then Logged(c.(response := Some(r.(intermediates := [line] + r.intermediates))), Intermediate(line))
                   else Logged(c, Unsolicited(line))
      ensures OnlyNew(old(response.nodes), response.nodes)
    {
      var takes := false;
      match ty {
        case NoResult =>
        case Numeric =>
          takes := response.intermediates == null && |line| > 0 && '0' <= line[0] <= '9';
        case SingleLine =>
          if response.intermediates == null {
            takes := StrStartsWith(line, responsePrefix.value);
          }
        case MultiLine =>
          takes := StrStartsWith(line, responsePrefix.value);
      }
      if takes {
        AddIntermediate(line);
      } else {
        HandleUnsolicited(line);
      }
    }

    method ProcessLine(line: string)
      requires response != null ==> response.Valid() && (ty == SingleLine || ty == MultiLine ==> responsePrefix.Some?)
      modifies this`roles, this`smsPdu, response
      ensures response != null ==> response.Valid()
      ensures Model() == AtProtocol.ProcessLine(old(Model()), line)
      ensures response != null ==> OnlyNew(old(response.nodes), response.nodes)
    {
      if response == null {
        HandleUnsolicited(line);
        return;
      }
      TablesAreClasses(line);
      var success := InTable(line, FINAL_RESPONSES_SUCCESS);
      if success {
        response.success := 1;
        HandleFinalResponse(line);
        return;
      }
      var error := InTable(line, FINAL_RESPONSES_ERROR);
      if error {
        response.success := 0;
        HandleFinalResponse(line);
      } else if smsPdu.Some? && line == PROMPT {
        roles := roles + [Prompted(smsPdu.value)];
        smsPdu := None;
      } else {
        ByType(line);
      }
    }

    // -------------------------------------------------------------- the reader thread

    /** What the loop of `readerLoop` does with a line. */
    method Dispatch(line: string)
      requires response != null ==> response.Valid() && (ty == SingleLine || ty == MultiLine ==> responsePrefix.Some?)
      modifies this`roles, this`smsPdu, this`line1, response
      ensures response != null ==> response.Valid() && OnlyNew(old(response.nodes), response.nodes)
      ensures Model() == AtProtocol.ReaderLine(old(Model()), line)
    {
      if line1.Some? {
        roles := roles + [Notification(line1.value, line)];
        line1 := None;
        return;
      }
      TablesAreClasses(line);
      var sms := InTable(line, SMS_UNSOLICITEDS);
      if sms {
        line1 := Some(line);
      } else {
        ProcessLine(line);
      }
    }

    method ReaderLine(line: string)
      requires Valid() && reading
      modifies this`roles, this`smsPdu, this`line1, this`trace, response
      ensures Valid()
      ensures trace == Then(old(trace), Line(line)) && response == old(response)
      ensures response != null ==> OnlyNew(old(response.nodes), response.nodes)
    {
      Reachable(trace);
      Dispatch(line);
      trace := Then(trace, Line(line));
    }

    method OnReaderClosed()
      requires Valid() && reading
      modifies this
      ensures Valid()
      ensures trace == Then(old(trace), EndOfReader) && response == old(response)
    {
      trace := Then(trace, EndOfReader);
      reading := false;
      if line1.Some? {
        roles := roles + [Orphaned(line1.value)];
        line1 := None;
      }
      if onReaderClosed && !readerClosed {
        readerClosed := true;
      }
    }

    method AtClose()
      requires Valid()
      modifies this`readerClosed, this`trace
      ensures Valid()
      ensures trace == Then(old(trace), CloseChannel)
    {
      trace := Then(trace, CloseChannel);
      readerClosed := true;
    }

    // -------------------------------------------------------------- the command thread

    method ClearPendingCommand()
      modifies this`response, this`responsePrefix, this`smsPdu
      ensures Model() == AtProtocol.ClearPendingCommand(old(Model())) && response == null
    {
      response, responsePrefix, smsPdu := null, None, None;
    }

    /** The command has been written: its fields and an empty response. */
    method StartCommand(ty: CommandType, prefix: Option<string>, pdu: Option<string>)
      modifies this`ty, this`responsePrefix, this`smsPdu, this`response
      ensures Model() == old(Model()).(ty := ty, responsePrefix := prefix, smsPdu := pdu,
                                       response := Some(Response(0, None, [])))
      ensures response != null && fresh(response) && response.Valid() && response.nodes == []
    {
      this.ty, responsePrefix, smsPdu := ty, prefix, pdu;
      response := new ATResponse();
    }

    /** Up to the wait. Writing the command may fail in the operating system. */
    method BeginCommand(ty: CommandType, prefix: Option<string>, pdu: Option<string>, writeFails: bool)
      returns (err: int)
      requires Valid() && Enabled(Exec(trace), Command(ty, prefix, pdu, writeFails))
      modifies this
      ensures Valid()
      ensures trace == Then(old(trace), Command(ty, prefix, pdu, writeFails))
      ensures Exec(trace).status == if err < 0 then Returned(err, None) else Waiting
      ensures err == if old(readerClosed) then AT_ERROR_CHANNEL_CLOSED else if writeFails then AT_ERROR_GENERIC else 0
      ensures readerClosed == old(readerClosed) && Exec(trace).pdu0 == pdu
      ensures err == 0 ==> response != null && fresh(response) && response.nodes == []
      ensures err == 0 ==> this.ty == ty && responsePrefix == prefix
    {
      Reachable(trace);
      trace := Then(trace, Command(ty, prefix, pdu, writeFails));
      if response != null {
        err := AT_ERROR_COMMAND_PENDING;
      } else if readerClosed {
        err := AT_ERROR_CHANNEL_CLOSED;
      } else if writeFails {
        err := AT_ERROR_GENERIC;
      } else {
        StartCommand(ty, prefix, pdu);
        return 0;
      }
      ClearPendingCommand();
    }

    /** The response goes to the caller, its intermediates turned round, or is freed. */
    method HandOver(wantsResponse: bool) returns (out: ATResponse?)
      requires response != null && response.Valid()
      modifies this`response, this`responsePrefix, this`smsPdu
      modifies response`intermediates, response`nodes, response.nodes`next
      ensures response == null && Model() == AtProtocol.ClearPendingCommand(old(Model()))
      ensures out != null <==> wantsResponse
      ensures wantsResponse ==> out.Valid()
      ensures wantsResponse ==>
        var r := old(Model()).response.value; out.Model() == r.(intermediates := Reversed(r.intermediates))
    {
      out := null;
      if wantsResponse {
        LinesOnReversed(response.nodes);
        response.ReverseIntermediates();
        out := response;
      }
      ClearPendingCommand();
    }

    /** After a wait; `waiting` when the command waits again. */
    method WakeCommand(timedOut: bool, wantsResponse: bool) returns (waiting: bool, err: int, out: ATResponse?)
      requires Valid() && response != null && Enabled(Exec(trace), WakeUp(timedOut, wantsResponse))
      modifies this`response, this`responsePrefix, this`smsPdu, this`trace
      modifies response, response.nodes`next
      ensures Valid()
      ensures trace == Then(old(trace), WakeUp(timedOut, wantsResponse))
      ensures Exec(trace).status ==
              if waiting then Waiting else Returned(err, if out == null then None else Some(out.Model()))
      ensures out != null ==> out.Valid()
    {
      trace := Then(trace, WakeUp(timedOut, wantsResponse));
      waiting, err, out := false, 0, null;
      if timedOut {
        err := AT_ERROR_TIMEOUT;
        ClearPendingCommand();
      } else if response.finalResponse.None? && !readerClosed {
        waiting := true;
      } else {
        out := HandOver(wantsResponse);
        if readerClosed {
          err := AT_ERROR_CHANNEL_CLOSED;
        }
      }
    }

    /** A step of the reader thread or of a caller of `at_close` while the command waits. */
    method OtherStep(step: Step)
      requires Valid() && response != null
      modifies this, response
      ensures Valid() && response == old(response) && OnlyNew(old(response.nodes), response.nodes)
      ensures trace == Other(old(trace), step)
      ensures ty == old(ty) && responsePrefix == old(responsePrefix)
      ensures Exec(trace).pdu0 == old(Exec(trace).pdu0) && Exec(trace).status == old(Exec(trace).status)
    {
      match step {
        case Line(line) =>
          if reading {
            ReaderLine(line);
          }
        case EndOfReader =>
          if reading {
            OnReaderClosed();
          }
        case CloseChannel =>
          AtClose();
        case _ =>
      }
    }

    method OthersRun(steps: seq<Step>)
      requires Valid() && response != null
      modifies this, response
      ensures Valid() && response == old(response) && OnlyNew(old(response.nodes), response.nodes)
      ensures trace == Others(old(trace), steps)
      ensures ty == old(ty) && responsePrefix == old(responsePrefix)
      ensures Exec(trace).pdu0 == old(Exec(trace).pdu0) && Exec(trace).status == old(Exec(trace).status)
    {
      for i := 0 to |steps|
        invariant Valid() && response == old(response) && OnlyNew(old(response.nodes), response.nodes)
        invariant trace == Others(old(trace), steps[..i])
        invariant ty == old(ty) && responsePrefix == old(responsePrefix)
        invariant Exec(trace).pdu0 == old(Exec(trace).pdu0) && Exec(trace).status == old(Exec(trace).status)
      {
        assert steps[..i + 1][..i] == steps[..i];
        OtherStep(steps[i]);
      }
      assert steps[..|steps|] == steps;
    }

    /**
      The loop around the wait: `waits[i]` is what others do during the i-th wait. It ends with the first round after
      which the condition is met or a timeout is reported; when there is nothing more to wait for, the command times
      out, or without a timeout is left waiting.
     */
    method AwaitResponse(timeout: bool, waits: seq<seq<Step>>)
      returns (waiting: bool, timedOut: bool, ghost rounds: nat)
      requires Valid() && response != null && Exec(trace).status == Waiting
      modifies this, response
      ensures Valid() && response == old(response) && OnlyNew(old(response.nodes), response.nodes)
      ensures ty == old(ty) && responsePrefix == old(responsePrefix) && Exec(trace).pdu0 == old(Exec(trace).pdu0)
      ensures Exec(trace).status == Waiting
      ensures Lasts(old(trace), waits, rounds) && trace == Waits(old(trace), waits[..rounds])
      ensures if waiting then !timeout && !timedOut && rounds == |waits| && !Done(trace) else timedOut || Done(trace)
      ensures timedOut ==> timeout
    {
      waiting, timedOut, rounds := false, false, 0;
      var i := 0;
      while response.finalResponse.None? && !readerClosed && !timedOut
        invariant Valid() && response == old(response) && OnlyNew(old(response.nodes), response.nodes)
        invariant ty == old(ty) && responsePrefix == old(responsePrefix) && Exec(trace).pdu0 == old(Exec(trace).pdu0)
        invariant Exec(trace).status == Waiting && (timedOut ==> timeout)
        invariant rounds == i && Lasts(old(trace), waits, i) && trace == Waits(old(trace), waits[..i])
        decreases !timedOut, |waits| - i
      {
        if i == |waits| {
          if !timeout {
            waiting := true;
            return;
          }
          timedOut := true;
        } else {
          assert waits[..i + 1][..i] == waits[..i];
          OthersRun(waits[i]);
          i := i + 1;
          rounds := i;
          timedOut := *;
          timedOut := timedOut && timeout;
        }
      }
    }

    /** The rest of a command that has begun. */
    method CompleteCommand(timeout: bool, wantsResponse: bool, waits: seq<seq<Step>>)
      returns (waiting: bool, err: int, out: ATResponse?, ghost rounds: nat, ghost timedOut: bool)
      requires Valid() && response != null && response.nodes == [] && Exec(trace).status == Waiting
      modifies this, response
      ensures Valid() && (out != null ==> out.Valid()) && (waiting ==> err == 0 && out == null && response != null)
      ensures Exec(trace).status ==
              if waiting then Waiting else Returned(err, if out == null then None else Some(out.Model()))
      ensures Exec(trace).pdu0 == old(Exec(trace).pdu0) && Exec(trace).c.ty == old(ty)
      ensures Lasts(old(trace), waits, rounds)
      ensures var waited := Waits(old(trace), waits[..rounds]);
        && Exec(waited).c.responsePrefix == old(responsePrefix)
        && if waiting then trace == waited && rounds == |waits| && !timeout && !Done(trace)
           else && trace == Then(waited, WakeUp(timedOut, wantsResponse))
                && Enabled(Exec(waited), WakeUp(timedOut, wantsResponse))
                && (if timedOut then timeout else Done(waited))
    {
      out, err := null, 0;
      var late;
      waiting, late, rounds := AwaitResponse(timeout, waits);
      timedOut := late;
      if waiting {
        return;
      }
      assert forall n | n in response.nodes :: fresh(n);
      forall k | 0 <= k < |response.nodes| ensures fresh(response.nodes[k]) {
        assert response.nodes[k] in response.nodes;
      }
      waiting, err, out := WakeCommand(late, wantsResponse);
    }

    /** A whole command, with what others do during its waits. Without a timeout it may be left waiting. */
    method AtSendCommandFullNolock(ty: CommandType, prefix: Option<string>, pdu: Option<string>, timeout: bool,
                                   wantsResponse: bool, writeFails: bool, waits: seq<seq<Step>>)
      returns (waiting: bool, err: int, out: ATResponse?, ghost rounds: nat, ghost timedOut: bool)
      requires Valid() && Enabled(Exec(trace), Command(ty, prefix, pdu, writeFails))
      modifies this
      ensures Valid() && (out != null ==> out.Valid()) && (waiting ==> err == 0 && out == null)
      ensures Exec(trace).status ==
              if waiting then Waiting else Returned(err, if out == null then None else Some(out.Model()))
      // the steps taken
      ensures var begun := Then(old(trace), Command(ty, prefix, pdu, writeFails));
        if old(readerClosed) || writeFails then trace == begun && !waiting
        else
          && Lasts(begun, waits, rounds)
          && var waited := Waits(begun, waits[..rounds]);
          if waiting then trace == waited && rounds == |waits| && !timeout && !Done(trace)
          else trace == Then(waited, WakeUp(timedOut, wantsResponse)) && (if timedOut then timeout else Done(waited))
      // the outcome
      ensures !waiting ==> response == null && responsePrefix.None? && smsPdu.None?
      ensures !waiting && err == 0 ==> !readerClosed && LatestFinal(Exec(trace).during).Some?
      ensures waiting ==> LatestFinal(Exec(trace).during).None? && !readerClosed
      ensures err in {0, -1, -3, -4} && Exec(trace).pdu0 == pdu
      ensures err == -1 <==> writeFails && !old(readerClosed)
      ensures err == -4 ==> timeout
      ensures err == -3 ==> readerClosed
      ensures out != null ==> wantsResponse && out.finalResponse == LatestFinal(Exec(trace).during)
      ensures out != null ==> LinesOn(out.nodes) == Expected(ty, prefix, pdu, Exec(trace).during)
      ensures !waiting && err == 0 && wantsResponse ==>
        out != null && (out.success > 0 <==> IsFinalResponseSuccess(out.finalResponse.value))
    {
      waiting, out, rounds, timedOut := false, null, 0, false;
      err := BeginCommand(ty, prefix, pdu, writeFails);
      if err < 0 {
        NothingLeftBehind(trace);
        return;
      }
      waiting, err, out, rounds, timedOut := CompleteCommand(timeout, wantsResponse, waits);
      if waiting {
        SuccessAgreesWithFinal(trace);
      } else {
        ReturnIsRight(trace.before, timedOut, wantsResponse);
      }
    }

    /** The singleline, numeric and sms commands: a successful response must have its one intermediate. */
    method AtSendCommandForOne(ty: CommandType, prefix: Option<string>, pdu: Option<string>, wantsResponse: bool,
                               writeFails: bool, waits: seq<seq<Step>>)
      returns (waiting: bool, err: int, out: ATResponse?, ghost rounds: nat)
      requires Valid() && (ty == SingleLine || ty == Numeric)
      requires Enabled(Exec(trace), Command(ty, prefix, pdu, writeFails))
      modifies this
      ensures Valid() && (waiting ==> out == null) && (!waiting ==> response == null)
      ensures (if waiting then Waiting else Returned(err, if out == null then None else Some(out.Model()))) ==
              RequireIntermediate(Exec(trace).status)
      // the steps taken
      ensures var begun := Then(old(trace), Command(ty, prefix, pdu, writeFails));
        if old(readerClosed) || writeFails then trace == begun && !waiting
        else
          && Lasts(begun, waits, rounds)
          && var waited := Waits(begun, waits[..rounds]);
          if waiting then trace == waited && rounds == |waits| && !Done(trace)
          else trace == Then(waited, WakeUp(false, wantsResponse)) && Done(waited)
      // the outcome
      ensures !waiting && err == 0 ==> LatestFinal(Exec(trace).during).Some? && (out != null <==> wantsResponse)
      ensures out != null && err == 0 && out.success > 0 ==>
        && out.Valid() && IsSuccess(LatestFinal(Exec(trace).during))
        && |out.nodes| == 1 && Matches(ty, prefix, out.nodes[0].line) && out.nodes[0].line in Exec(trace).during
      ensures err == -6 ==> out == null && Expected(ty, prefix, pdu, Exec(trace).during) == []
      ensures !waiting && Exec(trace).status.err != 0 ==> err == Exec(trace).status.err
      ensures !waiting && Exec(trace).status.err == 0 ==>
        err == if && wantsResponse && IsSuccess(LatestFinal(Exec(trace).during))
                  && Expected(ty, prefix, pdu, Exec(trace).during) == []
               then -6 else 0
      ensures out != null ==> out.Valid() && out.finalResponse == LatestFinal(Exec(trace).during)
      ensures out != null ==> LinesOn(out.nodes) == Expected(ty, prefix, pdu, Exec(trace).during)
      ensures out != null && err == 0 ==> (out.success > 0 <==> IsSuccess(out.finalResponse))
    {
      ghost var timedOut;
      waiting, err, out, rounds, timedOut :=
        AtSendCommandFullNolock(ty, prefix, pdu, false, wantsResponse, writeFails, waits);
      ghost var e := Expected(ty, prefix, pdu, Exec(trace).during);
      ExpectedBounded(ty, prefix, pdu, Exec(trace).during);
      OrdinaryMembers(pdu, Exec(trace).during);
      if err == 0 && out != null && out.success > 0 {
        if out.intermediates == null {
          err, out := AT_ERROR_INVALID_RESPONSE, null;
          return;
        }
        assert e[0] == out.nodes[0].line && e[0] in e;
        assert e == [e[0]] + LinesOn(out.nodes[1..]);
      }
    }
  }
}
