/**
  The AT command protocol of `atchannel.c` as atomic steps under its mutex: the reader thread delivers lines,
  one command thread begins commands and wakes from its wait, and the channel may be closed at any time.
 */
module AtProtocol {
  import opened Options

  const AT_ERROR_GENERIC := -1
  const AT_ERROR_COMMAND_PENDING := -2
  const AT_ERROR_CHANNEL_CLOSED := -3
  const AT_ERROR_TIMEOUT := -4
  const AT_ERROR_INVALID_RESPONSE := -6

  // ---------------------------------------------------------------- classes of lines

  /** `strStartsWith`. */
  predicate StartsWith(line: string, prefix: string) {
    prefix <= line
  }

  predicate IsFinalResponseError(line: string) {
    || StartsWith(line, "ERROR")
    || StartsWith(line, "+CMS ERROR:")
    || StartsWith(line, "+CME ERROR:")
    || StartsWith(line, "NO CARRIER")
    || StartsWith(line, "NO ANSWER")
    || StartsWith(line, "NO DIALTONE")
  }

  predicate IsFinalResponseSuccess(line: string) {
    StartsWith(line, "OK") || StartsWith(line, "CONNECT")
  }

  predicate IsFinalResponse(line: string) {
    IsFinalResponseSuccess(line) || IsFinalResponseError(line)
  }

  predicate IsSmsUnsolicited(line: string) {
    StartsWith(line, "+CMT:") || StartsWith(line, "+CDS:") || StartsWith(line, "+CBM:")
  }

  predicate StartsWithDigit(line: string) {
    line != "" && '0' <= line[0] <= '9'
  }

  const PROMPT := "> "

  // ---------------------------------------------------------------- the channel

  datatype CommandType = NoResult | Numeric | SingleLine | MultiLine

  /** `intermediates` is the linked list from its head: latest line first until it is reversed. */
  datatype Response = Response(success: int, finalResponse: Option<string>, intermediates: seq<string>)

  /** What became of a line, or of two. */
  datatype Role =
    | Notification(line1: string, line2: string)
    | Final(line: string)
    | Intermediate(line: string)
    | Prompted(pdu: string)
    | Unsolicited(line: string)
    | Orphaned(line: string)  // first half of a notification whose second half never came

  datatype Channel = Channel(
    ty: CommandType,
    responsePrefix: Option<string>,
    smsPdu: Option<string>,
    response: Option<Response>,
    readerClosed: bool,
    onReaderClosed: bool,       // is there a callback for a reader that closes by itself?
    line1: Option<string>,      // in the reader loop, between the two lines of a notification
    roles: seq<Role>)

  function Logged(c: Channel, role: Role): Channel {
    c.(roles := c.roles + [role])
  }

  /** Does the switch on the command type take this line for an intermediate response? */
  predicate TakesIntermediate(ty: CommandType, prefix: Option<string>, intermediates: seq<string>, line: string) {
    match ty
    case NoResult => false
    case Numeric => intermediates == [] && StartsWithDigit(line)
    case SingleLine => intermediates == [] && prefix.Some? && StartsWith(line, prefix.value)
    case MultiLine => prefix.Some? && StartsWith(line, prefix.value)
  }

  /** `processLine`. */
  function ProcessLine(c: Channel, line: string): Channel {
    if c.response == None then Logged(c, Unsolicited(line))
    else
      var r := c.response.value;
      if IsFinalResponseSuccess(line) then
        Logged(c.(response := Some(r.(success := 1, finalResponse := Some(line)))), Final(line))
      else if IsFinalResponseError(line) then
        Logged(c.(response := Some(r.(success := 0, finalResponse := Some(line)))), Final(line))
      else if c.smsPdu.Some? && line == PROMPT then
        Logged(c.(smsPdu := None), Prompted(c.smsPdu.value))
      else if TakesIntermediate(c.ty, c.responsePrefix, r.intermediates, line) then
        Logged(c.(response := Some(r.(intermediates := [line] + r.intermediates))), Intermediate(line))
      else Logged(c, Unsolicited(line))
  }

  /** One line in `readerLoop`. */
  function ReaderLine(c: Channel, line: string): Channel {
    if c.line1.Some? then Logged(c.(line1 := None), Notification(c.line1.value, line))
    else if IsSmsUnsolicited(line) then c.(line1 := Some(line))
    else ProcessLine(c, line)
  }

  /** The end of `readerLoop`, and `onReaderClosed`: without a callback the channel is not marked closed. */
  function ReaderEnd(c: Channel): Channel {
    var c1 := if c.line1.Some? then Logged(c.(line1 := None), Orphaned(c.line1.value)) else c;
    if c1.onReaderClosed then c1.(readerClosed := true) else c1
  }

  function ClearPendingCommand(c: Channel): Channel {
    c.(response := None, responsePrefix := None, smsPdu := None)
  }

  /** What a call to at_send_command_full_nolock has come to: still in its wait, or returned. */
  datatype Status = Waiting | Returned(err: int, out: Option<Response>)

  function Begin(c: Channel, ty: CommandType, prefix: Option<string>, pdu: Option<string>, writeFails: bool):
  (Channel, Status) {
    if c.response.Some? then (ClearPendingCommand(c), Returned(AT_ERROR_COMMAND_PENDING, None))
    else if c.readerClosed then (ClearPendingCommand(c), Returned(AT_ERROR_CHANNEL_CLOSED, None))
    else if writeFails then (ClearPendingCommand(c), Returned(AT_ERROR_GENERIC, None))
    else (c.(ty := ty, responsePrefix := prefix, smsPdu := pdu, response := Some(Response(0, None, []))), Waiting)
  }

  function Reversed<T>(s: seq<T>): (r: seq<T>)
    ensures |r| == |s|
  {
    if s == [] then [] else Reversed(s[1..]) + [s[0]]
  }

  /** The waiter has the mutex again, after a signal, a spurious wake-up or a timeout. */
  function Wake(c: Channel, timedOut: bool, wantsResponse: bool): (Channel, Status)
    requires c.response.Some?
  {
    var r := c.response.value;
    if timedOut then (ClearPendingCommand(c), Returned(AT_ERROR_TIMEOUT, None))
    else if r.finalResponse == None && !c.readerClosed then (c, Waiting)
    else
      var out := if wantsResponse then Some(r.(intermediates := Reversed(r.intermediates))) else None;
      (ClearPendingCommand(c), Returned(if c.readerClosed then AT_ERROR_CHANNEL_CLOSED else 0, out))
  }

  /** What the singleline, numeric and sms commands make of a return. */
  function RequireIntermediate(status: Status): Status {
    if status.Returned? && status.err == 0 && status.out.Some?
         && status.out.value.success > 0 && status.out.value.intermediates == []
    then Returned(AT_ERROR_INVALID_RESPONSE, None)
    else status
  }

  // ---------------------------------------------------------------- runs

  datatype Step =
    | Line(line: string)
    | EndOfReader
    | CloseChannel
    | Command(ty: CommandType, prefix: Option<string>, pdu: Option<string>, writeFails: bool)
    | WakeUp(timedOut: bool, wantsResponse: bool)

  /**
    status  - of the latest command; `Waiting` while one is pending
    pdu0    - the PDU it was given
    during  - the lines that processLine has seen since it began
    prompts - how often its PDU was sent
    read    - every line that was ever read
   */
  datatype Run = Run(c: Channel, status: Status, pdu0: Option<string>, during: seq<string>, prompts: nat,
                     reading: bool, read: seq<string>)

  datatype Trace = Start(onReaderClosed: bool) | Then(before: Trace, step: Step)

  function Init(onReaderClosed: bool): Run {
    Run(Channel(NoResult, None, None, None, false, onReaderClosed, None, []), Returned(0, None), None, [], 0, true, [])
  }

  /** One command at a time, with a prefix where its type compares one; the reader thread ends once. */
  predicate Enabled(r: Run, step: Step) {
    match step
    case Line(_) => r.reading
    case EndOfReader => r.reading
    case CloseChannel => true
    case Command(ty, prefix, _, _) => r.status != Waiting && (ty == SingleLine || ty == MultiLine ==> prefix.Some?)
    case WakeUp(_, _) => r.status == Waiting && r.c.response.Some?
  }

  function Next(r: Run, step: Step): Run
    requires Enabled(r, step)
  {
    match step
    case Line(line) =>
      var c' := ReaderLine(r.c, line);
      var processed := r.c.line1.None? && !IsSmsUnsolicited(line) && r.c.response.Some?;
      r.(c := c', read := r.read + [line],
         during := if processed then r.during + [line] else r.during,
         prompts := r.prompts + if r.c.smsPdu.Some? && c'.smsPdu.None? then 1 else 0)
    case EndOfReader => r.(c := ReaderEnd(r.c), reading := false)
    case CloseChannel => r.(c := r.c.(readerClosed := true))
    case Command(ty, prefix, pdu, writeFails) =>
      var (c', status) := Begin(r.c, ty, prefix, pdu, writeFails);
      r.(c := c', status := status, pdu0 := pdu, during := [], prompts := 0)
    case WakeUp(timedOut, wantsResponse) =>
      var (c', status) := Wake(r.c, timedOut, wantsResponse);
      r.(c := c', status := status)
  }

  predicate Legal(trace: Trace)
    decreases trace, 0
  {
    trace.Then? ==> Legal(trace.before) && Enabled(Exec(trace.before), trace.step)
  }

  function Exec(trace: Trace): Run
    requires Legal(trace)
    decreases trace, 1
  {
    match trace
    case Start(onReaderClosed) => Init(onReaderClosed)
    case Then(before, step) => Next(Exec(before), step)
  }

  // ---------------------------------------------------------------- a command from beginning to end

  /** A step of the reader thread or of a caller of `at_close`; one that cannot happen does not. */
  function Other(trace: Trace, step: Step): (t: Trace)
    requires Legal(trace)
    ensures Legal(t)
  {
    if (step.Line? || step.EndOfReader? || step.CloseChannel?) && Enabled(Exec(trace), step) then Then(trace, step)
    else trace
  }

  function Others(trace: Trace, steps: seq<Step>): (t: Trace)
    requires Legal(trace)
    ensures Legal(t)
  {
    if steps == [] then trace else Other(Others(trace, steps[..|steps| - 1]), steps[|steps| - 1])
  }

  /** What others do during some waits, one after the other. */
  function Waits(trace: Trace, waits: seq<seq<Step>>): (t: Trace)
    requires Legal(trace)
    ensures Legal(t)
  {
    if waits == [] then trace else Others(Waits(trace, waits[..|waits| - 1]), waits[|waits| - 1])
  }

  /** The condition that ends the wait. */
  predicate Done(trace: Trace)
    requires Legal(trace)
  {
    var c := Exec(trace).c;
    c.readerClosed || (c.response.Some? && c.response.value.finalResponse.Some?)
  }

  /** The wait lasts this many rounds: the condition was not met before. */
  ghost predicate Lasts(trace: Trace, waits: seq<seq<Step>>, rounds: nat)
    requires Legal(trace)
  {
    rounds <= |waits| && forall k | 0 <= k < rounds :: !Done(Waits(trace, waits[..k]))
  }

  // ---------------------------------------------------------------- what a response should contain

  /** The lines that are neither final nor the prompt that releases the PDU. */
  function Ordinary(pdu: Option<string>, lines: seq<string>): seq<string> {
    if lines == [] then []
    else
      var init := lines[..|lines| - 1];
      Ordinary(pdu, init) + OneIf(!IsFinalResponse(Last(lines)) && !ReleasesPdu(pdu, init, Last(lines)), Last(lines))
  }

  /** Is this line the prompt that the PDU has been waiting for? */
  predicate ReleasesPdu(pdu: Option<string>, before: seq<string>, line: string) {
    pdu.Some? && line == PROMPT && PROMPT !in before
  }

  function OneIf(b: bool, line: string): seq<string> {
    if b then [line] else []
  }

  function Last<T>(s: seq<T>): T
    requires s != []
  {
    s[|s| - 1]
  }

  predicate Matches(ty: CommandType, prefix: Option<string>, line: string) {
    match ty
    case NoResult => false
    case Numeric => StartsWithDigit(line)
    case SingleLine => prefix.Some? && StartsWith(line, prefix.value)
    case MultiLine => prefix.Some? && StartsWith(line, prefix.value)
  }

  function Matching(ty: CommandType, prefix: Option<string>, lines: seq<string>): seq<string> {
    if lines == [] then []
    else Matching(ty, prefix, lines[..|lines| - 1]) + OneIf(Matches(ty, prefix, Last(lines)), Last(lines))
  }

  /** A multiline command collects every matching line, the others at most the first. */
  function Collected(ty: CommandType, matching: seq<string>): seq<string> {
    if ty == MultiLine || matching == [] then matching else matching[..1]
  }

  function Expected(ty: CommandType, prefix: Option<string>, pdu: Option<string>, lines: seq<string>): seq<string> {
    Collected(ty, Matching(ty, prefix, Ordinary(pdu, lines)))
  }

  /** The lines a role has used up. */
  function LinesOf(role: Role): seq<string> {
    match role
    case Notification(line1, line2) => [line1, line2]
    case Final(line) => [line]
    case Intermediate(line) => [line]
    case Prompted(_) => [PROMPT]
    case Unsolicited(line) => [line]
    case Orphaned(line) => [line]
  }

  function Consumed(roles: seq<Role>): seq<string> {
    if roles == [] then [] else Consumed(roles[..|roles| - 1]) + LinesOf(Last(roles))
  }

  /** The latest final line, which is the one that is kept when several come before the waiter wakes. */
  function LatestFinal(lines: seq<string>): Option<string> {
    if lines == [] then None
    else if IsFinalResponse(Last(lines)) then Some(Last(lines)) else LatestFinal(lines[..|lines| - 1])
  }

  // ---------------------------------------------------------------- the invariant

  /** The pending response is what the lines seen so far call for. */
  ghost predicate ResponseInv(ty: CommandType, prefix: Option<string>, pdu0: Option<string>, smsPdu: Option<string>,
                              resp: Response, during: seq<string>, prompts: nat) {
    && resp.finalResponse == LatestFinal(during)
    && resp.success == (if resp.finalResponse.Some? && IsFinalResponseSuccess(resp.finalResponse.value) then 1 else 0)
    && resp.intermediates == Reversed(Expected(ty, prefix, pdu0, during))
    && smsPdu == (if PROMPT in during then None else pdu0)
    && prompts == (if pdu0.Some? && PROMPT in during then 1 else 0)
  }

  ghost predicate Inv(r: Run) {
    && (r.status == Waiting <==> r.c.response.Some?)
    && (r.c.response.Some? ==>
          ResponseInv(r.c.ty, r.c.responsePrefix, r.pdu0, r.c.smsPdu, r.c.response.value, r.during, r.prompts))
    && (r.c.response.None? ==> r.c.responsePrefix == None && r.c.smsPdu == None)
    && (r.c.response.Some? && (r.c.ty == SingleLine || r.c.ty == MultiLine) ==> r.c.responsePrefix.Some?)
    && r.prompts <= (if r.pdu0.Some? then 1 else 0)
    && r.read == LinesIn(r.c)
  }

  lemma Snoc<T>(s: seq<T>, x: T)
    ensures (s + [x])[..|s + [x]| - 1] == s && Last(s + [x]) == x
  {}

  lemma ConsumedSnoc(roles: seq<Role>, role: Role)
    ensures Consumed(roles + [role]) == Consumed(roles) + LinesOf(role)
  {
    Snoc(roles, role);
  }

  lemma {:induction false} ReversedSnoc<T>(s: seq<T>, x: T)
    ensures Reversed(s + [x]) == [x] + Reversed(s)
  {
    if s != [] {
      assert (s + [x])[1..] == s[1..] + [x];
      ReversedSnoc(s[1..], x);
      assert [x] + (Reversed(s[1..]) + [s[0]]) == ([x] + Reversed(s[1..])) + [s[0]];
    }
  }

  /** One more line changes the expected intermediates by at most itself. */
  lemma ExpectedSnoc(ty: CommandType, prefix: Option<string>, pdu: Option<string>, lines: seq<string>, line: string)
    ensures Expected(ty, prefix, pdu, lines + [line]) ==
              Expected(ty, prefix, pdu, lines) +
              OneIf(!IsFinalResponse(line) && !ReleasesPdu(pdu, lines, line) && Matches(ty, prefix, line)
                    && (ty == MultiLine || Expected(ty, prefix, pdu, lines) == []), line)
  {
    Snoc(lines, line);
    var m := Ordinary(pdu, lines);
    if !IsFinalResponse(line) && !ReleasesPdu(pdu, lines, line) {
      Snoc(m, line);
    } else {
      assert m + [] == m;
    }
  }

  lemma LatestFinalSnoc(lines: seq<string>, line: string)
    ensures LatestFinal(lines + [line]) == if IsFinalResponse(line) then Some(line) else LatestFinal(lines)
  {
    Snoc(lines, line);
  }

  lemma StartsWithHead(line: string, prefix: string)
    requires StartsWith(line, prefix) && prefix != ""
    ensures line != "" && line[0] == prefix[0]
  {}

  lemma PromptIsNotFinal()
    ensures !IsFinalResponse(PROMPT)
  {
    if IsFinalResponse(PROMPT) {
      if p :| p in ["ERROR", "+CMS ERROR:", "+CME ERROR:", "NO CARRIER", "NO ANSWER", "NO DIALTONE", "OK", "CONNECT"]
                && StartsWith(PROMPT, p) {
        StartsWithHead(PROMPT, p);
      }
    }
  }

  /** A line that is not final goes before the intermediates if it is collected, and nowhere else. */
  lemma OrdinaryIntermediates(ty: CommandType, prefix: Option<string>, pdu: Option<string>, during: seq<string>,
                              line: string)
    requires !IsFinalResponse(line)
    ensures var got := Reversed(Expected(ty, prefix, pdu, during));
      Reversed(Expected(ty, prefix, pdu, during + [line])) ==
      if !ReleasesPdu(pdu, during, line) && TakesIntermediate(ty, prefix, got, line) then [line] + got else got
  {
    var e := Expected(ty, prefix, pdu, during);
    ExpectedSnoc(ty, prefix, pdu, during, line);
    ReversedSnoc(e, line);
    assert e + [] == e;
    assert e == [] <==> Reversed(e) == [];
  }

  /** A line that is not final, told by what becomes of it: the PDU is released, it is collected, or neither. */
  lemma OrdinaryLine(c: Channel, pdu0: Option<string>, during: seq<string>, prompts: nat, line: string)
    requires c.response.Some? && !IsFinalResponse(line)
    requires ResponseInv(c.ty, c.responsePrefix, pdu0, c.smsPdu, c.response.value, during, prompts)
    ensures var releases := ReleasesPdu(pdu0, during, line);
      var kept := !releases && TakesIntermediate(c.ty, c.responsePrefix, c.response.value.intermediates, line);
      ResponseInv(c.ty, c.responsePrefix, pdu0, if releases then None else c.smsPdu,
                  c.response.value.(intermediates := (if kept then [line] else []) + c.response.value.intermediates),
                  during + [line], prompts + if releases then 1 else 0)
  {
    OrdinaryIntermediates(c.ty, c.responsePrefix, pdu0, during, line);
    LatestFinalSnoc(during, line);
    assert [] + c.response.value.intermediates == c.response.value.intermediates;
    assert PROMPT in during + [line] <==> PROMPT in during || line == PROMPT;
  }

  lemma FinalLine(c: Channel, pdu0: Option<string>, during: seq<string>, prompts: nat, line: string)
    requires c.response.Some? && IsFinalResponse(line)
    requires ResponseInv(c.ty, c.responsePrefix, pdu0, c.smsPdu, c.response.value, during, prompts)
    ensures ResponseInv(c.ty, c.responsePrefix, pdu0, c.smsPdu,
                        c.response.value.(success := if IsFinalResponseSuccess(line) then 1 else 0,
                                                  finalResponse := Some(line)),
                        during + [line], prompts)
  {
    var e := Expected(c.ty, c.responsePrefix, pdu0, during);
    ExpectedSnoc(c.ty, c.responsePrefix, pdu0, during, line);
    LatestFinalSnoc(during, line);
    PromptIsNotFinal();
    assert e + [] == e;
  }

  /** One line that processLine sees while a command is pending. */
  lemma LineKeepsResponse(c: Channel, pdu0: Option<string>, during: seq<string>, prompts: nat, line: string)
    requires c.response.Some?
    requires ResponseInv(c.ty, c.responsePrefix, pdu0, c.smsPdu, c.response.value, during, prompts)
    ensures var c' := ProcessLine(c, line);
      c'.response.Some? &&
      ResponseInv(c.ty, c.responsePrefix, pdu0, c'.smsPdu, c'.response.value, during + [line],
                  prompts + if c.smsPdu.Some? && c'.smsPdu.None? then 1 else 0)
  {
    var r := c.response.value;
    if IsFinalResponse(line) {
      FinalLine(c, pdu0, during, prompts, line);
    } else {
      OrdinaryLine(c, pdu0, during, prompts, line);
      assert [] + r.intermediates == r.intermediates;
      assert r.(intermediates := r.intermediates) == r;
    }
  }

  // ---------------------------------------------------------------- every run

  /** The line that processLine is given is used up in one role. */
  lemma ProcessedOnce(c: Channel, line: string)
    ensures var c' := ProcessLine(c, line);
      c'.line1 == c.line1 && c'.ty == c.ty && c'.responsePrefix == c.responsePrefix
        && (c.response.None? ==> c' == c.(roles := c'.roles))
    ensures exists role :: ProcessLine(c, line).roles == c.roles + [role] && LinesOf(role) == [line]
  {
    var role := Last(ProcessLine(c, line).roles);
    assert ProcessLine(c, line).roles == c.roles + [role];
  }

  /** The lines that have been used up, and the first half that awaits its second. */
  function LinesIn(c: Channel): seq<string> {
    Consumed(c.roles) + (if c.line1.Some? then [c.line1.value] else [])
  }

  lemma {:induction false} ConsumedLine(c: Channel, line: string)
    ensures LinesIn(ReaderLine(c, line)) == LinesIn(c) + [line]
  {
    if c.line1.Some? {
      ConsumedSnoc(c.roles, Notification(c.line1.value, line));
    } else if !IsSmsUnsolicited(line) {
      ProcessedOnce(c, line);
      var role :| ProcessLine(c, line).roles == c.roles + [role] && LinesOf(role) == [line];
      ConsumedSnoc(c.roles, role);
    }
  }

  lemma {:induction false} LineKept(r: Run, line: string)
    requires Inv(r) && Enabled(r, Line(line))
    ensures Inv(Next(r, Line(line)))
  {
    ConsumedLine(r.c, line);
    var c' := ReaderLine(r.c, line);
    if r.c.line1.None? && !IsSmsUnsolicited(line) {
      assert c' == ProcessLine(r.c, line);
      ProcessedOnce(r.c, line);
      if r.c.response.Some? {
        LineKeepsResponse(r.c, r.pdu0, r.during, r.prompts, line);
      }
    } else {
      assert c' == r.c.(line1 := c'.line1, roles := c'.roles);
    }
  }

  lemma {:induction false} EndKept(r: Run)
    requires Inv(r) && Enabled(r, EndOfReader)
    ensures Inv(Next(r, EndOfReader))
  {
    if r.c.line1.Some? {
      ConsumedSnoc(r.c.roles, Orphaned(r.c.line1.value));
    }
  }

  lemma BeginKept(r: Run, step: Step)
    requires Inv(r) && step.Command? && Enabled(r, step)
    ensures Inv(Next(r, step))
  {}

  lemma WakeKept(r: Run, step: Step)
    requires Inv(r) && step.WakeUp? && Enabled(r, step)
    ensures Inv(Next(r, step))
  {}

  lemma CloseKept(r: Run)
    requires Inv(r)
    ensures Inv(Next(r, CloseChannel))
  {}

  lemma {:induction false} Reachable(trace: Trace)
    requires Legal(trace)
    ensures Inv(Exec(trace))
  {
    if trace.Then? {
      Reachable(trace.before);
      var r := Exec(trace.before);
      match trace.step
      case Line(line) => LineKept(r, line);
      case EndOfReader => EndKept(r);
      case Command(_, _, _, _) => BeginKept(r, trace.step);
      case WakeUp(_, _) => WakeKept(r, trace.step);
      case CloseChannel => CloseKept(r);
    }
  }

  // ---------------------------------------------------------------- what it means

  /**
    When a command returns it leaves nothing pending behind; it returns 0 only with a final response and an open
    channel, and a response that is handed out has exactly the final line and the intermediates, in order of
    arrival, that the lines seen meanwhile call for, with `success` telling the class of the final line.
   */
  lemma {:induction false} ReturnIsRight(trace: Trace, timedOut: bool, wantsResponse: bool)
    requires Legal(trace) && Enabled(Exec(trace), WakeUp(timedOut, wantsResponse))
    requires Next(Exec(trace), WakeUp(timedOut, wantsResponse)).status.Returned?
    ensures var r, r' := Exec(trace), Next(Exec(trace), WakeUp(timedOut, wantsResponse));
      && r'.c.response == None && r'.c.responsePrefix == None && r'.c.smsPdu == None
      && (r'.status.err == 0 <==> !timedOut && LatestFinal(r.during).Some? && !r.c.readerClosed)
      && r'.status.err == (if timedOut then AT_ERROR_TIMEOUT
                           else if r.c.readerClosed then AT_ERROR_CHANNEL_CLOSED else 0)
      && (r'.status.out.Some? <==> !timedOut && wantsResponse)
      && (r'.status.out.Some? ==>
            && r'.status.out.value.finalResponse == LatestFinal(r.during)
            && r'.status.out.value.intermediates == Expected(r.c.ty, r.c.responsePrefix, r.pdu0, r.during)
            && (r'.status.err == 0 ==>
                  (r'.status.out.value.success > 0 <==> IsFinalResponseSuccess(LatestFinal(r.during).value))))
  {
    Reachable(trace);
    var r := Exec(trace);
    ReversedTwice(Expected(r.c.ty, r.c.responsePrefix, r.pdu0, r.during));
  }

  /** However a command ends, it leaves neither a pending response nor a prefix nor a PDU. */
  lemma {:induction false} NothingLeftBehind(trace: Trace)
    requires Legal(trace) && Exec(trace).status.Returned?
    ensures var c := Exec(trace).c; c.response == None && c.responsePrefix == None && c.smsPdu == None
  {
    Reachable(trace);
  }

  /** The stored final response is the latest final line seen so far, and `success` tells its class. */
  lemma {:induction false} SuccessAgreesWithFinal(trace: Trace)
    requires Legal(trace) && Exec(trace).c.response.Some?
    ensures var r := Exec(trace);
      var final := r.c.response.value.finalResponse;
      && final == LatestFinal(r.during)
      && (r.c.response.value.success > 0 <==> final.Some? && IsFinalResponseSuccess(final.value))
  {
    Reachable(trace);
  }

  lemma {:induction false} ReversedTwice<T>(s: seq<T>)
    ensures Reversed(Reversed(s)) == s
  {
    if s != [] {
      ReversedTwice(s[1..]);
      ReversedSnoc(Reversed(s[1..]), s[0]);
      assert s == [s[0]] + s[1..];
    }
  }

  /** The classes of annex B of 3GPP TS 27.007; no line is in two of them. */
  lemma FinalClasses(line: string)
    ensures IsFinalResponseSuccess(line) <==> "OK" <= line || "CONNECT" <= line
    ensures IsFinalResponseError(line) <==>
            || "ERROR" <= line || "+CMS ERROR:" <= line || "+CME ERROR:" <= line
            || "NO CARRIER" <= line || "NO ANSWER" <= line || "NO DIALTONE" <= line
    ensures IsSmsUnsolicited(line) <==> "+CMT:" <= line || "+CDS:" <= line || "+CBM:" <= line
    ensures !(IsFinalResponseSuccess(line) && IsFinalResponseError(line))
  {
    assert IsFinalResponseSuccess(line) ==> line != "" && line[0] in {'O', 'C'};
    assert IsFinalResponseError(line) ==> line != "" && line[0] in {'E', '+', 'N'};
  }

  /** The role of a line that processLine is given, in terms of the command pending and the lines it has seen. */
  function RoleFor(r: Run, line: string): Role {
    if r.status != Waiting then Unsolicited(line)
    else if IsFinalResponse(line) then Final(line)
    else if ReleasesPdu(r.pdu0, r.during, line) then Prompted(r.pdu0.value)
    else if Expected(r.c.ty, r.c.responsePrefix, r.pdu0, r.during + [line])
            != Expected(r.c.ty, r.c.responsePrefix, r.pdu0, r.during) then Intermediate(line)
    else Unsolicited(line)
  }

  lemma GrowsIff(e: seq<string>, b: bool, line: string)
    ensures e + OneIf(b, line) != e <==> b
  {
    assert |e + OneIf(b, line)| == |e| + if b then 1 else 0;
    assert e + [] == e;
  }

  lemma CollectedIffExpectedGrows(r: Run, line: string)
    requires Inv(r) && r.c.response.Some? && !IsFinalResponse(line) && !ReleasesPdu(r.pdu0, r.during, line)
    ensures TakesIntermediate(r.c.ty, r.c.responsePrefix, r.c.response.value.intermediates, line) <==>
            Expected(r.c.ty, r.c.responsePrefix, r.pdu0, r.during + [line])
            != Expected(r.c.ty, r.c.responsePrefix, r.pdu0, r.during)
  {
    var e := Expected(r.c.ty, r.c.responsePrefix, r.pdu0, r.during);
    var b := Matches(r.c.ty, r.c.responsePrefix, line) && (r.c.ty == MultiLine || e == []);
    ExpectedSnoc(r.c.ty, r.c.responsePrefix, r.pdu0, r.during, line);
    GrowsIff(e, b, line);
    EmptyIff(e);
  }

  lemma EmptyIff(e: seq<string>)
    ensures e == [] <==> Reversed(e) == []
  {}

  lemma ProcessedRole(r: Run, line: string)
    requires Inv(r)
    ensures ProcessLine(r.c, line).roles == r.c.roles + [RoleFor(r, line)]
  {
    if r.c.response.Some? && !IsFinalResponse(line) && !ReleasesPdu(r.pdu0, r.during, line) {
      CollectedIffExpectedGrows(r, line);
    }
  }

  /**
    The first line of a notification waits for its second; any other line gets the role that the pending command and
    the lines it has seen call for, and nothing else happens to the roles.
   */
  lemma {:induction false} RolesAreRight(trace: Trace, line: string)
    requires Legal(trace) && Enabled(Exec(trace), Line(line))
    ensures var r := Exec(trace);
      var c' := Next(r, Line(line)).c;
      if r.c.line1.Some? then c'.roles == r.c.roles + [Notification(r.c.line1.value, line)] && c'.line1 == None
      else if IsSmsUnsolicited(line) then c'.roles == r.c.roles && c'.line1 == Some(line)
      else c'.roles == r.c.roles + [RoleFor(r, line)] && c'.line1 == None
  {
    Reachable(trace);
    ProcessedRole(Exec(trace), line);
    ProcessedOnce(Exec(trace).c, line);
  }

  /** Has the channel been closed by a caller, or by the end of the reader with a callback for it? */
  predicate Closed(trace: Trace) {
    trace.Then? && (trace.step.CloseChannel? || (trace.step.EndOfReader? && Observed(trace)) || Closed(trace.before))
  }

  predicate Observed(trace: Trace) {
    match trace
    case Start(onReaderClosed) => onReaderClosed
    case Then(before, _) => Observed(before)
  }

  lemma {:induction false} ClosedIff(trace: Trace)
    requires Legal(trace)
    ensures Exec(trace).c.readerClosed <==> Closed(trace)
    ensures Exec(trace).c.onReaderClosed <==> Observed(trace)
  {
    if trace.Then? {
      ClosedIff(trace.before);
      ClosedStep(Exec(trace.before), trace.step);
    }
  }

  lemma ClosedStep(r: Run, step: Step)
    requires Enabled(r, step)
    ensures Next(r, step).c.onReaderClosed == r.c.onReaderClosed
    ensures Next(r, step).c.readerClosed <==>
            r.c.readerClosed || step.CloseChannel? || (step.EndOfReader? && r.c.onReaderClosed)
  {
    if step.Line? {
      LineLeavesChannel(r.c, step.line);
    }
  }

  lemma LineLeavesChannel(c: Channel, line: string)
    ensures var c' := ReaderLine(c, line); c'.readerClosed == c.readerClosed && c'.onReaderClosed == c.onReaderClosed
  {}

  /** The latest final line is final, and no final line comes after it. */
  lemma {:induction false} LatestFinalIs(lines: seq<string>) returns (k: nat)
    ensures LatestFinal(lines).None? ==> forall i | 0 <= i < |lines| :: !IsFinalResponse(lines[i])
    ensures LatestFinal(lines).Some? ==>
      && k < |lines| && LatestFinal(lines) == Some(lines[k]) && IsFinalResponse(lines[k])
      && forall i | k < i < |lines| :: !IsFinalResponse(lines[i])
  {
    k := 0;
    if lines != [] {
      if IsFinalResponse(Last(lines)) {
        k := |lines| - 1;
      } else {
        k := LatestFinalIs(lines[..|lines| - 1]);
      }
    }
  }

  /** Every line that is not final is ordinary, as often as it came, but for the one prompt that releases a PDU. */
  lemma {:induction false} OrdinaryCounts(pdu: Option<string>, lines: seq<string>, line: string)
    ensures multiset(Ordinary(pdu, lines))[line] ==
              if IsFinalResponse(line) then 0
              else if line == "> " && pdu.Some? && "> " in lines then multiset(lines)[line] - 1
              else multiset(lines)[line]
  {
    if lines != [] {
      var init, last := lines[..|lines| - 1], Last(lines);
      OrdinaryCounts(pdu, init, line);
      assert lines == init + [last];
      MultisetSnoc(init, last, line);
      PromptIsNotFinal();
      if IsFinalResponse(last) || ReleasesPdu(pdu, init, last) {
        assert Ordinary(pdu, lines) == Ordinary(pdu, init);
      } else {
        assert Ordinary(pdu, lines) == Ordinary(pdu, init) + [last];
        MultisetSnoc(Ordinary(pdu, init), last, line);
      }
      assert PROMPT in lines <==> PROMPT in init || last == PROMPT;
    }
  }

  /** The singleline commands expect the first ordinary line with their prefix, numeric ones the first with a digit. */
  lemma FirstIsExpected(ty: CommandType, prefix: string, pdu: Option<string>, lines: seq<string>, k: nat)
    requires ty == SingleLine || ty == Numeric
    requires k < |Ordinary(pdu, lines)| && IsWanted(ty, prefix, Ordinary(pdu, lines)[k])
    requires forall i | 0 <= i < k :: !IsWanted(ty, prefix, Ordinary(pdu, lines)[i])
    ensures Expected(ty, Some(prefix), pdu, lines) == [Ordinary(pdu, lines)[k]]
  {
    FirstIsMatching(ty, prefix, Ordinary(pdu, lines), k);
  }

  predicate IsWanted(ty: CommandType, prefix: string, line: string) {
    if ty == Numeric then line != "" && line[0] in "0123456789" else prefix <= line
  }

  lemma {:induction false} FirstIsMatching(ty: CommandType, prefix: string, lines: seq<string>, k: nat)
    requires ty == SingleLine || ty == Numeric
    requires k < |lines| && IsWanted(ty, prefix, lines[k]) && forall i | 0 <= i < k :: !IsWanted(ty, prefix, lines[i])
    ensures Matching(ty, Some(prefix), lines) != [] && Matching(ty, Some(prefix), lines)[0] == lines[k]
  {
    var init := lines[..|lines| - 1];
    if k < |init| {
      FirstIsMatching(ty, prefix, init, k);
    } else {
      NoneIsMatching(ty, prefix, init);
    }
  }

  lemma {:induction false} NoneIsMatching(ty: CommandType, prefix: string, lines: seq<string>)
    requires ty == SingleLine || ty == Numeric
    requires forall i | 0 <= i < |lines| :: !IsWanted(ty, prefix, lines[i])
    ensures Matching(ty, Some(prefix), lines) == []
  {
    if lines != [] {
      NoneIsMatching(ty, prefix, lines[..|lines| - 1]);
    }
  }

  /**
    Every line that was read has been consumed in exactly one role, in order, except a first half that awaits its
    second.
   */
  lemma {:induction false} EveryLineHasOneRole(trace: Trace)
    requires Legal(trace)
    ensures var r := Exec(trace); r.read == LinesIn(r.c)
  {
    Reachable(trace);
  }

  /** The PDU of a command is sent at most once, and only if the command has one. */
  lemma {:induction false} PduSentOnce(trace: Trace)
    requires Legal(trace)
    ensures Exec(trace).prompts <= if Exec(trace).pdu0.Some? then 1 else 0
    ensures Exec(trace).status == Waiting ==>
        (Exec(trace).prompts == 1 <==> Exec(trace).pdu0.Some? && "> " in Exec(trace).during)
  {
    Reachable(trace);
  }

  lemma {:induction false} MatchingMatches(ty: CommandType, prefix: Option<string>, lines: seq<string>)
    ensures forall line | line in Matching(ty, prefix, lines) :: Matches(ty, prefix, line) && line in lines
  {
    if lines != [] {
      MatchingMatches(ty, prefix, lines[..|lines| - 1]);
    }
  }

  lemma {:induction false} OrdinaryMembers(pdu: Option<string>, lines: seq<string>)
    ensures forall line | line in Ordinary(pdu, lines) :: line in lines
  {
    if lines != [] {
      OrdinaryMembers(pdu, lines[..|lines| - 1]);
    }
  }

  /** What a response should contain respects the type of its command. */
  lemma ExpectedBounded(ty: CommandType, prefix: Option<string>, pdu: Option<string>, lines: seq<string>)
    ensures var e := Expected(ty, prefix, pdu, lines);
      && (ty != MultiLine ==> |e| <= 1)
      && forall line | line in e :: Matches(ty, prefix, line) && line in Ordinary(pdu, lines)
  {
    MatchingMatches(ty, prefix, Ordinary(pdu, lines));
  }

  lemma {:induction false} NoResultExpectsNone(prefix: Option<string>, lines: seq<string>)
    ensures Matching(NoResult, prefix, lines) == []
  {
    if lines != [] {
      NoResultExpectsNone(prefix, lines[..|lines| - 1]);
    }
  }

  /** A pending command never holds more intermediates than its type allows, and only lines that match. */
  lemma {:induction false} IntermediatesBounded(trace: Trace)
    requires Legal(trace) && Exec(trace).c.response.Some?
    ensures var c := Exec(trace).c;
      && (c.ty == NoResult ==> c.response.value.intermediates == [])
      && (c.ty != MultiLine ==> |c.response.value.intermediates| <= 1)
      && forall line | line in c.response.value.intermediates :: Matches(c.ty, c.responsePrefix, line)
  {
    Reachable(trace);
    var r := Exec(trace);
    var e := Expected(r.c.ty, r.c.responsePrefix, r.pdu0, r.during);
    ExpectedBounded(r.c.ty, r.c.responsePrefix, r.pdu0, r.during);
    ReversedMembers(e);
    NoResultExpectsNone(r.c.responsePrefix, Ordinary(r.pdu0, r.during));
  }

  lemma MultisetSnoc<T>(s: seq<T>, x: T, y: T)
    ensures multiset(s + [x])[y] == multiset(s)[y] + if x == y then 1 else 0
    ensures s + [] == s
  {}

  /** A multiline command gets every line with its prefix that is not final, as often as it came. */
  lemma {:induction false} MultilineKeepsAll(prefix: string, lines: seq<string>, line: string)
    ensures multiset(Expected(MultiLine, Some(prefix), None, lines))[line] ==
              if !IsFinalResponse(line) && StartsWith(line, prefix) then multiset(lines)[line] else 0
  {
    if lines != [] {
      var init, last := lines[..|lines| - 1], Last(lines);
      MultilineKeepsAll(prefix, init, line);
      assert lines == init + [last];
      ExpectedSnoc(MultiLine, Some(prefix), None, init, last);
      MultisetSnoc(init, last, line);
      MultisetSnoc(Expected(MultiLine, Some(prefix), None, init), last, line);
    }
  }

  lemma {:induction false} ReversedMembers<T>(s: seq<T>)
    ensures forall x :: x in Reversed(s) <==> x in s
  {
    if s != [] {
      ReversedMembers(s[1..]);
      assert s == [s[0]] + s[1..];
    }
  }

  predicate IsSuccess(final: Option<string>) {
    final.Some? && IsFinalResponseSuccess(final.value)
  }

  /**
    The singleline, sms and numeric commands: when one returns 0 with a successful response, that response has
    exactly one intermediate, which starts with the prefix, or with a digit.
   */
  lemma {:induction false} ExactlyOneIntermediate(trace: Trace, timedOut: bool, wantsResponse: bool)
    requires Legal(trace) && Enabled(Exec(trace), WakeUp(timedOut, wantsResponse))
    requires Exec(trace).c.ty == SingleLine || Exec(trace).c.ty == Numeric
    ensures var c, status := Exec(trace).c,
        RequireIntermediate(Next(Exec(trace), WakeUp(timedOut, wantsResponse)).status);
      status.Returned? && status.err == 0 && status.out.Some? && status.out.value.success > 0 ==>
        && |status.out.value.intermediates| == 1
        && var line := status.out.value.intermediates[0];
        && (c.ty == SingleLine ==> c.responsePrefix.Some? && c.responsePrefix.value <= line)
        && (c.ty == Numeric ==> line != "" && line[0] in "0123456789")
  {
    var r := Exec(trace);
    IntermediatesBounded(trace);
    var i := r.c.response.value.intermediates;
    if |i| == 1 {
      assert Reversed(i) == i;
      assert i[0] in i;
    }
  }

  /**
    They fail where the command itself fails, and otherwise exactly when a successful response is wanted and has no
    intermediate; in every other case they return what the command returns.
   */
  lemma {:induction false} WrapperOutcome(trace: Trace, timedOut: bool, wantsResponse: bool)
    requires Legal(trace) && Enabled(Exec(trace), WakeUp(timedOut, wantsResponse))
    requires Next(Exec(trace), WakeUp(timedOut, wantsResponse)).status.Returned?
    ensures var r, status := Exec(trace), Next(Exec(trace), WakeUp(timedOut, wantsResponse)).status;
      var none := Expected(r.c.ty, r.c.responsePrefix, r.pdu0, r.during) == [];
      RequireIntermediate(status) ==
      if status.err == 0 && wantsResponse && IsSuccess(LatestFinal(r.during)) && none
      then Returned(AT_ERROR_INVALID_RESPONSE, None) else status
  {
    ReturnIsRight(trace, timedOut, wantsResponse);
  }
}
