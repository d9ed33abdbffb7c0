/**
  The two parsers of `reference-ril.c` that read whole lines: a call of a +CLCC answer, and the registration state
  of a +CREG or +CGREG answer.
 */
module LineParsers {
  import opened Options
  import opened Tokens

  // ---------------------------------------------------------------- +CLCC

  datatype CallState = Active | Holding | Dialing | Alerting | Incoming | Waiting

  /** The fields of `RIL_Call` that the parser fills in. */
  datatype Call = Call(index: int, isMT: bool, state: CallState, isVoice: bool, isMpty: bool,
                         number: Option<string>, toa: int)

  /** A record of zeros. */
  const ZEROED := Call(0, false, Active, false, false, None, 0)

  /** `clccStateToRILState`. */
  function ToCallState(state: int): Option<CallState> {
    match state
    case 0 => Some(Active)
    case 1 => Some(Holding)
    case 2 => Some(Dialing)
    case 3 => Some(Alerting)
    case 4 => Some(Incoming)
    case 5 => Some(Waiting)
    case _ => None
  }

  /** The six states of a +CLCC line, and no others. */
  lemma StatesAre(state: int)
    ensures ToCallState(state).Some? <==> 0 <= state <= 5
    ensures ToCallState(0) == Some(Active) && ToCallState(1) == Some(Holding) && ToCallState(2) == Some(Dialing)
    ensures ToCallState(3) == Some(Alerting) && ToCallState(4) == Some(Incoming) && ToCallState(5) == Some(Waiting)
  {}

  predicate IsNumber(s: string) {
    s != "" && (s[0] == '+' || '0' <= s[0] <= '9')
  }

  datatype Outcome<T> = Outcome(err: int, record: T)

  /** What the number field and the type of address add; `cursor` is not at the end. */
  function ParseNumber(cursor: string, call: Call): Outcome<Call> {
    var (number, next) := NextTok(cursor);
    var c := call.(number := if IsNumber(number) then Some(number) else None);
    var toa := NextInt(next);
    Outcome(toa.err, if toa.out.Some? then c.(toa := toa.out.value) else c)
  }

  /** Where a part of the parser leaves the record and the cursor. */
  datatype Part = Part(err: int, record: Call, next: Option<string>)

  function ParseIndex(cursor: Option<string>, call: Call): Part {
    var index := NextInt(cursor);
    var c1 := if index.out.Some? then call.(index := index.out.value) else call;
    if index.err < 0 then Part(-1, c1, index.next) else
    var isMT := NextBool(index.next);
    Part(isMT.err, if isMT.err < 0 then c1 else c1.(isMT := isMT.out.value == 1), isMT.next)
  }

  function ParseState(cursor: Option<string>, call: Call): Part {
    var state := NextInt(cursor);
    if state.err < 0 || ToCallState(state.out.value).None? then Part(-1, call, state.next)
    else Part(0, call.(state := ToCallState(state.out.value).value), state.next)
  }

  function ParseMode(cursor: Option<string>, call: Call): Part {
    var mode := NextInt(cursor);
    if mode.err < 0 then Part(-1, call, mode.next) else
    var c1 := call.(isVoice := mode.out.value == 0);
    var isMpty := NextBool(mode.next);
    Part(isMpty.err, if isMpty.err < 0 then c1 else c1.(isMpty := isMpty.out.value == 1), isMpty.next)
  }

  /** The five numbers that every line has; what has been read before an error stays in the record. */
  function ParseFive(cursor: Option<string>, call: Call): Part {
    var p1 := ParseIndex(cursor, call);
    if p1.err < 0 then p1 else
    var p2 := ParseState(p1.next, p1.record);
    if p2.err < 0 then p2 else ParseMode(p2.next, p2.record)
  }

  /** `callFromCLCCLine`, on strings. */
  function ParseCall(line: string, call: Call): Outcome<Call> {
    if Start(line).None? then Outcome(-1, call) else
    var p := ParseFive(Start(line), call);
    if p.err < 0 then Outcome(-1, p.record)
    else if HasMore(p.next) then ParseNumber(p.next.value, p.record) else Outcome(0, p.record)
  }

  function FromCallState(state: CallState): (n: nat)
    ensures n <= 5 && ToCallState(n) == Some(state)
  {
    match state
    case Active => 0
    case Holding => 1
    case Dialing => 2
    case Alerting => 3
    case Incoming => 4
    case Waiting => 5
  }

  function FromBool(b: bool): nat {
    if b then 1 else 0
  }

  ghost predicate Printable(call: Call, mode: nat) {
    && 0 <= call.index < INT_RANGE / 2 && 0 <= call.toa < INT_RANGE / 2 && mode < INT_RANGE / 2
    && (call.isVoice <==> mode == 0)
    && (call.number.None? ==> call.toa == 0)
  }

  lemma NumberRead(fields: seq<Field>, k: nat, n: nat)
    requires AreFields(fields) && k < |fields| && n < INT_RANGE / 2 && fields[k].text == Shown(n, 10)
    ensures NextInt(CursorAt(fields, k)) == IntResult(0, Some(n), CursorAt(fields, k + 1))
  {
    IntAt(fields, k, 10, false);
    DecimalRoundTrip(n);
  }

  lemma BoolRead(fields: seq<Field>, k: nat, b: bool)
    requires AreFields(fields) && k < |fields| && fields[k].text == Shown(FromBool(b), 10)
    ensures NextBool(CursorAt(fields, k)) == IntResult(0, Some(FromBool(b)), CursorAt(fields, k + 1))
  {
    NumberRead(fields, k, FromBool(b));
  }

  /** What a printed call is read back as: a number is kept if and only if it begins with a plus sign or a digit. */
  function ReadBack(call: Call): Call {
    if call.number.Some? && (call.number.value == "" || call.number.value[0] !in "+0123456789")
    then call.(number := None) else call
  }

  lemma NumberReadBack(call: Call, number: string, toa: int)
    ensures ReadBack(call.(number := Some(number), toa := toa)) ==
              call.(number := if IsNumber(number) then Some(number) else None, toa := toa)
  {
    var digits := "+0123456789";
    if IsNumber(number) {
      assert digits[if number[0] == '+' then 0 else number[0] as int - '0' as int + 1] == number[0];
    }
  }

  /**
    The fields of a +CLCC line, section 7.18 of 3GPP TS 27.007; a mode other than 0 is no voice call. Whatever
    optional fields follow the type of address are not read.
   */
  ghost predicate ShowCall(fields: seq<Field>, call: Call, mode: nat)
    requires Printable(call, mode)
  {
    && (if call.number.None? then |fields| == 5 else |fields| >= 7)
    && fields[0].text == Shown(call.index, 10)
    && fields[1].text == Shown(FromBool(call.isMT), 10)
    && fields[2].text == Shown(FromCallState(call.state), 10)
    && fields[3].text == Shown(mode, 10)
    && fields[4].text == Shown(FromBool(call.isMpty), 10)
    && (call.number.Some? ==> fields[5].text == call.number.value && fields[6].text == Shown(call.toa, 10))
  }

  /** The five numbers that every line has, one after the other, between these cursors. */
  ghost predicate FiveNumbers(call: Call, mode: nat, c0: Option<string>, c1: Option<string>, c2: Option<string>,
                              c3: Option<string>, c4: Option<string>, c5: Option<string>) {
    && NextInt(c0) == IntResult(0, Some(call.index), c1)
    && NextBool(c1) == IntResult(0, Some(FromBool(call.isMT)), c2)
    && NextInt(c2) == IntResult(0, Some(FromCallState(call.state)), c3)
    && NextInt(c3) == IntResult(0, Some(mode), c4)
    && NextBool(c4) == IntResult(0, Some(FromBool(call.isMpty)), c5)
  }

  lemma {:induction false} FiveNumbersParsed(line: string, call: Call, mode: nat, c1: Option<string>,
                          c2: Option<string>, c3: Option<string>, c4: Option<string>, c5: Option<string>)
    requires Printable(call, mode) && FiveNumbers(call, mode, Start(line), c1, c2, c3, c4, c5)
    ensures var read := call.(number := None, toa := 0);
      ParseCall(line, ZEROED) == if HasMore(c5) then ParseNumber(c5.value, read) else Outcome(0, read)
  {}

  lemma FirstTwoRead(fields: seq<Field>, call: Call, mode: nat)
    requires AreFields(fields) && Printable(call, mode) && ShowCall(fields, call, mode)
    ensures NextInt(CursorAt(fields, 0)) == IntResult(0, Some(call.index), CursorAt(fields, 1))
    ensures NextBool(CursorAt(fields, 1)) == IntResult(0, Some(FromBool(call.isMT)), CursorAt(fields, 2))
  {
    NumberRead(fields, 0, call.index);
    BoolRead(fields, 1, call.isMT);
  }

  lemma FiveNumbersRead(fields: seq<Field>, call: Call, mode: nat)
    requires AreFields(fields) && Printable(call, mode) && ShowCall(fields, call, mode)
    ensures FiveNumbers(call, mode, CursorAt(fields, 0), CursorAt(fields, 1), CursorAt(fields, 2), CursorAt(fields, 3),
                        CursorAt(fields, 4), CursorAt(fields, 5))
  {
    FirstTwoRead(fields, call, mode);
    NumberRead(fields, 2, FromCallState(call.state));
    NumberRead(fields, 3, mode);
    BoolRead(fields, 4, call.isMpty);
  }

  lemma LastTwoRead(fields: seq<Field>, number: string, toa: nat, call: Call)
    requires AreFields(fields) && |fields| >= 7 && toa < INT_RANGE / 2
    requires fields[5].text == number && fields[6].text == Shown(toa, 10)
    ensures HasMore(CursorAt(fields, 5))
    ensures ParseNumber(CursorAt(fields, 5).value, call) ==
              Outcome(0, ReadBack(call.(number := Some(number), toa := toa)))
  {
    TokenAt(fields, 5);
    NumberRead(fields, 6, toa);
    NumberReadBack(call, number, toa);
  }

  /**
    Every call comes back from its line, whatever white space stands before the fields and whichever are quoted.
   */
  lemma {:induction false} CallRoundTrip(header: string, fields: seq<Field>, call: Call, mode: nat)
    requires ':' !in header && fields != [] && AreFields(fields)
    requires Printable(call, mode) && ShowCall(fields, call, mode)
    ensures ParseCall(Print(header, fields), ZEROED) == Outcome(0, ReadBack(call))
  {
    StartOfPrinted(header, fields);
    FiveNumbersRead(fields, call, mode);
    FiveNumbersParsed(Print(header, fields), call, mode, CursorAt(fields, 1), CursorAt(fields, 2), CursorAt(fields, 3),
                      CursorAt(fields, 4), CursorAt(fields, 5));
    if call.number.None? {
      TokenAt(fields, 4);
    } else {
      LastTwoRead(fields, call.number.value, call.toa, call.(number := None, toa := 0));
    }
  }

  function Bare(text: string): Field {
    Field("", text, false)
  }

  /** The line as the comment of the parser shows it: one blank after the colon, the number in quotes. */
  function CallLine(call: Call, mode: nat): string
    requires call.index >= 0 && call.toa >= 0
  {
    Print("+CLCC", CallLineFields(call, mode))
  }

  function CallLineFields(call: Call, mode: nat): (fields: seq<Field>)
    requires call.index >= 0 && call.toa >= 0
    ensures fields != []
  {
    [Field(" ", Shown(call.index, 10), false), Bare(Shown(FromBool(call.isMT), 10)),
     Bare(Shown(FromCallState(call.state), 10)),
     Bare(Shown(mode, 10)), Bare(Shown(FromBool(call.isMpty), 10))]
    + if call.number.None? then [] else [Field("", call.number.value, true), Bare(Shown(call.toa, 10))]
  }

  lemma {:induction false} ShownIsField(pad: string, n: nat, base: nat)
    requires 2 <= base <= 16 && forall c | c in pad :: IsSpace(c)
    ensures IsField(Field(pad, Shown(n, base), false))
  {
    var s := Shown(n, base);
    ShownIsNumber(n, base);
    assert s[0] in s;
  }

  /** The documented line of any call whose number has no quote in it. */
  lemma {:induction false} CallLineRoundTrip(call: Call, mode: nat)
    requires Printable(call, mode) && (call.number.Some? ==> '"' !in call.number.value)
    ensures ParseCall(CallLine(call, mode), ZEROED) == Outcome(0, ReadBack(call))
  {
    var fields := CallLineFields(call, mode);
    ShownIsField(" ", call.index, 10);
    ShownIsField("", FromBool(call.isMT), 10);
    ShownIsField("", FromCallState(call.state), 10);
    ShownIsField("", mode, 10);
    ShownIsField("", FromBool(call.isMpty), 10);
    if call.number.Some? {
      ShownIsField("", call.toa, 10);
    }
    CallRoundTrip("+CLCC", fields, call, mode);
  }

  /** Does the library find a number in this text? */
  predicate HasNumber(text: string, base: nat) {
    Scan(text, base).1 != ""
  }

  function IntIn(fields: seq<Field>, k: nat): int
    requires k < |fields|
  {
    TokenInt(fields[k].text, 10, false)
  }

  predicate NumberIn(fields: seq<Field>, k: nat) {
    k < |fields| && HasNumber(fields[k].text, 10)
  }

  predicate BoolIn(fields: seq<Field>, k: nat) {
    NumberIn(fields, k) && 0 <= IntIn(fields, k) <= 1
  }

  lemma IntAtOrEnd(fields: seq<Field>, k: nat)
    requires fields != [] && AreFields(fields) && k <= |fields|
    ensures NextInt(CursorAt(fields, k)).err == if NumberIn(fields, k) then 0 else -1
    ensures k < |fields| ==> NextInt(CursorAt(fields, k)).out == Some(IntIn(fields, k))
    ensures k < |fields| ==> NextInt(CursorAt(fields, k)).next == CursorAt(fields, k + 1)
  {
    if k < |fields| {
      IntAt(fields, k, 10, false);
    }
  }

  lemma BoolAtOrEnd(fields: seq<Field>, k: nat)
    requires fields != [] && AreFields(fields) && k <= |fields|
    ensures NextBool(CursorAt(fields, k)).err == if BoolIn(fields, k) then 0 else -1
    ensures BoolIn(fields, k) ==> NextBool(CursorAt(fields, k)).out == Some(IntIn(fields, k))
    ensures k < |fields| ==> NextBool(CursorAt(fields, k)).next == CursorAt(fields, k + 1)
  {
    IntAtOrEnd(fields, k);
  }

  lemma IndexAccepted(fields: seq<Field>, call: Call)
    requires fields != [] && AreFields(fields)
    ensures var p := ParseIndex(CursorAt(fields, 0), call);
      && p.err == (if NumberIn(fields, 0) && BoolIn(fields, 1) then 0 else -1)
      && (p.err == 0 ==> p.next == CursorAt(fields, 2))
      && (p.err == 0 ==> p.record == call.(index := IntIn(fields, 0), isMT := IntIn(fields, 1) == 1))
  {
    IntAtOrEnd(fields, 0);
    BoolAtOrEnd(fields, 1);
  }

  lemma StateAccepted(fields: seq<Field>, call: Call)
    requires |fields| >= 2 && AreFields(fields)
    ensures var p := ParseState(CursorAt(fields, 2), call);
      && p.err == (if NumberIn(fields, 2) && 0 <= IntIn(fields, 2) <= 5 then 0 else -1)
      && (p.err == 0 ==> p.next == CursorAt(fields, 3))
      && (p.err == 0 ==> p.record == call.(state := p.record.state))
      && (p.err == 0 ==> FromCallState(p.record.state) == IntIn(fields, 2))
  {
    IntAtOrEnd(fields, 2);
  }

  lemma ModeAccepted(fields: seq<Field>, call: Call)
    requires |fields| >= 3 && AreFields(fields)
    ensures var p := ParseMode(CursorAt(fields, 3), call);
      && p.err == (if NumberIn(fields, 3) && BoolIn(fields, 4) then 0 else -1)
      && (p.err == 0 ==> p.next == CursorAt(fields, 5))
      && (p.err == 0 ==> p.record == call.(isVoice := IntIn(fields, 3) == 0, isMpty := IntIn(fields, 4) == 1))
  {
    IntAtOrEnd(fields, 3);
    if |fields| > 3 {
      BoolAtOrEnd(fields, 4);
    }
  }

  /** Is there anything after the five numbers? A sixth field that is empty does not show. */
  predicate GoesOn(fields: seq<Field>) {
    |fields| > 6 || (|fields| == 6 && Show(fields[5]) != "")
  }

  lemma GoesOnIff(fields: seq<Field>)
    requires |fields| >= 5 && AreFields(fields)
    ensures HasMore(CursorAt(fields, 5)) <==> GoesOn(fields)
  {
    TokenAt(fields, |fields| - 1);
    if |fields| > 5 {
      assert fields[5..][0] == fields[5] && |fields[5..]| == |fields| - 5;
    }
  }

  lemma NumberAccepted(fields: seq<Field>, call: Call)
    requires |fields| >= 6 && AreFields(fields) && HasMore(CursorAt(fields, 5))
    ensures var p := ParseNumber(CursorAt(fields, 5).value, call);
      && p.err == (if NumberIn(fields, 6) then 0 else -1)
      && (p.err == 0 ==> p.record == ReadBack(call.(number := Some(fields[5].text), toa := IntIn(fields, 6))))
  {
    TokenAt(fields, 5);
    IntAtOrEnd(fields, 6);
    if NumberIn(fields, 6) {
      NumberReadBack(call, fields[5].text, IntIn(fields, 6));
    }
  }

  /** The five numbers are there, the two flags are 0 or 1, and the state is one of the six. */
  predicate FiveIn(fields: seq<Field>) {
    && NumberIn(fields, 0) && BoolIn(fields, 1) && NumberIn(fields, 2) && 0 <= IntIn(fields, 2) <= 5
    && NumberIn(fields, 3) && BoolIn(fields, 4)
  }

  ghost predicate FiveHeld(fields: seq<Field>, call: Call)
    requires FiveIn(fields)
  {
    && call.index == IntIn(fields, 0) && call.isMT == (IntIn(fields, 1) == 1)
    && FromCallState(call.state) == IntIn(fields, 2)
    && call.isVoice == (IntIn(fields, 3) == 0) && call.isMpty == (IntIn(fields, 4) == 1)
  }

  /** A line is accepted if and only if it has its five numbers, and a type of address after a number that follows. */
  predicate Acceptable(fields: seq<Field>) {
    FiveIn(fields) && (GoesOn(fields) ==> NumberIn(fields, 6))
  }

  /** The record of an accepted line. */
  ghost predicate Holds(fields: seq<Field>, was: Call, now: Call)
    requires Acceptable(fields)
  {
    && FiveHeld(fields, now)
    && if GoesOn(fields) then now == ReadBack(now.(number := Some(fields[5].text))) && now.toa == IntIn(fields, 6)
       else now.number == was.number && now.toa == was.toa
  }

  lemma FiveAccepted(fields: seq<Field>, call: Call)
    requires fields != [] && AreFields(fields)
    ensures var p := ParseFive(CursorAt(fields, 0), call);
      && p.err == (if FiveIn(fields) then 0 else -1)
      && (p.err == 0 ==> p.next == CursorAt(fields, 5))
      && (p.err == 0 ==> FiveHeld(fields, p.record) && p.record.number == call.number && p.record.toa == call.toa)
  {
    IndexAccepted(fields, call);
    var p1 := ParseIndex(CursorAt(fields, 0), call);
    if p1.err == 0 {
      StateAccepted(fields, p1.record);
      var p2 := ParseState(p1.next, p1.record);
      if p2.err == 0 {
        ModeAccepted(fields, p2.record);
      }
    }
  }

  /** Which lines are accepted, and what they leave in the record. */
  lemma {:induction false} CallAccepted(header: string, fields: seq<Field>, call: Call)
    requires ':' !in header && fields != [] && AreFields(fields)
    ensures var p := ParseCall(Print(header, fields), call);
      p.err == (if Acceptable(fields) then 0 else -1) && (p.err == 0 ==> Holds(fields, call, p.record))
  {
    StartOfPrinted(header, fields);
    FiveAccepted(fields, call);
    var p := ParseFive(CursorAt(fields, 0), call);
    if p.err == 0 {
      GoesOnIff(fields);
      if GoesOn(fields) {
        NumberAccepted(fields, p.record);
      }
    }
  }

  // ---------------------------------------------------------------- +CREG and +CGREG

  function Commas(s: string): nat {
    if s == "" then 0 else Commas(s[1..]) + if s[0] == ',' then 1 else 0
  }

  /**
    With fewer than two commas the parser would write past the end of the array it allocates, unless a number is
    missing before that.
   */
  predicate StaysInBounds(line: string) {
    var start := Start(line);
    start.Some? && Commas(start.value) < 2 ==>
      || NextInt(start).err < 0
      || (Commas(start.value) == 1 && NextInt(NextInt(start).next).err < 0)
  }

  /** A call that reads a number, and the slot of the array that it stores it in; -1 for the number that is skipped. */
  datatype Read = Read(base: nat, slot: int)

  /** The calls in the case for so many commas. */
  function Reads(commas: nat): seq<Read> {
    match commas
    case 0 => [Read(10, 0)]
    case 1 => [Read(10, -1), Read(10, 0)]
    case 2 => [Read(10, 0), Read(16, 1), Read(16, 2)]
    case 3 => [Read(10, -1), Read(10, 0), Read(16, 1), Read(16, 2)]
    case 4 => [Read(10, -1), Read(10, 0), Read(16, 1), Read(16, 2), Read(16, 3)]
    case _ => []
  }

  /** The highest slot written by these calls, and by `atEnd` if none of them fails; -1 if there is none. */
  function HighestWrite(cursor: Option<string>, calls: seq<Read>, atEnd: int): int
    decreases calls
  {
    if calls == [] then atEnd
    else
      var r := NextIntBase(cursor, calls[0].base, calls[0].base == 16);
      var written := if r.out.Some? then calls[0].slot else -1;
      if r.err < 0 then written
      else
        var rest := HighestWrite(r.next, calls[1..], atEnd);
        if rest > written then rest else written
  }

  /** The highest slot that the parser writes: the two shortest forms end by clearing slots 1 and 2. */
  function HighestSlot(line: string): int {
    var start := Start(line);
    if start.None? then -1
    else HighestWrite(start, Reads(Commas(start.value)), if Commas(start.value) < 2 then 2 else -1)
  }

  lemma {:induction false} HighestIsBounded(cursor: Option<string>, calls: seq<Read>, atEnd: int, bound: int)
    requires -1 <= bound && atEnd <= bound && forall i | 0 <= i < |calls| :: calls[i].slot <= bound
    ensures HighestWrite(cursor, calls, atEnd) <= bound
    decreases calls
  {
    if calls != [] {
      var r := NextIntBase(cursor, calls[0].base, calls[0].base == 16);
      HighestIsBounded(r.next, calls[1..], atEnd, bound);
    }
  }

  /**
    The array has one slot more than the line has commas: the parser stays inside it if and only if the line does
    not make it.
   */
  lemma InBoundsIff(line: string)
    requires Start(line).Some?
    ensures HighestSlot(line) <= Commas(Start(line).value) <==> StaysInBounds(line)
  {
    var start := Start(line);
    var commas := Commas(start.value);
    if commas >= 2 {
      HighestIsBounded(start, Reads(commas), -1, commas);
    } else if commas == 1 {
      var next := NextInt(start).next;
      assert Reads(1)[1..] == [Read(10, 0)] && [Read(10, 0)][1..] == [];
      assert HighestWrite(next, [Read(10, 0)], 2) ==
                   if NextInt(next).err < 0 then HighestWrite(next, [Read(10, 0)], -1) else 2;
    } else {
      assert Reads(0)[1..] == [];
    }
  }

  const SHORT_ANSWER := "+CREG: 1"

  lemma ShortAnswerStart()
    ensures Start(SHORT_ANSWER) == Some(" 1") && Commas(" 1") == 0
  {
    StrSepFinds("+CREG", ':', " 1");
    assert "+CREG" + [':'] + " 1" == SHORT_ANSWER;
    NoCommas(" 1");
  }

  lemma ShortAnswerNumber()
    ensures NextInt(Some(" 1")).err == 0
  {
    var field := Field(" ", "1", false);
    FieldIsToken(field, "");
    assert Show(field) == " 1";
    DigitsScanned("1", 10);
  }

  /** The unsolicited answer without area code and cell is a line that makes it leave the array. */
  lemma ShortAnswerLeavesArray()
    ensures !StaysInBounds(SHORT_ANSWER) && HighestSlot(SHORT_ANSWER) > Commas(Start(SHORT_ANSWER).value)
  {
    ShortAnswerStart();
    ShortAnswerNumber();
    InBoundsIff(SHORT_ANSWER);
  }

  /** One number from each field, in these bases; nothing if one is missing. */
  function ReadInts(cursor: Option<string>, bases: seq<nat>): Option<seq<int>>
    decreases bases
  {
    if bases == [] then Some([])
    else
      var r := NextIntBase(cursor, bases[0], bases[0] == 16);
      if r.err < 0 then None
      else
        var rest := ReadInts(r.next, bases[1..]);
        if rest.None? then None else Some([r.out.value] + rest.value)
  }

  /** The bases of the numbers in each form: a solicited answer begins with a number that is skipped. */
  function Bases(commas: nat): seq<nat> {
    var calls := Reads(commas);
    seq(|calls|, i requires 0 <= i < |calls| => calls[i].base)
  }

  /** `parseRegistrationState`, on strings: the array of numbers, one slot for each field. */
  function ParseRegistration(line: string): Option<seq<int>> {
    var start := Start(line);
    if start.None? then None else
    var commas := Commas(start.value);
    if !(2 <= commas <= 4) then None else
    var ints := ReadInts(start, Bases(commas));
    if ints.None? then None else if commas == 2 then ints else Some(ints.value[1..] + [0])
  }

  lemma {:induction false} ReadIntsLength(cursor: Option<string>, bases: seq<nat>)
    ensures ReadInts(cursor, bases).Some? ==> |ReadInts(cursor, bases).value| == |bases|
    decreases bases
  {
    if bases != [] {
      ReadIntsLength(NextIntBase(cursor, bases[0], bases[0] == 16).next, bases[1..]);
    }
  }

  /** None of the calls stores into this slot. */
  ghost predicate Untouched(calls: seq<Read>, slot: int) {
    forall i | 0 <= i < |calls| :: calls[i].slot != slot
  }

  /** The array that is handed out has every number in the slot that its call names, and zeros elsewhere. */
  lemma SlotsFilled(line: string)
    requires ParseRegistration(line).Some?
    ensures 2 <= Commas(Start(line).value) <= 4
    ensures var commas, r := Commas(Start(line).value), ParseRegistration(line).value;
      var calls, ints := Reads(commas), ReadInts(Start(line), Bases(commas)).value;
      && |r| == commas + 1 && |ints| == |calls|
      && (forall i | 0 <= i < |calls| && calls[i].slot >= 0 :: calls[i].slot < |r| && r[calls[i].slot] == ints[i])
      && (forall j | 0 <= j < |r| && Untouched(calls, j) :: r[j] == 0)
  {
    var commas := Commas(Start(line).value);
    ReadIntsLength(Start(line), Bases(commas));
    var calls, r := Reads(commas), ParseRegistration(line).value;
    forall j | 0 <= j < |r| ensures Untouched(calls, j) ==> r[j] == 0 {
      var i := if commas == 2 then j else j + 1;
      if i < |calls| {
        assert calls[i].slot == j;
        assert !Untouched(calls, j);
      }
    }
  }

  /** `ReadInts` when some numbers have been read before. */
  function After(seen: seq<int>, rest: Option<seq<int>>): Option<seq<int>> {
    if rest.None? then None else Some(seen + rest.value)
  }

  lemma AfterOneInt(seen: seq<int>, cursor: Option<string>, bases: seq<nat>)
    requires bases != []
    ensures var r := NextIntBase(cursor, bases[0], bases[0] == 16);
      After(seen, ReadInts(cursor, bases)) ==
      if r.err < 0 then None else After(seen + [r.out.value], ReadInts(r.next, bases[1..]))
  {
    var r := NextIntBase(cursor, bases[0], bases[0] == 16);
    if r.err == 0 && ReadInts(r.next, bases[1..]).Some? {
      var rest := ReadInts(r.next, bases[1..]).value;
      assert seen + ([r.out.value] + rest) == seen + [r.out.value] + rest;
    }
  }

  lemma AfterAll(seen: seq<int>, cursor: Option<string>)
    ensures After(seen, ReadInts(cursor, [])) == Some(seen)
    ensures forall rest :: After([], rest) == rest
  {
    assert seen + [] == seen;
    forall rest: Option<seq<int>> ensures After([], rest) == rest {
      assert rest.Some? ==> [] + rest.value == rest.value;
    }
  }

  lemma BasesSplit(commas: nat)
    requires 2 <= commas <= 4
    ensures var b := Bases(commas);
      var three := if commas == 2 then b else b[1..];
      (commas > 2 ==> b[0] == 10) && [10, 16, 16] <= three && three[3..] == if commas == 4 then [16] else []
  {
    var b := Bases(commas);
    assert b == (if commas == 2 then [] else [10]) + [10, 16, 16] + if commas == 4 then [16] else [];
  }

  lemma {:induction false} CommasConcat(a: string, b: string)
    ensures Commas(a + b) == Commas(a) + Commas(b)
  {
    if a == "" {
      assert a + b == b;
    } else {
      assert (a + b)[1..] == a[1..] + b;
      CommasConcat(a[1..], b);
    }
  }

  lemma {:induction false} NoCommas(s: string)
    requires ',' !in s
    ensures Commas(s) == 0
  {
    if s != "" {
      NoCommas(s[1..]);
    }
  }

  ghost predicate NoCommaIn(fields: seq<Field>) {
    forall f | f in fields :: ',' !in f.text
  }

  lemma {:induction false} CommasOfPrinted(fields: seq<Field>)
    requires fields != [] && AreFields(fields) && NoCommaIn(fields)
    ensures Commas(Join(fields)) == |fields| - 1
  {
    var f := fields[0];
    assert f in fields && !IsSpace(',');
    assert ',' !in f.pad;
    NoCommas(Show(f));
    if |fields| > 1 {
      var tail := Join(fields[1..]);
      CommasOfPrinted(fields[1..]);
      CommasConcat(Show(f) + ",", tail);
      CommasConcat(Show(f), ",");
    }
  }

  /** The numbers in the texts of the fields from the k-th on. */
  function IntsOf(fields: seq<Field>, k: nat, bases: seq<nat>): Option<seq<int>>
    requires k + |bases| == |fields|
    decreases bases
  {
    if bases == [] then Some([])
    else if !HasNumber(fields[k].text, bases[0]) then None
    else
      var rest := IntsOf(fields, k + 1, bases[1..]);
      if rest.None? then None else Some([TokenInt(fields[k].text, bases[0], bases[0] == 16)] + rest.value)
  }

  lemma {:induction false} IntsRead(fields: seq<Field>, k: nat, bases: seq<nat>)
    requires fields != [] && AreFields(fields) && k + |bases| == |fields|
    ensures ReadInts(CursorAt(fields, k), bases) == IntsOf(fields, k, bases)
    decreases bases
  {
    if bases != [] {
      IntAt(fields, k, bases[0], bases[0] == 16);
      IntsRead(fields, k + 1, bases[1..]);
    }
  }

  lemma {:induction false} IntsFound(fields: seq<Field>, k: nat, bases: seq<nat>)
    requires k + |bases| == |fields|
    ensures IntsOf(fields, k, bases).Some? <==> forall i | 0 <= i < |bases| :: HasNumber(fields[k + i].text, bases[i])
    decreases bases
  {
    if bases != [] {
      IntsFound(fields, k + 1, bases[1..]);
      assert forall i | 0 < i < |bases| :: bases[i] == bases[1..][i - 1] && fields[k + i] == fields[k + 1 + (i - 1)];
    }
  }

  lemma {:induction false} IntsValues(fields: seq<Field>, k: nat, bases: seq<nat>)
    requires k + |bases| == |fields| && IntsOf(fields, k, bases).Some?
    ensures var ints := IntsOf(fields, k, bases).value;
      && |ints| == |bases|
      && forall i | 0 <= i < |bases| :: ints[i] == TokenInt(fields[k + i].text, bases[i], bases[i] == 16)
    decreases bases
  {
    if bases != [] {
      IntsValues(fields, k + 1, bases[1..]);
    }
  }

  /**
    A line of three, four or five fields is accepted if and only if a number is found in every field, and then the
    array holds those numbers, but for the first of four or five.
   */
  lemma {:induction false} RegistrationRead(header: string, fields: seq<Field>)
    requires ':' !in header && AreFields(fields) && NoCommaIn(fields) && 3 <= |fields| <= 5
    ensures var bases := Bases(|fields| - 1);
      var r, ints := ParseRegistration(Print(header, fields)), IntsOf(fields, 0, bases);
      r == if ints.None? then None else if |fields| == 3 then ints else Some(ints.value[1..] + [0])
  {
    StartOfPrinted(header, fields);
    CommasOfPrinted(fields);
    assert fields[0..] == fields;
    IntsRead(fields, 0, Bases(|fields| - 1));
  }

  /** Where the state stands: a solicited answer begins with another number. */
  function StateAt(fields: seq<Field>): nat {
    if |fields| == 3 then 0 else 1
  }

  /** The fields of an answer for this state, in any of its three forms; the numbers that vary are any numbers. */
  ghost predicate ShowRegistration(fields: seq<Field>, stat: nat, lac: nat, cid: nat) {
    && 3 <= |fields| <= 5
    && (|fields| > 3 ==> HasNumber(fields[0].text, 10))
    && fields[StateAt(fields)].text == Shown(stat, 10)
    && fields[StateAt(fields) + 1].text == Shown(lac, 16)
    && fields[StateAt(fields) + 2].text == Shown(cid, 16)
    && (|fields| == 5 ==> HasNumber(fields[4].text, 16))
  }

  lemma BasesOfForm(commas: nat)
    requires 2 <= commas <= 4
    ensures var b, k := Bases(commas), if commas == 2 then 0 else 1;
      |b| == commas + 1 && b[k] == 10 && b[k + 1] == 16 && b[k + 2] == 16
        && (k == 1 ==> b[0] == 10) && (commas == 4 ==> b[4] == 16)
  {}

  ghost predicate InRange(stat: nat, lac: nat, cid: nat) {
    stat < INT_RANGE / 2 && lac < INT_RANGE && cid < INT_RANGE
  }

  lemma {:induction false} NumberInField(fields: seq<Field>, stat: nat, lac: nat, cid: nat, i: nat)
    requires ShowRegistration(fields, stat, lac, cid) && InRange(stat, lac, cid) && i < |fields|
    ensures |Bases(|fields| - 1)| == |fields| && HasNumber(fields[i].text, Bases(|fields| - 1)[i])
  {
    BasesOfForm(|fields| - 1);
    var k := StateAt(fields);
    if i == k {
      DecimalRoundTrip(stat);
    } else if i == k + 1 {
      HexRoundTrip(lac);
    } else if i == k + 2 {
      HexRoundTrip(cid);
    }
  }

  lemma IntInField(fields: seq<Field>, stat: nat, lac: nat, cid: nat, i: nat, ints: seq<int>)
    requires ShowRegistration(fields, stat, lac, cid) && InRange(stat, lac, cid)
    requires StateAt(fields) <= i < StateAt(fields) + 3
    requires var bases := Bases(|fields| - 1);
      |bases| == |fields| == |ints| && ints[i] == TokenInt(fields[i].text, bases[i], bases[i] == 16)
    ensures ints[i] == [stat, ToInt(lac), ToInt(cid)][i - StateAt(fields)]
  {
    BasesOfForm(|fields| - 1);
    if i == StateAt(fields) {
      DecimalRoundTrip(stat);
    } else if i == StateAt(fields) + 1 {
      HexRoundTrip(lac);
    } else {
      HexRoundTrip(cid);
    }
  }

  lemma ShownInts(fields: seq<Field>, stat: nat, lac: nat, cid: nat)
    requires ShowRegistration(fields, stat, lac, cid) && InRange(stat, lac, cid)
    ensures var ints, k := IntsOf(fields, 0, Bases(|fields| - 1)), StateAt(fields);
      && ints.Some? && |ints.value| == |fields|
      && ints.value[k] == stat && ints.value[k + 1] == ToInt(lac) && ints.value[k + 2] == ToInt(cid)
  {
    var k, bases := StateAt(fields), Bases(|fields| - 1);
    BasesOfForm(|fields| - 1);
    IntsFound(fields, 0, bases);
    forall i | 0 <= i < |bases| ensures HasNumber(fields[0 + i].text, bases[i]) {
      NumberInField(fields, stat, lac, cid, i);
    }
    IntsValues(fields, 0, bases);
    var ints := IntsOf(fields, 0, bases).value;
    forall i | k <= i < k + 3 ensures ints[i] == [stat, ToInt(lac), ToInt(cid)][i - k] {
      assert ints[i] == TokenInt(fields[0 + i].text, bases[i], bases[i] == 16);
      IntInField(fields, stat, lac, cid, i, ints);
    }
  }

  /** Every state, with any area code and cell of 32 bits, is read back from each of its three forms. */
  lemma {:induction false} RegistrationRoundTrip(header: string, fields: seq<Field>, stat: nat, lac: nat, cid: nat)
    requires ':' !in header && AreFields(fields) && NoCommaIn(fields)
    requires ShowRegistration(fields, stat, lac, cid) && InRange(stat, lac, cid)
    ensures var r := ParseRegistration(Print(header, fields));
      r.Some? && |r.value| == |fields| && r.value[..3] == [stat, ToInt(lac), ToInt(cid)]
  {
    RegistrationRead(header, fields);
    ShownInts(fields, stat, lac, cid);
  }
}
