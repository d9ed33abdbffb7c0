/**
  The line parsers of `reference-ril.c` as they run: a call record is filled while the cursor moves, its number
  pointing into the line, and the registration parser fills an array and remembers area code and cell.
 */
module ReferenceRil {
  import opened CStrings
  import opened Options
  import opened Tokens
  import opened AtToks
  import opened LineParsers

  class RilCall {
    var index: int
    var isMT: bool
    var state: CallState
    var isVoice: bool
    var isMpty: bool
    var number: Option<nat>  // NULL or an index into the line
    var toa: int

    constructor ()
      ensures index == 0 && !isMT && state == Active && !isVoice && !isMpty && number.None? && toa == 0
    {
      index, isMT, state, isVoice, isMpty, number, toa := 0, false, Active, false, false, None, 0;
    }

    /** The record with its number as a string. */
    ghost function On(t: Tokenizer): Call
      requires number.Some? ==> number.value <= t.line.Length
      reads this, t.line
    {
      Call(index, isMT, state, isVoice, isMpty, if number.None? then None else Some(t.At(number.value)), toa)
    }
  }

  /** `strspn` with these characters is not 0. */
  method BeginsWithNumber(t: Tokenizer, token: nat) returns (b: bool)
    requires t.Valid() && token < t.line.Length
    ensures b <==> IsNumber(t.At(token))
  {
    t.AtHead(token);
    return t.line[token] == '+' || '0' <= t.line[token] <= '9';
  }

  /** The last two fields. The number still stands in the line when the type of address has been read. */
  method NumberFromLine(t: Tokenizer, call: RilCall) returns (err: int)
    requires t.Valid() && t.cur.Some? && call.number.None?
    modifies call`number, call`toa, t`cur, t.line
    ensures t.Valid() && t.OnlyAhead()
    ensures call.number.Some? ==> call.number.value < t.line.Length
    ensures Outcome(err, call.On(t)) == ParseNumber(old(t.Rest()).value, old(call.On(t)))
  {
    err, call.number := t.AtTokNextStr();
    var isNumber := BeginsWithNumber(t, call.number.value);
    ghost var before, done, token := t.line[..], t.Done(), call.number.value;
    assert before[token..] == t.line[token..];
    if !isNumber {
      call.number := None;
    }
    var toa;
    err, toa := t.AtTokNextInt();
    TokenKept(before, t.line[..], done, token);
    assert t.line[..][token..] == t.line[token..];
    if toa.Some? {
      call.toa := toa.value;
    }
  }

  method ClccStateToRilState(state: int) returns (err: int, s: CallState)
    ensures err == if 0 <= state <= 5 then 0 else -1
    ensures err == 0 ==> ToCallState(state) == Some(s)
  {
    match state {
      case 0 => return 0, Active;
      case 1 => return 0, Holding;
      case 2 => return 0, Dialing;
      case 3 => return 0, Alerting;
      case 4 => return 0, Incoming;
      case 5 => return 0, Waiting;
      case _ => return -1, Active;
    }
  }

  method IndexFromLine(t: Tokenizer, call: RilCall) returns (err: int)
    requires t.Valid() && call.number.None?
    modifies call`index, call`isMT, t`cur, t.line
    ensures t.Valid() && t.OnlyAhead()
    ensures Part(err, call.On(t), t.Rest()) == ParseIndex(old(t.Rest()), old(call.On(t)))
  {
    var n;
    err, n := t.AtTokNextInt();
    if n.Some? {
      call.index := n.value;
    }
    if err < 0 {
      return -1;
    }
    err, n := t.AtTokNextBool();
    if err == 0 {
      call.isMT := n.value == 1;
    }
  }

  method StateFromLine(t: Tokenizer, call: RilCall) returns (err: int)
    requires t.Valid() && call.number.None?
    modifies call`state, t`cur, t.line
    ensures t.Valid() && t.OnlyAhead()
    ensures Part(err, call.On(t), t.Rest()) == ParseState(old(t.Rest()), old(call.On(t)))
  {
    var n, state;
    err, n := t.AtTokNextInt();
    if err < 0 {
      return -1;
    }
    err, state := ClccStateToRilState(n.value);
    if err == 0 {
      call.state := state;
    }
  }

  method ModeFromLine(t: Tokenizer, call: RilCall) returns (err: int)
    requires t.Valid() && call.number.None?
    modifies call`isVoice, call`isMpty, t`cur, t.line
    ensures t.Valid() && t.OnlyAhead()
    ensures Part(err, call.On(t), t.Rest()) == ParseMode(old(t.Rest()), old(call.On(t)))
  {
    var n;
    err, n := t.AtTokNextInt();
    if err < 0 {
      return -1;
    }
    call.isVoice := n.value == 0;
    err, n := t.AtTokNextBool();
    if err == 0 {
      call.isMpty := n.value == 1;
    }
  }

  /** `callFromCLCCLine`. The record comes without a number, as its callers clear it. */
  method CallFromClccLine(t: Tokenizer, call: RilCall) returns (err: int)
    requires t.Valid() && t.cur.Some? && call.number.None?
    modifies call, t`cur, t.line
    ensures t.Valid() && t.OnlyAhead()
    ensures call.number.Some? ==> call.number.value < t.line.Length
    ensures Outcome(err, call.On(t)) == ParseCall(old(t.Rest()).value, old(call.On(t)))
  {
    err := t.AtTokStart();
    if err < 0 {
      return -1;
    }
    err := IndexFromLine(t, call);
    if err < 0 {
      return -1;
    }
    err := StateFromLine(t, call);
    if err < 0 {
      return -1;
    }
    err := ModeFromLine(t, call);
    if err < 0 {
      return -1;
    }
    var more := t.AtTokHasMore();
    if more {
      err := NumberFromLine(t, call);
    }
  }

  // ---------------------------------------------------------------- registration

  class Registration {
    var lac: int
    var cid: int

    constructor ()
      ensures lac == 0 && cid == 0
    {
      lac, cid := 0, 0;
    }

    static method CountCommas(t: Tokenizer) returns (commas: nat)
      requires t.Valid() && t.cur.Some?
      ensures commas == Commas(t.Rest().value)
    {
      commas := 0;
      var p := t.cur.value;
      while t.line[p] != NUL
        invariant t.cur.value <= p < t.line.Length
        invariant commas + Commas(t.At(p)) == Commas(t.Rest().value)
        decreases t.line.Length - p
      {
        t.AtHead(p);
        assert t.At(p)[1..] == t.At(p + 1);
        if t.line[p] == ',' {
          commas := commas + 1;
        }
        p := p + 1;
      }
      t.AtHead(p);
    }

    /** The next number of those that are still to be read. */
    static method NextNumber(t: Tokenizer, hex: bool, ghost seen: seq<int>, ghost bases: seq<nat>)
      returns (err: int, n: int)
      requires t.Valid() && bases != [] && bases[0] == if hex then 16 else 10
      modifies t`cur, t.line
      ensures t.Valid() && t.OnlyAhead()
      ensures err < 0 ==> LineParsers.After(seen, ReadInts(old(t.Rest()), bases)).None?
      ensures err >= 0 ==>
        LineParsers.After(seen, ReadInts(old(t.Rest()), bases)) ==
        LineParsers.After(seen + [n], ReadInts(t.Rest(), bases[1..]))
    {
      AfterOneInt(seen, t.Rest(), bases);
      var out;
      if hex {
        err, out := t.AtTokNextHexInt();
      } else {
        err, out := t.AtTokNextInt();
      }
      n := if out.Some? then out.value else 0;
    }

    /** State, area code and cell, into the first slots. */
    static method ThreeNumbers(t: Tokenizer, resp: array<int>, ghost seen: seq<int>, ghost bases: seq<nat>)
      returns (err: int)
      requires t.Valid() && resp.Length >= 3 && [10, 16, 16] <= bases
      modifies resp, t`cur, t.line
      ensures t.Valid() && t.OnlyAhead() && resp[3..] == old(resp[3..])
      ensures err < 0 ==> LineParsers.After(seen, ReadInts(old(t.Rest()), bases)).None?
      ensures err >= 0 ==>
        LineParsers.After(seen, ReadInts(old(t.Rest()), bases)) ==
        LineParsers.After(seen + resp[..3], ReadInts(t.Rest(), bases[3..]))
    {
      var stat, lac, cid;
      err, stat := NextNumber(t, false, seen, bases);
      resp[0] := stat;
      if err < 0 {
        return;
      }
      err, lac := NextNumber(t, true, seen + [stat], bases[1..]);
      resp[1] := lac;
      if err < 0 {
        return;
      }
      err, cid := NextNumber(t, true, seen + [stat] + [lac], bases[2..]);
      resp[2] := cid;
      assert resp[..3] == [stat] + [lac] + [cid];
      assert seen + [stat] + [lac] + [cid] == seen + resp[..3];
    }

    /** Three numbers after one that is skipped. */
    static method SkipThenThree(t: Tokenizer, resp: array<int>, ghost bases: seq<nat>)
      returns (err: int, ghost skip: int)
      requires t.Valid() && resp.Length >= 3 && bases != [] && bases[0] == 10 && [10, 16, 16] <= bases[1..]
      modifies resp, t`cur, t.line
      ensures t.Valid() && t.OnlyAhead() && resp[3..] == old(resp[3..])
      ensures err < 0 ==> ReadInts(old(t.Rest()), bases).None?
      ensures err >= 0 ==>
        ReadInts(old(t.Rest()), bases) == LineParsers.After([skip] + resp[..3], ReadInts(t.Rest(), bases[1..][3..]))
    {
      AfterAll([], None);
      var n;
      err, n := NextNumber(t, false, [], bases);
      skip := n;
      if err >= 0 {
        assert [] + [skip] == [skip];
        err := ThreeNumbers(t, resp, [skip], bases[1..]);
      }
    }

    /** The network type, behind the three numbers. */
    static method PutNet(resp: array<int>, ghost three: seq<int>, net: int)
      requires |three| == 3 && resp[..] == three + [0, 0]
      modifies resp
      ensures resp[..] == three + [net] + [0]
    {
      resp[3] := net;
      assert resp[..] == (three + [0, 0])[3 := net];
    }

    /** The fourth number in the form that has it; the last slot stays empty. */
    static method Solicited(t: Tokenizer, commas: nat, resp: array<int>) returns (err: int)
      requires t.Valid() && 3 <= commas <= 4 && resp.Length == commas + 1
      requires forall i | 0 <= i < resp.Length :: resp[i] == 0
      modifies resp, t`cur, t.line
      ensures t.Valid() && t.OnlyAhead()
      ensures var ints := ReadInts(old(t.Rest()), Bases(commas));
        (err < 0 <==> ints.None?) && (ints.Some? ==> |ints.value| > 0 && resp[..] == ints.value[1..] + [0])
    {
      ghost var rest, skip := resp[3..], 0;
      BasesSplit(commas);
      err, skip := SkipThenThree(t, resp, Bases(commas));
      if err < 0 {
        return;
      }
      ghost var three, seen := resp[..3], [skip] + resp[..3];
      assert seen[1..] == three && resp[..] == three + rest;
      if commas == 3 {
        AfterAll(seen, t.Rest());
        return;
      }
      var net;
      err, net := NextNumber(t, true, seen, [16]);
      if err < 0 {
        return;
      }
      AfterAll(seen + [net], t.Rest());
      assert (seen + [net])[1..] == three + [net] && rest == [0, 0];
      PutNet(resp, three, net);
    }

    /** The switch on the number of commas, from two on. */
    static method Numbers(t: Tokenizer, commas: nat, resp: array<int>) returns (err: int)
      requires t.Valid() && 2 <= commas <= 4 && resp.Length == commas + 1
      requires forall i | 0 <= i < resp.Length :: resp[i] == 0
      modifies resp, t`cur, t.line
      ensures t.Valid() && t.OnlyAhead()
      ensures var ints := ReadInts(old(t.Rest()), Bases(commas));
        && (err < 0 <==> ints.None?)
        && (ints.Some? ==> |ints.value| > 0 && resp[..] == if commas == 2 then ints.value else ints.value[1..] + [0])
    {
      if commas == 2 {
        BasesSplit(commas);
        AfterAll([], None);
        err := ThreeNumbers(t, resp, [], Bases(2));
        AfterAll([] + resp[..3], t.Rest());
        assert [] + resp[..3] == resp[..];
      } else {
        err := Solicited(t, commas, resp);
      }
    }

    /** `parseRegistrationState`; `items` is the length of the array. */
    method ParseRegistrationState(t: Tokenizer) returns (err: int, resp: array?<int>)
      requires t.Valid() && t.cur.Some? && StaysInBounds(t.Rest().value)
      modifies this, t`cur, t.line
      ensures t.Valid() && t.OnlyAhead()
      ensures var ints := ParseRegistration(old(t.Rest()).value);
        && err == (if ints.Some? then 0 else -1)
        && (ints.Some? <==> resp != null)
        && (ints.Some? ==> fresh(resp) && resp[..] == ints.value)
        && (ints.Some? ==> |ints.value| >= 3 && lac == ints.value[1] && cid == ints.value[2])
        && (ints.None? ==> lac == old(lac) && cid == old(cid))
    {
      err := t.AtTokStart();
      if err < 0 {
        return -1, null;
      }
      var commas := CountCommas(t);
      var slots := new int[commas + 1](_ => 0);
      if commas < 2 {
        var n;
        err, n := t.AtTokNextInt();
        if err >= 0 {
          err, n := t.AtTokNextInt();
        }
        assert err < 0;  // so that the writes past the end are not reached
        return -1, null;
      }
      if commas > 4 {
        return -1, null;
      }
      err := Numbers(t, commas, slots);
      if err < 0 {
        return -1, null;
      }
      lac := slots[1];
      cid := slots[2];
      return 0, slots;
    }
  }
}
