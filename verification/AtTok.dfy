/**
  `at_tok.c` on its buffer: the cursor moves over a NUL-terminated line, and the end of every token is written
  into the line.
 */
module AtToks {
  import opened Options
  import opened CStrings
  import opened Tokens

  /** The first delimiter or NUL from here on decides how the string is cut. */
  lemma CutAt(u: seq<char>, k: nat, delimiter: char)
    requires k < |u| && NUL !in u[..k] && delimiter !in u[..k] && delimiter != NUL
    requires u[k] == NUL || u[k] == delimiter
    ensures StrSep(CString(u), delimiter) == (u[..k], if u[k] == NUL then None else Some(CString(u[k + 1..])))
    ensures u[k] == NUL ==> CString(u) == u[..k]
    ensures CString(u[k := NUL]) == u[..k]
  {
    var t := u[..k];
    CStringConcat(t, u[k..]);
    assert u == t + u[k..] && u[k := NUL] == t + ([NUL] + u[k + 1..]);
    CStringConcat(t, [NUL] + u[k + 1..]);
    assert t + "" == t;
    StrSepFinds(t, delimiter, CString(u[k + 1..]));
    if u[k] == delimiter {
      assert u[k..][1..] == u[k + 1..];
      assert t + ([delimiter] + CString(u[k + 1..])) == t + [delimiter] + CString(u[k + 1..]);
    }
  }

  class Tokenizer {
    const line: array<char>
    var cur: Option<nat>  // NULL or an index into the line

    ghost predicate Valid()
      reads this, line
    {
      && line.Length > 0 && line[line.Length - 1] == NUL
      && (cur.Some? ==> cur.value < line.Length)
    }

    /** The C string at an index. */
    ghost function At(i: nat): string
      requires i <= line.Length
      reads line
    {
      CString(line[i..])
    }

    /** What the cursor points at. */
    ghost function Rest(): Option<string>
      requires cur.Some? ==> cur.value <= line.Length
      reads this, line
    {
      if cur.None? then None else Some(At(cur.value))
    }

    /** Everything before this belongs to tokens already returned, or is skipped. */
    ghost function Done(): nat
      reads this
    {
      if cur.None? then line.Length else cur.value
    }

    constructor (line: array<char>)
      requires line.Length > 0 && line[line.Length - 1] == NUL
      ensures Valid() && this.line == line && cur == Some(0)
    {
      this.line := line;
      cur := Some(0);
    }

    /** Nothing that was done already has changed. */
    twostate predicate OnlyAhead()
      reads this, line
    {
      old(Done()) <= Done() && forall i | 0 <= i < old(Done()) && i < line.Length :: line[i] == old(line[i])
    }

    lemma AtHead(i: nat)
      requires i < line.Length
      ensures At(i) == if line[i] == NUL then "" else [line[i]] + At(i + 1)
    {
      assert line[i..][1..] == line[i + 1..];
    }

    method SkipWhiteSpace()
      requires Valid() && cur.Some?
      modifies `cur
      ensures Valid() && Rest() == Some(Tokens.SkipWhiteSpace(old(Rest()).value))
      ensures cur.Some? && old(cur.value) <= cur.value
    {
      while line[cur.value] != NUL && IsSpace(line[cur.value])
        invariant Valid() && cur.Some? && old(cur.value) <= cur.value
        invariant Tokens.SkipWhiteSpace(At(cur.value)) == Tokens.SkipWhiteSpace(old(Rest()).value)
        decreases line.Length - cur.value
      {
        AtHead(cur.value);
        assert At(cur.value)[1..] == At(cur.value + 1);
        cur := Some(cur.value + 1);
      }
      AtHead(cur.value);
    }

    method SkipNextComma()
      requires Valid()
      modifies `cur
      ensures Valid() && Done() >= old(Done())
      ensures Rest() == if old(cur).None? then None else Some(Tokens.SkipNextComma(old(Rest()).value))
    {
      if cur.None? {
        return;
      }
      while line[cur.value] != NUL && line[cur.value] != ','
        invariant Valid() && cur.Some? && old(cur.value) <= cur.value
        invariant Tokens.SkipNextComma(At(cur.value)) == Tokens.SkipNextComma(old(Rest()).value)
        decreases line.Length - cur.value
      {
        AtHead(cur.value);
        assert At(cur.value)[1..] == At(cur.value + 1);
        cur := Some(cur.value + 1);
      }
      AtHead(cur.value);
      if line[cur.value] == ',' {
        cur := Some(cur.value + 1);
      }
    }

    /** The first place from the cursor on that holds the character or ends the string. */
    method FindChar(c: char) returns (at: nat)
      requires Valid() && cur.Some?
      ensures cur.value <= at < line.Length && (line[at] == NUL || line[at] == c)
      ensures NUL !in line[cur.value..at] && c !in line[cur.value..at]
      ensures line[cur.value..][..at - cur.value] == line[cur.value..at]
    {
      at := cur.value;
      while line[at] != NUL && line[at] != c
        invariant cur.value <= at < line.Length
        invariant NUL !in line[cur.value..at] && c !in line[cur.value..at]
        decreases line.Length - at
      {
        assert line[cur.value..at + 1] == line[cur.value..at] + [line[at]];
        at := at + 1;
      }
    }

    /** The library function, with one delimiter. */
    method StrSep(delimiter: char) returns (token: nat)
      requires Valid() && cur.Some? && delimiter != NUL
      modifies `cur, line
      ensures Valid() && token == old(cur.value)
      ensures var (t, rest) := Tokens.StrSep(old(Rest()).value, delimiter);
        At(token) == t && Rest() == rest && token + |t| < Done()
      ensures forall i | 0 <= i < token :: line[i] == old(line[i])
    {
      token := cur.value;
      ghost var u := line[token..];
      var end := FindChar(delimiter);
      CutAt(u, end - token, delimiter);
      if line[end] == NUL {
        cur := None;
      } else {
        assert line[end + 1..] == u[end + 1 - token..];
        line[end] := NUL;
        assert line[token..] == u[end - token := NUL];
        assert line[end + 1..] == u[end + 1 - token..];
        cur := Some(end + 1);
      }
    }

    /** `at_tok_start`. */
    method AtTokStart() returns (err: int)
      requires Valid()
      modifies `cur
      ensures Valid() && OnlyAhead()
      ensures Rest() == (if old(cur).None? then None else Start(old(Rest()).value))
      ensures err == if Rest().None? then -1 else 0
    {
      if cur.None? {
        return -1;
      }
      ghost var u := line[cur.value..];
      var at := FindChar(':');
      CutAt(u, at - cur.value, ':');
      assert u[at - cur.value + 1..] == line[at + 1..];
      if line[at] == NUL {
        cur := None;
        return -1;
      }
      cur := Some(at + 1);
      return 0;
    }

    method NextTok() returns (token: Option<nat>)
      requires Valid()
      modifies `cur, line
      ensures Valid() && OnlyAhead()
      ensures token.Some? <==> old(cur).Some?
      ensures token.None? ==> cur.None?
      ensures token.Some? ==>
        var (t, rest) := Tokens.NextTok(old(Rest()).value);
        && old(cur.value) <= token.value && token.value + |t| < Done() <= line.Length
        && At(token.value) == t && Rest() == rest
    {
      if cur.None? {
        return None;
      }
      SkipWhiteSpace();
      AtHead(cur.value);
      ghost var t := Rest().value;
      var start: nat;
      if line[cur.value] == '"' {
        assert t[1..] == At(cur.value + 1);
        cur := Some(cur.value + 1);
        start := StrSep('"');
        SkipNextComma();
      } else {
        start := StrSep(',');
      }
      return Some(start);
    }

    method AtTokNextIntBase(base: nat, unsigned: bool) returns (err: int, out: Option<int>)
      requires Valid()
      modifies `cur, line
      ensures Valid() && OnlyAhead()
      ensures IntResult(err, out, Rest()) == NextIntBase(old(Rest()), base, unsigned)
    {
      if cur.None? {
        return -1, None;
      }
      var token := NextTok();
      var s := CString(line[token.value..]);
      err := if Scan(s, base).1 == "" then -1 else 0;
      out := Some(TokenInt(s, base, unsigned));
    }

    method AtTokNextInt() returns (err: int, out: Option<int>)
      requires Valid()
      modifies `cur, line
      ensures Valid() && OnlyAhead()
      ensures IntResult(err, out, Rest()) == NextInt(old(Rest()))
    {
      err, out := AtTokNextIntBase(10, false);
    }

    method AtTokNextHexInt() returns (err: int, out: Option<int>)
      requires Valid()
      modifies `cur, line
      ensures Valid() && OnlyAhead()
      ensures IntResult(err, out, Rest()) == NextHexInt(old(Rest()))
    {
      err, out := AtTokNextIntBase(16, true);
    }

    method AtTokNextBool() returns (err: int, out: Option<int>)
      requires Valid()
      modifies `cur, line
      ensures Valid() && OnlyAhead()
      ensures IntResult(err, out, Rest()) == NextBool(old(Rest()))
    {
      err, out := AtTokNextInt();
      if err < 0 {
        return -1, None;
      }
      if !(out.value == 0 || out.value == 1) {
        return -1, None;
      }
    }

    method AtTokNextStr() returns (err: int, out: Option<nat>)
      requires Valid()
      modifies `cur, line
      ensures Valid() && OnlyAhead()
      ensures err == (if old(cur).None? then -1 else 0) && (out.Some? <==> old(cur).Some?)
      ensures old(cur).None? ==> cur.None?
      ensures out.Some? ==>
        var (t, rest) := Tokens.NextTok(old(Rest()).value);
        && old(cur.value) <= out.value && out.value + |t| < Done() <= line.Length
        && At(out.value) == t && Rest() == rest
    {
      if cur.None? {
        return -1, None;
      }
      out := NextTok();
      return 0, out;
    }

    method AtTokHasMore() returns (more: bool)
      requires Valid()
      ensures more <==> HasMore(Rest())
    {
      if cur.Some? {
        AtHead(cur.value);
      }
      return !(cur.None? || line[cur.value] == NUL);
    }

    /** A token that has been returned stands in the line and will not be touched again. */
    ghost predicate Stands(token: nat, text: string)
      reads this, line
    {
      token + |text| < Done() && token < line.Length && At(token) == text
    }

    ghost predicate AllStand(tokens: seq<nat>, texts: seq<string>)
      reads this, line
    {
      |tokens| == |texts| && forall j | 0 <= j < |tokens| :: Stands(tokens[j], texts[j])
    }

    /** One call of `at_tok_nextstr` leaves the tokens before it standing. */
    method TakeOne(tokens: seq<nat>, ghost texts: seq<string>) returns (token: nat)
      requires Valid() && cur.Some? && AllStand(tokens, texts)
      modifies `cur, line
      ensures Valid() && OnlyAhead() && AllStand(tokens, texts)
      ensures Stands(token, Tokens.NextTok(old(Rest()).value).0) && Rest() == Tokens.NextTok(old(Rest()).value).1
    {
      ghost var before, done := line[..], Done();
      assert forall j | 0 <= j < |tokens| :: Stands(tokens[j], texts[j]) && before[tokens[j]..] == line[tokens[j]..];
      var err, out := AtTokNextStr();
      TokensKept(before, line[..], done, tokens, texts);
      assert forall j | 0 <= j < |tokens| :: line[..][tokens[j]..] == line[tokens[j]..];
      token := out.value;
    }

    /**
      A caller that takes up to `count` tokens: each is still there, unchanged, when the last has been taken.
     */
    method Take(count: nat) returns (tokens: seq<nat>)
      requires Valid()
      modifies `cur, line
      ensures Valid() && OnlyAhead()
      ensures Rest() == NextStrs(old(Rest()), count).1 && AllStand(tokens, NextStrs(old(Rest()), count).0)
    {
      tokens := [];
      ghost var texts: seq<string> := [];
      AfterNone(Rest(), count);
      var left := count;
      while left > 0 && cur.Some?
        invariant Valid() && OnlyAhead() && AllStand(tokens, texts)
        invariant NextStrs(old(Rest()), count) == After(texts, NextStrs(Rest(), left))
      {
        AfterOne(texts, Rest(), left);
        ghost var text := Tokens.NextTok(Rest().value).0;
        var token := TakeOne(tokens, texts);
        tokens, texts := tokens + [token], texts + [text];
        left := left - 1;
      }
    }
  }
}
