/**
  What the tokenizer of `at_tok.c` makes of a line, on strings: a cursor is the rest of the line, or nothing when
  the C cursor is NULL.
 */
module Tokens {
  import opened Options

  // ---------------------------------------------------------------- the tokenizer

  predicate IsSpace(c: char) {
    c == ' ' || c == '\t' || c == '\n' || c == '\U{B}' || c == '\U{C}' || c == '\r'
  }

  function SkipWhiteSpace(s: string): string {
    if s != "" && IsSpace(s[0]) then SkipWhiteSpace(s[1..]) else s
  }

  function SkipNextComma(s: string): string {
    if s == "" then "" else if s[0] == ',' then s[1..] else SkipNextComma(s[1..])
  }

  /** `strsep` with one delimiter: the token, and what follows its delimiter if it has one. */
  function StrSep(s: string, delimiter: char): (string, Option<string>) {
    if s == "" then ("", None)
    else if s[0] == delimiter then ("", Some(s[1..]))
    else
      var (token, rest) := StrSep(s[1..], delimiter);
      ([s[0]] + token, rest)
  }

  /** `at_tok_start`: what follows the first colon. */
  function Start(s: string): Option<string> {
    StrSep(s, ':').1
  }

  function NextTok(s: string): (string, Option<string>) {
    var t := SkipWhiteSpace(s);
    if t != "" && t[0] == '"' then
      var (token, rest) := StrSep(t[1..], '"');
      (token, if rest.Some? then Some(SkipNextComma(rest.value)) else None)
    else StrSep(t, ',')
  }

  /** `at_tok_hasmore`. */
  predicate HasMore(cursor: Option<string>) {
    cursor.Some? && cursor.value != ""
  }

  /** The results of `count` calls of `at_tok_nextstr`; a call on a NULL cursor gives nothing. */
  function NextStrs(cursor: Option<string>, count: nat): (seq<string>, Option<string>)
    decreases count
  {
    if count == 0 || cursor.None? then ([], cursor)
    else
      var (token, next) := NextTok(cursor.value);
      var (tokens, end) := NextStrs(next, count - 1);
      ([token] + tokens, end)
  }

  function After(texts: seq<string>, r: (seq<string>, Option<string>)): (seq<string>, Option<string>) {
    (texts + r.0, r.1)
  }

  lemma AfterNone(cursor: Option<string>, count: nat)
    ensures After([], NextStrs(cursor, count)) == NextStrs(cursor, count)
  {
    assert [] + NextStrs(cursor, count).0 == NextStrs(cursor, count).0;
  }

  lemma AfterOne(texts: seq<string>, cursor: Option<string>, count: nat)
    requires count > 0 && cursor.Some?
    ensures var (token, next) := NextTok(cursor.value);
      After(texts, NextStrs(cursor, count)) == After(texts + [token], NextStrs(next, count - 1))
  {
    var (token, next) := NextTok(cursor.value);
    assert texts + ([token] + NextStrs(next, count - 1).0) == texts + [token] + NextStrs(next, count - 1).0;
  }

  // ---------------------------------------------------------------- lines as they are printed

  /** A field of a line, with the white space before it. */
  datatype Field = Field(pad: string, text: string, quoted: bool)

  predicate IsField(f: Field) {
    && (forall c | c in f.pad :: IsSpace(c))
    && if f.quoted then '"' !in f.text
       else ',' !in f.text && (f.text == "" || (!IsSpace(f.text[0]) && f.text[0] != '"'))
  }

  ghost predicate AreFields(fields: seq<Field>) {
    forall f | f in fields :: IsField(f)
  }

  function Show(f: Field): string {
    f.pad + if f.quoted then "\"" + f.text + "\"" else f.text
  }

  function Join(fields: seq<Field>): string
    requires fields != []
  {
    if |fields| == 1 then Show(fields[0]) else Show(fields[0]) + "," + Join(fields[1..])
  }

  function Print(header: string, fields: seq<Field>): string
    requires fields != []
  {
    header + ":" + Join(fields)
  }

  function Texts(fields: seq<Field>): seq<string> {
    if fields == [] then [] else [fields[0].text] + Texts(fields[1..])
  }

  // ---------------------------------------------------------------- the round trip

  lemma {:induction false} StrSepFinds(a: string, delimiter: char, b: string)
    requires delimiter !in a
    ensures StrSep(a + [delimiter] + b, delimiter) == (a, Some(b))
    ensures StrSep(a, delimiter) == (a, None)
  {
    var s := a + [delimiter] + b;
    if a == "" {
      assert s[1..] == b;
    } else {
      StrSepFinds(a[1..], delimiter, b);
      assert s[1..] == a[1..] + [delimiter] + b;
      assert a == [a[0]] + a[1..];
    }
  }

  lemma {:induction false} WhiteSpaceSkipped(pad: string, s: string)
    requires forall c | c in pad :: IsSpace(c)
    requires s == "" || !IsSpace(s[0])
    ensures SkipWhiteSpace(pad + s) == s
  {
    if pad == "" {
      assert pad + s == s;
    } else {
      assert (pad + s)[1..] == pad[1..] + s;
      WhiteSpaceSkipped(pad[1..], s);
    }
  }

  /** One token of a printed line. */
  lemma FieldIsToken(f: Field, tail: string)
    requires IsField(f)
    ensures NextTok(Show(f)) == (f.text, if f.quoted then Some("") else None)
    ensures NextTok(Show(f) + "," + tail) == (f.text, Some(tail))
  {
    var shown := if f.quoted then "\"" + f.text + "\"" else f.text;
    if f.quoted {
      WhiteSpaceSkipped(f.pad, shown);
      assert shown[1..] == f.text + ['"'] + "";
      StrSepFinds(f.text, '"', "");

      WhiteSpaceSkipped(f.pad, shown + "," + tail);
      assert f.pad + (shown + "," + tail) == Show(f) + "," + tail;
      assert (shown + "," + tail)[1..] == f.text + ['"'] + ("," + tail);
      StrSepFinds(f.text, '"', "," + tail);
      assert SkipNextComma("," + tail) == tail;
    } else {
      WhiteSpaceSkipped(f.pad, shown);
      StrSepFinds(f.text, ',', tail);

      WhiteSpaceSkipped(f.pad, shown + "," + tail);
      assert f.pad + (shown + "," + tail) == Show(f) + "," + tail;
    }
  }

  lemma {:induction false} CommaSkipped(junk: string, rest: string)
    requires ',' !in junk
    ensures SkipNextComma(junk + "," + rest) == rest
    ensures SkipNextComma(junk) == ""
  {
    var s := junk + "," + rest;
    if junk == "" {
      assert s[1..] == rest;
    } else {
      CommaSkipped(junk[1..], rest);
      assert s[1..] == junk[1..] + "," + rest;
    }
  }

  /**
    A quoted token ends at the closing quote; whatever stands between that and the next comma is skipped, and
    without a closing quote there is nothing after the token.
   */
  lemma {:induction false} QuotedToken(pad: string, text: string, junk: string, rest: string)
    requires (forall c | c in pad :: IsSpace(c)) && '"' !in text && ',' !in junk
    ensures NextTok(pad + "\"" + text + "\"" + junk + "," + rest) == (text, Some(rest))
    ensures NextTok(pad + "\"" + text + "\"" + junk) == (text, Some(""))
    ensures NextTok(pad + "\"" + text) == (text, None)
  {
    QuoteTaken(pad, text, junk + "," + rest);
    assert pad + "\"" + text + "\"" + (junk + "," + rest) == pad + "\"" + text + "\"" + junk + "," + rest;
    QuoteTaken(pad, text, junk);
    CommaSkipped(junk, rest);
    WhiteSpaceSkipped(pad, "\"" + text);
    assert pad + ("\"" + text) == pad + "\"" + text && ("\"" + text)[1..] == text;
    StrSepFinds(text, '"', "");
  }

  lemma QuoteTaken(pad: string, text: string, after: string)
    requires (forall c | c in pad :: IsSpace(c)) && '"' !in text
    ensures NextTok(pad + "\"" + text + "\"" + after) == (text, Some(SkipNextComma(after)))
  {
    var s := "\"" + text + "\"" + after;
    WhiteSpaceSkipped(pad, s);
    assert pad + s == pad + "\"" + text + "\"" + after;
    assert s[1..] == text + ['"'] + after;
    StrSepFinds(text, '"', after);
  }

  lemma {:induction false} FieldsAreTokens(fields: seq<Field>)
    requires fields != [] && AreFields(fields)
    ensures var (tokens, end) := NextStrs(Some(Join(fields)), |fields|);
      tokens == Texts(fields) && !HasMore(end)
  {
    var f, rest := fields[0], fields[1..];
    if rest == [] {
      FieldIsToken(f, "");
      assert NextStrs(NextTok(Show(f)).1, 0).0 == [];
    } else {
      FieldIsToken(f, Join(rest));
      FieldsAreTokens(rest);
    }
  }

  /** Printing a line and reading as many tokens gives the fields back, and then there are no more. */
  lemma {:induction false} TokensOfPrinted(header: string, fields: seq<Field>)
    requires ':' !in header && fields != [] && AreFields(fields)
    ensures Start(Print(header, fields)) == Some(Join(fields))
    ensures var (tokens, end) := NextStrs(Start(Print(header, fields)), |fields|);
      tokens == Texts(fields) && !HasMore(end)
  {
    StrSepFinds(header, ':', Join(fields));
    FieldsAreTokens(fields);
  }

  // ---------------------------------------------------------------- numbers

  const INT_RANGE: int := 0x1_0000_0000
  const LONG_MAX: int := 0x7FFF_FFFF_FFFF_FFFF
  const LONG_MIN: int := -0x8000_0000_0000_0000
  const ULONG_MAX: int := 0xFFFF_FFFF_FFFF_FFFF

  function DigitValue(c: char): nat {
    if '0' <= c <= '9' then c as nat - '0' as nat
    else if 'a' <= c <= 'z' then c as nat - 'a' as nat + 10
    else if 'A' <= c <= 'Z' then c as nat - 'A' as nat + 10
    else 36
  }

  ghost predicate Digits(s: string, base: nat) {
    forall c | c in s :: DigitValue(c) < base
  }

  /** The longest beginning that consists of digits. */
  function DigitRun(s: string, base: nat): string {
    if s != "" && DigitValue(s[0]) < base then [s[0]] + DigitRun(s[1..], base) else ""
  }

  function Number(digits: string, base: nat): nat {
    if digits == "" then 0
    else Number(digits[..|digits| - 1], base) * base + DigitValue(digits[|digits| - 1])
  }

  predicate HasHexPrefix(u: string) {
    |u| > 2 && u[0] == '0' && (u[1] == 'x' || u[1] == 'X') && DigitValue(u[2]) < 16
  }

  /** The digits after the sign; `0x` before hexadecimal digits is passed over. */
  function ScanUnsigned(u: string, base: nat): string {
    DigitRun(if base == 16 && HasHexPrefix(u) then u[2..] else u, base)
  }

  /** What `strtol` and `strtoul` find: a sign and digits. No digits, no conversion. */
  function Scan(s: string, base: nat): (bool, string) {
    var t := SkipWhiteSpace(s);
    var signed := t != "" && (t[0] == '-' || t[0] == '+');
    (signed && t[0] == '-', ScanUnsigned(if signed then t[1..] else t, base))
  }

  function StrToL(s: string, base: nat): int {
    var (negative, digits) := Scan(s, base);
    var n: int := Number(digits, base);
    if negative then (if -n < LONG_MIN then LONG_MIN else -n) else if n > LONG_MAX then LONG_MAX else n
  }

  /** The result still has to be read modulo the size of an unsigned long. */
  function StrToUL(s: string, base: nat): int {
    var (negative, digits) := Scan(s, base);
    var n: int := Number(digits, base);
    if n > ULONG_MAX then ULONG_MAX else if negative then -n else n
  }

  /** The conversion of a long to an int of 32 bits. */
  function ToInt(n: int): int {
    var m := n % INT_RANGE;
    if m < INT_RANGE / 2 then m else m - INT_RANGE
  }

  function TokenInt(token: string, base: nat, unsigned: bool): int {
    ToInt(if unsigned then StrToUL(token, base) else StrToL(token, base))
  }

  /** The outcome of a call that reads a number: `out` is what has been stored, even where the call fails. */
  datatype IntResult = IntResult(err: int, out: Option<int>, next: Option<string>)

  function NextIntBase(cursor: Option<string>, base: nat, unsigned: bool): IntResult {
    if cursor.None? then IntResult(-1, None, None)
    else
      var (token, next) := NextTok(cursor.value);
      IntResult(if Scan(token, base).1 == "" then -1 else 0, Some(TokenInt(token, base, unsigned)), next)
  }

  function NextInt(cursor: Option<string>): IntResult {
    NextIntBase(cursor, 10, false)
  }

  function NextHexInt(cursor: Option<string>): IntResult {
    NextIntBase(cursor, 16, true)
  }

  function NextBool(cursor: Option<string>): IntResult {
    var r := NextInt(cursor);
    if r.err == 0 && r.out.value in {0, 1} then r else IntResult(-1, None, r.next)
  }

  /** The characters of the C locale that count as white space, as decimal and as hexadecimal digits. */
  lemma CharactersAre(c: char)
    ensures IsSpace(c) <==> c == ' ' || 9 <= c as int <= 13
    ensures DigitValue(c) < 10 <==> '0' <= c <= '9'
    ensures DigitValue(c) < 16 <==> '0' <= c <= '9' || 'a' <= c <= 'f' || 'A' <= c <= 'F'
  {}

  /** How a text is taken apart: white space, a sign, a prefix, the digits and what is not read. */
  datatype Parts = Parts(pad: string, sign: string, prefix: string, digits: string, rest: string)

  function Whole(p: Parts): string {
    p.pad + (p.sign + (p.prefix + (p.digits + p.rest)))
  }

  /** The white space, the prefix and the digits go as far as they can. */
  ghost predicate WellTaken(p: Parts, base: nat) {
    && (forall c | c in p.pad :: c == ' ' || 9 <= c as int <= 13)
    && (p.sign == "" || p.sign == "+" || p.sign == "-")
    && (p.prefix == "" || (base == 16 && (p.prefix == "0x" || p.prefix == "0X") && p.digits != ""))
    && Digits(p.digits, base)
    && (p.rest != "" ==> DigitValue(p.rest[0]) >= base)
    && (p.sign == "" && p.prefix == "" && p.digits == "" && p.rest != "" ==>
          !IsSpace(p.rest[0]) && p.rest[0] != '+' && p.rest[0] != '-')
    && (base == 16 && p.prefix == "" && p.digits == "0" && |p.rest| > 1 && (p.rest[0] == 'x' || p.rest[0] == 'X') ==>
          DigitValue(p.rest[1]) >= 16)
  }

  lemma {:induction false} DigitRunTaken(digits: string, rest: string, base: nat)
    requires Digits(digits, base) && (rest != "" ==> DigitValue(rest[0]) >= base)
    ensures DigitRun(digits + rest, base) == digits
  {
    if digits == "" {
      assert digits + rest == rest;
    } else {
      DigitRunTaken(digits[1..], rest, base);
      assert (digits + rest)[1..] == digits[1..] + rest;
    }
  }

  lemma NoPrefixTaken(digits: string, rest: string, base: nat)
    requires 2 <= base <= 16 && WellTaken(Parts("", "+", "", digits, rest), base)
    ensures ScanUnsigned(digits + rest, base) == digits
  {
    var u := digits + rest;
    DigitRunTaken(digits, rest, base);
    if |digits| == 0 {
      assert u == rest;
    } else if |digits| == 1 {
      assert u[0] == digits[0] && (|rest| > 1 ==> u[1] == rest[0] && u[2] == rest[1]);
      assert u[0] == '0' ==> digits == "0";
    } else {
      assert u[1] == digits[1] && digits[1] in digits;
    }
  }

  lemma PrefixTaken(prefix: string, digits: string, rest: string)
    requires WellTaken(Parts("", "+", prefix, digits, rest), 16) && prefix != ""
    ensures ScanUnsigned(prefix + (digits + rest), 16) == digits
  {
    var u := prefix + (digits + rest);
    DigitRunTaken(digits, rest, 16);
    assert digits[0] in digits && u[2] == digits[0];
    assert u[2..] == digits + rest;
  }

  lemma UnsignedTaken(p: Parts, base: nat)
    requires 2 <= base <= 16 && WellTaken(p, base)
    ensures ScanUnsigned(p.prefix + (p.digits + p.rest), base) == p.digits
  {
    if p.prefix == "" {
      NoPrefixTaken(p.digits, p.rest, base);
      assert p.prefix + (p.digits + p.rest) == p.digits + p.rest;
    } else {
      PrefixTaken(p.prefix, p.digits, p.rest);
    }
  }

  lemma UnsignedStart(p: Parts, base: nat)
    requires 2 <= base <= 16 && WellTaken(p, base) && p.sign == ""
    ensures var u := p.prefix + (p.digits + p.rest); u == "" || (!IsSpace(u[0]) && u[0] != '+' && u[0] != '-')
  {
    if p.prefix == "" && p.digits != "" {
      assert p.digits[0] in p.digits;
    }
  }

  /** The library reads every text as the one way to take it apart prescribes. */
  lemma {:induction false} TextScanned(p: Parts, base: nat)
    requires 2 <= base <= 16 && WellTaken(p, base)
    ensures Scan(Whole(p), base) == (p.sign == "-", p.digits)
  {
    var u := p.prefix + (p.digits + p.rest);
    UnsignedTaken(p, base);
    if p.sign == "" {
      assert p.sign + u == u;
      UnsignedStart(p, base);
    } else {
      assert (p.sign + u)[1..] == u;
    }
    WhiteSpaceSkipped(p.pad, p.sign + u);
    assert SkipWhiteSpace(Whole(p)) == p.sign + u;
  }

  lemma PrefixApart(u: string) returns (prefix: string, digits: string, rest: string)
    requires HasHexPrefix(u)
    ensures u == prefix + (digits + rest) && WellTaken(Parts("", "+", prefix, digits, rest), 16) && prefix != ""
  {
    var v := u[2..];
    RunIsDigits(v, 16);
    prefix, digits := if u[1] == 'x' then "0x" else "0X", DigitRun(v, 16);
    rest := v[|digits|..];
    assert v == digits + rest && u == prefix + v;
  }

  lemma PlainApart(u: string, base: nat) returns (digits: string, rest: string)
    requires 2 <= base <= 16 && !(base == 16 && HasHexPrefix(u))
    ensures u == digits + rest && WellTaken(Parts("", "+", "", digits, rest), base)
  {
    RunIsDigits(u, base);
    digits := DigitRun(u, base);
    rest := u[|digits|..];
    assert u == digits + rest;
    if digits == "0" && |rest| > 1 {
      assert u[0] == '0' && u[1] == rest[0] && u[2] == rest[1];
    }
  }

  lemma UnsignedApart(u: string, base: nat) returns (prefix: string, digits: string, rest: string)
    requires 2 <= base <= 16
    ensures u == prefix + (digits + rest) && WellTaken(Parts("", "+", prefix, digits, rest), base)
    ensures prefix == "" || u[0] == '0'
  {
    if base == 16 && HasHexPrefix(u) {
      prefix, digits, rest := PrefixApart(u);
    } else {
      digits, rest := PlainApart(u, base);
      prefix := "";
      assert prefix + (digits + rest) == digits + rest;
    }
  }

  /** Every text can be taken apart that way. */
  lemma {:induction false} TakenApart(s: string, base: nat) returns (p: Parts)
    requires 2 <= base <= 16
    ensures Whole(p) == s && WellTaken(p, base)
  {
    var t := SkipWhiteSpace(s);
    var pad := PadOf(s);
    if t != "" && (t[0] == '-' || t[0] == '+') {
      var prefix, digits, rest := UnsignedApart(t[1..], base);
      p := Parts(pad, [t[0]], prefix, digits, rest);
      assert t == p.sign + t[1..];
    } else {
      var prefix, digits, rest := UnsignedApart(t, base);
      p := Parts(pad, "", prefix, digits, rest);
      assert p.sign + t == t;
      assert prefix == "" && digits == "" ==> t == rest;
    }
  }

  lemma {:induction false} PadOf(s: string) returns (pad: string)
    ensures s == pad + SkipWhiteSpace(s) && forall c | c in pad :: IsSpace(c)
    ensures SkipWhiteSpace(s) == "" || !IsSpace(SkipWhiteSpace(s)[0])
  {
    if s != "" && IsSpace(s[0]) {
      var rest := PadOf(s[1..]);
      pad := [s[0]] + rest;
      assert s == [s[0]] + s[1..];
    } else {
      pad := "";
    }
  }

  lemma {:induction false} RunIsDigits(s: string, base: nat)
    ensures var d := DigitRun(s, base);
      && d <= s && Digits(d, base) && (|d| < |s| ==> DigitValue(s[|d|]) >= base)
      && (d == "" <==> s == "" || DigitValue(s[0]) >= base)
  {
    if s != "" && DigitValue(s[0]) < base {
      RunIsDigits(s[1..], base);
    }
  }

  lemma {:induction false} DigitRunIsAll(s: string, base: nat)
    requires Digits(s, base)
    ensures DigitRun(s, base) == s
  {
    if s != "" {
      DigitRunIsAll(s[1..], base);
      assert s == [s[0]] + s[1..];
    }
  }

  lemma DigitsScanned(s: string, base: nat)
    requires Digits(s, base) && base <= 16
    ensures Scan(s, base) == (false, s)
  {
    if s != "" {
      assert s[0] in s;
      if |s| > 1 {
        assert s[1] in s;
      }
    }
    DigitRunIsAll(s, base);
  }

  /** Decimal digits of a number that an int can hold are read as that number. */
  lemma DecimalIsRead(s: string)
    requires Digits(s, 10) && Number(s, 10) < INT_RANGE / 2
    ensures TokenInt(s, 10, false) == Number(s, 10)
  {
    DigitsScanned(s, 10);
  }

  lemma ToIntOf(n: nat)
    requires n < INT_RANGE
    ensures ToInt(n) == if n < INT_RANGE / 2 then n else n - INT_RANGE
  {}

  /** Hexadecimal digits of up to 32 bits are read as the int with those bits. */
  lemma HexIsRead(s: string)
    requires Digits(s, 16) && Number(s, 16) < INT_RANGE
    ensures TokenInt(s, 16, true) == if Number(s, 16) < INT_RANGE / 2 then Number(s, 16) else Number(s, 16) - INT_RANGE
  {
    DigitsScanned(s, 16);
    assert StrToUL(s, 16) == Number(s, 16);
    ToIntOf(Number(s, 16));
  }

  // ---------------------------------------------------------------- reading a printed line field by field

  /** The cursor when `k` fields have been read. */
  function CursorAt(fields: seq<Field>, k: nat): Option<string>
    requires fields != [] && k <= |fields|
  {
    if k < |fields| then Some(Join(fields[k..]))
    else if fields[|fields| - 1].quoted then Some("") else None
  }

  lemma TokenAt(fields: seq<Field>, k: nat)
    requires AreFields(fields) && k < |fields|
    ensures NextTok(CursorAt(fields, k).value) == (fields[k].text, CursorAt(fields, k + 1))
    ensures !HasMore(CursorAt(fields, |fields|))
  {
    FieldIsToken(fields[k], if k + 1 < |fields| then Join(fields[k + 1..]) else "");
    assert fields[k..][1..] == fields[k + 1..];
  }

  lemma StartOfPrinted(header: string, fields: seq<Field>)
    requires ':' !in header && fields != []
    ensures Start(Print(header, fields)) == CursorAt(fields, 0)
  {
    StrSepFinds(header, ':', Join(fields));
    assert fields[0..] == fields;
  }

  /** The k-th field read as a number. */
  lemma IntAt(fields: seq<Field>, k: nat, base: nat, unsigned: bool)
    requires AreFields(fields) && k < |fields|
    ensures NextIntBase(CursorAt(fields, k), base, unsigned) ==
              IntResult(if Scan(fields[k].text, base).1 == "" then -1 else 0,
                        Some(TokenInt(fields[k].text, base, unsigned)), CursorAt(fields, k + 1))
  {
    TokenAt(fields, k);
  }

  // ---------------------------------------------------------------- numbers as they are printed

  function Digit(d: nat): char
    requires d < 16
  {
    "0123456789ABCDEF"[d]
  }

  lemma DigitHasValue(d: nat)
    requires d < 16
    ensures DigitValue(Digit(d)) == d && Digit(d) != '"' && Digit(d) != ',' && !IsSpace(Digit(d))
    ensures DigitValue("0123456789abcdef"[d]) == d
  {
    var s := "0123456789ABCDEF";
    assert s[d] == if d < 10 then '0' + d as char else 'A' + (d - 10) as char;
    var t := "0123456789abcdef";
    assert t[d] == if d < 10 then '0' + d as char else 'a' + (d - 10) as char;
  }

  function Shown(n: nat, base: nat): string
    requires 2 <= base <= 16
  {
    if n < base then [Digit(n)] else Shown(n / base, base) + [Digit(n % base)]
  }

  lemma QuotientAndRemainder(n: nat, base: nat)
    requires 2 <= base <= n
    ensures n / base * base + n % base == n && 0 < n / base < n && n % base < base
  {}

  lemma LastDigit(s: string, q: nat, base: nat, d: nat)
    requires d < base <= 16 && Digits(s, base) && Number(s, base) == q
    ensures Digits(s + [Digit(d)], base) && Number(s + [Digit(d)], base) == q * base + d
  {
    DigitHasValue(d);
    assert (s + [Digit(d)])[..|s|] == s;
  }

  lemma {:induction false} ShownIsNumber(n: nat, base: nat)
    requires 2 <= base <= 16
    ensures Shown(n, base) != "" && Digits(Shown(n, base), base) && Number(Shown(n, base), base) == n
  {
    if n < base {
      LastDigit("", 0, base, n);
      assert "" + [Digit(n)] == [Digit(n)];
    } else {
      QuotientAndRemainder(n, base);
      var q, d := n / base, n % base;
      ShownIsNumber(q, base);
      LastDigit(Shown(q, base), q, base, d);
    }
  }

  /** An int that is not negative, printed in decimal, is read back. */
  lemma {:induction false} DecimalRoundTrip(n: nat)
    requires n < INT_RANGE / 2
    ensures TokenInt(Shown(n, 10), 10, false) == n && Scan(Shown(n, 10), 10).1 != ""
  {
    ShownIsNumber(n, 10);
    DecimalIsRead(Shown(n, 10));
    DigitsScanned(Shown(n, 10), 10);
  }

  /** 32 bits, printed in hexadecimal, are read back as the int with those bits. */
  lemma {:induction false} HexRoundTrip(n: nat)
    requires n < INT_RANGE
    ensures TokenInt(Shown(n, 16), 16, true) == ToInt(n) && Scan(Shown(n, 16), 16).1 != ""
  {
    ShownIsNumber(n, 16);
    HexIsRead(Shown(n, 16));
    DigitsScanned(Shown(n, 16), 16);
  }

  // ---------------------------------------------------------------- every number, with whatever stands around it

  function ShownInt(n: int): string {
    if n < 0 then "-" + Shown(-n, 10) else Shown(n, 10)
  }

  /** The conversion of a long to an int keeps what is modulo 32 bits. */
  lemma ToIntIs(n: int)
    ensures -0x8000_0000 <= ToInt(n) < 0x8000_0000 && (n - ToInt(n)) % 0x1_0000_0000 == 0
  {}

  lemma WholeIs(p: Parts)
    ensures Whole(p) == p.pad + p.sign + p.prefix + p.digits + p.rest
  {}

  /** White space, a sign and decimal digits. */
  lemma DecimalScanned(pad: string, sign: string, digits: string, rest: string)
    requires (forall c | c in pad :: IsSpace(c)) && (sign == "" || sign == "+" || sign == "-")
    requires Digits(digits, 10) && digits != "" && (rest != "" ==> !('0' <= rest[0] <= '9'))
    ensures Scan(pad + sign + digits + rest, 10) == (sign == "-", digits)
  {
    var p := Parts(pad, sign, "", digits, rest);
    TextScanned(p, 10);
    WholeIs(p);
    assert pad + sign + "" == pad + sign;
  }

  /** White space, a prefix or none, and hexadecimal digits. */
  lemma HexScanned(pad: string, prefix: string, digits: string, rest: string)
    requires (forall c | c in pad :: IsSpace(c)) && (prefix == "" || prefix == "0x" || prefix == "0X")
    requires Digits(digits, 16) && digits != ""
    requires rest != "" ==> DigitValue(rest[0]) >= 16 && rest[0] != 'x' && rest[0] != 'X'
    ensures Scan(pad + prefix + digits + rest, 16) == (false, digits)
  {
    var p := Parts(pad, "", prefix, digits, rest);
    TextScanned(p, 16);
    WholeIs(p);
    assert pad + "" == pad;
  }

  /**
    Any number printed in decimal, with white space before it and something that is no digit after it, is read as
    the int that it is congruent to modulo 32 bits, but as -1 or 0 when it is too large or too small for a long.
   */
  lemma {:induction false} AnyDecimalRead(pad: string, n: int, rest: string)
    requires (forall c | c in pad :: IsSpace(c)) && (rest != "" ==> !('0' <= rest[0] <= '9'))
    ensures Scan(pad + ShownInt(n) + rest, 10).1 != ""
    ensures var m := TokenInt(pad + ShownInt(n) + rest, 10, false);
      if n > 0x7FFF_FFFF_FFFF_FFFF then m == -1
      else if n < -0x8000_0000_0000_0000 then m == 0
      else -0x8000_0000 <= m < 0x8000_0000 && (n - m) % 0x1_0000_0000 == 0
  {
    var digits := Shown(if n < 0 then -n else n, 10);
    ShownIsNumber(if n < 0 then -n else n, 10);
    DecimalScanned(pad, if n < 0 then "-" else "", digits, rest);
    var s := pad + ShownInt(n) + rest;
    assert s == pad + (if n < 0 then "-" else "") + digits + rest;
    assert StrToL(s, 10) == if n < LONG_MIN then LONG_MIN else if n > LONG_MAX then LONG_MAX else n;
    ToIntIs(n);
    assert ToInt(LONG_MAX) == -1 && ToInt(LONG_MIN) == 0;
  }

  /** An int comes back from its decimal digits, sign and all. */
  lemma {:induction false} IntRoundTrip(n: int)
    requires -0x8000_0000 <= n < 0x8000_0000
    ensures TokenInt(ShownInt(n), 10, false) == n && Scan(ShownInt(n), 10).1 != ""
  {
    AnyDecimalRead("", n, "");
    assert "" + ShownInt(n) + "" == ShownInt(n);
    NoSmallMultiple(n - TokenInt(ShownInt(n), 10, false));
  }

  lemma NoSmallMultiple(d: int)
    requires -0x1_0000_0000 < d < 0x1_0000_0000 && d % 0x1_0000_0000 == 0
    ensures d == 0
  {}

  /** The same for hexadecimal digits, with or without a prefix; what no unsigned long can hold is read as -1. */
  lemma {:induction false} AnyHexRead(pad: string, prefix: string, n: nat, rest: string)
    requires (forall c | c in pad :: IsSpace(c)) && (prefix == "" || prefix == "0x" || prefix == "0X")
    requires rest != "" ==> DigitValue(rest[0]) >= 16 && rest[0] != 'x' && rest[0] != 'X'
    ensures Scan(pad + prefix + Shown(n, 16) + rest, 16).1 != ""
    ensures var m := TokenInt(pad + prefix + Shown(n, 16) + rest, 16, true);
      if n > 0xFFFF_FFFF_FFFF_FFFF then m == -1
      else -0x8000_0000 <= m < 0x8000_0000 && (n - m) % 0x1_0000_0000 == 0
  {
    ShownIsNumber(n, 16);
    HexScanned(pad, prefix, Shown(n, 16), rest);
    var s := pad + prefix + Shown(n, 16) + rest;
    assert StrToUL(s, 16) == if n > ULONG_MAX then ULONG_MAX else n;
    ToIntIs(n);
    assert ToInt(ULONG_MAX) == -1;
  }

  lemma IntIsField(pad: string, n: int)
    requires forall c | c in pad :: IsSpace(c)
    ensures IsField(Field(pad, ShownInt(n), false))
  {
    var digits := Shown(if n < 0 then -n else n, 10);
    ShownIsNumber(if n < 0 then -n else n, 10);
    assert digits[0] in digits;
    assert DigitValue(',') >= 10 && DigitValue('"') >= 10 && DigitValue(' ') >= 10;
    if n < 0 {
      assert ShownInt(n)[0] == '-';
    }
  }

  /** Of the numbers that an int can hold, a flag may be 0 or 1 and nothing else. */
  lemma {:induction false} FlagRead(pad: string, n: int, tail: string)
    requires (forall c | c in pad :: IsSpace(c)) && -0x8000_0000 <= n < 0x8000_0000
    ensures NextBool(Some(pad + ShownInt(n) + "," + tail)) ==
              if n == 0 || n == 1 then IntResult(0, Some(n), Some(tail)) else IntResult(-1, None, Some(tail))
  {
    IntIsField(pad, n);
    FieldIsToken(Field(pad, ShownInt(n), false), tail);
    IntRoundTrip(n);
  }
}
