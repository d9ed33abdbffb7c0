/** Splitting a stream of characters from the modem into lines: what the buffered reader is meant to compute. */
module LineSplitter {
  import opened Options

  const MAX_AT_RESPONSE := 8192

  predicate IsEol(c: char) {
    c == '\r' || c == '\n'
  }

  predicate AllEol(s: seq<char>) {
    forall i | 0 <= i < |s| :: IsEol(s[i])
  }

  predicate EolFree(s: seq<char>) {
    forall i | 0 <= i < |s| :: !IsEol(s[i])
  }

  /** Length of the run of line ends at the front. */
  function EolRun(s: seq<char>): (n: nat)
    ensures n <= |s|
  {
    if s == [] || !IsEol(s[0]) then 0 else 1 + EolRun(s[1..])
  }

  /** Position of the first line end, or the length if there is none. */
  function FirstEol(s: seq<char>): (n: nat)
    ensures n <= |s|
  {
    if s == [] || IsEol(s[0]) then 0 else 1 + FirstEol(s[1..])
  }

  /** The first complete line, without the line ends before it, and what follows its terminator. */
  function FirstLine(s: seq<char>): Option<(seq<char>, seq<char>)> {
    var v := s[EolRun(s)..];
    var k := FirstEol(v);
    if k == |v| then None else Some((v[..k], v[k + 1..]))
  }

  function Lines(s: seq<char>): seq<seq<char>>
    decreases |s|
  {
    match FirstLine(s)
    case None => []
    case Some((line, rest)) => [line] + Lines(rest)
  }

  // ---------------------------------------------------------------- an independent account of the lines

  /** `s[i..j]` is a non-empty maximal run without line ends that a line end follows. */
  predicate IsLine(s: seq<char>, i: nat, j: nat) {
    && i < j < |s|
    && (forall k | i <= k < j :: s[k] != '\r' && s[k] != '\n')
    && (s[j] == '\r' || s[j] == '\n')
    && (i > 0 ==> s[i - 1] == '\r' || s[i - 1] == '\n')
  }

  /** Where the lines are, from position `at` on. */
  function Spans(s: seq<char>, at: nat): seq<(nat, nat)>
    requires at <= |s|
    decreases |s| - at
  {
    var i, j := SpanStart(s, at), SpanEnd(s, at);
    if j == |s| then [] else [(i, j)] + Spans(s, j + 1)
  }

  lemma {:induction false} EolRunIs(s: seq<char>)
    ensures AllEol(s[..EolRun(s)])
    ensures EolRun(s) < |s| ==> !IsEol(s[EolRun(s)])
  {
    if s != [] && IsEol(s[0]) {
      EolRunIs(s[1..]);
      assert forall i | 0 < i < |s| :: s[i] == s[1..][i - 1];
    }
  }

  lemma {:induction false} FirstEolIs(s: seq<char>)
    ensures EolFree(s[..FirstEol(s)])
    ensures FirstEol(s) < |s| ==> IsEol(s[FirstEol(s)])
  {
    if s != [] && !IsEol(s[0]) {
      FirstEolIs(s[1..]);
      assert forall i | 0 < i < |s| :: s[i] == s[1..][i - 1];
    }
  }

  lemma {:induction false} EolRunOf(skip: seq<char>, t: seq<char>)
    requires AllEol(skip) && (t != [] ==> !IsEol(t[0]))
    ensures EolRun(skip + t) == |skip|
  {
    if skip == [] {
      assert skip + t == t;
    } else {
      assert (skip + t)[1..] == skip[1..] + t;
      EolRunOf(skip[1..], t);
    }
  }

  lemma {:induction false} FirstEolOf(line: seq<char>, t: seq<char>)
    requires EolFree(line) && (t != [] ==> IsEol(t[0]))
    ensures FirstEol(line + t) == |line|
  {
    if line == [] {
      assert line + t == t;
    } else {
      assert (line + t)[1..] == line[1..] + t;
      FirstEolOf(line[1..], t);
    }
  }

  /** The only decomposition of a stream into line ends, a line, its terminator and a rest is the first line. */
  lemma {:induction false} FirstLineIs(skip: seq<char>, line: seq<char>, eol: char, rest: seq<char>)
    requires AllEol(skip) && EolFree(line) && line != [] && IsEol(eol)
    ensures FirstLine(skip + (line + ([eol] + rest))) == Some((line, rest))
    ensures EolRun(skip + (line + ([eol] + rest))) == |skip|
  {
    var v := line + ([eol] + rest);
    EolRunOf(skip, v);
    FirstEolOf(line, [eol] + rest);
    assert (skip + v)[|skip|..] == v;
    assert v[..|line|] == line && v[|line| + 1..] == rest;
  }

  lemma FirstLineParts(s: seq<char>) returns (skip: seq<char>, eol: char)
    requires FirstLine(s).Some?
    ensures AllEol(skip) && |skip| == EolRun(s) && IsEol(eol)
    ensures EolFree(FirstLine(s).value.0) && FirstLine(s).value.0 != []
    ensures s == skip + (FirstLine(s).value.0 + ([eol] + FirstLine(s).value.1))
  {
    var r := EolRun(s);
    var v := s[r..];
    var k := FirstEol(v);
    EolRunIs(s);
    FirstEolIs(v);
    skip, eol := s[..r], v[k];
    assert k > 0 by {
      assert v[0] == s[r];
    }
    assert v == v[..k] + ([eol] + v[k + 1..]);
    assert s == skip + v;
  }

  // ---------------------------------------------------------------- what the buffer can take

  /** The SMS prompt, which the reader takes for a line as soon as it is all there is in the buffer. */
  predicate Prompts(line: seq<char>) {
    |line| >= 2 && line[0] == '>' && line[1] == ' '
  }

  /** The first line, with the line ends before it and its terminator, fits into the buffer. */
  predicate Fits(s: seq<char>) {
    FirstLine(s).Some? && EolRun(s) + |FirstLine(s).value.0| + 1 <= MAX_AT_RESPONSE
  }

  predicate NoPromptIn(s: seq<char>) {
    forall i | 0 <= i < |s| - 1 :: s[i] != '>' || s[i + 1] != ' '
  }

  /**
    Every line fits and none looks like the prompt. An unterminated remainder may have any length if the prompt
    does not occur in it, since the buffer is ditched anywhere; a short one only must not look like the prompt.
   */
  predicate Readable(s: seq<char>)
    decreases |s|
  {
    match FirstLine(s)
    case Some((line, rest)) => Fits(s) && !Prompts(line) && Readable(rest)
    case None => NoPromptIn(s) || (|s| < MAX_AT_RESPONSE && !Prompts(s[EolRun(s)..]))
  }

  lemma NoPromptInParts(skip: seq<char>, line: seq<char>, eol: char, rest: seq<char>)
    requires NoPromptIn(skip + (line + ([eol] + rest)))
    ensures NoPromptIn(line) && NoPromptIn(rest) && !Prompts(line)
  {
    var s, a, b := skip + (line + ([eol] + rest)), |skip|, |skip| + |line| + 1;
    assert forall i | 0 <= i < |line| :: s[a + i] == line[i];
    assert forall i | 0 <= i < |rest| :: s[b + i] == rest[i];
    forall i | 0 <= i < |line| - 1 ensures line[i] != '>' || line[i + 1] != ' ' {
      assert s[a + i] != '>' || s[a + i + 1] != ' ';
    }
    forall i | 0 <= i < |rest| - 1 ensures rest[i] != '>' || rest[i + 1] != ' ' {
      assert s[b + i] != '>' || s[b + i + 1] != ' ';
    }
  }

  /** Any stream that is shorter than the buffer and in which the prompt does not occur can be read. */
  lemma {:induction false} ShortIsReadable(s: seq<char>)
    requires |s| < MAX_AT_RESPONSE && NoPromptIn(s)
    ensures Readable(s)
    decreases |s|
  {
    if FirstLine(s).Some? {
      var skip, eol := FirstLineParts(s);
      var line, rest := FirstLine(s).value.0, FirstLine(s).value.1;
      NoPromptInParts(skip, line, eol, rest);
      assert |s| == |skip| + |line| + 1 + |rest|;
      ShortIsReadable(rest);
    }
  }

  lemma {:induction false} EolRunAtLeast(skip: seq<char>, t: seq<char>)
    requires AllEol(skip)
    ensures EolRun(skip + t) == |skip| + EolRun(t)
  {
    if skip == [] {
      assert skip + t == t;
    } else {
      assert (skip + t)[1..] == skip[1..] + t;
      EolRunAtLeast(skip[1..], t);
    }
  }

  lemma {:induction false} FirstEolAtLeast(text: seq<char>, t: seq<char>)
    requires EolFree(text)
    ensures FirstEol(text + t) == |text| + FirstEol(t)
  {
    if text == [] {
      assert text + t == t;
    } else {
      assert (text + t)[1..] == text[1..] + t;
      FirstEolAtLeast(text[1..], t);
    }
  }

  /** A buffer's worth of line ends and then no line end at all is the beginning of something that does not fit. */
  lemma TooMuch(skip: seq<char>, text: seq<char>, t: seq<char>)
    requires AllEol(skip) && EolFree(text) && |skip| + |text| >= MAX_AT_RESPONSE
    ensures !Fits(skip + (text + t))
  {
    var s := skip + (text + t);
    EolRunAtLeast(skip, text + t);
    FirstEolAtLeast(text, t);
    if text != [] {
      EolRunOf([], text + t);
      assert [] + (text + t) == text + t;
      assert s[EolRun(s)..] == text + t;
    }
    if FirstLine(s).Some? {
      var skip', eol := FirstLineParts(s);
    }
  }

  /** Line ends and then an unterminated remainder hold no line. */
  lemma NoLineIn(skip: seq<char>, text: seq<char>)
    requires AllEol(skip) && EolFree(text)
    ensures FirstLine(skip + text) == None
  {
    EolRunOf(skip, text);
    FirstEolOf(text, []);
    assert text + [] == text;
    assert (skip + text)[|skip|..] == text;
  }

  lemma PromptIsNotReadable(lost: seq<char>, t: seq<char>)
    requires var u := lost + ("> " + t); Fits(u) || |u| < MAX_AT_RESPONSE ==> AllEol(lost)
    ensures !Readable(lost + ("> " + t))
  {
    var u, v := lost + ("> " + t), "> " + t;
    assert u[|lost|] == '>' && u[|lost| + 1] == ' ';
    if AllEol(lost) {
      EolRunOf(lost, v);
      assert u[|lost|..] == v;
      FirstEolAtLeast("> ", t);
    }
  }

  /** Without a complete line there is no line end that follows anything else. */
  lemma NoSplit(u: seq<char>, lost: seq<char>, line: seq<char>, rest: seq<char>)
    requires line != [] && EolFree(line) && rest != [] && IsEol(rest[0]) && u == lost + (line + rest)
    ensures FirstLine(u).Some?
  {
    var r, p := EolRun(u), |lost| + |line|;
    var v := u[r..];
    EolRunIs(u);
    FirstEolIs(v);
    assert forall i | 0 <= i < r :: u[i] == u[..r][i];
    assert forall i | 0 <= i < FirstEol(v) :: v[i] == v[..FirstEol(v)][i];
    assert u[p] == rest[0] && u[p - 1] == line[|line| - 1];
    assert v[p - r] == u[p];
  }

  // ---------------------------------------------------------------- Lines against the independent account

  /** Positions count as the start of a stretch when nothing of a line lies directly before them. */
  predicate Fresh(s: seq<char>, at: nat) {
    at <= |s| && (at > 0 ==> IsEol(s[at - 1]))
  }

  function SpanStart(s: seq<char>, at: nat): (i: nat)
    requires at <= |s|
    ensures at <= i <= |s|
    decreases |s| - at
  {
    if at < |s| && IsEol(s[at]) then SpanStart(s, at + 1) else at
  }

  function StretchEnd(s: seq<char>, i: nat): (j: nat)
    requires i <= |s|
    ensures i <= j <= |s|
    decreases |s| - i
  {
    if i < |s| && !IsEol(s[i]) then StretchEnd(s, i + 1) else i
  }

  function SpanEnd(s: seq<char>, at: nat): (j: nat)
    requires at <= |s|
    ensures SpanStart(s, at) <= j <= |s|
  {
    StretchEnd(s, SpanStart(s, at))
  }

  lemma {:induction false} SpanStartIs(s: seq<char>, at: nat)
    requires at <= |s|
    ensures SpanStart(s, at) == at + EolRun(s[at..])
    ensures forall n | at <= n < SpanStart(s, at) :: IsEol(s[n])
    ensures SpanStart(s, at) < |s| ==> !IsEol(s[SpanStart(s, at)])
    decreases |s| - at
  {
    if at < |s| && IsEol(s[at]) {
      assert s[at..][1..] == s[at + 1..];
      SpanStartIs(s, at + 1);
    }
  }

  lemma {:induction false} StretchEndIs(s: seq<char>, i: nat)
    requires i <= |s|
    ensures StretchEnd(s, i) == i + FirstEol(s[i..])
    ensures forall n | i <= n < StretchEnd(s, i) :: !IsEol(s[n])
    ensures StretchEnd(s, i) < |s| ==> IsEol(s[StretchEnd(s, i)])
    decreases |s| - i
  {
    if i < |s| && !IsEol(s[i]) {
      assert s[i..][1..] == s[i + 1..];
      StretchEndIs(s, i + 1);
    }
  }

  lemma Slices(s: seq<char>, at: nat, i: nat, j: nat)
    requires at <= i <= j < |s|
    ensures s[i..][..j - i] == s[i..j] && s[i..][j - i + 1..] == s[j + 1..]
  {}

  lemma DropMore(s: seq<char>, at: nat, i: nat)
    requires at <= i <= |s|
    ensures s[at..][i - at..] == s[i..]
  {}

  lemma FirstLineAt(s: seq<char>, at: nat, t: seq<char>)
    requires at <= |s| && t == s[at..]
    ensures SpanEnd(s, at) == |s| ==> FirstLine(t) == None
    ensures SpanEnd(s, at) < |s| ==>
      FirstLine(t) == Some((s[SpanStart(s, at)..SpanEnd(s, at)], s[SpanEnd(s, at) + 1..]))
  {
    var i, j := SpanStart(s, at), SpanEnd(s, at);
    SpanStartIs(s, at);
    StretchEndIs(s, i);
    DropMore(s, at, i);
    if j < |s| {
      Slices(s, at, i, j);
    }
  }

  /** The stretches of a stream, from position `at` on, cut out. */
  function CutOut(s: seq<char>, at: nat): seq<seq<char>>
    requires at <= |s|
    decreases |s| - at
  {
    var i, j := SpanStart(s, at), SpanEnd(s, at);
    if j == |s| then [] else [s[i..j]] + CutOut(s, j + 1)
  }

  lemma {:induction false} CutOutIsSpans(s: seq<char>, at: nat)
    requires at <= |s|
    ensures |CutOut(s, at)| == |Spans(s, at)|
    ensures forall n | 0 <= n < |Spans(s, at)| :: Spans(s, at)[n].0 <= Spans(s, at)[n].1 <= |s|
    ensures forall n | 0 <= n < |Spans(s, at)| :: CutOut(s, at)[n] == s[Spans(s, at)[n].0..Spans(s, at)[n].1]
    decreases |s| - at
  {
    if SpanEnd(s, at) < |s| {
      CutOutIsSpans(s, SpanEnd(s, at) + 1);
    }
  }

  lemma LinesStep(s: seq<char>, at: nat, t: seq<char>) returns (rest: seq<char>)
    requires at <= |s| && t == s[at..]
    ensures SpanEnd(s, at) == |s| ==> Lines(t) == []
    ensures SpanEnd(s, at) < |s| ==>
      rest == s[SpanEnd(s, at) + 1..] && Lines(t) == [s[SpanStart(s, at)..SpanEnd(s, at)]] + Lines(rest)
  {
    FirstLineAt(s, at, t);
    rest := if SpanEnd(s, at) < |s| then s[SpanEnd(s, at) + 1..] else [];
  }

  lemma {:induction false} LinesAreCutOut(s: seq<char>, at: nat, t: seq<char>)
    requires at <= |s| && t == s[at..]
    ensures Lines(t) == CutOut(s, at)
    decreases |s| - at
  {
    var rest := LinesStep(s, at, t);
    if SpanEnd(s, at) < |s| {
      LinesAreCutOut(s, SpanEnd(s, at) + 1, rest);
    }
  }

  /** The lines of a stream are what stands in its spans. */
  lemma LinesAreSpans(s: seq<char>)
    ensures |Lines(s)| == |Spans(s, 0)|
    ensures forall n | 0 <= n < |Spans(s, 0)| :: Spans(s, 0)[n].0 <= Spans(s, 0)[n].1 <= |s|
    ensures forall n | 0 <= n < |Spans(s, 0)| :: Lines(s)[n] == s[Spans(s, 0)[n].0..Spans(s, 0)[n].1]
  {
    assert s[0..] == s;
    LinesAreCutOut(s, 0, s);
    CutOutIsSpans(s, 0);
  }

  /** Each span ends before the next one begins. */
  lemma {:induction false} SpansInOrder(s: seq<char>, at: nat, n: nat)
    requires Fresh(s, at) && n + 1 < |Spans(s, at)|
    ensures Spans(s, at)[n].1 < Spans(s, at)[n + 1].0
    decreases |s| - at
  {
    var j := SpanEnd(s, at);
    var rest := Spans(s, j + 1);
    SpanIsLine(s, at);
    if n > 0 {
      SpansInOrder(s, j + 1, n - 1);
    } else {
      assert rest[0] == (SpanStart(s, j + 1), SpanEnd(s, j + 1));
    }
  }

  /** A span is exactly a non-empty maximal run without line ends that a line end follows. */
  lemma {:induction false} SpansAreLines(s: seq<char>, at: nat, i: nat, j: nat)
    requires Fresh(s, at)
    ensures (i, j) in Spans(s, at) <==> i >= at && IsLine(s, i, j)
    decreases |s| - at
  {
    var i0, j0 := SpanStart(s, at), SpanEnd(s, at);
    SpanIsLine(s, at);
    if i >= at && IsLine(s, i, j) && i <= j0 {
      OnlyLine(s, at, i, j);
    }
    if j0 < |s| {
      SpansAreLines(s, j0 + 1, i, j);
      assert Spans(s, at) == [(i0, j0)] + Spans(s, j0 + 1);
    }
  }

  lemma SpanIsLine(s: seq<char>, at: nat)
    requires Fresh(s, at)
    ensures forall n | at <= n < SpanStart(s, at) :: IsEol(s[n])
    ensures forall n | SpanStart(s, at) <= n < SpanEnd(s, at) :: !IsEol(s[n])
    ensures SpanEnd(s, at) < |s| ==> IsLine(s, SpanStart(s, at), SpanEnd(s, at))
  {
    SpanStartIs(s, at);
    StretchEndIs(s, SpanStart(s, at));
  }

  /** No other line begins between the end of the line before and the end of this one. */
  lemma OnlyLine(s: seq<char>, at: nat, i: nat, j: nat)
    requires Fresh(s, at) && IsLine(s, i, j) && at <= i <= SpanEnd(s, at)
    ensures i == SpanStart(s, at) && j == SpanEnd(s, at) && j < |s|
  {
    var i0, j0 := SpanStart(s, at), SpanEnd(s, at);
    SpanIsLine(s, at);
    assert !IsEol(s[i]) && forall n | i <= n < j :: !IsEol(s[n]);
  }
}
