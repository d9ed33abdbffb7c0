/** The buffered line reader of the AT channel: one NUL-terminated buffer, compacted and overwritten in place. */
module LineReaders {
  import opened CStrings
  import opened Options
  import opened ByteSources
  import opened LineSplitter

  predicate NulFree(s: seq<char>) {
    forall i | 0 <= i < |s| :: s[i] != NUL
  }

  lemma NulFreeParts(a: seq<char>, b: seq<char>)
    requires NulFree(a + b)
    ensures NulFree(a) && NulFree(b)
  {
    assert forall i | 0 <= i < |a| :: (a + b)[i] == a[i];
    assert forall i | 0 <= i < |b| :: (a + b)[|a| + i] == b[i];
  }

  lemma TakeAndDrop(all: seq<char>, a: seq<char>, b: seq<char>)
    requires all == a + b
    ensures |a| <= |all| && all[..|a|] == a && all[|a|..] == b
  {}

  class LineReader {
    const fd: Source<char>
    const buf: array<char>
    var cur: nat
    /** Where the unconsumed text ends; there is a NUL. */
    ghost var end: nat

    ghost predicate Valid()
      reads this, buf, fd
    {
      && buf.Length == MAX_AT_RESPONSE + 1
      && cur <= end <= MAX_AT_RESPONSE && buf[end] == NUL
      && NulFree(Text()) && NulFree(fd.data)
    }

    /** What is in the buffer and has not been consumed. */
    ghost function Text(): seq<char>
      reads this, buf
      requires cur <= end <= buf.Length
    {
      buf[cur..end]
    }

    ghost function Unread(): seq<char>
      reads this, buf, fd
      requires cur <= end <= buf.Length
    {
      Text() + fd.data
    }

    /** A static buffer starts out cleared. */
    constructor (fd: Source<char>)
      requires NulFree(fd.data)
      ensures Valid() && this.fd == fd && Unread() == fd.data && fresh(buf) && cur == end == 0 && buf.Length == 8193
    {
      this.fd := fd;
      buf := new char[MAX_AT_RESPONSE + 1](_ => NUL);
      cur, end := 0, 0;
    }

    /** Ditches the buffer. */
    method Reset()
      requires Valid()
      modifies this, buf
      ensures Valid() && cur == end == 0
      ensures forall i | 0 < i < buf.Length :: buf[i] == old(buf[i])
    {
      cur := 0;
      buf[cur] := NUL;
      end := 0;
    }

    /** Moves the cursor past the line ends it stands on. */
    method SkipNewlines() returns (ghost skipped: seq<char>)
      requires Valid()
      modifies this`cur
      ensures Valid() && old(Text()) == skipped + Text() && AllEol(skipped) && cur == old(cur) + |skipped|
      ensures !IsEol(buf[cur])
    {
      skipped := [];
      ghost var text := Text();
      while buf[cur] == '\r' || buf[cur] == '\n'
        invariant Valid() && text == skipped + Text() && AllEol(skipped) && cur == old(cur) + |skipped|
        decreases end - cur
      {
        skipped := skipped + [buf[cur]];
        cur := cur + 1;
      }
    }

    /** `p` is where the text must be cut: after the prompt, or at its first line end. */
    ghost predicate Found(p: nat)
      reads this, buf
      requires cur <= end < buf.Length
    {
      if Text() == "> " then p == end else cur < p < end && IsEol(buf[p]) && EolFree(buf[cur..p])
    }

    lemma OnlyNulIsEnd(p: nat)
      requires Valid() && cur <= p <= end
      ensures buf[p] == NUL <==> p == end
    {
      assert p < end ==> Text()[p - cur] == buf[p];
    }

    /**
      `findNextEOL` at `cur`: the end of the SMS prompt if the buffer holds just that, otherwise the first line
      end before the terminating NUL.
     */
    method FindNextEol() returns (r: Option<nat>)
      requires Valid() && !IsEol(buf[cur])
      ensures r.None? ==> EolFree(Text()) && Text() != "> "
      ensures r.Some? ==> Found(r.value)
    {
      assert |Text()| == 2 ==> Text() == [buf[cur], buf[cur + 1]];
      OnlyNulIsEnd(cur);
      if buf[cur] == '>' && buf[cur + 1] == ' ' && buf[cur + 2] == NUL {
        OnlyNulIsEnd(cur + 1);
        OnlyNulIsEnd(cur + 2);
        return Some(cur + 2);
      }
      var p := cur;
      while buf[p] != NUL && buf[p] != '\r' && buf[p] != '\n'
        invariant cur <= p <= end && EolFree(buf[cur..p])
        decreases end - p
      {
        p := p + 1;
      }
      OnlyNulIsEnd(p);
      return if buf[p] == NUL then None else Some(p);
    }

    /** `strlen(s_ATBufferCur)`. */
    method Strlen() returns (len: nat)
      requires Valid()
      ensures len == end - cur
    {
      len := 0;
      while buf[cur + len] != NUL
        invariant cur + len <= end
        decreases end - cur - len
      {
        len := len + 1;
      }
    }

    /** A partial line is moved up, its NUL included. */
    method MoveUp(len: nat)
      requires Valid() && len == end - cur
      modifies this, buf
      ensures Valid() && cur == 0 && end == len && Text() == old(Text())
    {
      ghost var text := Text();
      forall i | 0 <= i < len + 1 {
        buf[i] := buf[cur + i];
      }
      cur := 0;
      end := len;
      assert Text() == text;
    }

    /** What `read` has stored at the end of the text, and the NUL after it. */
    method Store(pRead: nat, bytes: seq<char>)
      requires Valid() && pRead == end && end + |bytes| <= MAX_AT_RESPONSE && NulFree(bytes)
      modifies buf, this`end
      ensures Valid() && end == old(end) + |bytes| && Text() == old(Text()) + bytes
      ensures forall i | end < i < buf.Length :: buf[i] == old(buf[i])
    {
      ghost var text := Text();
      forall i | 0 <= i < |bytes| {
        buf[pRead + i] := bytes[i];
      }
      buf[pRead + |bytes|] := NUL;
      end := end + |bytes|;
      assert Text() == text + bytes;
    }

    /** One more piece of the stream; interruptions are retried. */
    method ReadPiece(pRead: nat) returns (count: nat, ghost piece: seq<char>, ghost eof: bool)
      requires Valid() && pRead == end < MAX_AT_RESPONSE
      modifies buf, this`end, fd
      ensures Valid() && cur == old(cur) && end == old(end) + count && Text() == old(Text()) + piece && count == |piece|
      ensures old(fd.data) == piece + fd.data
      ensures count == 0 && eof ==> fd.data == []
      ensures count == 0 && !eof ==> fd.mayFail
      ensures fd.failures == old(fd.failures) + if count == 0 && !eof then 1 else 0
      ensures fd.ends == old(fd.ends) + if count == 0 && eof then 1 else 0
      ensures count > 0 ==> |fd.data| < old(|fd.data|)
    {
      count, piece, eof := 0, [], false;
      ghost var all := fd.data;
      var r := fd.Read(MAX_AT_RESPONSE - pRead);
      while r.Interrupted?
        modifies fd
        invariant all == (if r.Data? then r.bytes else []) + fd.data
        invariant r.Data? ==> 0 < |r.bytes| <= MAX_AT_RESPONSE - pRead
        invariant r.Eof? ==> fd.data == []
        invariant r.Failed? ==> fd.mayFail
        invariant fd.failures == old(fd.failures) + if r.Failed? then 1 else 0
        invariant fd.ends == old(fd.ends) + if r.Eof? then 1 else 0
        decreases r.Interrupted?, fd.stalls
      {
        r := fd.Read(MAX_AT_RESPONSE - pRead);
      }
      NulFreeParts(if r.Data? then r.bytes else [], fd.data);
      assert Text() + [] == Text();
      match r
      case Data(bytes) =>
        Store(pRead, bytes);
        count, piece := |bytes|, bytes;
      case Eof => eof := true;
      case Failed =>
    }

    /**
      Of `all` that was unread, `lost` has been dropped: only line ends unless the buffer was ditched, and then
      `all` did not fit.
     */
    ghost predicate Dropped(all: seq<char>, lost: seq<char>, ditched: bool)
      reads this, buf, fd
      requires cur <= end <= buf.Length
    {
      all == lost + Unread() && (if ditched then !Fits(all) && |all| >= MAX_AT_RESPONSE else AllEol(lost))
    }

    /** The loop of readline: reads until the text can be cut. */
    method Fill(pRead0: nat, ghost all: seq<char>, ghost lost0: seq<char>)
      returns (pEol: Option<nat>, ghost lost: seq<char>, ghost ditched: bool, ghost eof: bool)
      requires Valid() && Dropped(all, lost0, false) && cur == 0 && pRead0 == end && EolFree(Text())
      requires Text() != "> "
      modifies this, buf, fd
      ensures Valid() && Dropped(all, lost, ditched)
      ensures pEol.Some? ==> Found(pEol.value)
      ensures pEol.None? ==> EolFree(Text()) && if eof then fd.data == [] else fd.mayFail
      ensures pEol.None? ==> Text() != "> "
      ensures fd.failures == old(fd.failures) + if pEol.None? && !eof then 1 else 0
      ensures fd.ends == old(fd.ends) + if pEol.None? && eof then 1 else 0
    {
      var pRead := pRead0;
      pEol, lost, ditched, eof := None, lost0, false, false;
      while pEol == None
        invariant Valid() && Dropped(all, lost, ditched)
        invariant pEol.None? ==> Text() != "> "
        invariant fd.failures == old(fd.failures) && fd.ends == old(fd.ends)
        invariant if pEol.Some? then Found(pEol.value) else pRead == end && |lost| >= cur && EolFree(Text())
        decreases pEol == None, |fd.data|
      {
        if MAX_AT_RESPONSE - pRead == 0 {
          lost := Ditch(all, lost, ditched);
          ditched := true;
          pRead := 0;
        }
        var count: nat;
        count, lost, eof := Extend(pRead, all, lost, ditched);
        if count == 0 {
          return;
        }
        pEol := FindNextEol();
        pRead := pRead + count;
      }
    }

    /** A full buffer without a line end is given up. */
    method Ditch(ghost all: seq<char>, ghost lost: seq<char>, ghost ditched: bool) returns (ghost lost': seq<char>)
      requires Valid() && Dropped(all, lost, ditched) && end == MAX_AT_RESPONSE && |lost| >= cur && EolFree(Text())
      modifies this, buf
      ensures Valid() && Dropped(all, lost', true) && cur == end == 0
    {
      if !ditched {
        TooMuch(lost, Text(), fd.data);
        assert all == lost + (Text() + fd.data);
      }
      lost' := lost + Text();
      assert all == lost' + ([] + fd.data);
      Reset();
    }

    /** One more piece, then the leading newlines are skipped. */
    method Extend(pRead: nat, ghost all: seq<char>, ghost lost: seq<char>, ghost ditched: bool)
      returns (count: nat, ghost lost': seq<char>, ghost eof: bool)
      requires Valid() && Dropped(all, lost, ditched) && pRead == end < MAX_AT_RESPONSE && |lost| >= cur
      requires EolFree(Text())
      modifies buf, this`cur, this`end, fd
      ensures Valid() && Dropped(all, lost', ditched) && end == pRead + count && |lost'| >= cur
      ensures count > 0 ==> !IsEol(buf[cur])
      ensures count == 0 ==> Text() == old(Text())
      ensures fd.failures == old(fd.failures) + if count == 0 && !eof then 1 else 0
      ensures fd.ends == old(fd.ends) + if count == 0 && eof then 1 else 0
      ensures count == 0 ==> EolFree(Text()) && if eof then fd.data == [] else fd.mayFail
      ensures count > 0 ==> |fd.data| < old(|fd.data|)
    {
      ghost var text, piece := Text(), [];
      count, piece, eof := ReadPiece(pRead);
      lost' := lost;
      assert all == lost + Unread() by {
        assert lost + (text + (piece + fd.data)) == lost + ((text + piece) + fd.data);
      }
      if count > 0 {
        ghost var longer := Text();
        ghost var skipped := SkipNewlines();
        lost' := lost + skipped;
        assert lost + ((skipped + Text()) + fd.data) == lost' + (Text() + fd.data);
      }
    }

    /** `u` is what a terminated line, its terminator and the rest are together. */
    static predicate Splits(u: seq<char>, line: seq<char>, rest: seq<char>) {
      line != [] && EolFree(line) && |line| + 1 + |rest| == |u| && IsEol(u[|line|]) && u == line + ([u[|line|]] + rest)
    }

    /** Cuts the text at `p`; a prompt leaves the cursor one past the NUL that ends the text. */
    method Cut(p: nat) returns (ret: nat)
      requires Valid() && Found(p)
      modifies this`cur, buf
      ensures ret == old(cur) && cur == p + 1 && buf[p] == NUL && buf[ret..p] == old(buf[cur..p])
      ensures forall i | 0 <= i < buf.Length && i != p :: buf[i] == old(buf[i])
      ensures cur <= end <==> old(Text()) != "> "
      ensures cur == buf.Length <==> old(Text()) == "> " && end == MAX_AT_RESPONSE
      ensures old(Text()) != "> " ==> Valid() && Splits(old(Unread()), buf[ret..p], Unread())
    {
      ghost var text, u := Text(), Unread();
      ret := cur;
      ghost var line, eol, rest := buf[cur..p], buf[p], if p < end then buf[p + 1..end] else [];
      buf[p] := NUL;
      cur := p + 1;
      if text != "> " {
        assert text == line + ([eol] + rest);
        assert u == line + ([eol] + (rest + fd.data));
      }
    }

    /** The first half of readline: makes sure, if it can, that there is a line or a prompt at the cursor. */
    method Find() returns (pEol: Option<nat>, ghost lost: seq<char>, ghost eof: bool)
      requires Valid()
      modifies this, buf, fd
      ensures Valid() && old(Unread()) == lost + Unread()
      ensures Fits(old(Unread())) || |old(Unread())| < MAX_AT_RESPONSE ==> AllEol(lost)
      ensures pEol.Some? ==> Found(pEol.value)
      ensures pEol.None? ==> EolFree(Text()) && if eof then fd.data == [] else fd.mayFail
      ensures pEol.None? ==> Text() != "> "
      ensures fd.failures == old(fd.failures) + if pEol.None? && !eof then 1 else 0
      ensures fd.ends == old(fd.ends) + if pEol.None? && eof then 1 else 0
    {
      ghost var all, ditched := Unread(), false;
      lost, eof := [], false;
      if buf[cur] == NUL {
        assert Unread() == fd.data;
        Reset();
        pEol, lost, ditched, eof := Fill(0, all, lost);
      } else {
        lost := SkipNewlines();
        assert all == lost + Unread();
        pEol := FindNextEol();
        if pEol == None {
          var len := Strlen();
          MoveUp(len);
          pEol, lost, ditched, eof := Fill(len, all, lost);
        }
      }
    }

    /** The second half of readline: the text is cut and what was cut off is returned. */
    method TakeLine(p: nat) returns (ret: nat, ghost prompt: bool)
      requires Valid() && Found(p)
      modifies this`cur, this`end, buf
      ensures ret < cur <= buf.Length && buf[cur - 1] == NUL && (prompt <==> old(Text()) == "> ")
      ensures cur == buf.Length <==> prompt && ret == MAX_AT_RESPONSE - 2
      ensures !prompt ==> Valid() && Splits(old(Unread()), buf[ret..cur - 1], Unread())
      ensures prompt ==> buf[ret..cur - 1] == "> " && old(Unread()) == "> " + fd.data
      ensures prompt && cur < buf.Length && buf[cur] == NUL ==> end == cur && Valid() && Unread() == fd.data
    {
      prompt := Text() == "> ";
      assert prompt ==> Unread() == "> " + fd.data;
      ret := Cut(p);
      if prompt && cur < buf.Length && buf[cur] == NUL {
        end := cur;
      }
    }

    /**
      `readline`. Of what was unread, `lost` is dropped without ever being returned. Returns where the line starts
      in the buffer, or none at the end of the stream (`eof`) or on an error.
     */
    method ReadLine() returns (ret: Option<nat>, ghost lost: seq<char>, ghost prompt: bool, ghost eof: bool)
      requires Valid()
      modifies this, buf, fd
      ensures |lost| <= |old(Unread())| && lost == old(Unread())[..|lost|]
      ensures Fits(old(Unread())) || |old(Unread())| < MAX_AT_RESPONSE ==> AllEol(lost)
      ensures ret.None? ==> Valid() && old(Unread()) == lost + Unread() && EolFree(Text())
      ensures ret.None? ==> Text() != "> " && if eof then fd.data == [] else fd.mayFail
      ensures fd.failures == old(fd.failures) + if ret.None? && !eof then 1 else 0
      ensures fd.ends == old(fd.ends) + if ret.None? && eof then 1 else 0
      ensures ret.Some? ==> ret.value < cur <= buf.Length && buf[cur - 1] == NUL
      ensures ret.Some? ==> (cur == buf.Length <==> prompt && ret.value == MAX_AT_RESPONSE - 2)
      ensures ret.Some? && !prompt ==> Valid() && Splits(old(Unread())[|lost|..], buf[ret.value..cur - 1], Unread())
      ensures prompt ==> ret.Some? && buf[ret.value..cur - 1] == "> " && old(Unread()) == lost + ("> " + fd.data)
      ensures prompt && cur < buf.Length && buf[cur] == NUL ==> end == cur && Valid() && Unread() == fd.data
    {
      ghost var all := Unread();
      var pEol: Option<nat>;
      pEol, lost, eof := Find();
      prompt := false;
      TakeAndDrop(all, lost, Unread());
      if pEol == None {
        return None, lost, prompt, eof;
      }
      var start;
      start, prompt := TakeLine(pEol.value);
      ret := Some(start);
    }
  }

  // ---------------------------------------------------------------- the prompt

  lemma NothingBeforePrompt(lost: seq<char>, rest: seq<char>)
    requires AllEol(lost) && lost + rest == "> "
    ensures lost == [] && rest == "> "
  {
    assert forall i | 0 <= i < |lost| :: (lost + rest)[i] == lost[i];
    assert (lost + rest)[0] == '>';
    assert [] + rest == rest;
  }

  /** When the prompt is all that is left of a stream, it is returned, however it arrives. */
  method ReadPrompt(r: LineReader) returns (ret: Option<nat>, ghost prompt: bool)
    requires r.Valid() && r.Unread() == "> " && !r.fd.mayFail
    modifies r, r.buf, r.fd
    ensures ret.Some? && prompt && ret.value < r.cur <= r.buf.Length
    ensures r.fd.data == [] && r.buf[ret.value..r.cur - 1] == "> "
  {
    ghost var all := r.Unread();
    ghost var lost, eof;
    ret, lost, prompt, eof := r.ReadLine();
    NothingBeforePrompt(lost, all[|lost|..]);
    assert prompt ==> |lost + ("> " + r.fd.data)| == 2 + |r.fd.data|;
  }

  /** What stands in the buffer when pieces have been stored at its front, and what the search makes of it. */
  method StoreAndFind(r: LineReader, piece: seq<char>, p: nat) returns (found: Option<nat>)
    requires r.Valid() && r.cur == r.end == 0 && NulFree(piece) && 0 < |piece| <= MAX_AT_RESPONSE && !IsEol(piece[0])
    requires if piece == "> " then p == 2 else 0 < p < |piece| && IsEol(piece[p]) && EolFree(piece[..p])
    modifies r.buf, r`end
    ensures r.Valid() && r.cur == 0 && r.end == |piece| && r.Text() == piece && found == Some(p)
    ensures r.Found(p) && forall i | r.end < i < r.buf.Length :: r.buf[i] == old(r.buf[i])
  {
    assert r.Text() + piece == piece;
    r.Store(0, piece);
    assert r.Text()[0] == r.buf[0];
    found := r.FindNextEol();
    OneCut(r, piece, p, found);
  }

  lemma OneCut(r: LineReader, piece: seq<char>, p: nat, found: Option<nat>)
    requires r.Valid() && r.cur == 0 && r.end == |piece| && r.Text() == piece
    requires if piece == "> " then p == 2 else 0 < p < |piece| && IsEol(piece[p]) && EolFree(piece[..p])
    requires found.None? ==> EolFree(piece) && piece != "> "
    requires found.Some? ==> r.Found(found.value)
    ensures found == Some(p)
  {
    if piece != "> " {
      assert !EolFree(piece);
      var q := found.value;
      assert r.buf[q] == piece[q];
      assert forall i | 0 <= i < q :: r.buf[0..q][i] == piece[i];
      assert forall i | 0 <= i < p :: piece[..p][i] == piece[i];
    }
  }

  /**
    A longer line and then the prompt, each read in one piece: the cursor ends on what is left of the line, which
    the next call takes for new text.
   */
  method StaleAfterPrompt() returns (r: LineReader)
    ensures r.buf.Length == MAX_AT_RESPONSE + 1 && r.cur == 3
    ensures r.buf[3] == 'D' && r.buf[4] == 'E' && r.buf[5] == NUL
  {
    var fd := new Source<char>("", 0, false);
    r := new LineReader(fd);
    var line := "ABCDE\r";
    var p := StoreAndFind(r, line, 5);
    assert r.buf[3] == r.Text()[3] && r.buf[4] == r.Text()[4];
    var ret := r.Cut(5);
    r.Reset();
    p := StoreAndFind(r, "> ", 2);
    ret := r.Cut(2);
  }

  /** A piece that fills the buffer and ends with the prompt: the cursor ends outside the buffer. */
  method PromptAtTheEnd() returns (r: LineReader)
    ensures r.cur == r.buf.Length
  {
    var fd := new Source<char>("", 0, false);
    r := new LineReader(fd);
    var n := MAX_AT_RESPONSE - 3;
    var piece := seq(n, _ => 'A') + "\r> ";
    var p := StoreAndFind(r, piece, n);
    var ret := r.Cut(n);
    assert r.buf[n + 1] == piece[n + 1] && r.buf[n + 2] == piece[n + 2];
    assert r.Text() == "> ";
    p := r.FindNextEol();
    ret := r.Cut(p.value);
  }

  /** One line of a readable stream, whatever way it arrives. */
  lemma {:induction false} ReadsFirstLine(u: seq<char>, lost: seq<char>, line: seq<char>, rest: seq<char>)
    requires Readable(u) && |lost| <= |u| && lost == u[..|lost|] && LineReader.Splits(u[|lost|..], line, rest)
    requires Fits(u) || |u| < MAX_AT_RESPONSE ==> AllEol(lost)
    ensures FirstLine(u) == Some((line, rest))
  {
    var eol := u[|lost|..][|line|];
    assert u == lost + u[|lost|..];
    NoSplit(u, lost, line, [eol] + rest);
    FirstLineIs(lost, line, eol, rest);
  }

  lemma {:induction false} OneMoreLine(all: seq<seq<char>>, lines: seq<seq<char>>, u: seq<char>, lost: seq<char>,
                    line: seq<char>, rest: seq<char>)
    requires all == lines + Lines(u) && Readable(u)
    requires |lost| <= |u| && lost == u[..|lost|] && LineReader.Splits(u[|lost|..], line, rest)
    requires Fits(u) || |u| < MAX_AT_RESPONSE ==> AllEol(lost)
    ensures all == (lines + [line]) + Lines(rest) && Readable(rest) && |rest| < |u|
  {
    ReadsFirstLine(u, lost, line, rest);
    assert Lines(u) == [line] + Lines(rest);
    assert lines + ([line] + Lines(rest)) == (lines + [line]) + Lines(rest);
  }

  lemma NoMoreLines(lines: seq<seq<char>>, u: seq<char>, lost: seq<char>, text: seq<char>)
    requires Readable(u) && u == lost + text && EolFree(text)
    requires Fits(u) || |u| < MAX_AT_RESPONSE ==> AllEol(lost)
    ensures lines + Lines(u) == lines
  {
    if AllEol(lost) {
      NoLineIn(lost, text);
    }
    assert lines + [] == lines;
  }

  /** One turn of the reader loop on a readable stream: the next line of the splitter, and never the prompt. */
  method NextLine(r: LineReader, ghost lines: seq<seq<char>>, ghost all: seq<seq<char>>)
    returns (line: Option<seq<char>>, ghost eof: bool)
    requires r.Valid() && Readable(r.Unread()) && all == lines + Lines(r.Unread())
    modifies r, r.buf, r.fd
    ensures r.Valid()
    ensures line.Some? ==> Readable(r.Unread()) && |r.Unread()| < |old(r.Unread())|
    ensures line.Some? ==> all == (lines + [line.value]) + Lines(r.Unread())
    ensures line.None? ==> (eof ==> all == lines) && (!r.fd.mayFail ==> eof)
    ensures r.fd.failures == old(r.fd.failures) + if line.None? && !eof then 1 else 0
    ensures r.fd.ends == old(r.fd.ends) + if line.None? && eof then 1 else 0
  {
    ghost var u := r.Unread();
    var ret, lost, prompt, end := r.ReadLine();
    eof := end;
    if ret == None {
      if eof {
        NoMoreLines(lines, u, lost, r.Text());
      }
      return None, eof;
    }
    if prompt {
      PromptIsNotReadable(lost, r.fd.data);
      assert false;
    }
    line := Some(r.buf[ret.value..r.cur - 1]);
    OneMoreLine(all, lines, u, lost, line.value, r.Unread());
  }

  /**
    The reader loop over a whole stream: for every way in which `read` cuts the stream into pieces the lines are
    exactly those of the splitter; after a read error they are a prefix of them.
   */
  method ReadAllLines(r: LineReader) returns (lines: seq<seq<char>>, ghost eof: bool)
    requires r.Valid() && Readable(r.Unread())
    modifies r, r.buf, r.fd
    ensures r.Valid() && lines <= Lines(old(r.Unread()))
    ensures eof ==> lines == Lines(old(r.Unread()))
    ensures !r.fd.mayFail ==> eof
    ensures r.fd.failures == old(r.fd.failures) + (if eof then 0 else 1)
    ensures r.fd.ends == old(r.fd.ends) + if eof then 1 else 0
  {
    lines := [];
    ghost var all, rest := Lines(r.Unread()), Lines(r.Unread());
    while true
      invariant r.Valid() && Readable(r.Unread()) && rest == Lines(r.Unread())
      invariant all == lines + rest
      invariant r.fd.failures == old(r.fd.failures) && r.fd.ends == old(r.fd.ends)
      decreases |r.Unread()|
    {
      var line, end := NextLine(r, lines, all);
      eof := end;
      if line.None? {
        return;
      }
      lines, rest := lines + [line.value], Lines(r.Unread());
    }
  }
}
