/** Length-prefixed records over a buffer that is compacted in place. */
module RecordStreams {
  import opened Options
  import opened ByteSources

  newtype byte = x: int | 0 <= x < 256

  const HEADER_SIZE := 4

  // ---------------------------------------------------------------- framing

  /** `ntohl` of a four-byte length. */
  function Length(h: seq<byte>): (n: nat)
    requires |h| >= HEADER_SIZE
    ensures n < 0x1_0000_0000
    ensures n == h[0] as int * 0x100_0000 + h[1] as int * 0x1_0000 + h[2] as int * 0x100 + h[3] as int
  {
    ((h[0] as int * 256 + h[1] as int) * 256 + h[2] as int) * 256 + h[3] as int
  }

  lemma LengthOfStart(s: seq<byte>)
    requires |s| >= HEADER_SIZE
    ensures Length(s[..HEADER_SIZE]) == Length(s)
  {
    var h := s[..HEADER_SIZE];
    assert h[0] == s[0] && h[1] == s[1] && h[2] == s[2] && h[3] == s[3];
  }

  function Header(n: nat): (h: seq<byte>)
    requires n < 0x1_0000_0000
    ensures |h| == HEADER_SIZE
  {
    [(n / 0x100_0000) as byte, (n / 0x1_0000 % 256) as byte, (n / 0x100 % 256) as byte, (n % 256) as byte]
  }

  lemma LengthOfHeader(n: nat, rest: seq<byte>)
    requires n < 0x1_0000_0000
    ensures Length(Header(n) + rest) == n
  {
    var a, b := n / 0x1_0000, n / 0x100;
    assert n == b * 256 + n % 256 && b == a * 256 + b % 256 && a == n / 0x100_0000 * 256 + a % 256;
  }

  /** The first record of a stream, if it is complete. */
  function FirstRecord(s: seq<byte>): Option<(seq<byte>, seq<byte>)> {
    if |s| >= HEADER_SIZE && |s| >= HEADER_SIZE + Length(s) then
      Some((s[HEADER_SIZE..HEADER_SIZE + Length(s)], s[HEADER_SIZE + Length(s)..]))
    else None
  }

  /** A record with its length in front. */
  function Encode(payload: seq<byte>): (s: seq<byte>)
    requires |payload| < 0x1_0000_0000
    ensures |s| == HEADER_SIZE + |payload|
  {
    Header(|payload|) + payload
  }

  predicate Sendable(rs: seq<seq<byte>>, max: nat) {
    max < 0x1_0000_0000 && forall i | 0 <= i < |rs| :: |rs[i]| <= max
  }

  function EncodeAll(rs: seq<seq<byte>>, max: nat): seq<byte>
    requires Sendable(rs, max)
  {
    if rs == [] then [] else Encode(rs[0]) + EncodeAll(rs[1..], max)
  }

  lemma FirstOfEncoded(payload: seq<byte>, rest: seq<byte>)
    requires |payload| < 0x1_0000_0000
    ensures FirstRecord(Encode(payload) + rest) == Some((payload, rest))
    ensures Length(Encode(payload) + rest) == |payload|
  {
    var s := Encode(payload) + rest;
    assert s == Header(|payload|) + (payload + rest);
    LengthOfHeader(|payload|, payload + rest);
  }

  /** What can be extracted from a stream with a buffer for records of up to `max` bytes. */
  function Frames(s: seq<byte>, max: nat): seq<seq<byte>>
    decreases |s|
  {
    if FirstRecord(s).Some? && Length(s) <= max then
      var (payload, rest) := FirstRecord(s).value;
      [payload] + Frames(rest, max)
    else []
  }

  /** What is left then. */
  function Left(s: seq<byte>, max: nat): seq<byte>
    decreases |s|
  {
    if FirstRecord(s).Some? && Length(s) <= max then Left(FirstRecord(s).value.1, max) else s
  }

  lemma {:induction false} FramesOfEncoded(rs: seq<seq<byte>>, max: nat)
    requires Sendable(rs, max)
    ensures Frames(EncodeAll(rs, max), max) == rs && Left(EncodeAll(rs, max), max) == []
  {
    if rs != [] {
      FramesOfEncoded(rs[1..], max);
      FirstOfEncoded(rs[0], EncodeAll(rs[1..], max));
      assert rs == [rs[0]] + rs[1..];
    }
  }

  // ---------------------------------------------------------------- the stream

  datatype Outcome =
    | Record(start: nat, len: nat)  // 0, the record
    | End                           // 0, no record: end of stream
    | Again                         // -1, EAGAIN or whatever read reported
    | TooLong                       // -1, EFBIG

  class RecordStream {
    const fd: Source<byte>
    const maxRecordLen: nat
    const buffer: array<byte>
    var unconsumed: nat
    var readEnd: nat

    predicate Valid()
      reads this
    {
      buffer.Length == maxRecordLen + HEADER_SIZE && unconsumed <= readEnd <= buffer.Length
    }

    function Buffered(): seq<byte>
      reads this, buffer
      requires Valid()
    {
      buffer[unconsumed..readEnd]
    }

    /** Everything that has not been handed out: what is buffered, then what is still to come. */
    function Unread(): seq<byte>
      reads this, buffer, fd
      requires Valid()
    {
      Buffered() + fd.data
    }

    /** `record_stream_new`. */
    constructor (fd: Source<byte>, maxRecordLen: nat)
      requires maxRecordLen <= 0xffff
      ensures Valid() && this.fd == fd && this.maxRecordLen == maxRecordLen && fresh(buffer)
      ensures Unread() == fd.data
    {
      this.fd, this.maxRecordLen := fd, maxRecordLen;
      buffer := new byte[maxRecordLen + HEADER_SIZE];
      unconsumed, readEnd := 0, 0;
    }

    /** `getEndOfRecord` for the region of the buffer that starts at `begin` and ends at `end`. */
    function GetEndOfRecord(begin: nat, end: nat): Option<nat>
      reads buffer
      requires begin <= end <= buffer.Length
    {
      if end < begin + HEADER_SIZE then None
      else
        var recordEnd := begin + HEADER_SIZE + Length(buffer[begin..begin + HEADER_SIZE]);
        if end < recordEnd then None else Some(recordEnd)
    }

    /** `getNextRecord`. */
    method GetNextRecord() returns (r: Option<(nat, nat)>)
      requires Valid()
      modifies this`unconsumed
      ensures Valid()
      ensures r.None? ==> FirstRecord(old(Buffered())) == None && unconsumed == old(unconsumed)
      ensures r.Some? ==> HEADER_SIZE <= r.value.0 && r.value.0 + r.value.1 <= buffer.Length
                          && FirstRecord(old(Buffered())) ==
                               Some((buffer[r.value.0..r.value.0 + r.value.1], Buffered()))
    {
      ghost var s := Buffered();
      var recordEnd := GetEndOfRecord(unconsumed, readEnd);
      if |s| >= HEADER_SIZE {
        assert buffer[unconsumed..unconsumed + HEADER_SIZE] == s[..HEADER_SIZE];
        LengthOfStart(s);
      }
      match recordEnd
      case None => return None;
      case Some(e) =>
        var recordStart := unconsumed + HEADER_SIZE;
        assert buffer[recordStart..e] == s[HEADER_SIZE..e - unconsumed];
        assert buffer[e..readEnd] == s[e - unconsumed..];
        unconsumed := e;
        return Some((recordStart, e - recordStart));
    }

    /** Moves the remainder to the beginning of the buffer. */
    method Compact()
      requires Valid()
      modifies this, buffer
      ensures Valid() && unconsumed == 0 && Buffered() == old(Buffered())
    {
      if unconsumed != 0 {
        var toMove := readEnd - unconsumed;
        ghost var s := Buffered();
        forall i | 0 <= i < toMove {
          buffer[i] := buffer[unconsumed + i];
        }
        readEnd := toMove;
        unconsumed := 0;
        assert Buffered() == s;
      }
    }

    /** `record_stream_get_next`. */
    method GetNext() returns (r: Outcome)
      requires Valid()
      modifies this, buffer, fd
      ensures Valid()
      ensures r.Record? ==> r.len <= maxRecordLen && r.start + r.len <= buffer.Length
                            && FirstRecord(old(Unread())) == Some((buffer[r.start..r.start + r.len], Unread()))
      ensures !r.Record? ==> Unread() == old(Unread())
      ensures r.End? ==> FirstRecord(Unread()) == None && |Unread()| < maxRecordLen + HEADER_SIZE
      ensures r.TooLong? ==> |Unread()| >= maxRecordLen + HEADER_SIZE && Length(Unread()) > maxRecordLen
      ensures r.Again? ==> |fd.data| + fd.stalls < old(|fd.data| + fd.stalls)
      ensures !r.Again? ==> |fd.data| + fd.stalls <= old(|fd.data| + fd.stalls)
      ensures r.End? ==> fd.data == []
      ensures fd.ends == old(fd.ends) + (if r.End? then 1 else 0) && (!r.Again? ==> fd.failures == old(fd.failures))
      ensures FirstRecord(old(Buffered())).Some? ==> r.Record? && fd.data == old(fd.data)
      ensures !r.Record? ==> FirstRecord(Buffered()) == None
    {
      var ret := GetNextRecord();
      if ret.Some? {
        MoreToCome(old(Buffered()), fd.data);
        return Record(ret.value.0, ret.value.1);
      }
      if unconsumed == 0 && readEnd == buffer.Length {
        return TooLong;
      }
      Compact();
      r := ReadMore();
    }

    /** The part of record_stream_get_next that follows the compaction. */
    method ReadMore() returns (r: Outcome)
      requires Valid() && unconsumed == 0 && readEnd < buffer.Length && FirstRecord(Buffered()) == None
      modifies this, buffer, fd
      ensures Valid() && !r.TooLong?
      ensures r.Record? ==> r.len <= maxRecordLen && r.start + r.len <= buffer.Length
                            && FirstRecord(old(Unread())) == Some((buffer[r.start..r.start + r.len], Unread()))
      ensures !r.Record? ==> Unread() == old(Unread())
      ensures r.End? ==> FirstRecord(Unread()) == None && |Unread()| < maxRecordLen + HEADER_SIZE
      ensures r.Again? ==> |fd.data| + fd.stalls < old(|fd.data| + fd.stalls)
      ensures !r.Again? ==> |fd.data| + fd.stalls <= old(|fd.data| + fd.stalls)
      ensures r.End? ==> fd.data == []
      ensures fd.ends == old(fd.ends) + (if r.End? then 1 else 0) && (!r.Again? ==> fd.failures == old(fd.failures))
      ensures !r.Record? ==> FirstRecord(Buffered()) == None
    {
      var countRead := fd.Read(buffer.Length - readEnd);
      match countRead
      case Eof =>
        assert Unread() == Buffered();
        return End;
      case Interrupted => return Again;
      case Failed => return Again;
      case Data(bytes) =>
        assert old(Unread()) == Buffered() + bytes + fd.data;
        Append(bytes);
        ghost var have := Buffered();
        var ret := GetNextRecord();
        if ret.None? {
          return Again;
        }
        MoreToCome(have, fd.data);
        return Record(ret.value.0, ret.value.1);
    }

    /** The bytes that read has stored at `read_end`. */
    method Append(bytes: seq<byte>)
      requires Valid() && readEnd + |bytes| <= buffer.Length
      modifies this`readEnd, buffer
      ensures Valid() && Buffered() == old(Buffered()) + bytes
    {
      ghost var s := Buffered();
      forall i | 0 <= i < |bytes| {
        buffer[readEnd + i] := bytes[i];
      }
      readEnd := readEnd + |bytes|;
      assert Buffered() == s + bytes;
    }

  }

  /** A complete record is the same however much follows it. */
  lemma MoreToCome(s: seq<byte>, more: seq<byte>)
    requires FirstRecord(s).Some?
    ensures FirstRecord(s + more) == Some((FirstRecord(s).value.0, FirstRecord(s).value.1 + more))
  {
    var n := HEADER_SIZE + Length(s);
    assert Length(s + more) == Length(s);
    assert (s + more)[HEADER_SIZE..n] == s[HEADER_SIZE..n];
    assert (s + more)[n..] == s[n..] + more;
  }

  /**
    A client that calls again whenever it is told to. Whatever way the bytes arrive, it gets exactly the records
    of the stream in order; TooLong comes exactly when the stream insists on a record that cannot fit, so never
    for records that were sent within the limit.
   */
  method ReadAll(stream: RecordStream, ghost sent: seq<seq<byte>>) returns (records: seq<seq<byte>>, last: Outcome)
    requires stream.Valid()
    modifies stream, stream.buffer, stream.fd
    ensures stream.Valid() && records == Frames(old(stream.Unread()), stream.maxRecordLen)
    ensures stream.Unread() == Left(old(stream.Unread()), stream.maxRecordLen)
    ensures last == if |stream.Unread()| < stream.maxRecordLen + HEADER_SIZE then End else TooLong
    ensures Sendable(sent, stream.maxRecordLen) && old(stream.Unread()) == EncodeAll(sent, stream.maxRecordLen) ==>
              records == sent && last == End
  {
    records, last := [], Again;
    ghost var max, left := stream.maxRecordLen, stream.Unread();
    ghost var all, end := Frames(left, max), Left(left, max);
    if Sendable(sent, max) {
      FramesOfEncoded(sent, max);
    }
    while last.Record? || last.Again?
      invariant stream.Valid() && left == stream.Unread()
      invariant all == records + Frames(left, max) && end == Left(left, max)
      invariant last.End? ==> FirstRecord(left) == None && |left| < max + HEADER_SIZE
      invariant last.TooLong? ==> |left| >= max + HEADER_SIZE && Length(left) > max
      decreases last.Record? || last.Again?, |left|, |stream.fd.data| + stream.fd.stalls
    {
      last := stream.GetNext();
      if last.Record? {
        FramesStep(records, left, stream.buffer[last.start..last.start + last.len], stream.Unread(), max);
        records := records + [stream.buffer[last.start..last.start + last.len]];
        left := stream.Unread();
      }
    }
    assert Frames(left, max) == [];
  }

  lemma {:induction false} FramesStep(records: seq<seq<byte>>, s: seq<byte>, payload: seq<byte>, rest: seq<byte>,
                   max: nat)
    requires FirstRecord(s) == Some((payload, rest)) && |payload| <= max
    ensures records + Frames(s, max) == (records + [payload]) + Frames(rest, max)
    ensures Left(s, max) == Left(rest, max) && |rest| < |s|
  {
    assert Frames(s, max) == [payload] + Frames(rest, max);
  }
}
