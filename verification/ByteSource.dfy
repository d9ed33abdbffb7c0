/**
  A descriptor as `read` sees it: bytes still to come, handed out in pieces of any size, with interruptions in
  between.
 */
module ByteSources {

  datatype ReadResult<+T> =
    | Data(bytes: seq<T>)
    | Eof
    | Interrupted  // -1 with EINTR
    | Failed       // -1 with any other errno, EAGAIN included

  class Source<T> {
    /** What is still to come. */
    var data: seq<T>
    /** How many reads will yet return without delivering anything. */
    var stalls: nat
    /** False when every such read is an interruption. */
    const mayFail: bool

    /** How many reads have failed, interruptions aside, and how many have met the end of the stream. */
    ghost var failures: nat
    ghost var ends: nat

    constructor (data: seq<T>, stalls: nat, mayFail: bool)
      ensures this.data == data && this.stalls == stalls && this.mayFail == mayFail
    {
      this.data, this.stalls, this.mayFail := data, stalls, mayFail;
      failures, ends := 0, 0;
    }

    /** `read` for up to `n` bytes; asking for none at all would look like the end of the stream. */
    method Read(n: nat) returns (r: ReadResult<T>)
      requires n > 0
      modifies this
      ensures r.Data? ==> 0 < |r.bytes| <= n && old(data) == r.bytes + data && stalls == old(stalls)
      ensures r.Eof? ==> data == old(data) == [] && stalls == old(stalls)
      ensures r.Interrupted? || r.Failed? ==> data == old(data) && stalls < old(stalls)
      ensures r.Failed? ==> mayFail
      ensures failures == old(failures) + (if r.Failed? then 1 else 0) && ends == old(ends) + if r.Eof? then 1 else 0
    {
      if stalls > 0 {
        var stall: bool :| true;
        if stall {
          stalls := stalls - 1;
          var failed: bool :| true;
          if failed && mayFail {
            failures := failures + 1;
            return Failed;
          }
          return Interrupted;
        }
      }
      if data == [] {
        ends := ends + 1;
        return Eof;
      }
      var k :| 1 <= k <= n && k <= |data|;
      r := Data(data[..k]);
      data := data[k..];
    }
  }
}
