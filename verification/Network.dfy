/** A connected socket.  Scheduling and fragmentation are the environment's choice: a read or
    a send moves at least one byte and at most what was asked for, and callers may rely on
    nothing else. */
module Network {
  import opened Text

  class Socket<T> {
    /** Everything still to arrive before the peer closes. */
    var incoming: seq<T>
    /** Everything put on the wire so far. */
    var sent: seq<T>

    constructor (stream: seq<T>)
      ensures incoming == stream && sent == []
    {
      incoming, sent := stream, [];
    }

    /** `async_read_some`: `None` is the exception at the end of the stream. */
    method ReadSome(max: nat) returns (r: Option<seq<T>>)
      requires max > 0
      modifies this`incoming
      ensures r.None? <==> old(incoming) == []
      ensures r.None? ==> incoming == []
      ensures r.Some? ==> 0 < |r.value| <= max && r.value + incoming == old(incoming)
    {
      if incoming == [] { return None; }
      var n: nat :| 0 < n <= max && n <= |incoming|;
      r := Some(incoming[..n]);
      incoming := incoming[n..];
    }

    /** `async_send`: how many bytes were taken. */
    method Send(data: seq<T>) returns (n: nat)
      requires data != []
      modifies this`sent
      ensures 0 < n <= |data| && sent == old(sent) + data[..n]
    {
      n :| 0 < n <= |data|;
      sent := sent + data[..n];
    }
  }
}
