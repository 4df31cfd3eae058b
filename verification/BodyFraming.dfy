/** How `parse_request` cuts a request out of the bytes of a connection, and how `DavFile::put`
    copies the body into a file. */
module BodyFraming {
  import opened Text
  import opened UrlCodec
  import opened RequestLine
  import opened Headers
  import opened Network

  const CHUNK := 4096

  datatype Outcome =
    | Got(line: Request, headers: map<string, string>, contentLength: nat, body: seq<byte>)
    | InvalidLine
    | Failed

  /** The request line and the headers of a block, with an empty body. */
  function ParseHead(block: seq<byte>): Outcome {
    match ParseRequestLine(block)
    case None => InvalidLine
    case Some(line) =>
      match ParseHeaders(block)
      case Threw => Failed
      case Parsed(headers, n) => Got(line, headers, n, [])
  }

  function WithBody(head: Outcome, body: Option<seq<byte>>): Outcome {
    if !head.Got? then head else if body.None? then Failed else head.(body := body.value)
  }

  /** How far `n` goes beyond `m`. */
  function Beyond(n: nat, m: nat): nat { if n <= m then 0 else n - m }

  function AnnouncedLength(head: Outcome): nat { if head.Got? then head.contentLength else 0 }

  /** The body of `n` bytes after a header block that ends at `e`, when the first read returned
      `first` bytes: at least what the first read brought along, if a body is expected. */
  function BodyAt(s: seq<byte>, first: nat, e: nat, n: nat): Option<seq<byte>>
    requires e + 4 <= first <= |s|
  {
    if n == 0 then Some([])
    else if e + 4 + n <= first then Some(s[e + 4..first])
    else if |s| < e + 4 + n then None
    else Some(s[e + 4..e + 4 + n])
  }

  function FramedAfter(head: Outcome, s: seq<byte>, first: nat, e: nat): Outcome
    requires e + 4 <= first <= |s|
  {
    WithBody(head, BodyAt(s, first, e, AnnouncedLength(head)))
  }

  /** What a fresh connection yields when the whole stream is `s` and the first read returns
      `first` bytes of it.  Nothing depends on the reads after that. */
  function Framed(s: seq<byte>, first: nat): Outcome
    requires first <= |s|
  {
    match Find(s[..first], BLANK, 0)
    case None => InvalidLine
    case Some(e) => FramedAfter(ParseHead(s[..e]), s, first, e)
  }

  lemma EmptyLineIsInvalid()
    ensures ParseRequestLine([]) == None
  {
    FirstOfIs("", {' '}, 0, 0);
  }

  /** The request line, then the headers, of one block. */
  method ReadHead(block: seq<byte>) returns (head: Outcome)
    ensures head == ParseHead(block) && (head.Got? ==> head.body == [])
  {
    var line := ParseRequestLine(block);
    if line.None? { return InvalidLine; }
    var request := new HttpRequest();
    var threw := request.ParseHeaderBlock(block);
    if threw { return Failed; }
    LengthFromHeader(Parsed(map[], 0), Lines(block, '\n'));
    var length := if "content-length" in request.headers then request.contentLength else 0;
    head := Got(line.value, request.headers, length, []);
  }

  /** One connection; `buffer` holds what was read and not consumed. */
  class Connection {
    const socket: Socket<byte>
    var buffer: seq<byte>

    constructor (s: Socket<byte>)
      ensures socket == s && buffer == []
    {
      socket, buffer := s, [];
    }

    /** The body loop: reads until `length` bytes are there.  What it reads stays in `buffer`. */
    method ReadBody(start: seq<byte>, length: nat) returns (body: Option<seq<byte>>)
      modifies this`buffer, socket`incoming
      ensures buffer + socket.incoming == old(buffer) + old(socket.incoming)
      ensures var all := start + old(socket.incoming);
              if length <= |start| then body == Some(start)
              else if length <= |all| then body == Some(all[..length])
              else body == None
      ensures body.Some? ==> |buffer| == |old(buffer)| + Beyond(length, |start|)
    {
      var got := start;
      ghost var all, kept := start + socket.incoming, buffer + socket.incoming;
      while |got| < length
        invariant got + socket.incoming == all && buffer + socket.incoming == kept
        invariant length <= |start| ==> got == start
        invariant |start| < length ==> |got| <= length
        invariant |buffer| == |old(buffer)| + |got| - |start|
        decreases length - |got|
      {
        var chunk := if length - |got| < CHUNK then length - |got| else CHUNK;
        var bytes := socket.ReadSome(chunk);
        if bytes.None? { return None; }
        buffer := buffer + bytes.value;
        got := got + bytes.value;
      }
      body := Some(got);
    }

    /** The part after the header block: `first` bytes of `s` are in `content`. */
    method Finish(head: Outcome, content: seq<byte>, e: nat, ghost s: seq<byte>, ghost first: nat) returns (r: Outcome)
      requires head.Got? && head.body == [] && e + 4 <= first <= |s|
      requires content == s[..first] && socket.incoming == s[first..]
      modifies this`buffer, socket`incoming
      ensures buffer + socket.incoming == old(buffer) + old(socket.incoming)
      ensures r == WithBody(head, BodyAt(s, first, e, head.contentLength))
      ensures r.Got? ==> |buffer| == |old(buffer)| + Beyond(head.contentLength, first - e - 4)
    {
      var body: Option<seq<byte>> := Some([]);
      if head.contentLength > 0 {
        BodyPieces(s, first, e, head.contentLength);
        body := ReadBody(content[e + 4..], head.contentLength);
      }
      if body.None? { return Failed; }
      r := head.(body := body.value);
    }

    /** The part after the blank line has been found at `e`. */
    method TakeRequest(content: seq<byte>, e: nat, ghost v: seq<byte>, ghost first: nat) returns (r: Outcome)
      requires e + 4 <= first <= |v| && first <= |buffer| && content == v[..first] && socket.incoming == v[first..]
      modifies this`buffer, socket`incoming
      ensures r == FramedAfter(ParseHead(v[..e]), v, first, e)
      ensures r.Got? ==> buffer + socket.incoming == (old(buffer) + old(socket.incoming))[e + 4..]
      ensures r.Got? ==> |buffer| == |old(buffer)| - (e + 4) + Beyond(r.contentLength, first - e - 4)
    {
      PrefixOfPrefix(v, first, e);
      r := ReadHead(content[..e]);
      if r.Got? {
        DropFromSum(buffer, socket.incoming, e + 4);
        buffer := buffer[e + 4..];
        r := Finish(r, content, e, v, first);
      }
    }

    /** `parse_request` looks for the request at the front of `buffer`, in as many bytes as it
        has just read.  It consumes the header block and leaves the body in `buffer`. */
    method ParseRequest() returns (r: Outcome, ghost first: nat)
      modifies this`buffer, socket`incoming
      ensures var b, s := old(buffer), old(socket.incoming);
              && first <= |s| && (first == 0 <==> s == []) && first <= 4096
              && r == (if s == [] then Failed else Framed(Seen(b, s, first), first))
              && (r.Got? ==>
                    var e := Find(Seen(b, s, first)[..first], BLANK, 0).value;
                    && buffer + socket.incoming == (b + s)[e + 4..]
                    && |buffer| == |b| + (first - e - 4) + Beyond(r.contentLength, first - e - 4))
    {
      ghost var b, s := buffer, socket.incoming;
      var chunk := socket.ReadSome(CHUNK);
      if chunk.None? { return Failed, 0; }
      first := |chunk.value|;
      ghost var v := Seen(b, s, first);
      buffer := buffer + chunk.value;
      var content := buffer[..|chunk.value|];
      SeenPieces(b, s, first, chunk.value, socket.incoming);
      var emptyLine := Find(content, BLANK, 0);
      if emptyLine.None? {
        EmptyLineIsInvalid();
        return InvalidLine, first;
      }
      r := TakeRequest(content, emptyLine.value, v, first);
    }
  }

  lemma PrefixOfPrefix(v: seq<byte>, first: nat, e: nat)
    requires e <= first <= |v|
    ensures v[..first][..e] == v[..e]
  {}

  lemma DropFromSum(a: seq<byte>, b: seq<byte>, k: nat)
    requires k <= |a|
    ensures a[k..] + b == (a + b)[k..]
  {}

  /** What `parse_request` takes for the stream when `b` is left over from earlier requests
      and the read returns `first` bytes of `s`: bytes of `b` come first. */
  function Seen(b: seq<byte>, s: seq<byte>, first: nat): (v: seq<byte>)
    requires first <= |s|
    ensures |v| == |s|
  {
    (b + s[..first])[..first] + s[first..]
  }

  /** On a fresh connection that is the stream itself; with anything left over there are
      streams for which it is not. */
  lemma SeenIsStream(b: seq<byte>)
    ensures (forall s: seq<byte>, first: nat :: first <= |s| ==> Seen(b, s, first) == s) <==> b == []
  {
    if b != [] {
      var x: byte := if b[0] == 'a' then 'b' else 'a';
      assert Seen(b, [x], 1)[0] == b[0];
    }
  }

  lemma SeenPieces(b: seq<byte>, s: seq<byte>, first: nat, chunk: seq<byte>, rest: seq<byte>)
    requires chunk + rest == s && first == |chunk|
    ensures var v := Seen(b, s, first); v[..first] == (b + chunk)[..first] && v[first..] == rest
    ensures (b + chunk) + rest == b + s
  {
    assert s[..first] == chunk && s[first..] == rest;
  }

  lemma BodyPieces(s: seq<byte>, first: nat, e: nat, n: nat)
    requires e + 4 <= first <= |s|
    ensures s[..first][e + 4..] == s[e + 4..first]
    ensures s[e + 4..first] + s[first..] == s[e + 4..]
    ensures e + 4 + n <= |s| ==> s[e + 4..][..n] == s[e + 4..e + 4 + n]
  {}

  /** A body is never shorter than the length announced with it, and starts with the bytes
      right after the header block. */
  lemma {:induction false} BodyIsLongEnough(s: seq<byte>, first: nat)
    requires first <= |s| && Framed(s, first).Got?
    ensures var r, e := Framed(s, first), Find(s[..first], BLANK, 0).value;
            var n := r.contentLength;
            n <= |r.body| && e + 4 + n <= |s| && r.body[..n] == s[e + 4..e + 4 + n]
  {
    var e := Find(s[..first], BLANK, 0).value;
    BodyStarts(ParseHead(s[..e]), s, first, e);
  }

  lemma BodyStarts(head: Outcome, s: seq<byte>, first: nat, e: nat)
    requires e + 4 <= first <= |s| && FramedAfter(head, s, first, e).Got?
    ensures var r := FramedAfter(head, s, first, e);
            var n := r.contentLength;
            n <= |r.body| && e + 4 + n <= |s| && r.body[..n] == s[e + 4..e + 4 + n]
  {}

  /** The request at the front of a stream, with no regard to how the stream arrives: the
      block up to the first blank line, and exactly the announced number of bytes after it. */
  function Whole(s: seq<byte>): Outcome {
    match Find(s, BLANK, 0)
    case None => InvalidLine
    case Some(e) => WholeAfter(ParseHead(s[..e]), s, e)
  }

  function WholeAfter(head: Outcome, s: seq<byte>, e: nat): Outcome
    requires e + 4 <= |s|
  {
    var end := e + 4 + AnnouncedLength(head);
    WithBody(head, if end <= |s| then Some(s[e + 4..end]) else None)
  }

  lemma FramedIsWhole(head: Outcome, s: seq<byte>, first: nat, e: nat)
    requires e + 4 <= first <= |s|
    ensures FramedAfter(head, s, first, e) == WholeAfter(head, s, e)
       <==> (head.Got? ==> head.contentLength == 0 || first <= e + 4 + head.contentLength)
  {
    assert s[e + 4..e + 4] == [];
    if head.Got? && e + 4 + head.contentLength < first {
      assert |s[e + 4..first]| > |s[e + 4..e + 4 + head.contentLength]|;
    }
  }

  lemma WholeIsInvalid(head: Outcome, s: seq<byte>, e: nat)
    requires e + 4 <= |s|
    ensures WholeAfter(head, s, e) == InvalidLine <==> head == InvalidLine
  {}

  lemma BlankIsCutOff(s: seq<byte>, first: nat)
    requires first <= |s|
    requires Find(s, BLANK, 0) == None || first < Find(s, BLANK, 0).value + 4
    ensures Find(s[..first], BLANK, 0) == None
  {
    var f := Find(s[..first], BLANK, 0);
    if f.Some? { FoundAfter(s, first, BLANK, f.value); }
  }

  /** When the outcome is the request at the front of the stream, however the rest of it is
      fragmented: the first read has to hold the whole header block, unless that is no request
      line anyway, and at most the body, unless none is announced. */
  lemma FramingIgnoresFragmentation(s: seq<byte>, first: nat)
    requires first <= |s|
    ensures Framed(s, first) == Whole(s) <==>
      match Find(s, BLANK, 0)
      case None => true
      case Some(e) =>
        var head := ParseHead(s[..e]);
        if first < e + 4 then head == InvalidLine
        else head.Got? ==> head.contentLength == 0 || first <= e + 4 + head.contentLength
  {
    var found := Find(s, BLANK, 0);
    if found.None? {
      BlankIsCutOff(s, first);
    } else if first < found.value + 4 {
      BlankIsCutOff(s, first);
      WholeIsInvalid(ParseHead(s[..found.value]), s, found.value);
    } else {
      var e := found.value;
      FindInPrefix(s, first, BLANK, e);
      PrefixOfPrefix(s, first, e);
      FramedIsWhole(ParseHead(s[..e]), s, first, e);
    }
  }

  // ---------------------------------------------------------------- DavFile::put

  const BUFFER_SIZE := 65536

  /** The variables of the copy loop: how far the input is read, how many bytes are still
      wanted, and what is in the file. */
  datatype Copy = Copy(pos: nat, remaining: nat, file: seq<byte>)

  /** One turn of the loop; reading past the end of the input yields nothing. */
  function CopyStep(input: seq<byte>, c: Copy): Copy
    requires c.pos <= |input| && c.remaining > 0
  {
    var actual := Min(Min(BUFFER_SIZE, c.remaining), |input| - c.pos);
    Copy(c.pos + actual, c.remaining - actual, c.file + input[c.pos..c.pos + actual])
  }

  function CopySteps(input: seq<byte>, c: Copy, n: nat): (r: Copy)
    requires c.pos <= |input|
    ensures r.pos <= |input|
    decreases n
  {
    if n == 0 || c.remaining == 0 then c else CopySteps(input, CopyStep(input, c), n - 1)
  }

  lemma {:induction false} CopyFinishes(input: seq<byte>, c: Copy, n: nat)
    requires c.remaining <= |input| - c.pos && c.remaining <= n && c.pos <= |input|
    ensures CopySteps(input, c, n).remaining == 0
    decreases n
  {
    if c.remaining > 0 { CopyFinishes(input, CopyStep(input, c), n - 1); }
  }

  lemma {:induction false} CopyNeverFinishes(input: seq<byte>, c: Copy, n: nat)
    requires c.pos <= |input| && |input| - c.pos < c.remaining
    ensures CopySteps(input, c, n).remaining > 0
    decreases n
  {
    if n > 0 { CopyNeverFinishes(input, CopyStep(input, c), n - 1); }
  }

  /** The loop ends exactly when the input holds as many bytes as are asked for; on shorter
      input it turns for ever. */
  lemma PutTerminatesIff(input: seq<byte>, size: nat)
    ensures (exists n :: 0 <= n && CopySteps(input, Copy(0, size, []), n).remaining == 0) <==> size <= |input|
  {
    var start := Copy(0, size, []);
    if size <= |input| {
      CopyFinishes(input, start, size);
    } else {
      forall n: nat ensures CopySteps(input, start, n).remaining > 0 { CopyNeverFinishes(input, start, n); }
    }
  }

  method Put(input: seq<byte>, size: nat) returns (file: seq<byte>)
    requires size <= |input|
    ensures file == input[..size]
  {
    file := [];
    var pos, remaining := 0, size;
    while remaining > 0
      invariant pos + remaining == size && file == input[..pos]
    {
      var toRead := Min(BUFFER_SIZE, remaining);
      var actual := Min(toRead, |input| - pos);
      if actual > 0 { file := file + input[pos..pos + actual]; }
      pos, remaining := pos + actual, remaining - actual;
    }
  }

  datatype ResourceType = FILE | COLLECTION

  /** What the file system answers about the path of a request: whether it resolves to one under
      the root, what is there, what is there after trying to create an empty file, and whether it
      opens for writing. */
  datatype Target = Target(resolves: bool, found: Option<ResourceType>, created: Option<ResourceType>, opens: bool)

  /** After an exception the connection ends without a reply. */
  datatype PutReply = Status(code: nat) | NoReply

  /** What the request meets, after trying to create a missing file. */
  function There(t: Target): Option<ResourceType> { if t.found.Some? then t.found else t.created }

  predicate Answered(t: Target, reply: PutReply) {
    && (reply == Status(404) <==> !t.resolves)
    && (reply == Status(403) <==> t.resolves && There(t) == None)
    && (reply == Status(405) <==> t.resolves && There(t) == Some(COLLECTION))
    && (reply == NoReply <==> t.resolves && There(t) == Some(FILE) && !t.opens)
    && (reply == Status(201) <==> t.resolves && There(t) == Some(FILE) && t.opens)
  }

  /** `process_put`; `written` is the new contents of the file, if any. */
  method ProcessPut(body: seq<byte>, size: nat, t: Target) returns (reply: PutReply, written: Option<seq<byte>>)
    requires size <= |body|
    ensures Answered(t, reply)
    ensures reply == Status(404) <==> !t.resolves
    ensures reply == Status(403) <==> t.resolves && t.found == None && t.created == None
    ensures reply == Status(405) <==>
      t.resolves && (t.found == Some(COLLECTION) || (t.found == None && t.created == Some(COLLECTION)))
    ensures reply == Status(201) <==>
      t.resolves && t.opens && (t.found == Some(FILE) || (t.found == None && t.created == Some(FILE)))
    ensures written == if reply == Status(201) then Some(body[..size]) else None
  {
    written := None;
    if !t.resolves { return Status(404), None; }
    var resource := t.found;
    if resource.None? {
      resource := t.created;
      if resource.None? { return Status(403), None; }
    }
    if resource.value == COLLECTION { return Status(405), None; }
    if !t.opens { return NoReply, None; }
    var file := Put(body, size);
    return Status(201), Some(file);
  }

  /** A request read from a connection and handed to `process_put`: the copy loop terminates,
      because the framing guarantees its input, and what is written are exactly the announced
      bytes after the header block, even when the first read ran past the body. */
  method ReceivePut(c: Connection, t: Target)
      returns (r: Outcome, reply: PutReply, written: Option<seq<byte>>, ghost first: nat)
    modifies c`buffer, c.socket`incoming
    ensures var s := old(c.socket.incoming);
            && first <= |s|
            && var v := Seen(old(c.buffer), s, first);
            && r == (if s == [] then Failed else Framed(v, first))
            && (!r.Got? ==> reply == NoReply && written == None)
            && (r.Got? ==>
                  var e, n := Find(v[..first], BLANK, 0).value, r.contentLength;
                  && e + 4 + n <= |v| && Answered(t, reply)
                  && written == if reply == Status(201) then Some(v[e + 4..e + 4 + n]) else None)
  {
    ghost var b, s := c.buffer, c.socket.incoming;
    r, first := c.ParseRequest();
    reply, written := NoReply, None;
    if r.Got? {
      BodyIsLongEnough(Seen(b, s, first), first);
      reply, written := ProcessPut(r.body, r.contentLength, t);
    }
  }
}
