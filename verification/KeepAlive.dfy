/** The loop of `handle_request` parses one request after the other from the same buffer. */
module KeepAlive {
  import opened Text
  import opened UrlCodec
  import opened RequestLine
  import opened Headers
  import opened BodyFraming

  /** One turn of the loop.  Afterwards the buffer is empty, so that the next request is read
      as if on a fresh connection, exactly when it was empty before, the read ended at the
      blank line and no body was announced. */
  method ParseNext(c: Connection) returns (r: Outcome, ghost first: nat)
    modifies c`buffer, c.socket`incoming
    ensures var b, s := old(c.buffer), old(c.socket.incoming);
            && first <= |s| && r == (if s == [] then Failed else Framed(Seen(b, s, first), first))
            && (r.Got? ==>
                  var e := Find(Seen(b, s, first)[..first], BLANK, 0).value;
                  c.buffer == [] <==> b == [] && first == e + 4 && r.contentLength == 0)
  {
    r, first := c.ParseRequest();
  }

  /** Two requests on one connection. */
  method ServeTwo(c: Connection) returns (r1: Outcome, r2: Outcome, ghost first: nat, ghost second: nat)
    modifies c`buffer, c.socket`incoming
    ensures var b, s := old(c.buffer), old(c.socket.incoming);
            && first <= |s| && r1 == (if s == [] then Failed else Framed(Seen(b, s, first), first))
            && (r1.Got? ==>
                  var e := Find(Seen(b, s, first)[..first], BLANK, 0).value;
                  var left := (first - e - 4) + Beyond(r1.contentLength, first - e - 4) + |b|;
                  var all := (b + s)[e + 4..];
                  && left <= |all| && second <= |all| - left
                  && r2 == (if left == |all| then Failed else Framed(Seen(all[..left], all[left..], second), second)))
  {
    r1, first := c.ParseRequest();
    r2, second := Failed, 0;
    if r1.Got? {
      LeftAndRest(c.buffer, c.socket.incoming);
      r2, second := c.ParseRequest();
    }
  }

  lemma LeftAndRest(buffer: seq<byte>, rest: seq<byte>)
    ensures (buffer + rest)[..|buffer|] == buffer && (buffer + rest)[|buffer|..] == rest
  {}

  // ---------------------------------------------------------------- a request behind a body

  /** A request without headers. */
  function RequestText(m: Method, p: seq<byte>): seq<byte> { LineOf(m, p) + BLANK }

  lemma BlankOfRequest(m: Method, p: seq<byte>)
    ensures PlainLine(LineOf(m, p)) && ':' !in LineOf(m, p)
    ensures Find(RequestText(m, p), BLANK, 0) == Some(|LineOf(m, p)|)
    ensures RequestText(m, p)[..|LineOf(m, p)|] == LineOf(m, p)
  {
    var l := LineOf(m, p);
    LineAvoids(m, p, '\r');
    LineAvoids(m, p, '\n');
    LineAvoids(m, p, ':');
    assert Join([l], CRLF) == l;
    assert RequestText(m, p) == (l + BLANK) + "";
    EndOfBlock(RequestText(m, p), [l], "");
  }

  lemma OneLineAdds(start: Parsed, l: string)
    ensures AddFields(start, [l]) == AddField(start, l)
  {
    assert AddFields(AddField(start, l), [l][1..]) == AddField(start, l);
  }

  lemma HeadOfLine(m: Method, p: seq<byte>)
    ensures ParseHead(LineOf(m, p)) == Got(Request(m, p, Some(HTTP11)), map[], 0, [])
  {
    var l := LineOf(m, p);
    BlankOfRequest(m, p);
    RequestLineReadsBack(m, p);
    OnlyLine(l, '\n');
    ColonFreeIsSkipped(l);
    OneLineAdds(Parsed(map[], 0), l);
  }

  /** On a fresh connection a request is understood... */
  lemma RequestIsUnderstood(m: Method, p: seq<byte>)
    ensures var q := RequestText(m, p); Framed(q, |q|) == Got(Request(m, p, Some(HTTP11)), map[], 0, [])
  {
    var q := RequestText(m, p);
    BlankOfRequest(m, p);
    HeadOfLine(m, p);
    assert q[..|q|] == q;
  }

  lemma NoBlankBefore(b: seq<byte>, q: seq<byte>, i: nat)
    requires '\r' !in b && OccursAt(b + q, BLANK, i)
    ensures |b| <= i && OccursAt(q, BLANK, i - |b|)
  {
    var t := b + q;
    OccursIsSlice(t, BLANK, i);
    assert t[i] == t[i..i + 4][0] == '\r';
    assert forall k :: 0 <= k < |b| ==> t[k] == b[k];
    OccursIsSlice(q, BLANK, i - |b|);
    assert t[i..i + 4] == q[i - |b|..i - |b| + 4];
  }

  /** Bytes in front push the blank line out of the part that is looked at. */
  lemma BlankIsPushedOut(b: seq<byte>, q: seq<byte>)
    requires b != [] && '\r' !in b && |q| >= 4 && Find(q, BLANK, 0) == Some(|q| - 4)
    ensures Find((b + q)[..|q|], BLANK, 0) == None
  {
    var f := Find((b + q)[..|q|], BLANK, 0);
    if f.Some? {
      OccursInPrefix(b + q, |q|, BLANK, f.value);
      NoBlankBefore(b, q, f.value);
      FindIsFirst(q, BLANK, 0, f.value - |b|);
    }
  }

  /** ...and behind any body without a carriage return, when a read returns just the request,
      it is not: the bytes of the body are taken for its start.  Section 9.3 of RFC 9112 has
      the second request answered like the first. */
  lemma RequestBehindBodyIsMisread(body: seq<byte>, m: Method, p: seq<byte>)
    requires body != [] && '\r' !in body
    ensures var q := RequestText(m, p); Framed(Seen(body, q, |q|), |q|) == InvalidLine
  {
    var q := RequestText(m, p);
    BlankOfRequest(m, p);
    BlankIsPushedOut(body, q);
    assert q[..|q|] == q && q[|q|..] == [];
    assert Seen(body, q, |q|) == (body + q)[..|q|];
    assert Seen(body, q, |q|)[..|q|] == Seen(body, q, |q|);
  }
}
