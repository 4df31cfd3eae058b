/** A whole PUT request: written with its length, framed, and stored. */
module Upload {
  import opened Text
  import opened Splitting
  import opened UrlCodec
  import opened RequestLine
  import opened Headers
  import opened BodyFraming

  /** The header block of a request that announces `n` bytes. */
  function LengthHeader(n: nat): seq<byte> {
    DecimalIsBytes(n);
    "Content-Length: " + Decimal(n)
  }

  function HeadOf(m: Method, p: seq<byte>, n: nat): seq<byte> { LineOf(m, p) + CRLF + LengthHeader(n) }

  function UploadText(m: Method, p: seq<byte>, body: seq<byte>): seq<byte> { HeadOf(m, p, |body|) + BLANK + body }

  lemma {:induction false} DecimalIsBytes(n: nat)
    ensures forall i :: 0 <= i < |Decimal(n)| ==> Decimal(n)[i] as int < 256
  {
    DecimalIsDigits(n);
    forall i | 0 <= i < |Decimal(n)| ensures Decimal(n)[i] as int < 256 { assert Decimal(n)[i] in Decimal(n); }
  }

  lemma HeadIsJoined(m: Method, p: seq<byte>, n: nat)
    ensures HeadOf(m, p, n) == Join([LineOf(m, p), LengthHeader(n)], CRLF)
    ensures PlainLines([LineOf(m, p), LengthHeader(n)]) && ':' !in LineOf(m, p)
  {
    var l, h := LineOf(m, p), LengthHeader(n);
    LineAvoids(m, p, '\r');
    LineAvoids(m, p, '\n');
    LineAvoids(m, p, ':');
    LengthHeaderIsPlain(n);
    assert [l] + [h] == [l, h];
    JoinHead(l, [h], CRLF);
    assert Join([h], CRLF) == h;
    Concat3(l, CRLF, h);
  }

  lemma LengthHeaderIsPlain(n: nat)
    ensures LengthHeader(n) == "Content-Length" + ": " + Decimal(n) && PlainLine(LengthHeader(n))
    ensures GoodKey("Content-Length") && GoodValue(Decimal(n)) && Lower("Content-Length") == "content-length"
  {
    DecimalIsDigits(n);
    assert Decimal(n)[0] in Decimal(n);
    forall c | c in LengthHeader(n) ensures c != '\r' && c != '\n' {
      assert c in "Content-Length: " || c in Decimal(n);
    }
  }

  lemma RegroupHead(a: string, b: string, v: string, h: string, d: string)
    ensures (a + " " + b + (" " + v)) + CRLF + (h + " " + d)
      == a + (" " + (b + (" " + ((v + CRLF + h) + (" " + d)))))
  {}

  lemma JoinFour(a: string, b: string, c: string, d: string)
    ensures Join([a, b, c, d], " ") == a + (" " + (b + (" " + (c + (" " + d)))))
  {
    JoinHead(a, [b, c, d], " ");
    JoinHead(b, [c, d], " ");
    JoinHead(c, [d], " ");
    assert [a] + [b, c, d] == [a, b, c, d] && [b] + [c, d] == [b, c, d] && [c] + [d] == [c, d];
    assert Join([d], " ") == d;
  }

  lemma HeadText(m: Method, p: seq<byte>, n: nat, c: seq<byte>)
    requires c == "HTTP/1.1" + CRLF + "Content-Length:"
    ensures HeadOf(m, p, n) == MethodToString(m) + (" " + (EncodeUrl(p) + (" " + (c + (" " + Decimal(n))))))
  {
    RegroupHead(MethodToString(m), EncodeUrl(p), "HTTP/1.1", "Content-Length:", Decimal(n));
    assert " " + "HTTP/1.1" == " HTTP/1.1" && "Content-Length:" + " " == "Content-Length: ";
  }

  /** The blank behind `Content-Length:` is the third of the block, so the third part of the
      request line is not just the version. */
  lemma LineOfHead(m: Method, p: seq<byte>, n: nat)
    ensures ParseRequestLine(HeadOf(m, p, n)) == Some(Request(m, p, Some(UNKNOWN)))
  {
    var c: seq<byte> := "HTTP/1.1" + CRLF + "Content-Length:";
    DecimalIsBytes(n);
    DecimalIsDigits(n);
    HeadText(m, p, n, c);
    JoinFour(MethodToString(m), EncodeUrl(p), c, Decimal(n));
    assert [MethodToString(m), EncodeUrl(p)] + [c, Decimal(n)] == [MethodToString(m), EncodeUrl(p), c, Decimal(n)];
    assert |c| > 8;
    VersionIsThirdWord(m, p, [c, Decimal(n)], HeadOf(m, p, n));
  }

  lemma SecondLineCounts(start: Parsed, l: string, h: string)
    requires AddField(start, l) == start
    ensures AddFields(start, [l, h]) == AddField(start, h)
  {
    assert [l, h][1..] == [h] && [h][1..] == [];
    assert AddFields(start, [h]) == AddField(start, h);
  }

  lemma LengthIsStored(n: nat)
    requires n <= 4294967295
    ensures AddField(Parsed(map[], 0), LengthHeader(n)) == Parsed(map["content-length" := Decimal(n)], n)
  {
    LengthHeaderIsPlain(n);
    HeaderLineParses("Content-Length", Decimal(n));
    StoulReads("", "", n, "");
    assert "" + ("" + (Decimal(n) + "")) == Decimal(n);
  }

  lemma HeadersOfHead(m: Method, p: seq<byte>, n: nat)
    requires n <= 4294967295
    ensures ParseHeaders(HeadOf(m, p, n)) == Parsed(map["content-length" := Decimal(n)], n)
  {
    var l, h := LineOf(m, p), LengthHeader(n);
    HeadIsJoined(m, p, n);
    TwoLines(l, h);
    ColonFreeIsSkipped(l);
    SecondLineCounts(Parsed(map[], 0), l + "\r", h);
    LengthIsStored(n);
  }

  lemma TwoLines(l: string, h: string)
    requires PlainLines([l, h])
    ensures PlainLine(l) && Lines(Join([l, h], CRLF), '\n') == [l + "\r", h]
  {
    LinesOfBlock([l, h]);
    assert PlainLine([l, h][0]);
    assert [l, h][1..] == [h];
  }

  /** For every method, path and body: however the request arrives, once the first read holds its
      header block, it is framed with exactly its body; cut short, it fails. */
  lemma UploadIsFramed(m: Method, p: seq<byte>, body: seq<byte>, first: nat, arrived: nat)
    requires |body| <= 4294967295
    requires |HeadOf(m, p, |body|)| + 4 <= first <= arrived <= |UploadText(m, p, body)|
    ensures var text := UploadText(m, p, body);
            Framed(text[..arrived], first) ==
              if arrived == |text|
              then Got(Request(m, p, Some(UNKNOWN)), map["content-length" := Decimal(|body|)], |body|, body)
              else Failed
  {
    var text, e := UploadText(m, p, body), |HeadOf(m, p, |body|)|;
    var s := text[..arrived];
    HeadIsJoined(m, p, |body|);
    EndOfBlock(text, [LineOf(m, p), LengthHeader(|body|)], body);
    BlankBehindHead(m, p, |body|, text, body, first);
    CutTwice(text, arrived, first, e, body);
    HeadIsParsed(m, p, |body|);
    BodyOfUpload(s, first, e, body);
  }

  lemma CutTwice(text: seq<byte>, arrived: nat, first: nat, e: nat, body: seq<byte>)
    requires e + 4 <= first <= arrived <= |text| && text[e + 4..] == body
    ensures var s := text[..arrived];
            s[..first] == text[..first] && s[..e] == text[..e] && s[e + 4..] == body[..arrived - e - 4]
  {}

  /** When the first read returns at least as many bytes behind the header block as are announced,
      all it returns counts as body. */
  lemma LongReadIsTaken(m: Method, p: seq<byte>, n: nat, rest: seq<byte>, s: seq<byte>, e: nat, first: nat)
    requires 0 < n <= 4294967295 && s == (HeadOf(m, p, n) + BLANK) + rest && e == |HeadOf(m, p, n)|
    requires e + 4 + n <= first <= |s|
    ensures var r := Framed(s, first);
      r.Got? && r.line == Request(m, p, Some(UNKNOWN)) && r.contentLength == n && r.body == s[e + 4..first]
  {
    BlankBehindHead(m, p, n, s, rest, first);
    StartsWithHead(HeadOf(m, p, n), rest, s);
    HeadIsParsed(m, p, n);
    LongReadIsFramed(s, first, e, ParseHead(s[..e]), n);
  }

  lemma StartsWithHead(head: seq<byte>, rest: seq<byte>, s: seq<byte>)
    requires s == (head + BLANK) + rest
    ensures s[..|head|] == head && s[|head| + 4..] == rest
  {}

  lemma HeadIsParsed(m: Method, p: seq<byte>, n: nat)
    requires n <= 4294967295
    ensures ParseHead(HeadOf(m, p, n)) == Got(Request(m, p, Some(UNKNOWN)), map["content-length" := Decimal(n)], n, [])
  {
    LineOfHead(m, p, n);
    HeadersOfHead(m, p, n);
  }

  lemma BlankBehindHead(m: Method, p: seq<byte>, n: nat, s: seq<byte>, rest: seq<byte>, first: nat)
    requires s == (HeadOf(m, p, n) + BLANK) + rest && |HeadOf(m, p, n)| + 4 <= first <= |s|
    ensures Find(s[..first], BLANK, 0) == Some(|HeadOf(m, p, n)|)
  {
    HeadIsJoined(m, p, n);
    EndOfBlock(s, [LineOf(m, p), LengthHeader(n)], rest);
    FindInPrefix(s, first, BLANK, |HeadOf(m, p, n)|);
  }

  lemma LongReadIsFramed(s: seq<byte>, first: nat, e: nat, head: Outcome, n: nat)
    requires first <= |s| && Find(s[..first], BLANK, 0) == Some(e) && ParseHead(s[..e]) == head
    requires head.Got? && head.contentLength == n && 0 < n && e + 4 + n <= first
    ensures var r := Framed(s, first);
      r.Got? && r.line == head.line && r.contentLength == n && r.body == s[e + 4..first]
  {}

  lemma BodyOfUpload(s: seq<byte>, first: nat, e: nat, body: seq<byte>)
    requires e + 4 <= first <= |s| <= e + 4 + |body| && s[e + 4..] == body[..|s| - e - 4]
    ensures BodyAt(s, first, e, |body|) == if |s| == e + 4 + |body| then Some(body) else None
  {
    if |s| == e + 4 + |body| {
      assert s[e + 4..e + 4 + |body|] == s[e + 4..] == body;
      if first == |s| { assert s[e + 4..first] == s[e + 4..]; }
    }
  }

  lemma SeenWhole(s: seq<byte>, first: nat)
    requires first <= |s|
    ensures Seen([], s, first) == s
  {
    SeenIsStream([]);
  }

  /** All of the request on a fresh connection. */
  lemma WholeUpload(m: Method, p: seq<byte>, body: seq<byte>, text: seq<byte>, first: nat)
    requires |body| <= 4294967295 && text == UploadText(m, p, body)
    requires |HeadOf(m, p, |body|)| + 4 <= first <= |text|
    ensures Framed(text, first)
      == Got(Request(m, p, Some(UNKNOWN)), map["content-length" := Decimal(|body|)], |body|, body)
  {
    assert text[..|text|] == text;
    UploadIsFramed(m, p, body, first, |text|);
  }

  lemma BodyBehind(head: seq<byte>, body: seq<byte>)
    ensures var text := head + BLANK + body;
            |text| == |head| + 4 + |body| && text[|head| + 4..|head| + 4 + |body|] == body
  {}

  /** What is written when the request at the front of the stream `s` is taken. */
  predicate Stores(s: seq<byte>, first: nat, r: Outcome, reply: PutReply, written: Option<seq<byte>>)
    requires first <= |s|
  {
    r.Got? ==>
      var at := Find(s[..first], BLANK, 0);
      && at.Some? && at.value + 4 + r.contentLength <= |s|
      && reply == Status(201) && written == Some(s[at.value + 4..at.value + 4 + r.contentLength])
  }

  /** `ReceivePut` on a fresh connection, for a file that is there. */
  method ReceiveFresh(c: Connection, t: Target)
      returns (r: Outcome, reply: PutReply, written: Option<seq<byte>>, ghost first: nat)
    requires c.buffer == [] && c.socket.incoming != [] && t.resolves && t.found == Some(FILE) && t.opens
    modifies c`buffer, c.socket`incoming
    ensures var s := old(c.socket.incoming);
            first <= |s| && r == Framed(s, first) && Stores(s, first, r, reply, written)
  {
    ghost var s := c.socket.incoming;
    r, reply, written, first := ReceivePut(c, t);
    SeenWhole(s, first);
  }

  lemma BodyIsStored(text: seq<byte>, first: nat, e: nat, body: seq<byte>,
                     r: Outcome, reply: PutReply, written: Option<seq<byte>>)
    requires first <= |text| && Stores(text, first, r, reply, written) && r.Got? && r.contentLength == |body|
    requires Find(text[..first], BLANK, 0) == Some(e)
    requires e + 4 + |body| <= |text| && text[e + 4..e + 4 + |body|] == body
    ensures reply == Status(201) && written == Some(body)
  {}

  /** The request sent on a fresh connection: its body ends up in the file. */
  method StoreUpload(c: Connection, t: Target, ghost m: Method, ghost p: seq<byte>, ghost body: seq<byte>)
      returns (reply: PutReply, written: Option<seq<byte>>, ghost first: nat)
    requires |body| <= 4294967295 && c.buffer == [] && c.socket.incoming == UploadText(m, p, body)
    requires t.resolves && t.found == Some(FILE) && t.opens
    modifies c`buffer, c.socket`incoming
    ensures |HeadOf(m, p, |body|)| + 4 <= first ==> reply == Status(201) && written == Some(body)
  {
    ghost var text := c.socket.incoming;
    var r;
    r, reply, written, first := ReceiveFresh(c, t);
    ghost var head := HeadOf(m, p, |body|);
    if |head| + 4 <= first {
      WholeUpload(m, p, body, text, first);
      BlankBehindHead(m, p, |body|, text, body, first);
      BodyBehind(head, body);
      BodyIsStored(text, first, |head|, body, r, reply, written);
    }
  }
}
