/** The request line: the method table and `parse_request_line`. */
module RequestLine {
  import opened Text
  import opened Splitting
  import opened UrlCodec

  datatype Method = GET | HEAD | PUT | DELETE | MKCOL | PROPFIND | PROPPATCH | COPY | MOVE | LOCK | UNLOCK | OPTIONS

  datatype Version = HTTP10 | HTTP11 | UNKNOWN

  /** `version` is `None` when the line has no third part: the program then leaves the
      field as it was. */
  datatype Request = Request(verb: Method, path: seq<byte>, version: Option<Version>)

  function MethodToString(m: Method): seq<byte> {
    match m
    case GET => "GET"
    case HEAD => "HEAD"
    case PUT => "PUT"
    case DELETE => "DELETE"
    case MKCOL => "MKCOL"
    case PROPFIND => "PROPFIND"
    case PROPPATCH => "PROPPATCH"
    case COPY => "COPY"
    case MOVE => "MOVE"
    case LOCK => "LOCK"
    case UNLOCK => "UNLOCK"
    case OPTIONS => "OPTIONS"
  }

  function StringToMethod(s: seq<byte>): Option<Method> {
    if s == "GET" then Some(GET)
    else if s == "HEAD" then Some(HEAD)
    else if s == "PUT" then Some(PUT)
    else if s == "DELETE" then Some(DELETE)
    else if s == "MKCOL" then Some(MKCOL)
    else if s == "PROPFIND" then Some(PROPFIND)
    else if s == "PROPPATCH" then Some(PROPPATCH)
    else if s == "COPY" then Some(COPY)
    else if s == "MOVE" then Some(MOVE)
    else if s == "LOCK" then Some(LOCK)
    else if s == "UNLOCK" then Some(UNLOCK)
    else if s == "OPTIONS" then Some(OPTIONS)
    else None
  }

  function ParseRequestLine(line: seq<byte>): Option<Request> {
    var parts := Components(line, ' ');
    if |parts| < 2 then None
    else
      match StringToMethod(parts[0])
      case None => None
      case Some(verb) =>
        var version :=
          if |parts| < 3 then None
          else if parts[2] == "HTTP/1.1" then Some(HTTP11)
          else if parts[2] == "HTTP/1.0" then Some(HTTP10)
          else Some(UNKNOWN);
        Some(Request(verb, DecodeUrl(parts[1]), version))
  }

  lemma {:induction false} MethodNames(m: Method)
    ensures StringToMethod(MethodToString(m)) == Some(m)
    ensures ' ' !in MethodToString(m)
  {}

  /** The names themselves; no other text is a method. */
  lemma {:induction false} MethodsAreSpelled(s: seq<byte>)
    ensures StringToMethod(s) == Some(GET) <==> s == "GET"
    ensures StringToMethod(s) == Some(HEAD) <==> s == "HEAD"
    ensures StringToMethod(s) == Some(PUT) <==> s == "PUT"
    ensures StringToMethod(s) == Some(DELETE) <==> s == "DELETE"
    ensures StringToMethod(s) == Some(MKCOL) <==> s == "MKCOL"
    ensures StringToMethod(s) == Some(PROPFIND) <==> s == "PROPFIND"
    ensures StringToMethod(s) == Some(PROPPATCH) <==> s == "PROPPATCH"
    ensures StringToMethod(s) == Some(COPY) <==> s == "COPY"
    ensures StringToMethod(s) == Some(MOVE) <==> s == "MOVE"
    ensures StringToMethod(s) == Some(LOCK) <==> s == "LOCK"
    ensures StringToMethod(s) == Some(UNLOCK) <==> s == "UNLOCK"
    ensures StringToMethod(s) == Some(OPTIONS) <==> s == "OPTIONS"
  {}

  /** Words without blanks, the first a method and the second an encoded path: the third is the
      version, and the rest is ignored. */
  lemma VersionIsThirdWord(m: Method, p: seq<byte>, words: seq<seq<byte>>, line: seq<byte>)
    requires Free(words, ' ') && line == Join([MethodToString(m), EncodeUrl(p)] + words, " ")
    ensures ParseRequestLine(line) ==
      Some(Request(m, p,
        if words == [] then None else if words[0] == "HTTP/1.1" then Some(HTTP11)
        else if words[0] == "HTTP/1.0" then Some(HTTP10) else Some(UNKNOWN)))
  {
    var parts := [MethodToString(m), EncodeUrl(p)] + words;
    MethodNames(m);
    EncodeUrlAvoids(p, ' ');
    SplitWords(parts);
    DecodeUndoesEncodeUrl(p);
    ThirdPart(MethodToString(m), EncodeUrl(p), words);
  }

  /** A word that runs on over a line end names no version. */
  lemma LineEndHidesVersion(m: Method, p: seq<byte>, words: seq<seq<byte>>, line: seq<byte>)
    requires Free(words, ' ') && line == Join([MethodToString(m), EncodeUrl(p)] + words, " ")
    requires words != [] && '\r' in words[0]
    ensures ParseRequestLine(line) == Some(Request(m, p, Some(UNKNOWN)))
  {
    VersionIsThirdWord(m, p, words, line);
  }

  lemma ThirdPart(a: seq<byte>, b: seq<byte>, words: seq<seq<byte>>)
    ensures var parts := [a, b] + words;
            parts[0] == a && parts[1] == b && |parts| == 2 + |words| && (words != [] ==> parts[2] == words[0])
  {}

  lemma {:induction false} JoinedBytes(ps: seq<seq<byte>>)
    ensures forall i :: 0 <= i < |Join(ps, " ")| ==> Join(ps, " ")[i] as int < 256
  {
    if |ps| > 1 {
      JoinedBytes(ps[1..]);
      JoinHead(ps[0], ps[1..], " ");
      assert [ps[0]] + ps[1..] == ps;
    }
  }

  lemma SplitWords(ps: seq<seq<byte>>)
    requires ps != [] && Free(ps, ' ')
    ensures IsBytes(Join(ps, " "))
    ensures Components(Join(ps, " "), ' ') == ps
  {
    JoinedBytes(ps);
    SplitUndoesJoin(ps, ' ');
  }

  /** A line is refused if and only if it has no second word or its first is no method. */
  lemma RefusedLines(words: seq<seq<byte>>, line: seq<byte>)
    requires words != [] && Free(words, ' ') && line == Join(words, " ")
    ensures ParseRequestLine(line) == None <==> (|words| < 2 || StringToMethod(words[0]) == None)
  {
    SplitWords(words);
  }

  lemma {:induction false} EncodeUrlAvoids(p: seq<byte>, x: char)
    requires !IsUnreserved(x) && x != '%'
    ensures x !in EncodeUrl(p)
  {
    if p != [] { EncodeUrlAvoids(p[1..], x); }
  }

  lemma MethodAvoids(m: Method, x: char)
    requires !('A' <= x <= 'Z')
    ensures x !in MethodToString(m)
  {}

  lemma JoinThree(a: string, b: string, c: string)
    ensures Join([a, b, c], " ") == a + " " + b + " " + c
  {
    JoinHead(a, [b, c], " ");
    JoinHead(b, [c], " ");
    assert [a] + [b, c] == [a, b, c] && [b] + [c] == [b, c];
    assert a + (" " + (b + (" " + c))) == a + " " + b + " " + c;
  }

  lemma LineParts(a: seq<byte>, b: seq<byte>, c: seq<byte>)
    requires ' ' !in a && ' ' !in b && ' ' !in c
    ensures Components(a + " " + b + " " + c, ' ') == [a, b, c]
  {
    JoinThree(a, b, c);
    SplitUndoesJoin([a, b, c], ' ');
  }

  function LineOf(m: Method, p: seq<byte>): seq<byte> { MethodToString(m) + " " + EncodeUrl(p) + " HTTP/1.1" }

  /** Every method and every path, written as a request line, are read back. */
  lemma RequestLineReadsBack(m: Method, p: seq<byte>)
    ensures ParseRequestLine(LineOf(m, p)) == Some(Request(m, p, Some(HTTP11)))
  {
    MethodNames(m);
    EncodeUrlAvoids(p, ' ');
    assert LineOf(m, p) == MethodToString(m) + " " + EncodeUrl(p) + " " + "HTTP/1.1";
    LineParts(MethodToString(m), EncodeUrl(p), "HTTP/1.1");
    DecodeUndoesEncodeUrl(p);
  }

  lemma LineAvoids(m: Method, p: seq<byte>, x: char)
    requires x == '\r' || x == '\n' || x == ':'
    ensures x !in LineOf(m, p)
  {
    MethodAvoids(m, x);
    EncodeUrlAvoids(p, x);
    assert x !in " " && x !in " HTTP/1.1";
  }
}
