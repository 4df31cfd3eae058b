/** HTTP header blocks: `parse_headers` and `generate_response`. */
module Headers {
  import opened Text

  const CRLF := "\r\n"
  const BLANK := "\r\n\r\n"

  // ---------------------------------------------------------------- numbers

  function SkipSpace(s: string): string {
    if s != "" && IsSpace(s[0]) then SkipSpace(s[1..]) else s
  }

  /** `std::stoul` with a 32-bit `unsigned long`: white space, a sign, then digits up to the
      first other character.  `None` is an exception; a minus sign wraps around. */
  function Stoul(s: string): Option<nat> {
    var t := SkipSpace(s);
    var signed := t != "" && (t[0] == '-' || t[0] == '+');
    var d := if signed then t[1..] else t;
    if d == "" || !IsDigit(d[0]) then None
    else
      var v := ReadDigits(d, 0);
      if v >= 0x1_0000_0000 then None
      else Some(if signed && t[0] == '-' then (0x1_0000_0000 - v) % 0x1_0000_0000 else v)
  }

  lemma {:induction false} SpaceIsSkipped(w: string, t: string)
    requires (forall c :: c in w ==> c in " \t\n\U{0B}\U{0C}\r") && (t == "" || !IsSpace(t[0]))
    ensures SkipSpace(w + t) == t
  {
    if w == "" {
      assert w + t == t;
    } else {
      assert (w + t)[1..] == w[1..] + t;
      SpacesAreSix(w[0]);
      SpaceIsSkipped(w[1..], t);
    }
  }

  lemma NumberStarts(n: nat, t: string)
    ensures var d := Decimal(n) + t; d != "" && IsDigit(d[0]) && !IsSpace(d[0]) && d[0] != '-' && d[0] != '+'
  {
    DecimalIsDigits(n);
    assert (Decimal(n) + t)[0] in Decimal(n);
  }

  lemma NumberIsRead(n: nat, t: string)
    requires t == "" || t[0] !in "0123456789"
    ensures ReadDigits(Decimal(n) + t, 0) == n
  {
    if t != "" { DigitsAreTen(t[0]); }
    DecimalIsDigits(n);
    DecimalReadsBack(n);
    ReadDigitsStops(Decimal(n), t, 0);
  }

  /** What `stoul` makes of a decimal number behind white space and a sign, whatever follows. */
  lemma StoulReads(w: string, sign: string, n: nat, t: string)
    requires (forall c :: c in w ==> c in " \t\n\U{0B}\U{0C}\r") && (sign == "" || sign == "+" || sign == "-")
    requires t == "" || t[0] !in "0123456789"
    ensures Stoul(w + (sign + (Decimal(n) + t)))
      == if n > 4294967295 then None else if sign == "-" && n > 0 then Some(4294967296 - n) else Some(n)
  {
    var d := Decimal(n) + t;
    NumberStarts(n, t);
    NumberIsRead(n, t);
    assert sign == "" ==> sign + d == d;
    assert sign != "" ==> (sign + d)[0] == sign[0] && (sign + d)[1..] == d;
    SpaceIsSkipped(w, sign + d);
  }

  /** Without a digit there is no number. */
  lemma StoulRefuses(w: string, sign: string, t: string)
    requires (forall c :: c in w ==> c in " \t\n\U{0B}\U{0C}\r") && (sign == "" || sign == "+" || sign == "-")
    requires t == "" || (t[0] !in "0123456789" && t[0] !in " \t\n\U{0B}\U{0C}\r" && t[0] != '+' && t[0] != '-')
    ensures Stoul(w + (sign + t)) == None
  {
    if t != "" {
      DigitsAreTen(t[0]);
      SpacesAreSix(t[0]);
    }
    assert sign == "" ==> sign + t == t;
    assert sign != "" ==> (sign + t)[0] == sign[0] && (sign + t)[1..] == t;
    SpaceIsSkipped(w, sign + t);
  }

  // ---------------------------------------------------------------- parsing

  function TrimLeft(s: string): string {
    if s != "" && (s[0] == ' ' || s[0] == '\t') then TrimLeft(s[1..]) else s
  }

  /** All leading blanks and tabs go, and nothing else. */
  lemma {:induction false} BlanksAreTrimmed(w: string, v: string)
    requires (forall c :: c in w ==> c in " \t") && (v == "" || v[0] !in " \t")
    ensures TrimLeft(w + v) == v
  {
    if w == "" {
      assert w + v == v;
    } else {
      assert (w + v)[1..] == w[1..] + v;
      assert w[0] in w;
      BlanksAreTrimmed(w[1..], v);
    }
  }

  datatype Field = Field(key: string, value: string)

  function ParseLine(line: string): Option<Field> {
    var l := DropCr(line);
    var colon := FirstOf(l, {':'}, 0);
    if l == "" || colon == |l| then None else Some(Field(Lower(l[..colon]), TrimLeft(l[colon + 1..])))
  }

  datatype Parsed = Parsed(headers: map<string, string>, contentLength: nat) | Threw

  function Stored(headers: map<string, string>, contentLength: nat, f: Field): Parsed {
    var after := headers[f.key := f.value];
    if f.key == "content-length" then (if Stoul(f.value).None? then Threw else Parsed(after, Stoul(f.value).value))
    else Parsed(after, contentLength)
  }

  function AddField(p: Parsed, line: string): Parsed {
    if p.Threw? || ParseLine(line).None? then p else Stored(p.headers, p.contentLength, ParseLine(line).value)
  }

  function AddFields(p: Parsed, lines: seq<string>): Parsed
    decreases lines
  {
    if lines == [] then p else AddFields(AddField(p, lines[0]), lines[1..])
  }

  function ParseHeaders(block: string): Parsed { AddFields(Parsed(map[], 0), Lines(block, '\n')) }

  lemma {:induction false} ThrewStays(lines: seq<string>)
    ensures AddFields(Threw, lines) == Threw
    decreases lines
  {
    if lines != [] { ThrewStays(lines[1..]); }
  }

  lemma FieldsStep(p: Parsed, lines: seq<string>, k: nat)
    requires k < |lines|
    ensures AddFields(p, lines[k..]) == AddFields(AddField(p, lines[k]), lines[k + 1..])
  {
    assert lines[k..][0] == lines[k] && lines[k..][1..] == lines[k + 1..];
  }

  /** One line of the block: `None` if it is blank or has no colon. */
  method ReadField(text: string) returns (field: Option<Field>)
    ensures field == ParseLine(text)
  {
    if text == "" || text == "\r" { return None; }
    var line := text;
    if line[|line| - 1] == '\r' { line := line[..|line| - 1]; }
    var colon := FirstOf(line, {':'}, 0);
    if colon == |line| { return None; }
    var key, value := line[..colon], line[colon + 1..];
    ghost var v := value;
    while value != "" && (value[0] == ' ' || value[0] == '\t')
      invariant TrimLeft(v) == TrimLeft(value)
      decreases value
    {
      value := value[1..];
    }
    field := Some(Field(Lower(key), value));
  }

  /** The parsed length is the value of the content-length header, or zero without one. */
  predicate LengthIsHeader(p: Parsed)
    requires p.Parsed?
  {
    if "content-length" in p.headers then Stoul(p.headers["content-length"]) == Some(p.contentLength)
    else p.contentLength == 0
  }

  lemma {:induction false} LengthFromHeader(p: Parsed, lines: seq<string>)
    requires p.Parsed? && LengthIsHeader(p)
    ensures var r := AddFields(p, lines); r.Parsed? ==> LengthIsHeader(r)
    decreases lines
  {
    if lines != [] {
      var q := AddField(p, lines[0]);
      if q.Parsed? { LengthFromHeader(q, lines[1..]); } else { ThrewStays(lines[1..]); }
    }
  }

  function Lookup(headers: map<string, string>, key: string): string { if key in headers then headers[key] else "" }

  /** The part of `HttpRequest` that `parse_headers` fills. */
  class HttpRequest {
    var headers: map<string, string>
    var contentLength: nat
    var host: string
    var ifMatch: string
    var ifNoneMatch: string
    var authorization: string
    var depth: string
    var destination: string
    var overwrite: string
    var lockToken: string
    var contentType: string

    ghost predicate HttpCopies(m: map<string, string>) reads this {
      && host == Lookup(m, "host") && ifMatch == Lookup(m, "if-match")
      && ifNoneMatch == Lookup(m, "if-none-match") && authorization == Lookup(m, "authorization")
    }

    ghost predicate DavCopies(m: map<string, string>) reads this {
      && depth == Lookup(m, "depth") && destination == Lookup(m, "destination")
      && overwrite == Lookup(m, "overwrite") && lockToken == Lookup(m, "lock-token")
      && contentType == Lookup(m, "content-type")
    }

    /** Every saved header is the entry of the map, or empty without one. */
    ghost predicate CopiesAgree() reads this { HttpCopies(headers) && DavCopies(headers) }

    constructor ()
      ensures headers == map[] && contentLength == 0 && CopiesAgree()
    {
      headers, contentLength := map[], 0;
      host, ifMatch, ifNoneMatch, authorization := "", "", "", "";
      depth, destination, overwrite, lockToken, contentType := "", "", "", "", "";
    }

    method SaveHttp(f: Field, ghost before: map<string, string>)
      requires HttpCopies(before)
      modifies this`host, this`ifMatch, this`ifNoneMatch, this`authorization
      ensures HttpCopies(before[f.key := f.value])
    {
      if f.key == "host" {
        host := f.value;
      } else if f.key == "if-match" {
        ifMatch := f.value;
      } else if f.key == "if-none-match" {
        ifNoneMatch := f.value;
      } else if f.key == "authorization" {
        authorization := f.value;
      }
    }

    method SaveDav(f: Field, ghost before: map<string, string>)
      requires DavCopies(before)
      modifies this`depth, this`destination, this`overwrite, this`lockToken, this`contentType
      ensures DavCopies(before[f.key := f.value])
    {
      if f.key == "depth" {
        depth := f.value;
      } else if f.key == "destination" {
        destination := f.value;
      } else if f.key == "overwrite" {
        overwrite := f.value;
      } else if f.key == "lock-token" {
        lockToken := f.value;
      } else if f.key == "content-type" {
        contentType := f.value;
      }
    }

    /** The body of the loop after the line has been taken apart; returns whether `stoul` threw.
        At most one of the keys matches. */
    method Store(f: Field) returns (threw: bool)
      requires CopiesAgree()
      modifies this
      ensures CopiesAgree()
      ensures var p := Stored(old(headers), old(contentLength), f);
              threw == p.Threw? && (!threw ==> headers == p.headers && contentLength == p.contentLength)
    {
      SaveHttp(f, headers);
      SaveDav(f, headers);
      headers := headers[f.key := f.value];
      threw := false;
      if f.key == "content-length" {
        var length := Stoul(f.value);
        if length.None? { return true; }
        contentLength := length.value;
      }
    }

    /** Returns whether an exception left the function. */
    method ParseHeaderBlock(block: string) returns (threw: bool)
      requires CopiesAgree()
      modifies this
      ensures CopiesAgree()
      ensures host == Lookup(headers, "host") && authorization == Lookup(headers, "authorization")
      ensures ifMatch == Lookup(headers, "if-match") && ifNoneMatch == Lookup(headers, "if-none-match")
      ensures depth == Lookup(headers, "depth") && destination == Lookup(headers, "destination")
      ensures overwrite == Lookup(headers, "overwrite") && lockToken == Lookup(headers, "lock-token")
      ensures contentType == Lookup(headers, "content-type")
      ensures var p := AddFields(Parsed(old(headers), old(contentLength)), Lines(block, '\n'));
              threw == p.Threw? && (!threw ==> headers == p.headers && contentLength == p.contentLength)
    {
      var lines := Lines(block, '\n');
      ghost var whole := AddFields(Parsed(headers, contentLength), lines);
      assert lines[0..] == lines;
      for k := 0 to |lines|
        invariant CopiesAgree()
        invariant whole == AddFields(Parsed(headers, contentLength), lines[k..])
      {
        FieldsStep(Parsed(headers, contentLength), lines, k);
        var field := ReadField(lines[k]);
        if field.None? { continue; }
        threw := Store(field.value);
        if threw {
          ThrewStays(lines[k + 1..]);
          return true;
        }
      }
      return false;
    }
  }

  // ---------------------------------------------------------------- generating

  datatype Response = Response(statusCode: nat, statusMessage: string, headers: map<string, string>, body: string)

  function StatusLine(r: Response): string { "HTTP/1.1 " + Decimal(r.statusCode) + " " + r.statusMessage }

  function HeaderLines(order: seq<string>, headers: map<string, string>): seq<string>
    requires forall k :: k in order ==> k in headers
  {
    seq(|order|, i requires 0 <= i < |order| => order[i] + ": " + headers[order[i]])
  }

  function ResponseText(r: Response, order: seq<string>): string
    requires forall k :: k in order ==> k in r.headers
  {
    Terminated([StatusLine(r)] + HeaderLines(order, r.headers), CRLF) + (CRLF + r.body)
  }

  /** `order` is the order in which the map of headers is iterated. */
  method GenerateResponse(r: Response, order: seq<string>) returns (oss: string)
    requires forall k :: k in order ==> k in r.headers
    ensures oss == ResponseText(r, order)
  {
    oss := "HTTP/1.1 " + Decimal(r.statusCode) + " " + r.statusMessage + CRLF;
    for k := 0 to |order|
      invariant oss == Terminated([StatusLine(r)] + HeaderLines(order[..k], r.headers), CRLF)
    {
      var line := order[k] + ": " + r.headers[order[k]];
      TerminatedSnoc([StatusLine(r)] + HeaderLines(order[..k], r.headers), line, CRLF);
      assert [StatusLine(r)] + HeaderLines(order[..k + 1], r.headers)
          == [StatusLine(r)] + HeaderLines(order[..k], r.headers) + [line];
      oss := oss + (line + CRLF);
    }
    assert order[..|order|] == order;
    var tail := CRLF;
    if r.body != "" { tail := tail + r.body; }
    oss := oss + tail;
  }

  // ---------------------------------------------------------------- generate, then parse

  predicate PlainLine(s: string) { s != "" && '\r' !in s && '\n' !in s }

  predicate PlainLines(ls: seq<string>) { forall i :: 0 <= i < |ls| ==> PlainLine(ls[i]) }

  predicate GoodKey(k: string) { ':' !in k && '\r' !in k && '\n' !in k }

  predicate GoodValue(v: string) {
    '\r' !in v && '\n' !in v && (v != "" ==> v[0] != ' ' && v[0] != '\t')
  }

  ghost predicate GoodHeaders(headers: map<string, string>) {
    && (forall k :: k in headers ==> GoodKey(k) && GoodValue(headers[k]))
    && (forall k :: k in headers && Lower(k) == "content-length" ==> Stoul(headers[k]).Some?)
    && forall k, l :: k in headers && l in headers && k != l ==> Lower(k) != Lower(l)
  }

  predicate GoodMessage(m: string) { ':' !in m && '\r' !in m && '\n' !in m }

  /** `low` is `headers` with every key in lower case. */
  ghost predicate IsLowered(low: map<string, string>, headers: map<string, string>) {
    && (forall k :: k in headers ==> Lower(k) in low && low[Lower(k)] == headers[k])
    && forall x :: x in low ==> exists k :: k in headers && Lower(k) == x
  }

  lemma StatusLineIsPlain(r: Response)
    requires GoodMessage(r.statusMessage)
    ensures PlainLine(StatusLine(r)) && ':' !in StatusLine(r)
  {
    DecimalIsDigits(r.statusCode);
    var d := Decimal(r.statusCode);
    forall c | c in StatusLine(r) ensures c != ':' && c != '\r' && c != '\n' {
      assert c in "HTTP/1.1 " || c in d || c in " " || c in r.statusMessage;
    }
  }

  lemma DropOneCr(l: string)
    requires PlainLine(l)
    ensures DropCr(l) == l && DropCr(l + "\r") == l
  {
    assert l[|l| - 1] in l;
    assert (l + "\r")[..|l|] == l;
  }

  lemma ParseAt(line: string, k: string, v: string)
    requires DropCr(line) == k + ": " + v && GoodKey(k) && GoodValue(v)
    ensures ParseLine(line) == Some(Field(Lower(k), v))
  {
    var l := DropCr(line);
    FirstOfIs(l, {':'}, 0, |k|);
    assert l[..|k|] == k && l[|k| + 1..] == " " + v;
    assert (" " + v)[1..] == v;
    assert TrimLeft(v) == v;
    assert TrimLeft(" " + v) == v;
  }

  lemma HeaderLineParses(k: string, v: string)
    requires GoodKey(k) && GoodValue(v)
    ensures PlainLine(k + ": " + v)
    ensures ParseLine(k + ": " + v) == Some(Field(Lower(k), v))
    ensures ParseLine(k + ": " + v + "\r") == Some(Field(Lower(k), v))
  {
    var l := k + ": " + v;
    DropOneCr(l);
    ParseAt(l, k, v);
    ParseAt(l + "\r", k, v);
  }

  lemma ColonFreeIsSkipped(l: string)
    requires PlainLine(l) && ':' !in l
    ensures ParseLine(l) == None && ParseLine(l + "\r") == None
  {
    FirstOfIs(l, {':'}, 0, |l|);
    DropOneCr(l);
  }

  /** The lines `getline` finds in a header block: all but the last end in a carriage return. */
  function WithCr(ls: seq<string>): seq<string> {
    if |ls| <= 1 then ls else [ls[0] + "\r"] + WithCr(ls[1..])
  }

  lemma MoveCr(head: string, rest: string)
    ensures head + (CRLF + rest) == (head + "\r") + (['\n'] + rest)
  {}

  lemma {:induction false} LinesOfBlock(ls: seq<string>)
    requires ls != [] && PlainLines(ls)
    ensures Lines(Join(ls, CRLF), '\n') == WithCr(ls)
  {
    var l := ls[0];
    assert PlainLine(l);
    if |ls| == 1 {
      assert Join(ls, CRLF) == l;
      OnlyLine(l, '\n');
    } else {
      var rest := Join(ls[1..], CRLF);
      assert [l] + ls[1..] == ls;
      JoinHead(l, ls[1..], CRLF);
      MoveCr(l, rest);
      LinesHead(l + "\r", rest, '\n');
      LinesOfBlock(ls[1..]);
    }
  }

  /** `after` is `before` with the headers of `order` added under lower-case keys. */
  ghost predicate Added(before: map<string, string>, after: map<string, string>,
                        order: seq<string>, headers: map<string, string>)
    requires forall k :: k in order ==> k in headers
  {
    && (forall k :: k in order ==> Lower(k) in after && after[Lower(k)] == headers[k])
    && (forall x :: x in after ==> x in before || exists k :: k in order && Lower(k) == x)
    && forall x :: x in before ==> x in after && (after[x] == before[x] || exists k :: k in order && Lower(k) == x)
  }

  lemma AddedStep(before: map<string, string>, after: map<string, string>,
                  order: seq<string>, headers: map<string, string>)
    requires GoodHeaders(headers) && order != [] && forall k :: k in order ==> k in headers
    requires Added(before[Lower(order[0]) := headers[order[0]]], after, order[1..], headers)
    ensures Added(before, after, order, headers)
  {
    var k0 := order[0];
    var mid := before[Lower(k0) := headers[k0]];
    assert forall k :: k in order <==> k == k0 || k in order[1..];
    assert forall k :: k in order[1..] && Lower(k) == Lower(k0) ==> k == k0;
  }

  lemma OneHeader(p: Parsed, k: string, v: string, line: string)
    requires p.Parsed? && GoodKey(k) && GoodValue(v) && (Lower(k) == "content-length" ==> Stoul(v).Some?)
    requires line == k + ": " + v || line == k + ": " + v + "\r"
    ensures AddField(p, line).Parsed? && AddField(p, line).headers == p.headers[Lower(k) := v]
  {
    HeaderLineParses(k, v);
  }

  lemma {:induction false} AddHeaderLines(p: Parsed, order: seq<string>, headers: map<string, string>)
    requires p.Parsed? && GoodHeaders(headers) && forall k :: k in order ==> k in headers
    ensures var r := AddFields(p, WithCr(HeaderLines(order, headers)));
            r.Parsed? && Added(p.headers, r.headers, order, headers)
    decreases |order|
  {
    if order != [] {
      var k, lines := order[0], HeaderLines(order, headers);
      var line, rest := WithCr(lines)[0], WithCr(lines)[1..];
      OneHeader(p, k, headers[k], line);
      var q := AddField(p, line);
      assert lines[1..] == HeaderLines(order[1..], headers);
      assert rest == WithCr(lines[1..]);
      AddHeaderLines(q, order[1..], headers);
      AddedStep(p.headers, AddFields(q, rest).headers, order, headers);
      assert AddFields(p, WithCr(lines)) == AddFields(q, rest);
    }
  }

  // ---------------------------------------------------------------- the end of the block

  /** No blank line occurs inside plain lines joined by CRLF, nor across their end. */
  lemma {:induction false} NoEarlyBlank(s: string, start: nat, ls: seq<string>, i: nat)
    requires ls != [] && PlainLines(ls) && start <= |s|
    requires Join(ls, CRLF) + BLANK <= s[start..]
    requires start <= i < start + |Join(ls, CRLF)|
    ensures !OccursAt(s, BLANK, i)
    decreases |ls|
  {
    var l := ls[0];
    var block := Join(ls, CRLF) + BLANK;
    assert s[i] == block[i - start];
    if i < start + |l| {
      assert block[i - start] == l[i - start];
    } else {
      assert |ls| > 1;
      assert [l] + ls[1..] == ls;
      JoinHead(l, ls[1..], CRLF);
      var rest := Join(ls[1..], CRLF);
      var next := start + |l| + 2;
      assert block == l + (CRLF + (rest + BLANK));
      BlockTail(s, start, l, rest + BLANK);
      if i == start + |l| {
        NotBlankHere(s, i, rest + BLANK);
      } else if i > start + |l| + 1 {
        NoEarlyBlank(s, next, ls[1..], i);
      }
    }
  }

  lemma BlockTail(s: string, start: nat, l: string, rest: string)
    requires start <= |s| && l + (CRLF + rest) <= s[start..]
    ensures start + |l| + 2 <= |s| && rest <= s[start + |l| + 2..]
    ensures s[start + |l|] == '\r' && s[start + |l| + 1] == '\n'
  {
    var t := l + (CRLF + rest);
    assert forall i :: 0 <= i < |t| ==> s[start + i] == s[start..][i] == t[i];
    assert t[|l|] == '\r' && t[|l| + 1] == '\n' && t[|l| + 2..] == rest;
  }

  lemma NotBlankHere(s: string, i: nat, rest: string)
    requires i + 2 <= |s| && rest <= s[i + 2..] && rest != "" && rest[0] != '\r'
    ensures !OccursAt(s, BLANK, i)
  {
    assert s[i + 2] == s[i + 2..][0] == rest[0];
    assert i + 4 <= |s| ==> s[i..i + 4][2] == s[i + 2];
  }

  // ---------------------------------------------------------------- reading a response

  datatype FirstLine = FirstLine(version: string, code: nat, message: string)

  /** What a client makes of the first line: three parts between its first two blanks. */
  function ReadStatus(line: string): Option<FirstLine> {
    var a := FirstOf(line, {' '}, 0);
    if a == |line| then None
    else
      var b := FirstOf(line, {' '}, a + 1);
      if b == |line| then None else Some(FirstLine(line[..a], ReadDigits(line[a + 1..b], 0), line[b + 1..]))
  }

  lemma StatusReadsBack(version: string, code: nat, message: string)
    requires ' ' !in version
    ensures ReadStatus(version + " " + Decimal(code) + " " + message) == Some(FirstLine(version, code, message))
  {
    var d := Decimal(code);
    var line := version + " " + d + " " + message;
    var a, b := |version|, |version| + 1 + |d|;
    DecimalIsDigits(code);
    DecimalReadsBack(code);
    assert line[a] == ' ' && line[b] == ' ' && line[..a] == version && line[a + 1..b] == d && line[b + 1..] == message;
    FirstOfIs(line, {' '}, 0, a);
    forall i | a + 1 <= i < b ensures line[i] != ' ' { assert line[i] == d[i - a - 1] && d[i - a - 1] in d; }
    FirstOfIs(line, {' '}, a + 1, b);
  }

  lemma {:induction false} WithoutCr(ls: seq<string>, i: nat)
    requires i < |ls| && PlainLines(ls)
    ensures i < |WithCr(ls)| && DropCr(WithCr(ls)[i]) == ls[i]
  {
    assert PlainLine(ls[0]);
    DropOneCr(ls[0]);
    if i > 0 { WithoutCr(ls[1..], i - 1); }
  }

  /** The lines in front of the first blank line, without their line ends. */
  function HeadLines(text: string): seq<string> {
    var end := Find(text, BLANK, 0);
    var lines := Lines(text[..if end.None? then |text| else end.value], '\n');
    seq(|lines|, i requires 0 <= i < |lines| => DropCr(lines[i]))
  }

  lemma {:induction false} WithCrKeepsLength(ls: seq<string>)
    ensures |WithCr(ls)| == |ls|
  {
    if |ls| > 1 { WithCrKeepsLength(ls[1..]); }
  }

  lemma HeadLinesOf(text: string, lines: seq<string>, body: string)
    requires lines != [] && PlainLines(lines) && text == (Join(lines, CRLF) + BLANK) + body
    ensures HeadLines(text) == lines
  {
    EndOfBlock(text, lines, body);
    LinesOfBlock(lines);
    WithCrKeepsLength(lines);
    forall i | 0 <= i < |lines| ensures DropCr(WithCr(lines)[i]) == lines[i] { WithoutCr(lines, i); }
  }

  /** Read back, a response starts with the protocol version, the status code and the message,
      and goes on with one line per header, the key as it is in the map. */
  lemma ResponseReadsBack(r: Response, order: seq<string>)
    requires GoodHeaders(r.headers) && GoodMessage(r.statusMessage)
    requires forall k :: k in order <==> k in r.headers
    ensures var lines := HeadLines(ResponseText(r, order));
            && |lines| == 1 + |order|
            && ReadStatus(lines[0]) == Some(FirstLine("HTTP/1.1", r.statusCode, r.statusMessage))
            && forall i :: 0 <= i < |order| ==> lines[1 + i] == order[i] + ": " + r.headers[order[i]]
  {
    var lines := [StatusLine(r)] + HeaderLines(order, r.headers);
    LinesArePlain(r, order);
    TerminatedIsJoined(lines);
    assert ResponseText(r, order) == (Join(lines, CRLF) + BLANK) + r.body;
    HeadLinesOf(ResponseText(r, order), lines, r.body);
    StatusReadsBack("HTTP/1.1", r.statusCode, r.statusMessage);
    assert "HTTP/1.1" + " " == "HTTP/1.1 ";
  }

  /** The whole trip: whatever order the map is iterated in, the first blank line of a
      generated response ends its headers, what follows is its body, and parsing the block
      gives the headers back under lower-case keys. */
  lemma ResponseParsesBack(r: Response, order: seq<string>)
    requires GoodHeaders(r.headers) && GoodMessage(r.statusMessage)
    requires forall k :: k in order <==> k in r.headers
    ensures var text := ResponseText(r, order);
            var end := Find(text, BLANK, 0);
            && end.Some?
            && text[end.value + 4..] == r.body
            && ParseHeaders(text[..end.value]).Parsed?
            && IsLowered(ParseHeaders(text[..end.value]).headers, r.headers)
  {
    var lines := [StatusLine(r)] + HeaderLines(order, r.headers);
    var block, text := Join(lines, CRLF), ResponseText(r, order);
    LinesArePlain(r, order);
    TerminatedIsJoined(lines);
    assert text == (block + BLANK) + r.body;
    EndOfBlock(text, lines, r.body);
    BlockParses(r, order);
  }

  lemma LinesArePlain(r: Response, order: seq<string>)
    requires GoodHeaders(r.headers) && GoodMessage(r.statusMessage)
    requires forall k :: k in order <==> k in r.headers
    ensures PlainLines([StatusLine(r)] + HeaderLines(order, r.headers))
  {
    var lines := [StatusLine(r)] + HeaderLines(order, r.headers);
    StatusLineIsPlain(r);
    forall i | 0 <= i < |lines| ensures PlainLine(lines[i]) {
      if i > 0 { HeaderLineParses(order[i - 1], r.headers[order[i - 1]]); }
    }
  }

  lemma {:induction false} TerminatedIsJoined(ls: seq<string>)
    requires ls != []
    ensures Terminated(ls, CRLF) == Join(ls, CRLF) + CRLF
  {
    if |ls| > 1 {
      assert [ls[0]] + ls[1..] == ls;
      JoinHead(ls[0], ls[1..], CRLF);
      TerminatedIsJoined(ls[1..]);
    }
  }

  lemma EndOfBlock(text: string, lines: seq<string>, body: string)
    requires lines != [] && PlainLines(lines) && text == (Join(lines, CRLF) + BLANK) + body
    ensures var block := Join(lines, CRLF);
            Find(text, BLANK, 0) == Some(|block|) && text[..|block|] == block && text[|block| + 4..] == body
  {
    var n := |Join(lines, CRLF)|;
    assert text[n..n + 4] == BLANK;
    FindIsFirst(text, BLANK, 0, n);
    assert text[0..] == text;
    var end := Find(text, BLANK, 0).value;
    if end < n { NoEarlyBlank(text, 0, lines, end); }
  }

  lemma BlockParses(r: Response, order: seq<string>)
    requires GoodHeaders(r.headers) && GoodMessage(r.statusMessage)
    requires forall k :: k in order <==> k in r.headers
    ensures var p := ParseHeaders(Join([StatusLine(r)] + HeaderLines(order, r.headers), CRLF));
            p.Parsed? && IsLowered(p.headers, r.headers)
  {
    var status, rest := StatusLine(r), HeaderLines(order, r.headers);
    var lines := [status] + rest;
    var block := Join(lines, CRLF);
    LinesArePlain(r, order);
    assert block[0..] == block;
    LinesOfBlock(lines);
    StatusLineIsPlain(r);
    ColonFreeIsSkipped(status);
    assert lines[1..] == rest;
    assert WithCr(lines)[1..] == WithCr(rest);
    AddHeaderLines(Parsed(map[], 0), order, r.headers);
  }
}
