/** `process_propfind` and the properties of the two kinds of resource. */
module Propfind {
  import opened Text
  import opened DavXml
  import U = UrlCodec

  // ---------------------------------------------------------------- resources and their tokens

  /** What `strftime` makes of a modification time. */
  type Stamp = s: string | '<' !in s

  datatype Resource = File(filename: string, size: nat, modified: Stamp) | Collection(filename: string)

  /** A directory entry and the resource the factory creates for it, if any. */
  datatype Entry = Entry(filename: string, resource: Option<Resource>)

  /** The conversion from the file system's code page to UTF-8. */
  type Conversion = string -> seq<U.byte>

  const EPOCH := "Thu, 01 Jan 1970 00:00:00 GMT"

  function Encoded(path: string, conv: Conversion): seq<U.byte> { U.EncodeFilename(conv(path)) }

  // Each of these functions adds to the tokens `ts` of the document so far.

  function FileProperties(ts: seq<Token>, size: nat, modified: Stamp, name: string): seq<Token> {
    ts + Element("D:getcontentlength", Decimal(size)) + Element("D:getlastmodified", modified)
    + Element("D:creationdate", modified) + Element("D:displayname", EscapeXml(name)) + ResourceType(false)
  }

  function CollectionProperties(ts: seq<Token>, created: Stamp, name: string): seq<Token> {
    ts + Element("D:creationdate", created) + Element("D:displayname", EscapeXml(name)) + ResourceType(true)
  }

  function Properties(ts: seq<Token>, r: Resource, conv: Conversion): seq<Token> {
    var name := Encoded(r.filename, conv);
    match r
    case File(_, size, modified) => FileProperties(ts, size, modified, name)
    case Collection(_) => CollectionProperties(ts, EPOCH, name)
  }

  function Status(): seq<Token> { Element("D:status", "HTTP/1.1 " + Decimal(200) + " " + "OK") }

  /** The tokens up to the href. */
  function Begun(ts: seq<Token>, href: string): seq<Token> { ts + [RESPONSE] + Element("D:href", EscapeXml(href)) }

  function Propstat(ts: seq<Token>, r: Resource, conv: Conversion): seq<Token> {
    Properties(ts + [OpenTag("D:propstat")] + [OpenTag("D:prop")], r, conv) + [CloseTag("D:prop")]
    + Status() + [CloseTag("D:propstat")]
  }

  function Response(ts: seq<Token>, href: string, r: Resource, conv: Conversion): seq<Token> {
    Propstat(Begun(ts, href), r, conv) + [CloseTag("D:response")]
  }

  function ChildPath(path: string, filename: string): string {
    (if path != "" && path[|path| - 1] == '/' then path else path + "/") + filename
  }

  predicate Listed(e: Entry) { e.filename != "." && e.filename != ".." && e.resource.Some? }

  function Child(ts: seq<Token>, path: string, e: Entry, conv: Conversion): seq<Token> {
    if Listed(e) then Response(ts, Encoded(ChildPath(path, e.filename), conv), e.resource.value, conv) else ts
  }

  /** How one entry is added to a document. */
  type Adder = (seq<Token>, Entry) -> seq<Token>

  function ChildAdder(path: string, conv: Conversion): Adder { (ts, e) => Child(ts, path, e, conv) }

  /** The first `n` entries. */
  function Children(ts: seq<Token>, entries: seq<Entry>, n: nat, add: Adder): seq<Token>
    requires n <= |entries|
  {
    if n == 0 then ts else add(Children(ts, entries, n - 1, add), entries[n - 1])
  }

  // ---------------------------------------------------------------- the handler

  method AddFileProperties(size: nat, modified: Stamp, name: string, xml: DavXmlBuilder)
    requires xml.Valid()
    modifies xml
    ensures xml.Valid() && xml.tokens == FileProperties(old(xml.tokens), size, modified, name)
  {
    xml.AddContentLength(size);
    xml.AddLastModified(modified);
    xml.AddCreationDate(modified);
    xml.AddDisplayName(name);
    xml.AddResourceType(false);
  }

  method AddCollectionProperties(created: Stamp, name: string, xml: DavXmlBuilder)
    requires xml.Valid()
    modifies xml
    ensures xml.Valid() && xml.tokens == CollectionProperties(old(xml.tokens), created, name)
  {
    xml.AddCreationDate(created);
    xml.AddDisplayName(name);
    xml.AddResourceType(true);
  }

  method GetProperties(r: Resource, conv: Conversion, xml: DavXmlBuilder)
    requires xml.Valid()
    modifies xml
    ensures xml.Valid() && xml.tokens == Properties(old(xml.tokens), r, conv)
  {
    var name := U.EncodeFilenameLoop(conv(r.filename));
    match r
    case File(_, size, modified) => AddFileProperties(size, modified, name, xml);
    case Collection(_) => AddCollectionProperties(EPOCH, name, xml);
  }

  method AddPropstat(r: Resource, conv: Conversion, xml: DavXmlBuilder)
    requires xml.Valid()
    modifies xml
    ensures xml.Valid() && xml.tokens == Propstat(old(xml.tokens), r, conv)
  {
    xml.StartPropstat();
    xml.StartProp();
    GetProperties(r, conv, xml);
    xml.EndProp();
    xml.AddStatus(200, "OK");
    xml.EndPropstat();
  }

  method AddResponse(href: string, r: Resource, conv: Conversion, xml: DavXmlBuilder)
    requires xml.Valid()
    modifies xml
    ensures xml.Valid() && xml.tokens == Response(old(xml.tokens), href, r, conv)
  {
    xml.StartResponse(href);
    AddPropstat(r, conv, xml);
    xml.EndResponse();
  }

  /** The body of the loop over the directory's entries. */
  method AddChild(path: string, e: Entry, conv: Conversion, xml: DavXmlBuilder)
    requires xml.Valid()
    modifies xml
    ensures xml.Valid() && xml.tokens == Child(old(xml.tokens), path, e, conv)
  {
    if e.filename == "." || e.filename == ".." { return; }
    if e.resource.Some? {
      var childPath := path;
      if childPath == "" || childPath[|childPath| - 1] != '/' { childPath := childPath + "/"; }
      childPath := childPath + e.filename;
      var href := U.EncodeFilenameLoop(conv(childPath));
      AddResponse(href, e.resource.value, conv, xml);
    }
  }

  method AddChildren(path: string, entries: seq<Entry>, conv: Conversion, xml: DavXmlBuilder)
    requires xml.Valid()
    modifies xml
    ensures xml.Valid() && xml.tokens == Children(old(xml.tokens), entries, |entries|, ChildAdder(path, conv))
  {
    for k := 0 to |entries|
      invariant xml.Valid() && xml.tokens == Children(old(xml.tokens), entries, k, ChildAdder(path, conv))
    {
      AddChild(path, entries[k], conv, xml);
    }
  }

  /** A 404, or a 207 with its body. */
  datatype Reply = NotFound | Multistatus(body: string)

  const START := [] + [DECLARATION] + [MULTISTATUS]

  predicate HasSelf(depth: string, base: Option<Resource>) {
    base.Some? && (depth == "" || depth == "0" || depth == "1")
  }

  predicate HasChildren(depth: string, base: Option<Resource>) { base.Some? && depth == "1" && base.value.Collection? }

  function WithSelf(path: string, depth: string, base: Option<Resource>, conv: Conversion): seq<Token> {
    if HasSelf(depth, base) then Response(START, Encoded(path, conv), base.value, conv) else START
  }

  function Document(path: string, depth: string, base: Option<Resource>, entries: seq<Entry>, conv: Conversion)
      : seq<Token> {
    var self := WithSelf(path, depth, base, conv);
    (if HasChildren(depth, base) then Children(self, entries, |entries|, ChildAdder(path, conv)) else self)
      + [CloseTag("D:multistatus")]
  }

  method AddSelf(path: string, base: Option<Resource>, conv: Conversion, xml: DavXmlBuilder)
    requires xml.Valid()
    modifies xml
    ensures xml.Valid()
    ensures xml.tokens
      == if base.Some? then Response(old(xml.tokens), Encoded(path, conv), base.value, conv) else old(xml.tokens)
  {
    if base.Some? {
      var href := U.EncodeFilenameLoop(conv(path));
      AddResponse(href, base.value, conv, xml);
    }
  }

  method BuildDocument(path: string, depth: string, base: Option<Resource>, entries: seq<Entry>, conv: Conversion)
    returns (body: string)
    ensures Scan(body) == Some(Document(path, depth, base, entries, conv))
  {
    var level := if depth == "" then "0" else depth;
    var xml := new DavXmlBuilder();
    xml.AddDeclaration();
    xml.StartMultistatus();
    if level == "0" || level == "1" {
      AddSelf(path, base, conv, xml);
    }
    assert xml.tokens == WithSelf(path, depth, base, conv);
    if level == "1" {
      if base.Some? && base.value.Collection? {
        AddChildren(path, entries, conv, xml);
      }
    }
    xml.EndMultistatus();
    body := xml.Build();
  }

  /** `resolved` says whether the path lies under the root; `base` is what the factory finds there. */
  method ProcessPropfind(path: string, depth: string, resolved: bool, base: Option<Resource>, entries: seq<Entry>,
                         conv: Conversion)
    returns (reply: Reply)
    ensures reply.NotFound? <==> !resolved
    ensures resolved ==>
      && Scan(reply.body).Some?
      && var r := Read(Scan(reply.body).value);
      && r.stack == Some([])
      && r.prolog == ["xml version=\"1.0\" encoding=\"UTF-8\"?", "D:multistatus xmlns:D=\"DAV:\""]
      && r.reports == Reports(path, depth, base, entries, conv)
  {
    if !resolved { return NotFound; }
    var body := BuildDocument(path, depth, base, entries, conv);
    ReadDocument(path, depth, base, entries, conv);
    return Multistatus(body);
  }

  // ---------------------------------------------------------------- reading a document back

  /** What one `D:response` says: its path, whether there is a `D:collection`, and the texts of
      its properties and its status. */
  datatype Report = Report(
    href: string, collection: bool, length: Option<string>, modified: Option<string>,
    created: Option<string>, name: Option<string>, status: Option<string>)

  const NOTHING := Report("", false, None, None, None, None, None)

  /** The open elements (none once a tag closes the wrong one), what stands in front of their
      contents (the declaration and the outermost tag), the response being read and those read. */
  datatype Reading = Reading(
    stack: Option<seq<string>>, prolog: seq<string>, current: Report, reports: seq<Report>)

  /** The text of an element; the builder escapes paths and names. */
  function Filled(r: Report, name: string, text: string): Report {
    if name == "D:href" then r.(href := UnescapeXml(text))
    else if name == "D:getcontentlength" then r.(length := Some(text))
    else if name == "D:getlastmodified" then r.(modified := Some(text))
    else if name == "D:creationdate" then r.(created := Some(text))
    else if name == "D:displayname" then r.(name := Some(UnescapeXml(text)))
    else if name == "D:status" then r.(status := Some(text))
    else r
  }

  function ReadOpen(r: Reading, name: string, attrs: string): Reading {
    Reading(
      if r.stack.Some? then Some(r.stack.value + [name]) else None,
      if r.stack == Some([]) then r.prolog + [name + attrs] else r.prolog,
      if name == "D:response" then NOTHING else r.current, r.reports)
  }

  function ReadClose(r: Reading, text: string, name: string): Reading {
    Reading(
      if r.stack.Some? && r.stack.value != [] && r.stack.value[|r.stack.value| - 1] == name
      then Some(r.stack.value[..|r.stack.value| - 1]) else None,
      r.prolog, Filled(r.current, name, text),
      if name == "D:response" then r.reports + [r.current] else r.reports)
  }

  function ReadToken(r: Reading, t: Token): Reading {
    match t.tag
    case Declaration(text) => r.(prolog := r.prolog + [text])
    case Empty(name) => if name == "D:collection" then r.(current := r.current.(collection := true)) else r
    case Open(name, attrs) => ReadOpen(r, name, attrs)
    case Close(name) => ReadClose(r, t.text, name)
  }

  function Read(ts: seq<Token>): Reading {
    if ts == [] then Reading(Some([]), [], NOTHING, []) else ReadToken(Read(ts[..|ts| - 1]), ts[|ts| - 1])
  }

  lemma ReadOne(ts: seq<Token>, t: Token)
    ensures Read(ts + [t]) == ReadToken(Read(ts), t)
  {
    assert (ts + [t])[..|ts|] == ts;
  }

  // ---------------------------------------------------------------- what a reply has to say

  function ReportOf(href: string, r: Resource, conv: Conversion): Report {
    match r
    case File(filename, size, modified) =>
      Report(href, false, Some(Decimal(size)), Some(modified), Some(modified), Some(Encoded(filename, conv)), Some(OK))
    case Collection(filename) =>
      Report(href, true, None, None, Some(EPOCH), Some(Encoded(filename, conv)), Some(OK))
  }

  const OK := "HTTP/1.1 200 OK"

  /** The report on each resource, part by part. */
  lemma ReportSays(href: string, r: Resource, conv: Conversion)
    ensures var q := ReportOf(href, r, conv);
      && q.href == href && (q.collection <==> r.Collection?) && q.status == Some("HTTP/1.1 200 OK")
      && q.name == Some(U.EncodeFilename(conv(r.filename)))
      && q.length == (if r.File? then Some(Decimal(r.size)) else None)
      && q.modified == (if r.File? then Some(r.modified) else None)
      && q.created == Some(if r.File? then r.modified else "Thu, 01 Jan 1970 00:00:00 GMT")
  {}

  /** The reports a reply has to hold: on the resource itself, then on each listed child. */
  function Reports(path: string, depth: string, base: Option<Resource>, entries: seq<Entry>, conv: Conversion)
      : seq<Report> {
    (if HasSelf(depth, base) then [ReportOf(Encoded(path, conv), base.value, conv)] else [])
    + (if HasChildren(depth, base) then Gather(entries, |entries|, ReportOnChild(path, conv)) else [])
  }

  function ReportOnChild(path: string, conv: Conversion): Entry -> seq<Report> {
    e => if Listed(e) then [ReportOf(Encoded(ChildPath(path, e.filename), conv), e.resource.value, conv)] else []
  }

  /** What `report` says of the first `n` entries. */
  function Gather(entries: seq<Entry>, n: nat, report: Entry -> seq<Report>): seq<Report>
    requires n <= |entries|
  {
    if n == 0 then [] else Gather(entries, n - 1, report) + report(entries[n - 1])
  }

  /** Without a depth, or at depth 0, there is one report; at depth 1 those on the entries of a
      collection follow; at any other depth there is none. */
  lemma DepthDecides(path: string, depth: string, base: Option<Resource>, entries: seq<Entry>, conv: Conversion)
    ensures Reports(path, depth, base, entries, conv) ==
      if base.None? then []
      else if depth == "" || depth == "0" || (depth == "1" && base.value.File?) then
        [ReportOf(U.EncodeFilename(conv(path)), base.value, conv)]
      else if depth == "1" then
        [ReportOf(U.EncodeFilename(conv(path)), base.value, conv)]
        + Gather(entries, |entries|, ReportOnChild(path, conv))
      else []
  {}

  /** One report on each entry other than `.` and `..` for which there is a resource; its path is
      the one of the directory, a slash unless that ends in one, and the name. */
  lemma ChildIsReported(path: string, e: Entry, conv: Conversion)
    ensures ReportOnChild(path, conv)(e) ==
      if e.filename == "." || e.filename == ".." || e.resource.None? then []
      else
        var at := if path != "" && path[|path| - 1] == '/' then path + e.filename else path + "/" + e.filename;
        [ReportOf(U.EncodeFilename(conv(at)), e.resource.value, conv)]
  {}

  lemma {:induction false} GatherConcat(a: seq<Entry>, b: seq<Entry>, n: nat, report: Entry -> seq<Report>)
    requires n <= |b|
    ensures Gather(a + b, |a| + n, report) == Gather(a, |a|, report) + Gather(b, n, report)
  {
    if n == 0 {
      GatherPrefix(a, b, |a|, report);
    } else {
      GatherConcat(a, b, n - 1, report);
      Concat3(Gather(a, |a|, report), Gather(b, n - 1, report), report(b[n - 1]));
      assert (a + b)[|a| + n - 1] == b[n - 1];
    }
  }

  lemma {:induction false} GatherPrefix(a: seq<Entry>, b: seq<Entry>, n: nat, report: Entry -> seq<Report>)
    requires n <= |a|
    ensures Gather(a + b, n, report) == Gather(a, n, report)
  {
    if n > 0 { GatherPrefix(a, b, n - 1, report); }
  }

  /** The reports on the entries of a directory are those on each of them, in order. */
  lemma ReportsAddUp(a: seq<Entry>, e: Entry, b: seq<Entry>, report: Entry -> seq<Report>)
    ensures var all := a + ([e] + b);
            Gather(all, |all|, report) == Gather(a, |a|, report) + (report(e) + Gather(b, |b|, report))
  {
    GatherConcat(a, [e] + b, 1 + |b|, report);
    GatherConcat([e], b, |b|, report);
    assert Gather([e], 1, report) == Gather([e], 0, report) + report(e) == report(e);
  }

  // ---------------------------------------------------------------- what a document says

  lemma OpenThenClose(r: Reading, name: string, text: string)
    requires r.stack.Some? && r.stack.value != [] && name != "D:response"
    ensures ReadClose(ReadOpen(r, name, ""), text, name) == r.(current := Filled(r.current, name, text))
  {
    var st := r.stack.value;
    assert (st + [name])[..|st|] == st;
  }

  lemma ReadElement(ts: seq<Token>, name: string, text: string)
    requires Read(ts).stack.Some? && Read(ts).stack.value != [] && name != "D:response"
    ensures Read(ts + Element(name, text)) == Read(ts).(current := Filled(Read(ts).current, name, text))
  {
    var close := Token(text, Close(name));
    assert ts + Element(name, text) == ts + [OpenTag(name)] + [close];
    ReadOne(ts, OpenTag(name));
    ReadOne(ts + [OpenTag(name)], close);
    OpenThenClose(Read(ts), name, text);
  }

  lemma ReadResourceType(ts: seq<Token>, isCollection: bool)
    requires Read(ts).stack.Some? && Read(ts).stack.value != []
    ensures Read(ts + ResourceType(isCollection)) ==
      if isCollection then Read(ts).(current := Read(ts).current.(collection := true)) else Read(ts)
  {
    if isCollection {
      var name := "D:resourcetype";
      var inner := ts + [OpenTag(name)];
      assert ts + ResourceType(true) == inner + [EmptyTag("D:collection")] + [CloseTag(name)];
      ReadOne(ts, OpenTag(name));
      ReadOne(inner, EmptyTag("D:collection"));
      ReadOne(inner + [EmptyTag("D:collection")], CloseTag(name));
      OpenThenClose(Read(ts).(current := Read(ts).current.(collection := true)), name, "");
    } else {
      ReadOne(ts, EmptyTag("D:resourcetype"));
    }
  }

  lemma ReadName(ts: seq<Token>, text: string)
    requires Read(ts).stack.Some? && Read(ts).stack.value != []
    ensures Read(ts + Element("D:displayname", EscapeXml(text)))
      == Read(ts).(current := Read(ts).current.(name := Some(text)))
  {
    ReadElement(ts, "D:displayname", EscapeXml(text));
    UnescapeUndoesEscape(text);
  }

  lemma ReadHref(ts: seq<Token>, text: string)
    requires Read(ts).stack.Some? && Read(ts).stack.value != []
    ensures Read(ts + Element("D:href", EscapeXml(text))) == Read(ts).(current := Read(ts).current.(href := text))
  {
    ReadElement(ts, "D:href", EscapeXml(text));
    UnescapeUndoesEscape(text);
  }

  lemma ReadFileProperties(ts: seq<Token>, size: nat, modified: Stamp, name: string)
    requires Read(ts).stack.Some? && Read(ts).stack.value != []
    ensures Read(FileProperties(ts, size, modified, name)) == Read(ts).(current := Read(ts).current.(
      length := Some(Decimal(size)), modified := Some(modified), created := Some(modified), name := Some(name)))
  {
    var ts1 := ts + Element("D:getcontentlength", Decimal(size));
    ReadElement(ts, "D:getcontentlength", Decimal(size));
    var ts2 := ts1 + Element("D:getlastmodified", modified);
    ReadElement(ts1, "D:getlastmodified", modified);
    var ts3 := ts2 + Element("D:creationdate", modified);
    ReadElement(ts2, "D:creationdate", modified);
    ReadName(ts3, name);
    ReadResourceType(ts3 + Element("D:displayname", EscapeXml(name)), false);
  }

  lemma ReadCollectionProperties(ts: seq<Token>, created: Stamp, name: string)
    requires Read(ts).stack.Some? && Read(ts).stack.value != []
    ensures Read(CollectionProperties(ts, created, name)) == Read(ts).(current := Read(ts).current.(
      created := Some(created), name := Some(name), collection := true))
  {
    var ts1 := ts + Element("D:creationdate", created);
    ReadElement(ts, "D:creationdate", created);
    ReadName(ts1, name);
    ReadResourceType(ts1 + Element("D:displayname", EscapeXml(name)), true);
  }

  /** A fresh response to which the properties of `r` have been added. */
  lemma ReadProperties(ts: seq<Token>, href: string, r: Resource, conv: Conversion)
    requires Read(ts).stack.Some? && Read(ts).stack.value != [] && Read(ts).current == NOTHING.(href := href)
    ensures Read(Properties(ts, r, conv)) == Read(ts).(current := ReportOf(href, r, conv).(status := None))
  {
    var name := Encoded(r.filename, conv);
    match r
    case File(_, size, modified) => ReadFileProperties(ts, size, modified, name);
    case Collection(_) => ReadCollectionProperties(ts, EPOCH, name);
  }

  lemma ReadOpening(ts: seq<Token>, name: string, st: seq<string>)
    requires Read(ts).stack == Some(st) && st != [] && name != "D:response"
    ensures Read(ts + [OpenTag(name)]) == Read(ts).(stack := Some(st + [name]))
  {
    ReadOne(ts, OpenTag(name));
  }

  lemma ReadClosing(ts: seq<Token>, name: string, st: seq<string>)
    requires Read(ts).stack == Some(st + [name]) && name in ["D:prop", "D:propstat", "D:multistatus"]
    ensures Read(ts + [CloseTag(name)]) == Read(ts).(stack := Some(st))
  {
    ReadOne(ts, CloseTag(name));
    assert (st + [name])[..|st|] == st;
  }

  lemma ReadStatus(ts: seq<Token>)
    requires Read(ts).stack.Some? && Read(ts).stack.value != []
    ensures Read(ts + Status()) == Read(ts).(current := Read(ts).current.(status := Some(OK)))
  {
    StatusText();
    ReadElement(ts, "D:status", OK);
  }

  lemma StatusText()
    ensures "HTTP/1.1 " + Decimal(200) + " " + "OK" == OK
  {
    DecimalIsPositional(2, 0);
    DecimalIsPositional(20, 0);
    assert Decimal(2) == "2" && Decimal(20) == "20" && Decimal(200) == "200";
  }

  lemma ReadPropstat(ts: seq<Token>, href: string, r: Resource, conv: Conversion)
    requires Read(ts).stack.Some? && Read(ts).stack.value != [] && Read(ts).current == NOTHING.(href := href)
    ensures Read(Propstat(ts, r, conv)) == Read(ts).(current := ReportOf(href, r, conv))
  {
    var st := Read(ts).stack.value;
    var outer := ts + [OpenTag("D:propstat")];
    var inner := outer + [OpenTag("D:prop")];
    ReadOpening(ts, "D:propstat", st);
    ReadOpening(outer, "D:prop", st + ["D:propstat"]);
    ReadProperties(inner, href, r, conv);
    var props := Properties(inner, r, conv);
    ReadClosing(props, "D:prop", st + ["D:propstat"]);
    ReadStatus(props + [CloseTag("D:prop")]);
    ReadClosing(props + [CloseTag("D:prop")] + Status(), "D:propstat", st);
  }

  lemma ReadBegun(ts: seq<Token>, href: string, st: seq<string>)
    requires Read(ts).stack == Some(st) && st != []
    ensures var r := Read(ts);
            Read(Begun(ts, href)) == Reading(Some(st + ["D:response"]), r.prolog, NOTHING.(href := href), r.reports)
  {
    ReadOne(ts, RESPONSE);
    ReadHref(ts + [RESPONSE], href);
  }

  /** Reading over a response leaves the open elements alone and adds one report. */
  lemma ReadResponse(ts: seq<Token>, href: string, r: Resource, conv: Conversion)
    requires Read(ts).stack.Some? && Read(ts).stack.value != []
    ensures var before, after := Read(ts), Read(Response(ts, href, r, conv));
      && after.stack == before.stack && after.prolog == before.prolog
      && after.reports == before.reports + [ReportOf(href, r, conv)]
  {
    var st := Read(ts).stack.value;
    var begun := Begun(ts, href);
    ReadBegun(ts, href, st);
    ReadPropstat(begun, href, r, conv);
    ReadEndOfResponse(Propstat(begun, r, conv), st);
  }

  lemma ReadEndOfResponse(ts: seq<Token>, st: seq<string>)
    requires Read(ts).stack == Some(st + ["D:response"])
    ensures var before, after := Read(ts), Read(ts + [CloseTag("D:response")]);
      && after.stack == Some(st) && after.prolog == before.prolog
      && after.reports == before.reports + [before.current]
  {
    ReadOne(ts, CloseTag("D:response"));
    assert (st + ["D:response"])[..|st|] == st;
  }

  /** Adding entry `e` leaves the open elements alone and adds what `report` says. */
  ghost predicate AddsReports(ts: seq<Token>, e: Entry, add: Adder, report: Entry -> seq<Report>) {
    var r, t := Read(ts), Read(add(ts, e));
    r.stack.Some? && r.stack.value != [] ==>
      t.stack == r.stack && t.prolog == r.prolog && t.reports == r.reports + report(e)
  }

  lemma ChildAddsReport(ts: seq<Token>, e: Entry, path: string, conv: Conversion)
    ensures AddsReports(ts, e, ChildAdder(path, conv), ReportOnChild(path, conv))
  {
    if Listed(e) && Read(ts).stack.Some? && Read(ts).stack.value != [] {
      ReadResponse(ts, Encoded(ChildPath(path, e.filename), conv), e.resource.value, conv);
    }
  }

  lemma {:induction false} ReadEntries(ts: seq<Token>, entries: seq<Entry>, n: nat,
                                       add: Adder, report: Entry -> seq<Report>)
    requires Read(ts).stack.Some? && Read(ts).stack.value != [] && n <= |entries|
    requires forall t, e :: AddsReports(t, e, add, report)
    ensures var r, q := Read(ts), Read(Children(ts, entries, n, add));
            && q.stack == r.stack && q.prolog == r.prolog && q.reports == r.reports + Gather(entries, n, report)
  {
    if n > 0 {
      ReadEntries(ts, entries, n - 1, add, report);
      assert AddsReports(Children(ts, entries, n - 1, add), entries[n - 1], add, report);
      Concat3(Read(ts).reports, Gather(entries, n - 1, report), report(entries[n - 1]));
    }
  }

  lemma ReadChildren(ts: seq<Token>, path: string, entries: seq<Entry>, conv: Conversion)
    requires Read(ts).stack.Some? && Read(ts).stack.value != []
    ensures var r, q := Read(ts), Read(Children(ts, entries, |entries|, ChildAdder(path, conv)));
            && q.stack == r.stack && q.prolog == r.prolog
            && q.reports == r.reports + Gather(entries, |entries|, ReportOnChild(path, conv))
  {
    forall t, e ensures AddsReports(t, e, ChildAdder(path, conv), ReportOnChild(path, conv)) {
      ChildAddsReport(t, e, path, conv);
    }
    ReadEntries(ts, entries, |entries|, ChildAdder(path, conv), ReportOnChild(path, conv));
  }

  const PROLOG := ["xml version=\"1.0\" encoding=\"UTF-8\"?", "D:multistatus xmlns:D=\"DAV:\""]

  lemma ReadStart()
    ensures Read(START) == Reading(Some(["D:multistatus"]), PROLOG, NOTHING, [])
  {
    ReadOne([], DECLARATION);
    ReadOne([] + [DECLARATION], MULTISTATUS);
    assert Read([]) == Reading(Some([]), [], NOTHING, []);
    assert [] + ["D:multistatus"] == ["D:multistatus"];
    assert "D:multistatus" + DAV_ATTRS == "D:multistatus xmlns:D=\"DAV:\"";
  }

  lemma ReadSelf(path: string, depth: string, base: Option<Resource>, conv: Conversion)
    ensures var self := if HasSelf(depth, base) then [ReportOf(Encoded(path, conv), base.value, conv)] else [];
            var r := Read(WithSelf(path, depth, base, conv));
            r.stack == Some(["D:multistatus"]) && r.prolog == PROLOG && r.reports == self
  {
    ReadStart();
    if HasSelf(depth, base) { ReadResponse(START, Encoded(path, conv), base.value, conv); }
  }

  lemma ReadEnd(ts: seq<Token>)
    requires Read(ts).stack == Some(["D:multistatus"])
    ensures Read(ts + [CloseTag("D:multistatus")]) == Read(ts).(stack := Some([]))
  {
    assert [] + ["D:multistatus"] == ["D:multistatus"];
    ReadClosing(ts, "D:multistatus", []);
  }

  /** Every document is balanced, starts as it should, and holds exactly its reports, in order. */
  lemma ReadDocument(path: string, depth: string, base: Option<Resource>, entries: seq<Entry>, conv: Conversion)
    ensures var r := Read(Document(path, depth, base, entries, conv));
            r.stack == Some([]) && r.prolog == PROLOG && r.reports == Reports(path, depth, base, entries, conv)
  {
    var self := WithSelf(path, depth, base, conv);
    ReadSelf(path, depth, base, conv);
    if HasChildren(depth, base) {
      ReadChildren(self, path, entries, conv);
      ReadEnd(Children(self, entries, |entries|, ChildAdder(path, conv)));
    } else {
      ReadEnd(self);
      assert Read(self).reports + [] == Read(self).reports;
    }
  }

  /** What the client gets by percent-decoding the path in a report: every name without a percent
      sign. */
  lemma TargetsDecode(path: string, filename: string, conv: Conversion)
    requires '%' !in conv(ChildPath(path, filename))
    ensures U.DecodeUrl(Encoded(ChildPath(path, filename), conv)) == conv(ChildPath(path, filename))
  {
    U.PercentFreeSurvives(conv(ChildPath(path, filename)));
    U.FilenameDecodedOnce(conv(ChildPath(path, filename)));
  }
}
