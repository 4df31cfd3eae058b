/** `DavXmlBuilder`, and a scanner to read its documents back. */
module DavXml {
  import opened Text

  // ---------------------------------------------------------------- escaping

  function EscapeChar(c: char): string {
    match c
    case '&' => "&amp;"
    case '<' => "&lt;"
    case '>' => "&gt;"
    case '\"' => "&quot;"
    case '\'' => "&apos;"
    case _ => [c]
  }

  function EscapeXml(s: string): string { if s == "" then "" else EscapeChar(s[0]) + EscapeXml(s[1..]) }

  /** The five entities of section 4.6 of XML 1.0; every other character stays. */
  lemma EscapesFive(c: char, t: string)
    ensures EscapeXml([c] + t) == (
      if c == '&' then "&amp;" else if c == '<' then "&lt;" else if c == '>' then "&gt;"
      else if c == '\"' then "&quot;" else if c == '\'' then "&apos;" else [c]) + EscapeXml(t)
  {
    assert ([c] + t)[1..] == t;
  }

  method EscapeXmlLoop(str: string) returns (result: string)
    ensures result == EscapeXml(str)
  {
    result := "";
    for k := 0 to |str|
      invariant EscapeXml(str) == result + EscapeXml(str[k..])
    {
      var c := str[k];
      assert str[k..][0] == c && str[k..][1..] == str[k + 1..];
      var piece := [c];
      match c {
        case '&' => piece := "&amp;";
        case '<' => piece := "&lt;";
        case '>' => piece := "&gt;";
        case '\"' => piece := "&quot;";
        case '\'' => piece := "&apos;";
        case _ =>
      }
      Concat3(result, piece, EscapeXml(str[k + 1..]));
      result := result + piece;
    }
  }

  /** The character and the length of the entity at the front, if there is one. */
  function Entity(s: string): Option<(char, nat)> {
    if "&amp;" <= s then Some(('&', 5))
    else if "&lt;" <= s then Some(('<', 4))
    else if "&gt;" <= s then Some(('>', 4))
    else if "&quot;" <= s then Some(('\"', 6))
    else if "&apos;" <= s then Some(('\'', 6))
    else None
  }

  /** Reading the five entities back; any other ampersand stands for itself. */
  function UnescapeXml(s: string): string
    decreases |s|
  {
    if s == "" then ""
    else
      match Entity(s)
      case Some((c, n)) => [c] + UnescapeXml(s[n..])
      case None => [s[0]] + UnescapeXml(s[1..])
  }

  lemma EntityOfEscaped(c: char, tail: string)
    requires |EscapeChar(c)| > 1
    ensures Entity(EscapeChar(c) + tail) == Some((c, |EscapeChar(c)|))
  {
    var e := EscapeChar(c);
    var s := e + tail;
    assert e <= s;
    assert s[1] == e[1] && s[2] == e[2];
  }

  lemma NoEntity(s: string)
    requires s != "" && s[0] != '&'
    ensures Entity(s) == None
  {}

  lemma UnescapeHead(c: char, tail: string)
    ensures UnescapeXml(EscapeChar(c) + tail) == [c] + UnescapeXml(tail)
  {
    var e := EscapeChar(c);
    DropPrefix(e, tail);
    if |e| > 1 { EntityOfEscaped(c, tail); } else { NoEntity(e + tail); }
  }

  lemma {:induction false} UnescapeUndoesEscape(s: string)
    ensures UnescapeXml(EscapeXml(s)) == s
  {
    if s != "" {
      UnescapeHead(s[0], EscapeXml(s[1..]));
      UnescapeUndoesEscape(s[1..]);
    }
  }

  lemma {:induction false} EscapedHasNoTag(s: string)
    ensures '<' !in EscapeXml(s)
  {
    if s != "" {
      EscapedHasNoTag(s[1..]);
      assert '<' !in EscapeChar(s[0]);
    }
  }

  // ---------------------------------------------------------------- tags and tokens

  /** `attrs` keeps the blank in front of the attributes. */
  datatype Tag =
    | Declaration(text: string)
    | Open(name: string, attrs: string)
    | Close(name: string)
    | Empty(name: string)

  function TagText(t: Tag): string {
    match t
    case Declaration(text) => "?" + text
    case Open(name, attrs) => name + attrs
    case Close(name) => "/" + name
    case Empty(name) => name + "/"
  }

  predicate PlainName(n: string) {
    n != "" && n[0] != '?' && n[0] != '/' && n[|n| - 1] != '/' && ' ' !in n && '>' !in n
  }

  predicate PlainTag(t: Tag) {
    match t
    case Declaration(text) => '>' !in text
    case Open(name, attrs) =>
      PlainName(name) && '>' !in attrs && (attrs != "" ==> attrs[0] == ' ' && attrs[|attrs| - 1] != '/')
    case Close(name) => PlainName(name)
    case Empty(name) => PlainName(name)
  }

  function ParseTag(s: string): Tag {
    if s == "" then Open("", "")
    else if s[0] == '?' then Declaration(s[1..])
    else if s[0] == '/' then Close(s[1..])
    else if s[|s| - 1] == '/' then Empty(s[..|s| - 1])
    else Open(s[..FirstOf(s, {' '}, 0)], s[FirstOf(s, {' '}, 0)..])
  }

  lemma ParseTagText(t: Tag)
    requires PlainTag(t)
    ensures ParseTag(TagText(t)) == t && '>' !in TagText(t)
  {
    var s := TagText(t);
    match t
    case Open(name, attrs) =>
      FirstOfIs(s, {' '}, 0, |name|);
      assert s[..|name|] == name && s[|name|..] == attrs;
    case Empty(name) => assert s[..|s| - 1] == name;
    case Declaration(_) =>
    case Close(_) =>
  }

  // ---------------------------------------------------------------- cutting at tags

  /** The text in front of a tag, and the inside of the tag. */
  datatype Raw = Raw(text: string, tag: string)

  function Glue(rs: seq<Raw>): string {
    if rs == [] then "" else rs[0].text + (['<'] + (rs[0].tag + (['>'] + Glue(rs[1..]))))
  }

  predicate Separable(r: Raw) { '<' !in r.text && '>' !in r.tag }

  /** A scanner that reads one character at a time. */
  datatype Scanner = InText(done: seq<Raw>, text: string) | InTag(done: seq<Raw>, text: string, tag: string)

  function ReadChar(st: Scanner, c: char): Scanner {
    match st
    case InText(done, text) => if c == '<' then InTag(done, text, "") else InText(done, text + [c])
    case InTag(done, text, tag) =>
      if c == '>' then InText(done + [Raw(text, tag)], "") else InTag(done, text, tag + [c])
  }

  function Run(s: string, st: Scanner): Scanner
    decreases |s|
  {
    if s == "" then st else Run(s[1..], ReadChar(st, s[0]))
  }

  lemma RunOver(c: char, rest: string, st: Scanner)
    ensures Run([c] + rest, st) == Run(rest, ReadChar(st, c))
  {
    assert ([c] + rest)[1..] == rest;
  }

  lemma {:induction false} RunText(text: string, rest: string, done: seq<Raw>, acc: string)
    requires '<' !in text
    ensures Run(text + rest, InText(done, acc)) == Run(rest, InText(done, acc + text))
  {
    if text == "" {
      assert text + rest == rest && acc + text == acc;
    } else {
      assert text + rest == [text[0]] + (text[1..] + rest);
      RunOver(text[0], text[1..] + rest, InText(done, acc));
      RunText(text[1..], rest, done, acc + [text[0]]);
      assert acc + [text[0]] + text[1..] == acc + text;
    }
  }

  lemma {:induction false} RunTag(tag: string, rest: string, done: seq<Raw>, text: string, acc: string)
    requires '>' !in tag
    ensures Run(tag + rest, InTag(done, text, acc)) == Run(rest, InTag(done, text, acc + tag))
  {
    if tag == "" {
      assert tag + rest == rest && acc + tag == acc;
    } else {
      assert tag + rest == [tag[0]] + (tag[1..] + rest);
      RunOver(tag[0], tag[1..] + rest, InTag(done, text, acc));
      RunTag(tag[1..], rest, done, text, acc + [tag[0]]);
      assert acc + [tag[0]] + tag[1..] == acc + tag;
    }
  }

  lemma RunOne(r: Raw, rest: string, done: seq<Raw>)
    requires Separable(r)
    ensures Run(r.text + (['<'] + (r.tag + (['>'] + rest))), InText(done, "")) == Run(rest, InText(done + [r], ""))
  {
    var inner := r.tag + (['>'] + rest);
    RunText(r.text, ['<'] + inner, done, "");
    RunOver('<', inner, InText(done, r.text));
    RunTag(r.tag, ['>'] + rest, done, r.text, "");
    RunOver('>', rest, InTag(done, r.text, r.tag));
    assert "" + r.text == r.text && "" + r.tag == r.tag;
  }

  lemma {:induction false} RunGlued(rs: seq<Raw>, done: seq<Raw>)
    requires forall i :: 0 <= i < |rs| ==> Separable(rs[i])
    ensures Run(Glue(rs), InText(done, "")) == InText(done + rs, "")
  {
    if rs == [] {
      assert done + rs == done;
    } else {
      RunOne(rs[0], Glue(rs[1..]), done);
      RunGlued(rs[1..], done + [rs[0]]);
      assert done + [rs[0]] + rs[1..] == done + rs;
    }
  }

  lemma {:induction false} GlueConcat(x: seq<Raw>, y: seq<Raw>)
    ensures Glue(x + y) == Glue(x) + Glue(y)
  {
    if x == [] {
      assert x + y == y;
    } else {
      assert (x + y)[1..] == x[1..] + y;
      GlueConcat(x[1..], y);
    }
  }

  // ---------------------------------------------------------------- the scanner

  datatype Token = Token(text: string, tag: Tag)

  function ParseRaw(r: Raw): Token { Token(r.text, ParseTag(r.tag)) }

  function RawOf(t: Token): Raw { Raw(t.text, TagText(t.tag)) }

  function RawsOf(ts: seq<Token>): seq<Raw> { seq(|ts|, i requires 0 <= i < |ts| => RawOf(ts[i])) }

  function Render(ts: seq<Token>): string { Glue(RawsOf(ts)) }

  predicate PlainToken(t: Token) { '<' !in t.text && PlainTag(t.tag) }

  predicate PlainTokens(ts: seq<Token>) { forall i :: 0 <= i < |ts| ==> PlainToken(ts[i]) }

  function ParseRaws(rs: seq<Raw>): seq<Token> { seq(|rs|, i requires 0 <= i < |rs| => ParseRaw(rs[i])) }

  /** Cuts a document at every tag and parses the tags.  A document that ends inside a tag, or
      with text after its last tag, is refused. */
  function Scan(s: string): Option<seq<Token>> {
    match Run(s, InText([], ""))
    case InText(done, text) => if text == "" then Some(ParseRaws(done)) else None
    case InTag(_, _, _) => None
  }

  /** The scanner finds exactly the tokens a document was rendered from. */
  lemma ScanFindsTokens(ts: seq<Token>)
    requires PlainTokens(ts)
    ensures Scan(Render(ts)) == Some(ts)
  {
    var rs := RawsOf(ts);
    forall i | 0 <= i < |ts| ensures Separable(rs[i]) && ParseRaw(rs[i]) == ts[i] {
      assert PlainToken(ts[i]);
      ParseTagText(ts[i].tag);
    }
    RunGlued(rs, []);
    assert [] + rs == rs;
    assert ParseRaws(rs) == ts;
  }

  lemma RenderConcat(a: seq<Token>, b: seq<Token>)
    ensures Render(a + b) == Render(a) + Render(b)
  {
    assert RawsOf(a + b) == RawsOf(a) + RawsOf(b);
    GlueConcat(RawsOf(a), RawsOf(b));
  }

  lemma RenderOne(t: Token)
    ensures Render([t]) == t.text + ("<" + (TagText(t.tag) + ">"))
  {
    assert RawsOf([t]) == [RawOf(t)] && [RawOf(t)][1..] == [];
    assert Glue([RawOf(t)]) == t.text + (['<'] + (TagText(t.tag) + (['>'] + Glue([]))));
    assert Render([t]) == t.text + (['<'] + (TagText(t.tag) + (['>'] + "")));
  }

  // ---------------------------------------------------------------- the builder

  const DAV_ATTRS := " xmlns:D=\"DAV:\""
  const XML_VERSION := "xml version=\"1.0\" encoding=\"UTF-8\"?"

  function OpenTag(name: string): Token { Token("", Open(name, "")) }

  function CloseTag(name: string): Token { Token("", Close(name)) }

  function EmptyTag(name: string): Token { Token("", Empty(name)) }

  function Element(name: string, text: string): seq<Token> { [OpenTag(name), Token(text, Close(name))] }

  const DECLARATION := Token("", Declaration(XML_VERSION))
  const MULTISTATUS := Token("", Open("D:multistatus", DAV_ATTRS))
  const RESPONSE := Token("", Open("D:response", DAV_ATTRS))

  lemma TokenText(t: Token, text: string)
    requires text == t.text + ("<" + (TagText(t.tag) + ">")) && PlainToken(t)
    ensures text == Render([t]) && PlainTokens([t])
  {
    RenderOne(t);
  }

  lemma OpenText(name: string, text: string)
    requires text == "<" + (name + ">") && PlainName(name)
    ensures text == Render([OpenTag(name)]) && PlainTokens([OpenTag(name)])
  {
    assert TagText(OpenTag(name).tag) == name;
    TokenText(OpenTag(name), text);
  }

  lemma CloseText(name: string, text: string)
    requires text == "</" + (name + ">") && PlainName(name)
    ensures text == Render([CloseTag(name)]) && PlainTokens([CloseTag(name)])
  {
    assert text == "<" + (("/" + name) + ">");
    TokenText(CloseTag(name), text);
  }

  lemma ElementRenders(name: string, open: string, text: string, close: string)
    requires open == "<" + (name + ">") && close == "</" + (name + ">")
    ensures open + text + close == Render(Element(name, text))
  {
    var t := Token(text, Close(name));
    assert TagText(OpenTag(name).tag) == name;
    RenderOne(OpenTag(name));
    assert text + close == text + ("<" + (("/" + name) + ">"));
    RenderOne(t);
    RenderConcat([OpenTag(name)], [t]);
    assert Element(name, text) == [OpenTag(name)] + [t];
    assert open + text + close == open + (text + close);
  }

  lemma ElementIsPlain(name: string, text: string)
    requires PlainName(name) && '<' !in text
    ensures PlainTokens(Element(name, text))
  {}

  /** How every document starts. */
  lemma PrologText()
    ensures Render([DECLARATION] + [MULTISTATUS])
      == "<?xml version=\"1.0\" encoding=\"UTF-8\"?>" + "<D:multistatus xmlns:D=\"DAV:\">"
  {
    RenderConcat([DECLARATION], [MULTISTATUS]);
    RenderOne(DECLARATION);
    RenderOne(MULTISTATUS);
    DeclarationText(XML_VERSION);
    MultistatusText();
    VersionText();
  }

  lemma VersionText()
    ensures "<?" + XML_VERSION + ">" == "<?xml version=\"1.0\" encoding=\"UTF-8\"?>"
  {}

  lemma DeclarationIsPlain()
    ensures PlainToken(DECLARATION)
  {}

  lemma DeclarationText(version: string)
    ensures "<?" + version + ">" == "<" + (("?" + version) + ">")
  {}

  lemma MultistatusText()
    ensures "<D:multistatus xmlns:D=\"DAV:\">" == "<" + (("D:multistatus" + DAV_ATTRS) + ">")
  {}

  lemma OpenResponseText()
    ensures "<D:response xmlns:D=\"DAV:\">" == "<" + (("D:response" + DAV_ATTRS) + ">")
  {}

  lemma NamespaceIsPlain(name: string)
    requires PlainName(name)
    ensures PlainToken(Token("", Open(name, DAV_ATTRS)))
  {}

  lemma DisplayNameTags()
    ensures "<D:displayname>" == "<" + ("D:displayname" + ">") && "</D:displayname>" == "</" + ("D:displayname" + ">")
    ensures PlainName("D:displayname")
  {}

  lemma ContentLengthTags()
    ensures "<D:getcontentlength>" == "<" + ("D:getcontentlength" + ">")
    ensures "</D:getcontentlength>" == "</" + ("D:getcontentlength" + ">")
    ensures PlainName("D:getcontentlength")
  {}

  /** Appends to `xml`; the ghost field `tokens` records what has been appended. */
  class DavXmlBuilder {
    var xml: string
    ghost var tokens: seq<Token>

    ghost predicate Tracks() reads this { xml == Render(tokens) }

    /** `Tracks`, and a scanner can take the tokens apart again. */
    ghost predicate Valid() reads this { Tracks() && PlainTokens(tokens) }

    constructor ()
      ensures Valid() && tokens == []
    {
      xml, tokens := "", [];
    }

    method Append(text: string, ghost ts: seq<Token>)
      requires Valid() && text == Render(ts) && PlainTokens(ts)
      modifies this
      ensures Valid() && tokens == old(tokens) + ts
    {
      RenderConcat(tokens, ts);
      xml := xml + text;
      tokens := tokens + ts;
    }

    method AppendOpen(ghost name: string, text: string)
      requires Valid() && text == "<" + (name + ">") && PlainName(name)
      modifies this
      ensures Valid() && tokens == old(tokens) + [OpenTag(name)]
    {
      OpenText(name, text);
      Append(text, [OpenTag(name)]);
    }

    method AppendClose(ghost name: string, text: string)
      requires Valid() && text == "</" + (name + ">") && PlainName(name)
      modifies this
      ensures Valid() && tokens == old(tokens) + [CloseTag(name)]
    {
      CloseText(name, text);
      Append(text, [CloseTag(name)]);
    }

    method AppendEmpty(ghost name: string, text: string)
      requires Valid() && text == "<" + ((name + "/") + ">") && PlainName(name)
      modifies this
      ensures Valid() && tokens == old(tokens) + [EmptyTag(name)]
    {
      TokenText(EmptyTag(name), text);
      Append(text, [EmptyTag(name)]);
    }

    /** The text is taken as it comes: only without `<` does the document stay readable. */
    method AppendElement(ghost name: string, open: string, text: string, close: string)
      requires Tracks() && open == "<" + (name + ">") && close == "</" + (name + ">") && PlainName(name)
      modifies this
      ensures Tracks() && tokens == old(tokens) + Element(name, text)
      ensures old(Valid()) && '<' !in text ==> Valid()
    {
      ElementRenders(name, open, text, close);
      RenderConcat(tokens, Element(name, text));
      if '<' !in text { ElementIsPlain(name, text); }
      xml := xml + (open + text + close);
      tokens := tokens + Element(name, text);
    }

    method AddDeclaration()
      requires Valid()
      modifies this
      ensures Valid() && tokens == old(tokens) + [DECLARATION]
    {
      DeclarationText(XML_VERSION);
      DeclarationIsPlain();
      TokenText(DECLARATION, "<?" + XML_VERSION + ">");
      Append("<?" + XML_VERSION + ">", [DECLARATION]);
    }

    method StartMultistatus()
      requires Valid()
      modifies this
      ensures Valid() && tokens == old(tokens) + [MULTISTATUS]
    {
      MultistatusText();
      NamespaceIsPlain("D:multistatus");
      TokenText(MULTISTATUS, "<D:multistatus xmlns:D=\"DAV:\">");
      Append("<D:multistatus xmlns:D=\"DAV:\">", [MULTISTATUS]);
    }

    method OpenResponse()
      requires Valid()
      modifies this
      ensures Valid() && tokens == old(tokens) + [RESPONSE]
    {
      OpenResponseText();
      NamespaceIsPlain("D:response");
      TokenText(RESPONSE, "<D:response xmlns:D=\"DAV:\">");
      Append("<D:response xmlns:D=\"DAV:\">", [RESPONSE]);
    }

    method StartResponse(href: string)
      requires Valid()
      modifies this
      ensures Valid() && tokens == old(tokens) + [RESPONSE] + Element("D:href", EscapeXml(href))
    {
      OpenResponse();
      var text := EscapeXmlLoop(href);
      EscapedHasNoTag(href);
      AppendElement("D:href", "<D:href>", text, "</D:href>");
    }

    method EndResponse()
      requires Valid()
      modifies this
      ensures Valid() && tokens == old(tokens) + [CloseTag("D:response")]
    {
      AppendClose("D:response", "</D:response>");
    }

    method StartPropstat()
      requires Valid()
      modifies this
      ensures Valid() && tokens == old(tokens) + [OpenTag("D:propstat")]
    {
      AppendOpen("D:propstat", "<D:propstat>");
    }

    method EndPropstat()
      requires Valid()
      modifies this
      ensures Valid() && tokens == old(tokens) + [CloseTag("D:propstat")]
    {
      AppendClose("D:propstat", "</D:propstat>");
    }

    method StartProp()
      requires Valid()
      modifies this
      ensures Valid() && tokens == old(tokens) + [OpenTag("D:prop")]
    {
      AppendOpen("D:prop", "<D:prop>");
    }

    method EndProp()
      requires Valid()
      modifies this
      ensures Valid() && tokens == old(tokens) + [CloseTag("D:prop")]
    {
      AppendClose("D:prop", "</D:prop>");
    }

    method AddStatus(code: nat, msg: string)
      requires Tracks()
      modifies this
      ensures Tracks() && tokens == old(tokens) + Element("D:status", "HTTP/1.1 " + Decimal(code) + " " + msg)
      ensures old(Valid()) && '<' !in msg ==> Valid()
    {
      var text := "HTTP/1.1 " + Decimal(code) + " " + msg;
      DecimalHasNoTag(code);
      AppendElement("D:status", "<D:status>", text, "</D:status>");
    }

    method AddContentLength(size: nat)
      requires Valid()
      modifies this
      ensures Valid() && tokens == old(tokens) + Element("D:getcontentlength", Decimal(size))
    {
      var text := Decimal(size);
      DecimalHasNoTag(size);
      ContentLengthTags();
      AppendElement("D:getcontentlength", "<D:getcontentlength>", text, "</D:getcontentlength>");
    }

    method AddLastModified(date: string)
      requires Tracks()
      modifies this
      ensures Tracks() && tokens == old(tokens) + Element("D:getlastmodified", date)
      ensures old(Valid()) && '<' !in date ==> Valid()
    {
      AppendElement("D:getlastmodified", "<D:getlastmodified>", date, "</D:getlastmodified>");
    }

    method AddCreationDate(date: string)
      requires Tracks()
      modifies this
      ensures Tracks() && tokens == old(tokens) + Element("D:creationdate", date)
      ensures old(Valid()) && '<' !in date ==> Valid()
    {
      AppendElement("D:creationdate", "<D:creationdate>", date, "</D:creationdate>");
    }

    method AddDisplayName(name: string)
      requires Valid()
      modifies this
      ensures Valid() && tokens == old(tokens) + Element("D:displayname", EscapeXml(name))
    {
      var text := EscapeXmlLoop(name);
      EscapedHasNoTag(name);
      DisplayNameTags();
      AppendElement("D:displayname", "<D:displayname>", text, "</D:displayname>");
    }

    method AddResourceType(isCollection: bool)
      requires Valid()
      modifies this
      ensures Valid() && tokens == old(tokens) + ResourceType(isCollection)
    {
      if isCollection {
        AddCollectionType();
      } else {
        AppendEmpty("D:resourcetype", "<D:resourcetype/>");
      }
    }

    method AddCollectionType()
      requires Valid()
      modifies this
      ensures Valid() && tokens == old(tokens) + ResourceType(true)
    {
      ghost var before := tokens;
      AppendOpen("D:resourcetype", "<D:resourcetype>");
      AppendEmpty("D:collection", "<D:collection/>");
      AppendClose("D:resourcetype", "</D:resourcetype>");
      ThreeTokens(before, OpenTag("D:resourcetype"), EmptyTag("D:collection"), CloseTag("D:resourcetype"));
    }

    method EndMultistatus()
      requires Valid()
      modifies this
      ensures Valid() && tokens == old(tokens) + [CloseTag("D:multistatus")]
    {
      AppendClose("D:multistatus", "</D:multistatus>");
    }

    /** The source moves the text out of the builder. */
    method Build() returns (document: string)
      requires Tracks()
      modifies this
      ensures document == old(xml) && (old(Valid()) ==> Scan(document) == Some(old(tokens)))
      ensures Valid() && tokens == []
    {
      if PlainTokens(tokens) { ScanFindsTokens(tokens); }
      document := xml;
      xml, tokens := "", [];
    }
  }

  function ResourceType(isCollection: bool): seq<Token> {
    if isCollection then
      [OpenTag("D:resourcetype"), EmptyTag("D:collection"), CloseTag("D:resourcetype")]
    else
      [EmptyTag("D:resourcetype")]
  }

  lemma ThreeTokens(ts: seq<Token>, a: Token, b: Token, c: Token)
    ensures ts + [a] + [b] + [c] == ts + [a, b, c]
  {}

  lemma DecimalHasNoTag(n: nat)
    ensures '<' !in Decimal(n)
  {
    DecimalIsDigits(n);
  }
}
