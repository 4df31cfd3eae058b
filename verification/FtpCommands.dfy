/** How a line of the FTP control connection is parsed, and the arguments of PORT against the
    reply to PASV. */
module FtpCommands {
  import opened Text
  import opened Splitting

  // ---------------------------------------------------------------- parsing a line

  datatype Verb = USER | PASS | QUIT | PORT | PASV | LIST | NLST | RETR | STOR | DELE | RNFR | RNTO
    | CWD | PWD | MKD | RMD | TYPE | SIZE | MDTM | NOOP | FEAT | OPTS | CDUP

  datatype Command = Empty | Unknown(name: string) | Known(verb: Verb, arg: string)

  /** The keys under which the handlers are registered. */
  function VerbOf(name: string): Option<Verb> {
    match name
    case "USER" => Some(USER)
    case "PASS" => Some(PASS)
    case "QUIT" => Some(QUIT)
    case "PORT" => Some(PORT)
    case "PASV" => Some(PASV)
    case "LIST" => Some(LIST)
    case "NLST" => Some(NLST)
    case "RETR" => Some(RETR)
    case "STOR" => Some(STOR)
    case "DELE" => Some(DELE)
    case "RNFR" => Some(RNFR)
    case "RNTO" => Some(RNTO)
    case "CWD" => Some(CWD)
    case "PWD" => Some(PWD)
    case "MKD" => Some(MKD)
    case "RMD" => Some(RMD)
    case "TYPE" => Some(TYPE)
    case "SIZE" => Some(SIZE)
    case "MDTM" => Some(MDTM)
    case "NOOP" => Some(NOOP)
    case "FEAT" => Some(FEAT)
    case "OPTS" => Some(OPTS)
    case "CDUP" => Some(CDUP)
    case _ => None
  }

  predicate IsTrailing(c: char) { c == '\r' || c == '\n' || c == ' ' || c == '\t' }

  function TrimRight(s: string): string {
    if s != "" && IsTrailing(s[|s| - 1]) then TrimRight(s[..|s| - 1]) else s
  }

  function Argument(t: string, blank: nat): string { if blank < |t| then t[blank + 1..] else "" }

  function ParseCommand(line: string): Command {
    var t := TrimRight(line);
    if t == "" then Empty
    else
      var blank := FirstOf(t, {' '}, 0);
      match VerbOf(Upper(t[..blank]))
      case None => Unknown(Upper(t[..blank]))
      case Some(verb) => Known(verb, Argument(t, blank))
  }

  /** The names under which the handlers are registered; with `FileVerbsAreSpelled`, no other name
      has one. */
  lemma {:induction false} VerbsAreSpelled(name: string)
    ensures VerbOf(name) == Some(USER) <==> name == "USER"
    ensures VerbOf(name) == Some(PASS) <==> name == "PASS"
    ensures VerbOf(name) == Some(QUIT) <==> name == "QUIT"
    ensures VerbOf(name) == Some(PORT) <==> name == "PORT"
    ensures VerbOf(name) == Some(PASV) <==> name == "PASV"
    ensures VerbOf(name) == Some(LIST) <==> name == "LIST"
    ensures VerbOf(name) == Some(NLST) <==> name == "NLST"
    ensures VerbOf(name) == Some(RETR) <==> name == "RETR"
    ensures VerbOf(name) == Some(STOR) <==> name == "STOR"
  {}

  lemma {:induction false} FileVerbsAreSpelled(name: string)
    ensures VerbOf(name) == Some(DELE) <==> name == "DELE"
    ensures VerbOf(name) == Some(RNFR) <==> name == "RNFR"
    ensures VerbOf(name) == Some(RNTO) <==> name == "RNTO"
    ensures VerbOf(name) == Some(CWD) <==> name == "CWD"
    ensures VerbOf(name) == Some(CDUP) <==> name == "CDUP"
    ensures VerbOf(name) == Some(PWD) <==> name == "PWD"
    ensures VerbOf(name) == Some(MKD) <==> name == "MKD"
    ensures VerbOf(name) == Some(RMD) <==> name == "RMD"
    ensures VerbOf(name) == Some(TYPE) <==> name == "TYPE"
    ensures VerbOf(name) == Some(SIZE) <==> name == "SIZE"
    ensures VerbOf(name) == Some(MDTM) <==> name == "MDTM"
    ensures VerbOf(name) == Some(NOOP) <==> name == "NOOP"
    ensures VerbOf(name) == Some(FEAT) <==> name == "FEAT"
    ensures VerbOf(name) == Some(OPTS) <==> name == "OPTS"
  {}

  lemma TrailingAre(c: char)
    ensures IsTrailing(c) <==> c in " \t\r\n"
  {}

  lemma {:induction false} TrailingIsTrimmed(s: string, w: string)
    requires (s == "" || s[|s| - 1] !in " \t\r\n") && forall c :: c in w ==> c in " \t\r\n"
    ensures TrimRight(s + w) == s
    decreases |w|
  {
    if w == "" {
      assert s + w == s;
      if s != "" { TrailingAre(s[|s| - 1]); }
    } else {
      assert (s + w)[..|s + w| - 1] == s + w[..|w| - 1];
      TrailingAre(w[|w| - 1]);
      TrailingIsTrimmed(s, w[..|w| - 1]);
    }
  }

  /** What the word in front of the first blank stands for. */
  function CommandOf(word: string, arg: string): Command {
    match VerbOf(Upper(word))
    case None => Unknown(Upper(word))
    case Some(verb) => Known(verb, arg)
  }

  /** A word, a blank and the argument, whatever blanks and line ends follow; the case of the word
      does not matter. */
  lemma CommandReads(word: string, arg: string, w: string)
    requires word != "" && word[|word| - 1] !in " \t\r\n" && ' ' !in word
    requires forall c :: c in w ==> c in " \t\r\n"
    ensures ParseCommand(word + w) == CommandOf(word, "")
    ensures arg != "" && arg[|arg| - 1] !in " \t\r\n" ==> ParseCommand(word + " " + arg + w) == CommandOf(word, arg)
  {
    TrailingIsTrimmed(word, w);
    FirstOfIs(word, {' '}, 0, |word|);
    assert word[..|word|] == word;
    if arg != "" && arg[|arg| - 1] !in " \t\r\n" {
      var t := word + " " + arg;
      TrailingIsTrimmed(t, w);
      FirstOfIs(t, {' '}, 0, |word|);
      assert t[..|word|] == word && t[|word| + 1..] == arg;
    }
  }

  /** Blanks and line ends alone are no command. */
  lemma BlankLineIsEmpty(w: string)
    requires forall c :: c in w ==> c in " \t\r\n"
    ensures ParseCommand(w) == Empty
  {
    TrailingIsTrimmed("", w);
    assert "" + w == w;
  }

  method TrimLoop(s: string) returns (trimmed: string)
    ensures trimmed == TrimRight(s)
  {
    trimmed := s;
    while trimmed != "" && IsTrailing(trimmed[|trimmed| - 1])
      invariant TrimRight(trimmed) == TrimRight(s)
      decreases |trimmed|
    {
      trimmed := trimmed[..|trimmed| - 1];
    }
  }

  method ToUpper(s: string) returns (result: string)
    ensures result == Upper(s)
  {
    result := "";
    for k := 0 to |s|
      invariant result == Upper(s)[..k]
    {
      result := result + [UpperChar(s[k])];
    }
  }

  method ReadLine(line: string) returns (command: Command)
    ensures command == ParseCommand(line)
  {
    var trimmed := TrimLoop(line);
    if trimmed == "" { return Empty; }
    var blank := FirstOf(trimmed, {' '}, 0);
    var name := ToUpper(trimmed[..blank]);
    var arg := if blank < |trimmed| then trimmed[blank + 1..] else "";
    var verb := VerbOf(name);
    command := if verb.None? then Unknown(name) else Known(verb.value, arg);
  }

  // ---------------------------------------------------------------- ports

  datatype PortArgument = NoMatch | OutOfRange | Target(host: string, port: bv16)

  const INT_MAX := 0x7FFF_FFFF

  /** Both values are first cut to 16 bits. */
  function PortNumber(high: nat, low: nat): bv16 {
    (((high % 0x1_0000) as bv16) << 8) | ((low % 0x1_0000) as bv16)
  }

  /** Six numbers between commas; `std::stoi` throws on the last two if they are too large. */
  function ParsePort(arg: string): PortArgument {
    var parts := Split(arg, {','}, false);
    if |parts| != 6 || exists i :: 0 <= i < 6 && !IsNumber(parts[i]) then NoMatch
    else
      var high, low := ReadDigits(parts[4], 0), ReadDigits(parts[5], 0);
      if high > INT_MAX || low > INT_MAX then OutOfRange
      else Target(Join(parts[..4], "."), PortNumber(high, low))
  }

  /** The address every passive channel listens on. */
  const LOOPBACK := ["127", "0", "0", "1"]

  /** The six numbers in the reply to PASV. */
  function HostPort(host: seq<string>, port: bv16): string {
    Join(host + [Decimal(((port >> 8) & 0xFF) as nat), Decimal((port & 0xFF) as nat)], ",")
  }

  lemma PortBits(port: bv16)
    ensures (((port >> 8) & 0xFF) << 8) | (port & 0xFF) == port
  {}

  lemma SixteenBits(b: bv16)
    ensures b as nat < 0x1_0000
  {}

  lemma BackToBits(b: bv16)
    ensures (b as nat) as bv16 == b
  {}

  lemma SmallMod(n: nat)
    requires n < 0x1_0000
    ensures n % 0x1_0000 == n
  {}

  lemma NumberReadsBack(b: bv16)
    ensures ((b as nat) % 0x1_0000) as bv16 == b
  {
    SixteenBits(b);
    SmallMod(b as nat);
    BackToBits(b);
  }

  lemma PortNumberOf(a: bv16, b: bv16)
    ensures PortNumber(a as nat, b as nat) == (a << 8) | b
  {
    NumberReadsBack(a);
    NumberReadsBack(b);
  }

  lemma PortNumberReadsBack(port: bv16)
    ensures PortNumber(((port >> 8) & 0xFF) as nat, (port & 0xFF) as nat) == port
  {
    PortNumberOf((port >> 8) & 0xFF, port & 0xFF);
    PortBits(port);
  }

  lemma NumbersAreFree(ps: seq<string>)
    requires forall i :: 0 <= i < |ps| ==> IsNumber(ps[i])
    ensures Free(ps, ',')
  {
    forall i | 0 <= i < |ps| ensures ',' !in ps[i] { assert IsNumber(ps[i]); }
  }

  /** Only the lower 16 bits of either number count. */
  lemma PortIsCut(high: nat, low: nat)
    ensures PortNumber(high, low) == PortNumber(high % 65536, low % 65536)
  {
    SmallMod(high % 65536);
    SmallMod(low % 65536);
  }

  /** Two bytes, the high one first. */
  lemma PortIsBigEndian(high: bv16, low: bv16)
    requires high < 256 && low < 256
    ensures PortNumber(high as nat, low as nat) == high * 256 + low
  {
    PortNumberOf(high, low);
    ShiftIsTimes(high, low);
  }

  lemma ShiftIsTimes(high: bv16, low: bv16)
    requires high < 256 && low < 256
    ensures (high << 8) | low == high * 256 + low
  {}

  lemma BytesOfPort(high: bv16, low: bv16)
    requires high < 256 && low < 256
    ensures ((high * 256 + low) >> 8) & 0xFF == high && (high * 256 + low) & 0xFF == low
  {}

  /** The reply to PASV names the host and the two bytes of the port, the high one first. */
  lemma HostPortIs(host: seq<string>, high: bv16, low: bv16)
    requires high < 256 && low < 256
    ensures HostPort(host, high * 256 + low) == Join(host + [Decimal(high as nat), Decimal(low as nat)], ",")
  {
    BytesOfPort(high, low);
  }

  /** PORT takes six numbers; the fifth and the sixth have to fit into 31 bits. */
  lemma PortIsRead(host: seq<string>, high: string, low: string)
    requires |host| == 4 && IsNumber(high) && IsNumber(low) && forall i :: 0 <= i < 4 ==> IsNumber(host[i])
    ensures var h, l := ReadDigits(high, 0), ReadDigits(low, 0);
      ParsePort(Join(host + [high, low], ",")) ==
        if h > 2147483647 || l > 2147483647 then OutOfRange
        else Target(host[0] + "." + host[1] + "." + host[2] + "." + host[3], PortNumber(h, l))
  {
    var parts := host + [high, low];
    NumbersAreFree(parts);
    SplitUndoesJoin(parts, ',');
    assert parts[..4] == host && parts[4] == high && parts[5] == low;
    JoinDots(host[0], host[1], host[2], host[3]);
    assert host == [host[0], host[1], host[2], host[3]];
  }

  lemma JoinDots(a: string, b: string, c: string, d: string)
    ensures Join([a, b, c, d], ".") == a + "." + b + "." + c + "." + d
  {
    JoinHead(a, [b, c, d], ".");
    JoinHead(b, [c, d], ".");
    JoinHead(c, [d], ".");
    assert [a] + [b, c, d] == [a, b, c, d] && [b] + [c, d] == [b, c, d] && [c] + [d] == [c, d];
    assert Join([d], ".") == d;
    assert a + ("." + (b + ("." + (c + ("." + d))))) == a + "." + b + "." + c + "." + d;
  }

  /** Anything but six numbers between commas is refused. */
  lemma PortIsRefused(parts: seq<string>)
    requires parts != [] && Free(parts, ',') && (|parts| != 6 || exists i :: 0 <= i < 6 && !IsNumber(parts[i]))
    ensures ParsePort(Join(parts, ",")) == NoMatch
  {
    SplitUndoesJoin(parts, ',');
  }

  /** What PASV announces is what PORT understands. */
  lemma PortReadsBack(host: seq<string>, port: bv16)
    requires |host| == 4 && forall i :: 0 <= i < 4 ==> IsNumber(host[i])
    ensures ParsePort(HostPort(host, port)) == Target(Join(host, "."), port)
  {
    var high, low := ((port >> 8) & 0xFF) as nat, (port & 0xFF) as nat;
    var parts := host + [Decimal(high), Decimal(low)];
    DecimalReadsBack(high);
    DecimalReadsBack(low);
    NumbersAreFree(parts);
    SplitUndoesJoin(parts, ',');
    PortNumberReadsBack(port);
    assert parts[..4] == host;
  }
}
