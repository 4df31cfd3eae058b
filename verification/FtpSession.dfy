/** The FTP session: its fields, the handler of each command, and the command loop. */
module FtpSession {
  import opened Text
  import opened FtpCommands
  import opened FtpState
  import P = Paths
  import opened Splitting
  import F = FtpFraming
  import opened FtpHistory

  class FTPSession {
    const reader: F.CommandReader
    var username: string
    var authenticated: bool
    var permission: UserPermission
    var currentDirectory: string
    var rootDirectory: string
    var representationType: string
    var connection: ConnectionType
    var host: string
    var port: bv16
    var renameFrom: string
    var bytesTransferred: nat
    var active: bool
    /** The replies on the control connection. */
    var sent: seq<Response>
    /** What has been asked of the file system. */
    ghost var effects: seq<Effect>

    function GetState(): State reads this {
      State(username, authenticated, permission, currentDirectory, rootDirectory, representationType,
        connection, host, port, renameFrom, bytesTransferred, active)
    }

    constructor (r: F.CommandReader, root: string)
      ensures reader == r && GetState() == Initial(root) && sent == [] && effects == []
    {
      reader := r;
      username, authenticated, permission := "", false, NONE;
      currentDirectory, rootDirectory, representationType := root, root, "I";
      connection, host, port := PASSIVE, "", 0;
      renameFrom, bytesTransferred, active := "", 0, true;
      sent, effects := [], [];
    }

    /** What a handler has done since `before`. */
    ghost predicate Did(before: State, sentBefore: seq<Response>, effectsBefore: seq<Effect>,
                        verb: Verb, arg: string, env: Env, r: Outcome)
      reads this
    {
      && GetState() == NextState(before, verb, arg, env)
      && r == OutcomeOf(before, verb, arg, env)
      && sent == sentBefore + (if Announces(before, verb, arg) then [OPENING] else [])
      && effects == effectsBefore + EffectsOf(before, verb, arg, env)
    }

    // -------------------------------------------------------------- logging in and out

    method HandleUser(arg: string, env: Env) returns (r: Outcome)
      modifies this
      ensures Did(old(GetState()), old(sent), old(effects), USER, arg, env, r)
    {
      username := arg;
      r := Reply(331, "");
    }

    method HandlePass(arg: string, env: Env) returns (r: Outcome)
      modifies this
      ensures Did(old(GetState()), old(sent), old(effects), PASS, arg, env, r)
    {
      if username == "" { return NOT_LOGGED_IN; }
      authenticated := true;
      permission := WRITE;
      r := Reply(230, "");
    }

    method HandleQuit(arg: string, env: Env) returns (r: Outcome)
      modifies this
      ensures Did(old(GetState()), old(sent), old(effects), QUIT, arg, env, r)
    {
      active := false;
      r := Reply(421, "");
    }

    // -------------------------------------------------------------- data connections

    method HandlePort(arg: string, env: Env) returns (r: Outcome)
      modifies this
      ensures Did(old(GetState()), old(sent), old(effects), PORT, arg, env, r)
    {
      var target := ParsePort(arg);
      match target
      case NoMatch => r := Reply(501, "");
      case OutOfRange => r := Threw;
      case Target(h, p) =>
        host, port := h, p;
        connection := ACTIVE;
        r := Reply(200, "");
    }

    method HandlePasv(arg: string, env: Env) returns (r: Outcome)
      modifies this
      ensures Did(old(GetState()), old(sent), old(effects), PASV, arg, env, r)
    {
      if env.passivePort.None? { return Threw; }
      r := Reply(227, HostPort(LOOPBACK, env.passivePort.value));
    }

    method HandleType(arg: string, env: Env) returns (r: Outcome)
      modifies this
      ensures Did(old(GetState()), old(sent), old(effects), TYPE, arg, env, r)
    {
      if arg == "I" || arg == "Binary" {
        representationType := "I";
        r := Reply(200, "I");
      } else if arg == "A" || arg == "ASCII" {
        representationType := "A";
        r := Reply(200, "A");
      } else {
        r := Reply(501, "");
      }
    }

    // -------------------------------------------------------------- transfers

    method SendOpening()
      modifies this`sent
      ensures sent == old(sent) + [OPENING]
    {
      sent := sent + [OPENING];
    }

    method EstablishDataConnection(env: Env) returns (connected: bool)
      ensures connected == env.connects(DataEndpoint(GetState()))
    {
      if connection == PASSIVE {
        connected := env.connects(Accept);
      } else {
        connected := env.connects(Connect(host, port));
      }
    }

    /** LIST and NLST. */
    method HandleList(verb: Verb, arg: string, env: Env) returns (r: Outcome)
      requires verb == LIST || verb == NLST
      modifies this
      ensures Did(old(GetState()), old(sent), old(effects), verb, arg, env, r)
    {
      if !authenticated { return NOT_LOGGED_IN; }
      SendOpening();
      var connected := EstablishDataConnection(env);
      if !connected { return Threw; }
      var path := Resolve(GetState(), arg, env);
      if path == "" { return UNAVAILABLE; }
      var found := env.found(path);
      if found.None? { return Threw; }
      if !found.value { return UNAVAILABLE; }
      var directory := env.isDirectory(path);
      if directory.None? { return Threw; }
      r := Performed(env, Reply(226, ""));
    }

    method HandleRetr(arg: string, env: Env) returns (r: Outcome)
      modifies this
      ensures Did(old(GetState()), old(sent), old(effects), RETR, arg, env, r)
    {
      if !authenticated { return NOT_LOGGED_IN; }
      if arg == "" { return Reply(501, ""); }
      SendOpening();
      var connected := EstablishDataConnection(env);
      if !connected { return Threw; }
      var path := Resolve(GetState(), arg, env);
      if path == "" { return UNAVAILABLE; }
      var found := env.found(path);
      if found.None? { return Threw; }
      if !found.value { return UNAVAILABLE; }
      var bytes := env.transferred;
      if bytes.None? { return Threw; }
      bytesTransferred := (bytesTransferred + bytes.value) % SIZE_LIMIT;
      r := Reply(226, Decimal(bytes.value));
    }

    method HandleStor(arg: string, env: Env) returns (r: Outcome)
      modifies this
      ensures Did(old(GetState()), old(sent), old(effects), STOR, arg, env, r)
    {
      if !authenticated { return NOT_LOGGED_IN; }
      if arg == "" { return Reply(501, ""); }
      SendOpening();
      var connected := EstablishDataConnection(env);
      if !connected { return Threw; }
      var path := Resolve(GetState(), arg, env);
      if path == "" { return UNAVAILABLE; }
      effects := effects + [Store(path)];
      var bytes := env.transferred;
      if bytes.None? { return Threw; }
      bytesTransferred := (bytesTransferred + bytes.value) % SIZE_LIMIT;
      r := Reply(226, Decimal(bytes.value));
    }

    // -------------------------------------------------------------- files and directories

    method HandleDele(arg: string, env: Env) returns (r: Outcome)
      modifies this
      ensures Did(old(GetState()), old(sent), old(effects), DELE, arg, env, r)
    {
      if !authenticated { return NOT_LOGGED_IN; }
      var path := Resolve(GetState(), arg, env);
      if path == "" { return UNAVAILABLE; }
      var directory := env.isDirectory(path);
      if directory.None? { return Threw; }
      if directory.value {
        effects := effects + [RemoveDirectory(path)];
      } else {
        effects := effects + [RemoveFile(path)];
      }
      r := Performed(env, Reply(226, ""));
    }

    method HandleRnfr(arg: string, env: Env) returns (r: Outcome)
      modifies this
      ensures Did(old(GetState()), old(sent), old(effects), RNFR, arg, env, r)
    {
      if !authenticated { return NOT_LOGGED_IN; }
      var path := Resolve(GetState(), arg, env);
      if path == "" { return UNAVAILABLE; }
      renameFrom := path;
      r := Reply(350, "");
    }

    /** The pending source stays set. */
    method HandleRnto(arg: string, env: Env) returns (r: Outcome)
      modifies this
      ensures Did(old(GetState()), old(sent), old(effects), RNTO, arg, env, r)
    {
      if !authenticated { return NOT_LOGGED_IN; }
      var from := renameFrom;
      if from == "" { return Reply(503, ""); }
      if arg == "" { return Reply(501, ""); }
      var to := Resolve(GetState(), arg, env);
      if to == "" { return UNAVAILABLE; }
      effects := effects + [Rename(from, to)];
      r := Performed(env, Reply(226, ""));
    }

    method ChangeTo(arg: string, env: Env) returns (r: Outcome)
      modifies this
      ensures GetState() == ChangeDirectory(old(GetState()), arg, env) && r == CwdOutcome(old(GetState()), arg, env)
      ensures sent == old(sent) && effects == old(effects)
    {
      if !authenticated { return NOT_LOGGED_IN; }
      var path := Resolve(GetState(), arg, env);
      if path == "" { return UNAVAILABLE; }
      var found := env.found(path);
      if found.None? { return Threw; }
      if !found.value { return UNAVAILABLE; }
      var directory := env.isDirectory(path);
      if directory.None? { return Threw; }
      if !directory.value { return UNAVAILABLE; }
      currentDirectory := path;
      r := Reply(250, "");
    }

    method HandleCwd(arg: string, env: Env) returns (r: Outcome)
      modifies this
      ensures Did(old(GetState()), old(sent), old(effects), CWD, arg, env, r)
    {
      r := ChangeTo(arg, env);
    }

    /** CDUP is registered as CWD with the argument "..". */
    method HandleCdup(arg: string, env: Env) returns (r: Outcome)
      modifies this
      ensures Did(old(GetState()), old(sent), old(effects), CDUP, arg, env, r)
    {
      r := ChangeTo("..", env);
    }

    method HandlePwd(arg: string, env: Env) returns (r: Outcome)
      modifies this
      ensures Did(old(GetState()), old(sent), old(effects), PWD, arg, env, r)
    {
      if !authenticated { return NOT_LOGGED_IN; }
      if !env.pathsFound { return Threw; }
      var path := RelativePathText(currentDirectory, rootDirectory);
      if path == "" { path := "/"; }
      r := Reply(257, "\"" + path + "\"");
    }

    method HandleMkd(arg: string, env: Env) returns (r: Outcome)
      modifies this
      ensures Did(old(GetState()), old(sent), old(effects), MKD, arg, env, r)
    {
      if !authenticated { return NOT_LOGGED_IN; }
      var path := Resolve(GetState(), arg, env);
      if path == "" { return UNAVAILABLE; }
      effects := effects + [CreateDirectory(path)];
      r := Performed(env, Reply(257, "\"" + path + "\" created"));
    }

    method HandleRmd(arg: string, env: Env) returns (r: Outcome)
      modifies this
      ensures Did(old(GetState()), old(sent), old(effects), RMD, arg, env, r)
    {
      if !authenticated { return NOT_LOGGED_IN; }
      var path := Resolve(GetState(), arg, env);
      if path == "" { return UNAVAILABLE; }
      effects := effects + [RemoveDirectory(path)];
      r := Performed(env, Reply(226, ""));
    }

    method HandleSize(arg: string, env: Env) returns (r: Outcome)
      modifies this
      ensures Did(old(GetState()), old(sent), old(effects), SIZE, arg, env, r)
    {
      if !authenticated { return NOT_LOGGED_IN; }
      var path := Resolve(GetState(), arg, env);
      if path == "" { return UNAVAILABLE; }
      var directory := env.isDirectory(path);
      if directory.None? { return Threw; }
      if directory.value { return UNAVAILABLE; }
      r := Reply(213, Decimal(env.size(path)));
    }

    /** MDTM, NOOP, FEAT and OPTS only compute their reply. */
    method HandleConstant(verb: Verb, arg: string, env: Env) returns (r: Outcome)
      requires verb == MDTM || verb == NOOP || verb == FEAT || verb == OPTS
      modifies this
      ensures Did(old(GetState()), old(sent), old(effects), verb, arg, env, r)
    {
      if verb == MDTM {
        r := Reply(213, "20230401120000");
      } else if verb == FEAT {
        r := Reply(211, "");
      } else {
        r := Reply(200, "");
      }
    }

    // -------------------------------------------------------------- lines

    method Dispatch(verb: Verb, arg: string, env: Env) returns (r: Outcome)
      modifies this
      ensures Did(old(GetState()), old(sent), old(effects), verb, arg, env, r)
    {
      match verb
      case USER => r := HandleUser(arg, env);
      case PASS => r := HandlePass(arg, env);
      case QUIT => r := HandleQuit(arg, env);
      case PORT => r := HandlePort(arg, env);
      case PASV => r := HandlePasv(arg, env);
      case LIST => r := HandleList(LIST, arg, env);
      case NLST => r := HandleList(NLST, arg, env);
      case RETR => r := HandleRetr(arg, env);
      case STOR => r := HandleStor(arg, env);
      case DELE => r := HandleDele(arg, env);
      case RNFR => r := HandleRnfr(arg, env);
      case RNTO => r := HandleRnto(arg, env);
      case CWD => r := HandleCwd(arg, env);
      case CDUP => r := HandleCdup(arg, env);
      case PWD => r := HandlePwd(arg, env);
      case MKD => r := HandleMkd(arg, env);
      case RMD => r := HandleRmd(arg, env);
      case TYPE => r := HandleType(arg, env);
      case SIZE => r := HandleSize(arg, env);
      case MDTM => r := HandleConstant(MDTM, arg, env);
      case NOOP => r := HandleConstant(NOOP, arg, env);
      case FEAT => r := HandleConstant(FEAT, arg, env);
      case OPTS => r := HandleConstant(OPTS, arg, env);
    }

    method ProcessCommand(line: string, env: Env) returns (reply: Response)
      modifies this
      ensures var s, c := old(GetState()), ParseCommand(line);
        && GetState() == StateAfterCommand(s, c, env)
        && reply == FinalReply(s, c, env)
        && sent + [reply] == old(sent) + Replies(s, c, env)
        && effects == old(effects) + EffectsOfCommand(s, c, env)
    {
      var command := ReadLine(line);
      match command
      case Empty => reply := Response.Response(500, "");
      case Unknown(_) => reply := Response.Response(500, "");
      case Known(verb, arg) =>
        var outcome := Dispatch(verb, arg, env);
        reply := Caught(outcome);
    }

    // -------------------------------------------------------------- the command loop

    /** The fields are those that the commands `h` lead to, and the replies are the greeting and
        theirs. */
    ghost predicate Consistent(root: string, h: seq<Event>) reads this {
      && GetState() == StateAt(root, h, |h|)
      && sent == [GREETING] + SentAt(root, h)
      && effects == EffectsAt(root, h, |h|)
    }

    /** The part of `process_one_command` that follows a non-empty line. */
    method ProcessLine(line: string, env: Env, ghost root: string, ghost h: seq<Event>)
      requires Consistent(root, h)
      modifies this
      ensures Consistent(root, h + [Event(ParseCommand(line), env)])
    {
      ghost var e, before := Event(ParseCommand(line), env), GetState();
      ClosingReply(before, e.command, env);
      NextEvent(root, h, e);
      var reply := ProcessCommand(line, env);
      RepliesAddUp([GREETING], SentAt(root, h), Replies(before, e.command, env), sent, reply);
      sent := sent + [reply];
      if reply.code == 421 {
        active := false;
      }
    }

    /** `process_one_command`: reads a line and, unless it is empty, runs it.  `h` is the
        history so far, `g` the history afterwards; `None` is the exception that ends the loop. */
    method ProcessOneCommand(environment: nat -> Env, count: nat, ghost root: string, ghost h: seq<Event>)
      returns (ran: Option<bool>, ghost g: seq<Event>)
      requires active && count == |h| && reader.Valid()
      requires Consistent(root, h) && Recorded(h, environment, reader.lines)
      modifies this, reader, reader.socket`incoming
      ensures reader.Valid() && Consistent(root, g) && Recorded(g, environment, reader.lines)
      ensures reader.Wire() == old(reader.Wire())
      ensures ran.None? ==> reader.socket.incoming == []
      ensures ran.Some? ==> |g| == count + (if ran.value then 1 else 0)
      ensures ran.Some? ==> |reader.socket.incoming| < |old(reader.socket.incoming)|
    {
      g := h;
      ghost var before := reader.lines;
      var line := reader.ReadCommand();
      if line.None? { return None, h; }
      ghost var raw :| reader.lines == before + [raw] && line.value == DropCr(raw);
      if line.value == "" {
        SkipLine(h, environment, before, raw);
        return Some(false), h;
      }
      var env := environment(count);
      ghost var e := Event(ParseCommand(line.value), env);
      ActiveUntilQuit(root, h, |h|);
      RecordLine(h, e, environment, before, raw);
      ProcessLine(line.value, env, root, h);
      return Some(true), h + [e];
    }

    /** The command loop.  `environment(k)` is how the outside world answers command `k`; an
        exception from reading ends the loop. */
    method Start(environment: nat -> Env, ghost root: string) returns (ghost h: seq<Event>)
      requires reader.Valid() && reader.chunks == [] && reader.lines == []
      requires GetState() == Initial(root) && sent == [] && effects == []
      modifies this, reader, reader.socket`incoming
      ensures reader.Valid() && Consistent(root, h) && Recorded(h, environment, reader.lines)
      ensures reader.lines <= F.CompleteLines(old(reader.socket.incoming))
      ensures !StateAt(root, h, |h|).active || reader.socket.incoming == []
    {
      ghost var stream := reader.socket.incoming;
      assert "" + stream == stream;
      sent := sent + [GREETING];
      h := [];
      var count := 0;
      while active
        invariant reader.Wire() == stream
        invariant reader.Valid() && Consistent(root, h) && Recorded(h, environment, reader.lines) && count == |h|
        decreases |reader.socket.incoming|
      {
        var ran;
        ran, h := ProcessOneCommand(environment, count, root, h);
        if ran.None? { break; }
        if ran.value { count := count + 1; }
      }
      F.LinesOpenStream(reader.chunks, reader.socket.incoming);
    }
  }

  /** `get_relative_path` between two paths given as texts. */
  method RelativePathText(absolute: string, base: string) returns (path: string)
    ensures path == RelativeText(absolute, base)
  {
    var abs := SplitLoop(absolute, {SEPARATOR}, true);
    var root := SplitLoop(base, {SEPARATOR}, true);
    var relative := P.GetRelativePath(abs, root);
    path := JoinLoop(relative, [SEPARATOR]);
  }

  ghost predicate AnsweredBy(h: seq<Event>, environment: nat -> Env) {
    forall k :: 0 <= k < |h| ==> h[k].env == environment(k)
  }

  predicate QuitFree(h: seq<Event>) { forall k :: 0 <= k < |h| ==> !Is(h[k].command, {QUIT}) }

  predicate QuitIsLast(h: seq<Event>) { h == [] || QuitFree(h[..|h| - 1]) }

  lemma OneMoreAnswer(h: seq<Event>, e: Event, environment: nat -> Env)
    requires AnsweredBy(h, environment) && e.env == environment(|h|)
    ensures AnsweredBy(h + [e], environment)
  {}

  lemma OneMoreMayQuit(h: seq<Event>, e: Event)
    requires QuitFree(h)
    ensures QuitIsLast(h + [e])
  {
    assert (h + [e])[..|h|] == h;
  }

  /** The history holds the commands of the lines received, and nothing after a QUIT. */
  ghost predicate Recorded(h: seq<Event>, environment: nat -> Env, lines: seq<string>) {
    CommandsOf(h) == Commands(lines, |lines|) && AnsweredBy(h, environment) && QuitIsLast(h)
  }

  lemma SkipLine(h: seq<Event>, environment: nat -> Env, lines: seq<string>, raw: string)
    requires Recorded(h, environment, lines) && DropCr(raw) == ""
    ensures Recorded(h, environment, lines + [raw])
  {
    OneMoreLine(lines, raw);
  }

  lemma RecordLine(h: seq<Event>, e: Event, environment: nat -> Env, lines: seq<string>, raw: string)
    requires Recorded(h, environment, lines) && DropCr(raw) != "" && QuitFree(h)
    requires e == Event(ParseCommand(DropCr(raw)), environment(|h|))
    ensures Recorded(h + [e], environment, lines + [raw])
  {
    OneMoreLine(lines, raw);
    OneMoreCommand(h, e);
    OneMoreAnswer(h, e, environment);
    OneMoreMayQuit(h, e);
  }

  lemma RepliesAddUp(a: seq<Response>, b: seq<Response>, c: seq<Response>, sent: seq<Response>, reply: Response)
    requires sent + [reply] == (a + b) + c
    ensures sent + [reply] == a + (b + c)
  {}

  const GREETING := Response.Response(220, "")

  lemma ClosingReply(s: State, c: Command, env: Env)
    ensures FinalReply(s, c, env).code == 421 ==> !StateAfterCommand(s, c, env).active
  {
    FinalCodes(s, c, env);
    ActiveStep(s, c, env);
  }

  lemma NextEvent(root: string, h: seq<Event>, e: Event)
    ensures var g, s := h + [e], StateAt(root, h, |h|);
      && StateAt(root, g, |g|) == StateAfterCommand(s, e.command, e.env)
      && SentAt(root, g) == SentAt(root, h) + Replies(s, e.command, e.env)
      && EffectsAt(root, g, |g|) == EffectsAt(root, h, |h|) + EffectsOfCommand(s, e.command, e.env)
  {
    OneMore(root, h, e);
    OneMoreSent(root, h, e);
  }

  /** On the control connection: the greeting, then one final reply per command, in order, with
      at most one 150 in front of each. */
  lemma {:induction false} RepliesOfSession(root: string, h: seq<Event>, sent: seq<Response>)
    requires sent == [GREETING] + SentAt(root, h)
    ensures var finals := Finals(sent);
      && |finals| == 1 + |h| && finals[0] == Response.Response(220, "")
      && forall k :: 0 <= k < |h| ==> finals[1 + k] == FinalReply(StateAt(root, h, k), h[k].command, h[k].env)
    ensures Paired(sent)
  {
    var ss, answers := States(root, h), SentAt(root, h);
    var finals := FinalsIn(ss, h, |h|);
    RepliesArePaired(ss, h, |h|);
    PairedAfter(GREETING, answers);
    FinalsAfter(GREETING, answers);
    OneFinalReplyEach(ss, h, |h|);
    assert Finals(sent) == [GREETING] + finals;
    forall k | 0 <= k < |h|
      ensures finals[k] == FinalReply(StateAt(root, h, k), h[k].command, h[k].env)
    {
      FinalIn(ss, h, |h|, k);
    }
  }
}
