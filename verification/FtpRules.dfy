/** What each command is answered with and what it asks of the file system, cause by cause. */
module FtpRules {
  import opened Text
  import opened FtpCommands
  import opened FtpState
  import opened FtpHistory

  function Code(s: State, verb: Verb, arg: string, env: Env): nat { FinalReply(s, Known(verb, arg), env).code }

  // ---------------------------------------------------------------- paths

  /** A path is accepted if and only if the file system has a canonical form for it, taken from the
      current directory, the root still has one, and the root's text opens it. */
  lemma PathIsAccepted(s: State, arg: string, env: Env, path: string)
    requires path != ""
    ensures Resolve(s, arg, env) == path <==>
      env.canonical(s.currentDirectory, arg) == Some(path) && env.rootFound && s.rootDirectory <= path
  {}

  // ---------------------------------------------------------------- reply codes

  /** A download needs a login, a name, a data connection, an accepted path at which something is,
      and a transfer that does not fail. */
  lemma {:induction false} RetrCode(s: State, arg: string, env: Env)
    ensures var path := Resolve(s, arg, env);
      Code(s, RETR, arg, env) ==
        if !s.authenticated then 530 else if arg == "" then 501
        else if env.connects(DataEndpoint(s)) && path != "" && env.found(path) == Some(true) && env.transferred.Some?
        then 226 else 550
  {}

  /** An upload does not need anything at the path. */
  lemma {:induction false} StorCode(s: State, arg: string, env: Env)
    ensures Code(s, STOR, arg, env) ==
        if !s.authenticated then 530 else if arg == "" then 501
        else if env.connects(DataEndpoint(s)) && Resolve(s, arg, env) != "" && env.transferred.Some? then 226 else 550
  {}

  lemma {:induction false} ListCode(s: State, verb: Verb, arg: string, env: Env)
    requires verb == LIST || verb == NLST
    ensures var path := Resolve(s, arg, env);
      Code(s, verb, arg, env) ==
        if !s.authenticated then 530
        else if env.connects(DataEndpoint(s)) && path != "" && env.found(path) == Some(true)
          && env.isDirectory(path).Some? && env.performed
        then 226 else 550
  {}

  lemma {:induction false} DeleCode(s: State, arg: string, env: Env)
    ensures var path := Resolve(s, arg, env);
      Code(s, DELE, arg, env) ==
        if !s.authenticated then 530
        else if path != "" && env.isDirectory(path).Some? && env.performed then 226 else 550
  {}

  /** RNTO asks for a pending source first, then for a name. */
  lemma {:induction false} RenameCodes(s: State, arg: string, env: Env)
    ensures Code(s, RNFR, arg, env) ==
        if !s.authenticated then 530 else if Resolve(s, arg, env) != "" then 350 else 550
    ensures Code(s, RNTO, arg, env) ==
        if !s.authenticated then 530 else if s.renameFrom == "" then 503 else if arg == "" then 501
        else if Resolve(s, arg, env) != "" && env.performed then 226 else 550
  {}

  lemma {:induction false} DirectoryCodes(s: State, arg: string, env: Env)
    ensures Code(s, MKD, arg, env) ==
        if !s.authenticated then 530 else if Resolve(s, arg, env) != "" && env.performed then 257 else 550
    ensures Code(s, RMD, arg, env) ==
        if !s.authenticated then 530 else if Resolve(s, arg, env) != "" && env.performed then 226 else 550
    ensures Code(s, PWD, arg, env) ==
        if !s.authenticated then 530 else if env.pathsFound then 257 else 550
  {}

  /** CWD needs a directory; CDUP ignores its argument and goes to `..`. */
  lemma {:induction false} CwdCode(s: State, arg: string, env: Env)
    ensures var path := Resolve(s, arg, env);
      Code(s, CWD, arg, env) ==
        if !s.authenticated then 530
        else if path != "" && env.found(path) == Some(true) && env.isDirectory(path) == Some(true) then 250 else 550
    ensures Code(s, CDUP, arg, env) == Code(s, CWD, "..", env)
  {}

  /** SIZE answers for anything that is not a directory. */
  lemma {:induction false} SizeReply(s: State, arg: string, env: Env)
    ensures var path := Resolve(s, arg, env);
      FinalReply(s, Known(SIZE, arg), env) ==
        if !s.authenticated then Response(530, "")
        else if path != "" && env.isDirectory(path) == Some(false) then Response(213, Decimal(env.size(path)))
        else Response(550, "")
  {}

  /** These need no login. */
  lemma {:induction false} LoginCodes(s: State, arg: string, env: Env)
    ensures Code(s, USER, arg, env) == 331 && Code(s, QUIT, arg, env) == 421
    ensures Code(s, PASS, arg, env) == if s.username == "" then 530 else 230
  {}

  lemma {:induction false} PortCode(s: State, arg: string, env: Env)
    ensures Code(s, PORT, arg, env) ==
      if ParsePort(arg) == NoMatch then 501 else if ParsePort(arg) == OutOfRange then 550 else 200
  {}

  lemma {:induction false} ConstantReplies(s: State, arg: string, env: Env)
    ensures Code(s, NOOP, arg, env) == 200 && Code(s, OPTS, arg, env) == 200 && Code(s, FEAT, arg, env) == 211
    ensures FinalReply(s, Known(MDTM, arg), env) == Response(213, "20230401120000")
  {}

  /** The two types, each under two names. */
  lemma {:induction false} TypeReply(s: State, arg: string, env: Env)
    ensures FinalReply(s, Known(TYPE, arg), env) ==
      if arg == "I" || arg == "Binary" then Response(200, "I")
      else if arg == "A" || arg == "ASCII" then Response(200, "A") else Response(501, "")
    ensures TypeOf(arg) ==
      if arg == "I" || arg == "Binary" then Some("I") else if arg == "A" || arg == "ASCII" then Some("A") else None
  {}

  /** PASV names the loopback address and the port, the high byte first. */
  lemma {:induction false} PasvReply(s: State, arg: string, env: Env, high: bv16, low: bv16)
    requires high < 256 && low < 256
    ensures var numbers := ["127", "0", "0", "1"] + [Decimal(high as nat), Decimal(low as nat)];
      env.passivePort == Some(high * 256 + low) ==>
        FinalReply(s, Known(PASV, arg), env) == Response(227, Join(numbers, ","))
    ensures env.passivePort == None ==> FinalReply(s, Known(PASV, arg), env) == Response(550, "")
  {
    HostPortIs(LOOPBACK, high, low);
  }

  /** MKD names the directory. */
  lemma {:induction false} MkdReply(s: State, arg: string, env: Env)
    requires Code(s, MKD, arg, env) == 257
    ensures FinalReply(s, Known(MKD, arg), env).text == "\"" + Resolve(s, arg, env) + "\" created"
  {}

  /** What is not a command is a syntax error and changes nothing. */
  lemma {:induction false} UnknownIsRefused(s: State, c: Command, env: Env)
    requires !c.Known?
    ensures Replies(s, c, env) == [Response(500, "")] && StateAfterCommand(s, c, env) == s
    ensures EffectsOfCommand(s, c, env) == []
  {}

  /** Listings and transfers are announced once the client is logged in and, for transfers, has
      named a file; nothing else is. */
  lemma {:induction false} RepliesAre(s: State, verb: Verb, arg: string, env: Env)
    ensures Replies(s, Known(verb, arg), env) ==
      (if s.authenticated && (verb in {LIST, NLST} || (verb in {RETR, STOR} && arg != ""))
       then [Response(150, "")] else []) + [FinalReply(s, Known(verb, arg), env)]
  {}

  /** Without a login nothing is asked of the file system, sent or changed by these commands. */
  lemma {:induction false} LoginComesFirst(s: State, verb: Verb, arg: string, env: Env)
    requires !s.authenticated
    requires verb in {LIST, NLST, RETR, STOR, DELE, RNFR, RNTO, CWD, CDUP, PWD, MKD, RMD, SIZE}
    ensures StateAfterCommand(s, Known(verb, arg), env) == s && EffectsOfCommand(s, Known(verb, arg), env) == []
    ensures Replies(s, Known(verb, arg), env) == [Response(530, "")]
  {}

  // ---------------------------------------------------------------- changes asked for

  /** Each change is asked for by its own commands, and names the accepted path. */
  lemma {:induction false} EffectsAre(s: State, verb: Verb, arg: string, env: Env)
    ensures var path := Resolve(s, arg, env);
      EffectsOfCommand(s, Known(verb, arg), env) ==
        if !s.authenticated || path == "" then []
        else if verb == MKD then [CreateDirectory(path)]
        else if verb == RMD || (verb == DELE && env.isDirectory(path) == Some(true)) then [RemoveDirectory(path)]
        else if verb == DELE && env.isDirectory(path) == Some(false) then [RemoveFile(path)]
        else if verb == RNTO && s.renameFrom != "" && arg != "" then [Rename(s.renameFrom, path)]
        else if verb == STOR && arg != "" && env.connects(DataEndpoint(s)) then [Store(path)]
        else []
  {}

  /** Over whole sessions: who asks for what. */
  lemma EffectsComeFrom(root: string, h: seq<Event>, k: nat, e: Effect)
    requires k < |h| && e in EffectsBy(root, h, k)
    ensures h[k].command.Known? && e.path == Resolve(StateAt(root, h, k), h[k].command.arg, h[k].env)
    ensures e.CreateDirectory? ==> h[k].command.verb == MKD
    ensures e.Store? ==> h[k].command.verb == STOR
    ensures e.Rename? ==> h[k].command.verb == RNTO
    ensures e.RemoveFile? ==> h[k].command.verb == DELE && h[k].env.isDirectory(e.path) == Some(false)
    ensures e.RemoveDirectory? ==>
      h[k].command.verb == RMD || (h[k].command.verb == DELE && h[k].env.isDirectory(e.path) == Some(true))
  {
    var s, c, env := StateAt(root, h, k), h[k].command, h[k].env;
    EffectPath(s, c, env, e);
    EffectsAre(s, c.verb, c.arg, env);
  }
}
