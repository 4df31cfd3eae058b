/** What each command does to the session, answers, and asks of the file system.  Texts of
    fixed replies are left out; computed texts are kept. */
module FtpState {
  import opened Text
  import opened FtpCommands
  import opened Splitting
  import P = Paths

  datatype UserPermission = NONE | READ | WRITE | ADMIN

  datatype ConnectionType = PASSIVE | ACTIVE

  /** `FTPSessionState` and `active_`. */
  datatype State = State(
    username: string, authenticated: bool, permission: UserPermission,
    currentDirectory: string, rootDirectory: string, representationType: string,
    connection: ConnectionType, host: string, port: bv16,
    renameFrom: string, bytesTransferred: nat, active: bool)

  function Initial(root: string): State {
    State("", false, NONE, root, root, "I", PASSIVE, "", 0, "", 0, true)
  }

  /** Where `establish_data_connection` gets its socket from. */
  datatype Endpoint = Accept | Connect(host: string, port: bv16)

  function DataEndpoint(s: State): Endpoint {
    if s.connection == PASSIVE then Accept else Connect(s.host, s.port)
  }

  /** How the outside world answers while one command runs; `None` is an exception, except in
      `canonical`, where it is the error code `resolve` looks at.  The root and the current
      directory are stored in canonical form, so making them canonical again either fails or
      changes nothing: `rootFound` says which in `resolve`, `pathsFound` in `get_relative_path`.
      `file_size` answers 0 instead of throwing. */
  datatype Env = Env(
    canonical: (string, string) -> Option<string>, rootFound: bool, pathsFound: bool,
    found: string -> Option<bool>, isDirectory: string -> Option<bool>, size: string -> nat,
    performed: bool, passivePort: Option<bv16>, connects: Endpoint -> bool, transferred: Option<nat>)

  /** `PathResolver::resolve`; the empty path means failure. */
  function Resolve(s: State, arg: string, env: Env): string {
    match env.canonical(s.currentDirectory, arg)
    case None => ""
    case Some(path) => if env.rootFound && s.rootDirectory <= path then path else ""
  }

  const SEPARATOR := '\\'

  /** The components of a canonical path: the drive, then the names. */
  function Components(text: string): seq<string> { Split(text, {SEPARATOR}, true) }

  /** `get_relative_path` on the texts of two canonical paths. */
  function RelativeText(absolute: string, base: string): string {
    Join(P.RelativePath(Components(absolute), Components(base)), [SEPARATOR])
  }

  // ---------------------------------------------------------------- the state

  function ChangeDirectory(s: State, arg: string, env: Env): State {
    var path := Resolve(s, arg, env);
    if s.authenticated && path != "" && env.found(path) == Some(true) && env.isDirectory(path) == Some(true)
    then s.(currentDirectory := path) else s
  }

  function SetActive(s: State, arg: string): State {
    match ParsePort(arg)
    case Target(host, port) => s.(connection := ACTIVE, host := host, port := port)
    case _ => s
  }

  function TypeOf(arg: string): Option<string> {
    if arg == "I" || arg == "Binary" then Some("I")
    else if arg == "A" || arg == "ASCII" then Some("A")
    else None
  }

  const SIZE_LIMIT := 0x1_0000_0000_0000_0000

  /** The bytes a RETR sends; `None` if nothing is sent or sending fails. */
  function Sent(s: State, arg: string, env: Env): Option<nat> {
    var path := Resolve(s, arg, env);
    if s.authenticated && arg != "" && env.connects(DataEndpoint(s)) && path != "" && env.found(path) == Some(true)
    then env.transferred else None
  }

  /** The bytes a STOR receives. */
  function Received(s: State, arg: string, env: Env): Option<nat> {
    if s.authenticated && arg != "" && env.connects(DataEndpoint(s)) && Resolve(s, arg, env) != ""
    then env.transferred else None
  }

  function CountBytes(s: State, moved: Option<nat>): State {
    if moved.None? then s else s.(bytesTransferred := (s.bytesTransferred + moved.value) % SIZE_LIMIT)
  }

  function NextState(s: State, verb: Verb, arg: string, env: Env): State {
    match verb
    case USER => s.(username := arg)
    case PASS => if s.username == "" then s else s.(authenticated := true, permission := WRITE)
    case QUIT => s.(active := false)
    case PORT => SetActive(s, arg)
    case RNFR => if s.authenticated && Resolve(s, arg, env) != "" then s.(renameFrom := Resolve(s, arg, env)) else s
    case CWD => ChangeDirectory(s, arg, env)
    case CDUP => ChangeDirectory(s, "..", env)
    case TYPE => if TypeOf(arg).Some? then s.(representationType := TypeOf(arg).value) else s
    case RETR => CountBytes(s, Sent(s, arg, env))
    case STOR => CountBytes(s, Received(s, arg, env))
    case _ => s
  }

  // ---------------------------------------------------------------- the answer

  /** A handler's result; `Threw` is an exception, which becomes a 550 reply. */
  datatype Outcome = Reply(code: nat, text: string) | Threw

  const NOT_LOGGED_IN := Reply(530, "")
  const UNAVAILABLE := Reply(550, "")

  function Performed(env: Env, reply: Outcome): Outcome { if env.performed then reply else Threw }

  function ListOutcome(s: State, arg: string, env: Env): Outcome {
    var path := Resolve(s, arg, env);
    if !s.authenticated then NOT_LOGGED_IN
    else if !env.connects(DataEndpoint(s)) then Threw
    else if path == "" then UNAVAILABLE
    else if env.found(path).None? then Threw
    else if !env.found(path).value then UNAVAILABLE
    else if env.isDirectory(path).None? then Threw
    else Performed(env, Reply(226, ""))
  }

  function RetrOutcome(s: State, arg: string, env: Env): Outcome {
    var path := Resolve(s, arg, env);
    if !s.authenticated then NOT_LOGGED_IN
    else if arg == "" then Reply(501, "")
    else if !env.connects(DataEndpoint(s)) then Threw
    else if path == "" then UNAVAILABLE
    else if env.found(path).None? then Threw
    else if !env.found(path).value then UNAVAILABLE
    else if env.transferred.None? then Threw
    else Reply(226, Decimal(env.transferred.value))
  }

  function StorOutcome(s: State, arg: string, env: Env): Outcome {
    if !s.authenticated then NOT_LOGGED_IN
    else if arg == "" then Reply(501, "")
    else if !env.connects(DataEndpoint(s)) then Threw
    else if Resolve(s, arg, env) == "" then UNAVAILABLE
    else if env.transferred.None? then Threw
    else Reply(226, Decimal(env.transferred.value))
  }

  function DeleOutcome(s: State, arg: string, env: Env): Outcome {
    if !s.authenticated then NOT_LOGGED_IN
    else if Resolve(s, arg, env) == "" then UNAVAILABLE
    else if env.isDirectory(Resolve(s, arg, env)).None? then Threw
    else Performed(env, Reply(226, ""))
  }

  function RntoOutcome(s: State, arg: string, env: Env): Outcome {
    if !s.authenticated then NOT_LOGGED_IN
    else if s.renameFrom == "" then Reply(503, "")
    else if arg == "" then Reply(501, "")
    else if Resolve(s, arg, env) == "" then UNAVAILABLE
    else Performed(env, Reply(226, ""))
  }

  function CwdOutcome(s: State, arg: string, env: Env): Outcome {
    var path := Resolve(s, arg, env);
    if !s.authenticated then NOT_LOGGED_IN
    else if path == "" then UNAVAILABLE
    else if env.found(path).None? then Threw
    else if !env.found(path).value then UNAVAILABLE
    else if env.isDirectory(path).None? then Threw
    else if !env.isDirectory(path).value then UNAVAILABLE
    else Reply(250, "")
  }

  function PwdOutcome(s: State, env: Env): Outcome {
    if !s.authenticated then NOT_LOGGED_IN
    else if !env.pathsFound then Threw
    else
      var path := RelativeText(s.currentDirectory, s.rootDirectory);
      Reply(257, "\"" + (if path == "" then "/" else path) + "\"")
  }

  /** RNFR, MKD and RMD answer `done` for a path under the root. */
  function PathOutcome(s: State, path: string, done: Outcome): Outcome {
    if !s.authenticated then NOT_LOGGED_IN else if path == "" then UNAVAILABLE else done
  }

  function SizeOutcome(s: State, arg: string, env: Env): Outcome {
    var path := Resolve(s, arg, env);
    if !s.authenticated then NOT_LOGGED_IN
    else if path == "" then UNAVAILABLE
    else if env.isDirectory(path).None? then Threw
    else if env.isDirectory(path).value then UNAVAILABLE
    else Reply(213, Decimal(env.size(path)))
  }

  function PortOutcome(arg: string): Outcome {
    match ParsePort(arg)
    case NoMatch => Reply(501, "")
    case OutOfRange => Threw
    case Target(_, _) => Reply(200, "")
  }

  function OutcomeOf(s: State, verb: Verb, arg: string, env: Env): Outcome {
    match verb
    case USER => Reply(331, "")
    case PASS => if s.username == "" then NOT_LOGGED_IN else Reply(230, "")
    case QUIT => Reply(421, "")
    case PORT => PortOutcome(arg)
    case PASV => if env.passivePort.None? then Threw else Reply(227, HostPort(LOOPBACK, env.passivePort.value))
    case LIST => ListOutcome(s, arg, env)
    case NLST => ListOutcome(s, arg, env)
    case RETR => RetrOutcome(s, arg, env)
    case STOR => StorOutcome(s, arg, env)
    case DELE => DeleOutcome(s, arg, env)
    case RNFR => PathOutcome(s, Resolve(s, arg, env), Reply(350, ""))
    case RNTO => RntoOutcome(s, arg, env)
    case CWD => CwdOutcome(s, arg, env)
    case CDUP => CwdOutcome(s, "..", env)
    case PWD => PwdOutcome(s, env)
    case MKD =>
      PathOutcome(s, Resolve(s, arg, env), Performed(env, Reply(257, "\"" + Resolve(s, arg, env) + "\" created")))
    case RMD => PathOutcome(s, Resolve(s, arg, env), Performed(env, Reply(226, "")))
    case TYPE => if TypeOf(arg).Some? then Reply(200, TypeOf(arg).value) else Reply(501, "")
    case SIZE => SizeOutcome(s, arg, env)
    case MDTM => Reply(213, "20230401120000")
    case NOOP => Reply(200, "")
    case FEAT => Reply(211, "")
    case OPTS => Reply(200, "")
  }

  /** Whether a 150 reply goes out before the final one. */
  predicate Announces(s: State, verb: Verb, arg: string) {
    s.authenticated && (verb == LIST || verb == NLST || ((verb == RETR || verb == STOR) && arg != ""))
  }

  // ---------------------------------------------------------------- the file system

  /** A change asked of the file system. */
  datatype Effect = RemoveDirectory(path: string) | RemoveFile(path: string) | Rename(from: string, path: string)
    | CreateDirectory(path: string) | Store(path: string)

  function DeleEffect(path: string, isDirectory: Option<bool>): seq<Effect> {
    match isDirectory
    case None => []
    case Some(directory) => [if directory then RemoveDirectory(path) else RemoveFile(path)]
  }

  function EffectsOf(s: State, verb: Verb, arg: string, env: Env): seq<Effect> {
    var path := Resolve(s, arg, env);
    if !s.authenticated || path == "" then []
    else
      match verb
      case DELE => DeleEffect(path, env.isDirectory(path))
      case RNTO => if s.renameFrom != "" && arg != "" then [Rename(s.renameFrom, path)] else []
      case MKD => [CreateDirectory(path)]
      case RMD => [RemoveDirectory(path)]
      case STOR => if arg != "" && env.connects(DataEndpoint(s)) then [Store(path)] else []
      case _ => []
  }

  // ---------------------------------------------------------------- one line

  datatype Response = Response(code: nat, text: string)

  const OPENING := Response(150, "")

  /** `process_command` turns an exception into a 550 reply. */
  function Caught(r: Outcome): Response { if r.Threw? then Response(550, "") else Response(r.code, r.text) }

  function StateAfterCommand(s: State, c: Command, env: Env): State {
    if c.Known? then NextState(s, c.verb, c.arg, env) else s
  }

  function FinalReply(s: State, c: Command, env: Env): Response {
    if c.Known? then Caught(OutcomeOf(s, c.verb, c.arg, env)) else Response(500, "")
  }

  function Replies(s: State, c: Command, env: Env): seq<Response> {
    (if c.Known? && Announces(s, c.verb, c.arg) then [OPENING] else []) + [FinalReply(s, c, env)]
  }

  function EffectsOfCommand(s: State, c: Command, env: Env): seq<Effect> {
    if c.Known? then EffectsOf(s, c.verb, c.arg, env) else []
  }
}
