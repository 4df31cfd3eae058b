/** The session after any run of commands, as a function of the commands. */
module FtpHistory {
  import opened Text
  import opened FtpCommands
  import opened FtpState

  /** A command and the outside world's answers while it ran. */
  datatype Event = Event(command: Command, env: Env)

  function StateAt(root: string, h: seq<Event>, n: nat): State
    requires n <= |h|
  {
    if n == 0 then Initial(root) else StateAfterCommand(StateAt(root, h, n - 1), h[n - 1].command, h[n - 1].env)
  }

  /** The states before each command and after the last one. */
  function States(root: string, h: seq<Event>): (ss: seq<State>)
    ensures |ss| == |h| + 1
  {
    seq(|h| + 1, i requires 0 <= i <= |h| => StateAt(root, h, i))
  }

  function SentBy(reply: (State, Event) -> seq<Response>, ss: seq<State>, h: seq<Event>, n: nat): seq<Response>
    requires n <= |h| && n <= |ss|
  {
    if n == 0 then [] else SentBy(reply, ss, h, n - 1) + reply(ss[n - 1], h[n - 1])
  }

  function RepliesTo(s: State, e: Event): seq<Response> { Replies(s, e.command, e.env) }

  /** The replies to the first `n` commands, each given in the state `ss` holds for it. */
  function SentIn(ss: seq<State>, h: seq<Event>, n: nat): seq<Response>
    requires n <= |h| && n <= |ss|
  {
    SentBy(RepliesTo, ss, h, n)
  }

  function SentAt(root: string, h: seq<Event>): seq<Response> { SentIn(States(root, h), h, |h|) }

  /** What command `k` asks of the file system. */
  function EffectsBy(root: string, h: seq<Event>, k: nat): seq<Effect>
    requires k < |h|
  {
    EffectsOfCommand(StateAt(root, h, k), h[k].command, h[k].env)
  }

  function EffectsAt(root: string, h: seq<Event>, n: nat): seq<Effect>
    requires n <= |h|
  {
    if n == 0 then [] else EffectsAt(root, h, n - 1) + EffectsBy(root, h, n - 1)
  }

  /** The code of the final reply to command `k`. */
  function CodeAt(root: string, h: seq<Event>, k: nat): nat
    requires k < |h|
  {
    FinalReply(StateAt(root, h, k), h[k].command, h[k].env).code
  }

  predicate Is(c: Command, verbs: set<Verb>) { c.Known? && c.verb in verbs }

  /** The latest of the first `n` commands that is one of `verbs` and was answered with `code`. */
  function Latest(root: string, h: seq<Event>, n: nat, verbs: set<Verb>, code: nat): (k: Option<nat>)
    requires n <= |h|
    ensures k.Some? ==> k.value < n && Is(h[k.value].command, verbs) && CodeAt(root, h, k.value) == code
    ensures forall i :: 0 <= i < n && Is(h[i].command, verbs) && CodeAt(root, h, i) == code ==> k.Some? && i <= k.value
  {
    if n == 0 then None
    else if Is(h[n - 1].command, verbs) && CodeAt(root, h, n - 1) == code then Some(n - 1)
    else Latest(root, h, n - 1, verbs, code)
  }

  // ---------------------------------------------------------------- one step, field by field

  lemma UserStep(s: State, c: Command, env: Env)
    ensures StateAfterCommand(s, c, env).username == if Is(c, {USER}) then c.arg else s.username
    ensures Is(c, {USER}) ==> FinalReply(s, c, env).code == 331
  {}

  lemma PassStep(s: State, c: Command, env: Env)
    ensures var t := StateAfterCommand(s, c, env);
            && t.authenticated == (s.authenticated || (Is(c, {PASS}) && s.username != ""))
            && t.permission == (if Is(c, {PASS}) && s.username != "" then WRITE else s.permission)
    ensures Is(c, {PASS}) ==> (FinalReply(s, c, env).code == 230 <==> s.username != "")
  {}

  lemma RenameStep(s: State, c: Command, env: Env)
    ensures var t := StateAfterCommand(s, c, env);
            if Is(c, {RNFR}) && FinalReply(s, c, env).code == 350
            then t.renameFrom == Resolve(s, c.arg, env) && t.renameFrom != ""
            else t.renameFrom == s.renameFrom
  {}

  lemma PortStep(s: State, c: Command, env: Env)
    ensures var t := StateAfterCommand(s, c, env);
            if Is(c, {PORT}) && FinalReply(s, c, env).code == 200
            then t.connection == ACTIVE && ParsePort(c.arg) == Target(t.host, t.port)
            else t.connection == s.connection && t.host == s.host && t.port == s.port
  {}

  lemma TypeStep(s: State, c: Command, env: Env)
    ensures var t := StateAfterCommand(s, c, env);
            if Is(c, {TYPE}) && FinalReply(s, c, env).code == 200
            then TypeOf(c.arg) == Some(t.representationType)
            else t.representationType == s.representationType
  {}

  function DirectoryArgument(c: Command): string
    requires c.Known?
  {
    if c.verb == CDUP then ".." else c.arg
  }

  lemma DirectoryStep(s: State, c: Command, env: Env)
    ensures var t := StateAfterCommand(s, c, env);
            if Is(c, {CWD, CDUP}) && FinalReply(s, c, env).code == 250
            then t.currentDirectory == Resolve(s, DirectoryArgument(c), env) && t.currentDirectory != ""
            else t.currentDirectory == s.currentDirectory
  {}

  /** The bytes a command transfers. */
  function Transferred(s: State, c: Command, env: Env): Option<nat> {
    if !c.Known? then None
    else if c.verb == RETR then Sent(s, c.arg, env)
    else if c.verb == STOR then Received(s, c.arg, env)
    else None
  }

  /** A transfer is a RETR or STOR that is answered with 226 and the number of bytes. */
  lemma {:induction false} TransferIsAnswered(s: State, c: Command, env: Env)
    ensures Transferred(s, c, env).Some? <==> Is(c, {RETR, STOR}) && FinalReply(s, c, env).code == 226
    ensures Transferred(s, c, env).Some? ==> FinalReply(s, c, env).text == Decimal(Transferred(s, c, env).value)
  {}

  function Count(moved: Option<nat>): nat { if moved.None? then 0 else moved.value }

  lemma BytesStep(s: State, c: Command, env: Env)
    requires s.bytesTransferred < SIZE_LIMIT
    ensures StateAfterCommand(s, c, env).bytesTransferred
      == (s.bytesTransferred + Count(Transferred(s, c, env))) % SIZE_LIMIT
  {
    if Is(c, {RETR}) {
      BytesCounted(s, Sent(s, c.arg, env));
    } else if Is(c, {STOR}) {
      BytesCounted(s, Received(s, c.arg, env));
    } else if c.Known? {
      BytesStay(s, c.verb, c.arg, env);
    }
  }

  lemma BytesCounted(s: State, moved: Option<nat>)
    requires s.bytesTransferred < SIZE_LIMIT
    ensures CountBytes(s, moved).bytesTransferred == (s.bytesTransferred + Count(moved)) % SIZE_LIMIT
  {}

  lemma BytesStay(s: State, verb: Verb, arg: string, env: Env)
    requires verb != RETR && verb != STOR
    ensures NextState(s, verb, arg, env).bytesTransferred == s.bytesTransferred
  {}

  lemma ActiveStep(s: State, c: Command, env: Env)
    ensures StateAfterCommand(s, c, env).active == (s.active && !Is(c, {QUIT}))
    ensures StateAfterCommand(s, c, env).rootDirectory == s.rootDirectory
  {}

  /** A handler never answers with 150, and only QUIT answers with 421. */
  lemma {:induction false} FinalCodes(s: State, c: Command, env: Env)
    ensures FinalReply(s, c, env).code != OPENING.code
    ensures FinalReply(s, c, env).code == 421 <==> Is(c, {QUIT})
  {
    if c.Known? { OutcomeCodes(s, c.verb, c.arg, env); }
  }

  lemma OutcomeCodes(s: State, verb: Verb, arg: string, env: Env)
    ensures Caught(OutcomeOf(s, verb, arg, env)).code != OPENING.code
    ensures Caught(OutcomeOf(s, verb, arg, env)).code == 421 <==> verb == QUIT
  {}

  // ---------------------------------------------------------------- logging in

  /** The user name is the argument of the latest USER. */
  lemma {:induction false} UsernameIsLatest(root: string, h: seq<Event>, n: nat)
    requires n <= |h|
    ensures match Latest(root, h, n, {USER}, 331)
            case None => StateAt(root, h, n).username == ""
            case Some(k) => StateAt(root, h, n).username == h[k].command.arg
  {
    if n > 0 {
      UsernameIsLatest(root, h, n - 1);
      UserStep(StateAt(root, h, n - 1), h[n - 1].command, h[n - 1].env);
    }
  }

  /** Command `k` is a PASS while the latest USER has a non-empty argument. */
  predicate LogsIn(root: string, h: seq<Event>, k: nat)
    requires k < |h|
  {
    && Is(h[k].command, {PASS})
    && Latest(root, h, k, {USER}, 331).Some?
    && h[Latest(root, h, k, {USER}, 331).value].command.arg != ""
  }

  lemma {:induction false} AuthenticatedIffLoggedIn(root: string, h: seq<Event>, n: nat)
    requires n <= |h|
    ensures StateAt(root, h, n).authenticated <==> exists k :: 0 <= k < n && LogsIn(root, h, k)
    ensures StateAt(root, h, n).permission == if StateAt(root, h, n).authenticated then WRITE else NONE
  {
    if n > 0 {
      AuthenticatedIffLoggedIn(root, h, n - 1);
      UsernameIsLatest(root, h, n - 1);
      PassStep(StateAt(root, h, n - 1), h[n - 1].command, h[n - 1].env);
      if LogsIn(root, h, n - 1) { assert 0 <= n - 1 < n; }
    }
  }

  // ---------------------------------------------------------------- the other fields

  lemma {:induction false} RenameSourceIsLatest(root: string, h: seq<Event>, n: nat)
    requires n <= |h|
    ensures match Latest(root, h, n, {RNFR}, 350)
            case None => StateAt(root, h, n).renameFrom == ""
            case Some(k) =>
              var path := Resolve(StateAt(root, h, k), h[k].command.arg, h[k].env);
              StateAt(root, h, n).renameFrom == path != ""
  {
    if n > 0 {
      RenameSourceIsLatest(root, h, n - 1);
      RenameStep(StateAt(root, h, n - 1), h[n - 1].command, h[n - 1].env);
    }
  }

  /** PASV changes nothing: once a PORT has succeeded the connection type stays ACTIVE. */
  lemma {:induction false} ConnectionIsLatestPort(root: string, h: seq<Event>, n: nat)
    requires n <= |h|
    ensures var s := StateAt(root, h, n);
            match Latest(root, h, n, {PORT}, 200)
            case None => s.connection == PASSIVE && s.host == "" && s.port == 0
            case Some(k) => s.connection == ACTIVE && ParsePort(h[k].command.arg) == Target(s.host, s.port)
  {
    if n > 0 {
      ConnectionIsLatestPort(root, h, n - 1);
      PortStep(StateAt(root, h, n - 1), h[n - 1].command, h[n - 1].env);
    }
  }

  /** So data connections go to the client's latest PORT, and are accepted only before any. */
  lemma {:induction false} EndpointIsLatestPort(root: string, h: seq<Event>, n: nat)
    requires n <= |h|
    ensures match Latest(root, h, n, {PORT}, 200)
            case None => DataEndpoint(StateAt(root, h, n)) == Accept
            case Some(k) =>
              var t := ParsePort(h[k].command.arg);
              t.Target? && DataEndpoint(StateAt(root, h, n)) == Connect(t.host, t.port)
  {
    ConnectionIsLatestPort(root, h, n);
  }

  lemma {:induction false} TypeIsLatest(root: string, h: seq<Event>, n: nat)
    requires n <= |h|
    ensures match Latest(root, h, n, {TYPE}, 200)
            case None => StateAt(root, h, n).representationType == "I"
            case Some(k) => TypeOf(h[k].command.arg) == Some(StateAt(root, h, n).representationType)
  {
    if n > 0 {
      TypeIsLatest(root, h, n - 1);
      TypeStep(StateAt(root, h, n - 1), h[n - 1].command, h[n - 1].env);
    }
  }

  lemma {:induction false} DirectoryIsLatest(root: string, h: seq<Event>, n: nat)
    requires n <= |h|
    ensures var d := StateAt(root, h, n).currentDirectory;
            match Latest(root, h, n, {CWD, CDUP}, 250)
            case None => d == root
            case Some(k) => d == Resolve(StateAt(root, h, k), DirectoryArgument(h[k].command), h[k].env) != ""
  {
    if n > 0 {
      DirectoryIsLatest(root, h, n - 1);
      DirectoryStep(StateAt(root, h, n - 1), h[n - 1].command, h[n - 1].env);
    }
  }

  lemma {:induction false} ActiveUntilQuit(root: string, h: seq<Event>, n: nat)
    requires n <= |h|
    ensures StateAt(root, h, n).active <==> forall k :: 0 <= k < n ==> !Is(h[k].command, {QUIT})
    ensures StateAt(root, h, n).rootDirectory == root
  {
    if n > 0 {
      ActiveUntilQuit(root, h, n - 1);
      ActiveStep(StateAt(root, h, n - 1), h[n - 1].command, h[n - 1].env);
    }
  }

  /** The bytes command `k` transfers. */
  function MovedBy(root: string, h: seq<Event>, k: nat): nat
    requires k < |h|
  {
    Count(Transferred(StateAt(root, h, k), h[k].command, h[k].env))
  }

  function BytesMoved(root: string, h: seq<Event>, n: nat): nat
    requires n <= |h|
  {
    if n == 0 then 0 else BytesMoved(root, h, n - 1) + MovedBy(root, h, n - 1)
  }

  lemma AddAfterMod(a: nat, b: nat)
    ensures (a % SIZE_LIMIT + b) % SIZE_LIMIT == (a + b) % SIZE_LIMIT
  {
    var q := a / SIZE_LIMIT;
    assert a + b == q * SIZE_LIMIT + (a % SIZE_LIMIT + b);
  }

  lemma BytesGrow(root: string, h: seq<Event>, k: nat)
    requires k < |h| && StateAt(root, h, k).bytesTransferred < SIZE_LIMIT
    ensures StateAt(root, h, k + 1).bytesTransferred
      == (StateAt(root, h, k).bytesTransferred + MovedBy(root, h, k)) % SIZE_LIMIT
  {
    BytesStep(StateAt(root, h, k), h[k].command, h[k].env);
  }

  /** `bytes_transferred` counts modulo the width of `size_t`. */
  lemma {:induction false} BytesAreSummed(root: string, h: seq<Event>, n: nat)
    requires n <= |h|
    ensures StateAt(root, h, n).bytesTransferred == BytesMoved(root, h, n) % 0x1_0000_0000_0000_0000
  {
    if n > 0 {
      BytesAreSummed(root, h, n - 1);
      var before := StateAt(root, h, n - 1).bytesTransferred;
      assert before == BytesMoved(root, h, n - 1) % SIZE_LIMIT;
      BytesGrow(root, h, n - 1);
      AddAfterMod(BytesMoved(root, h, n - 1), MovedBy(root, h, n - 1));
    }
  }

  // ---------------------------------------------------------------- paths and the file system

  /** The root is a prefix of every directory and path the session holds. */
  lemma {:induction false} PathsExtendRoot(root: string, h: seq<Event>, n: nat)
    requires n <= |h|
    ensures var s := StateAt(root, h, n);
            root <= s.currentDirectory && (s.renameFrom != "" ==> root <= s.renameFrom)
  {
    ActiveUntilQuit(root, h, n);
    DirectoryIsLatest(root, h, n);
    RenameSourceIsLatest(root, h, n);
    var d := Latest(root, h, n, {CWD, CDUP}, 250);
    if d.Some? { ActiveUntilQuit(root, h, d.value); }
    var r := Latest(root, h, n, {RNFR}, 350);
    if r.Some? { ActiveUntilQuit(root, h, r.value); }
  }

  predicate Extends(root: string, e: Effect) { root <= e.path && (e.Rename? ==> root <= e.from) }

  lemma EffectStep(s: State, c: Command, env: Env)
    requires s.renameFrom != "" ==> s.rootDirectory <= s.renameFrom
    ensures EffectsOfCommand(s, c, env) != [] ==> s.authenticated
    ensures forall e :: e in EffectsOfCommand(s, c, env) ==> Extends(s.rootDirectory, e)
  {}

  predicate AllExtend(root: string, es: seq<Effect>) { forall e :: e in es ==> Extends(root, e) }

  lemma EffectsByExtend(root: string, h: seq<Event>, k: nat)
    requires k < |h|
    ensures AllExtend(root, EffectsBy(root, h, k))
    ensures EffectsBy(root, h, k) != [] ==> StateAt(root, h, k).authenticated
  {
    PathsExtendRoot(root, h, k);
    ActiveUntilQuit(root, h, k);
    var s := StateAt(root, h, k);
    assert s.rootDirectory == root;
    EffectStep(s, h[k].command, h[k].env);
  }

  lemma AllExtendConcat(root: string, a: seq<Effect>, b: seq<Effect>)
    requires AllExtend(root, a) && AllExtend(root, b)
    ensures AllExtend(root, a + b)
  {
    forall e | e in a + b ensures Extends(root, e) { assert e in a || e in b; }
  }

  lemma {:induction false} EffectsExtendRoot(root: string, h: seq<Event>, n: nat)
    requires n <= |h|
    ensures AllExtend(root, EffectsAt(root, h, n))
  {
    if n > 0 {
      EffectsExtendRoot(root, h, n - 1);
      EffectsByExtend(root, h, n - 1);
      var before, more := EffectsAt(root, h, n - 1), EffectsBy(root, h, n - 1);
      AllExtendConcat(root, before, more);
      assert EffectsAt(root, h, n) == before + more;
    }
  }

  lemma {:induction false} EffectsNeedLogin(root: string, h: seq<Event>, n: nat) returns (k: nat)
    requires n <= |h| && EffectsAt(root, h, n) != []
    ensures k < n && LogsIn(root, h, k)
  {
    if EffectsAt(root, h, n - 1) != [] {
      k := EffectsNeedLogin(root, h, n - 1);
    } else {
      EffectsByExtend(root, h, n - 1);
      AuthenticatedIffLoggedIn(root, h, n - 1);
      k :| 0 <= k < n - 1 && LogsIn(root, h, k);
    }
  }

  /** The file system is only asked for changes by a client that has logged in, and only for
      changes to paths the root is a prefix of. */
  lemma EffectsAreAuthorised(root: string, h: seq<Event>, n: nat)
    requires n <= |h|
    ensures EffectsAt(root, h, n) != [] ==> exists k :: 0 <= k < n && LogsIn(root, h, k)
    ensures AllExtend(root, EffectsAt(root, h, n))
  {
    EffectsExtendRoot(root, h, n);
    if EffectsAt(root, h, n) != [] { var k := EffectsNeedLogin(root, h, n); }
  }

  /** A rename goes from the path of the latest successful RNFR to the argument of the RNTO. */
  lemma RenameGoesFromLatest(root: string, h: seq<Event>, k: nat, e: Effect)
    requires k < |h| && e in EffectsBy(root, h, k) && e.Rename?
    ensures Is(h[k].command, {RNTO}) && e.path == Resolve(StateAt(root, h, k), h[k].command.arg, h[k].env)
    ensures match Latest(root, h, k, {RNFR}, 350)
            case None => false
            case Some(j) => e.from == Resolve(StateAt(root, h, j), h[j].command.arg, h[j].env)
  {
    RenameSourceIsLatest(root, h, k);
    RenameEffect(StateAt(root, h, k), h[k].command, h[k].env, e);
  }

  lemma RenameEffect(s: State, c: Command, env: Env, e: Effect)
    requires e in EffectsOfCommand(s, c, env) && e.Rename?
    ensures Is(c, {RNTO}) && e == Rename(s.renameFrom, Resolve(s, c.arg, env)) && s.renameFrom != ""
  {}

  /** `std::filesystem::canonical` fails on a path at which nothing is. */
  ghost predicate OnlyExistingAreCanonical(env: Env) {
    forall d, a :: env.canonical(d, a).Some? ==> env.found(env.canonical(d, a).value) == Some(true)
  }

  lemma EffectPath(s: State, c: Command, env: Env, e: Effect)
    requires e in EffectsOfCommand(s, c, env)
    ensures c.Known? && e.path == Resolve(s, c.arg, env) != ""
  {}

  /** Nothing is created under a new name: what STOR, MKD and the other commands ask for always
      concerns a path at which something is already. */
  lemma NothingNewIsCreated(root: string, h: seq<Event>, k: nat, e: Effect)
    requires k < |h| && e in EffectsBy(root, h, k) && OnlyExistingAreCanonical(h[k].env)
    ensures h[k].env.found(e.path) == Some(true)
  {
    var s, c, env := StateAt(root, h, k), h[k].command, h[k].env;
    EffectPath(s, c, env, e);
    assert env.canonical(s.currentDirectory, c.arg) == Some(e.path);
  }

  /** A client that is logged in gets 550 for a new name. */
  lemma {:induction false} NewNamesAreRefused(s: State, c: Command, env: Env)
    requires s.authenticated && Is(c, {STOR, MKD}) && c.arg != "" && env.canonical(s.currentDirectory, c.arg) == None
    ensures FinalReply(s, c, env).code == 550 && EffectsOfCommand(s, c, env) == []
  {}

  /** A change is reported done exactly when it was asked of the file system and succeeded. */
  lemma {:induction false} ChangesAreAnswered(s: State, c: Command, env: Env)
    requires Is(c, {DELE, RNTO, MKD, RMD})
    ensures FinalReply(s, c, env).code == (if c.verb == MKD then 257 else 226)
       <==> EffectsOfCommand(s, c, env) != [] && env.performed
  {}

  // ---------------------------------------------------------------- replies

  /** The replies other than 150. */
  function Finals(rs: seq<Response>): seq<Response> {
    if rs == [] then []
    else Finals(rs[..|rs| - 1]) + (if rs[|rs| - 1] == OPENING then [] else [rs[|rs| - 1]])
  }

  lemma FinalsSnoc(rs: seq<Response>, r: Response)
    ensures Finals(rs + [r]) == Finals(rs) + (if r == OPENING then [] else [r])
  {
    assert (rs + [r])[..|rs|] == rs;
  }

  function FinalsIn(ss: seq<State>, h: seq<Event>, n: nat): (rs: seq<Response>)
    requires n <= |h| && n <= |ss|
    ensures |rs| == n
  {
    if n == 0 then [] else FinalsIn(ss, h, n - 1) + [FinalReply(ss[n - 1], h[n - 1].command, h[n - 1].env)]
  }

  lemma {:induction false} FinalIn(ss: seq<State>, h: seq<Event>, n: nat, k: nat)
    requires k < n <= |h| && n <= |ss|
    ensures FinalsIn(ss, h, n)[k] == FinalReply(ss[k], h[k].command, h[k].env)
    decreases n
  {
    if k < n - 1 { FinalIn(ss, h, n - 1, k); }
  }

  /** Every command has exactly one final reply, in order. */
  lemma {:induction false} OneFinalReplyEach(ss: seq<State>, h: seq<Event>, n: nat)
    requires n <= |h| && n <= |ss|
    ensures Finals(SentIn(ss, h, n)) == FinalsIn(ss, h, n)
  {
    if n > 0 {
      OneFinalReplyEach(ss, h, n - 1);
      FinalsOfReplies(SentIn(ss, h, n - 1), ss[n - 1], h[n - 1].command, h[n - 1].env);
    }
  }

  lemma FinalsOfReplies(rs: seq<Response>, s: State, c: Command, env: Env)
    ensures Finals(rs + Replies(s, c, env)) == Finals(rs) + [FinalReply(s, c, env)]
  {
    FinalCodes(s, c, env);
    var final := FinalReply(s, c, env);
    if c.Known? && Announces(s, c.verb, c.arg) {
      assert rs + Replies(s, c, env) == rs + [OPENING] + [final];
      FinalsSnoc(rs, OPENING);
      FinalsSnoc(rs + [OPENING], final);
    } else {
      assert rs + Replies(s, c, env) == rs + [final];
      FinalsSnoc(rs, final);
    }
  }

  lemma {:induction false} FinalsAfter(first: Response, rs: seq<Response>)
    requires first != OPENING
    ensures Finals([first] + rs) == [first] + Finals(rs)
  {
    if rs == [] {
      assert [first] + rs == [] + [first];
      FinalsSnoc([], first);
    } else {
      var n := |rs| - 1;
      FinalsAfter(first, rs[..n]);
      FinalsSnoc([first] + rs[..n], rs[n]);
      assert [first] + rs == [first] + rs[..n] + [rs[n]];
    }
  }

  /** The replies are final ones, each with at most one 150 in front of it. */
  predicate Paired(rs: seq<Response>)
    decreases |rs|
  {
    var n := |rs|;
    if n == 0 then true
    else if rs[n - 1] == OPENING then false
    else if n > 1 && rs[n - 2] == OPENING then Paired(rs[..n - 2])
    else Paired(rs[..n - 1])
  }

  lemma PairedSnoc(rs: seq<Response>, final: Response)
    requires Paired(rs) && final != OPENING
    ensures Paired(rs + [final]) && Paired(rs + [OPENING] + [final])
  {
    assert (rs + [final])[..|rs|] == rs;
    assert (rs + [OPENING] + [final])[..|rs|] == rs;
  }

  lemma PairedReplies(rs: seq<Response>, s: State, c: Command, env: Env)
    requires Paired(rs)
    ensures Paired(rs + Replies(s, c, env))
  {
    FinalCodes(s, c, env);
    var final := FinalReply(s, c, env);
    PairedSnoc(rs, final);
    if c.Known? && Announces(s, c.verb, c.arg) {
      assert rs + Replies(s, c, env) == rs + [OPENING] + [final];
    } else {
      assert rs + Replies(s, c, env) == rs + [final];
    }
  }

  ghost predicate KeepsPaired(reply: (State, Event) -> seq<Response>) {
    forall rs, s, e :: Paired(rs) ==> Paired(rs + reply(s, e))
  }

  lemma {:induction false} SentByIsPaired(
      reply: (State, Event) -> seq<Response>, ss: seq<State>, h: seq<Event>, n: nat)
    requires n <= |h| && n <= |ss| && KeepsPaired(reply)
    ensures Paired(SentBy(reply, ss, h, n))
  {
    if n > 0 { SentByIsPaired(reply, ss, h, n - 1); }
  }

  lemma RepliesArePaired(ss: seq<State>, h: seq<Event>, n: nat)
    requires n <= |h| && n <= |ss|
    ensures Paired(SentIn(ss, h, n))
  {
    forall rs, s, e | Paired(rs) ensures Paired(rs + RepliesTo(s, e)) { PairedReplies(rs, s, e.command, e.env); }
    SentByIsPaired(RepliesTo, ss, h, n);
  }

  lemma {:induction false} PairedAfter(first: Response, rs: seq<Response>)
    requires first != OPENING && Paired(rs)
    ensures Paired([first] + rs)
    decreases |rs|
  {
    var n, all := |rs|, [first] + rs;
    if n == 0 {
      assert all[..0] == [];
    } else if n > 1 && rs[n - 2] == OPENING {
      PairedAfter(first, rs[..n - 2]);
      assert all[..n - 1] == [first] + rs[..n - 2];
    } else {
      PairedAfter(first, rs[..n - 1]);
      assert all[..n] == [first] + rs[..n - 1];
    }
  }

  // ---------------------------------------------------------------- from lines to commands

  /** The commands among the first `n` lines received: a line that is empty without its line end
      is skipped. */
  function Commands(lines: seq<string>, n: nat): seq<Command>
    requires n <= |lines|
  {
    if n == 0 then [] else
    Commands(lines, n - 1)
    + (if DropCr(lines[n - 1]) == "" then [] else [ParseCommand(DropCr(lines[n - 1]))])
  }

  function CommandsOf(h: seq<Event>): seq<Command> { seq(|h|, i requires 0 <= i < |h| => h[i].command) }

  lemma {:induction false} PrefixAt(root: string, h: seq<Event>, more: seq<Event>, n: nat)
    requires n <= |h|
    ensures StateAt(root, h + more, n) == StateAt(root, h, n)
    ensures EffectsAt(root, h + more, n) == EffectsAt(root, h, n)
  {
    if n > 0 { PrefixAt(root, h, more, n - 1); }
  }

  lemma {:induction false} PrefixCommands(lines: seq<string>, more: seq<string>, n: nat)
    requires n <= |lines|
    ensures Commands(lines + more, n) == Commands(lines, n)
  {
    if n > 0 { PrefixCommands(lines, more, n - 1); }
  }

  lemma {:induction false} SentPrefix(reply: (State, Event) -> seq<Response>,
                                      ss: seq<State>, tt: seq<State>, h: seq<Event>, more: seq<Event>, n: nat)
    requires n <= |h| && n <= |ss| && n <= |tt| && forall k :: 0 <= k < n ==> ss[k] == tt[k]
    ensures SentBy(reply, tt, h + more, n) == SentBy(reply, ss, h, n)
  {
    if n > 0 { SentPrefix(reply, ss, tt, h, more, n - 1); }
  }

  lemma StatesPrefix(root: string, h: seq<Event>, e: Event)
    ensures forall k :: 0 <= k <= |h| ==> States(root, h + [e])[k] == States(root, h)[k]
  {
    forall k | 0 <= k <= |h| ensures StateAt(root, h + [e], k) == StateAt(root, h, k) { PrefixAt(root, h, [e], k); }
  }

  lemma OneMoreSent(root: string, h: seq<Event>, e: Event)
    ensures SentAt(root, h + [e]) == SentAt(root, h) + Replies(StateAt(root, h, |h|), e.command, e.env)
  {
    StatesPrefix(root, h, e);
    SentPrefix(RepliesTo, States(root, h), States(root, h + [e]), h, [e], |h|);
  }

  lemma OneMore(root: string, h: seq<Event>, e: Event)
    ensures var g, n := h + [e], |h|;
      && StateAt(root, g, n + 1) == StateAfterCommand(StateAt(root, h, n), e.command, e.env)
      && EffectsAt(root, g, n + 1) == EffectsAt(root, h, n) + EffectsOfCommand(StateAt(root, h, n), e.command, e.env)
  {
    PrefixAt(root, h, [e], |h|);
  }

  lemma OneMoreCommand(h: seq<Event>, e: Event)
    ensures CommandsOf(h + [e]) == CommandsOf(h) + [e.command]
  {}

  lemma OneMoreLine(lines: seq<string>, raw: string)
    ensures Commands(lines + [raw], |lines| + 1)
      == Commands(lines, |lines|) + (if DropCr(raw) == "" then [] else [ParseCommand(DropCr(raw))])
  {
    PrefixCommands(lines, [raw], |lines|);
  }
}
