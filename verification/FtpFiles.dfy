/** What a session does to the files of the server. */
module FtpFiles {
  import opened Text
  import opened FtpCommands
  import opened FtpState
  import opened FtpHistory
  import opened FtpRules
  import opened Confinement

  datatype Node = File | Directory

  /** What is at each path. */
  type Files = string -> Option<Node>

  /** What a change does when it succeeds.  An upload goes over a file that is there. */
  function Applied(fs: Files, e: Effect): Files {
    match e
    case CreateDirectory(path) => (q: string) => if q == path then Some(Directory) else fs(q)
    case RemoveFile(path) => (q: string) => if q == path then None else fs(q)
    case RemoveDirectory(path) => (q: string) => if Beneath(path, q) then None else fs(q)
    case Rename(from, path) => (q: string) =>
      if Beneath(path, q) then fs(from + q[|path|..]) else if Beneath(from, q) then None else fs(q)
    case Store(_) => fs
  }

  function AppliedAll(fs: Files, es: seq<Effect>): Files {
    if es == [] then fs else Applied(AppliedAll(fs, es[..|es| - 1]), es[|es| - 1])
  }

  lemma AppliedOne(fs: Files, e: Effect)
    ensures AppliedAll(fs, [e]) == Applied(fs, e)
  {
    assert [e][..0] == [];
  }

  /** The files after command `k`, when they were `fs` before it and what it asked for succeeded. */
  function After(fs: Files, root: string, h: seq<Event>, k: nat): Files
    requires k < |h|
  {
    AppliedAll(fs, EffectsBy(root, h, k))
  }

  /** The path command `k` is about. */
  function PathOf(root: string, h: seq<Event>, k: nat): string
    requires k < |h| && h[k].command.Known?
  {
    Resolve(StateAt(root, h, k), h[k].command.arg, h[k].env)
  }

  // ---------------------------------------------------------------- one successful command

  /** A 257 to MKD: there is a directory at its path, and nothing else has changed. */
  lemma AfterMkd(fs: Files, root: string, h: seq<Event>, k: nat)
    requires k < |h| && Is(h[k].command, {MKD}) && CodeAt(root, h, k) == 257
    ensures var path, after := PathOf(root, h, k), After(fs, root, h, k);
            after(path) == Some(Directory) && forall q :: q != path ==> after(q) == fs(q)
  {
    var s, c, env := StateAt(root, h, k), h[k].command, h[k].env;
    DirectoryCodes(s, c.arg, env);
    EffectsAre(s, MKD, c.arg, env);
    AppliedOne(fs, CreateDirectory(PathOf(root, h, k)));
  }

  /** A 226 to RMD: nothing is left at its path nor beneath it, and nothing else has changed. */
  lemma AfterRmd(fs: Files, root: string, h: seq<Event>, k: nat)
    requires k < |h| && Is(h[k].command, {RMD}) && CodeAt(root, h, k) == 226
    ensures var path, after := PathOf(root, h, k), After(fs, root, h, k);
            forall q :: after(q) == if Beneath(path, q) then None else fs(q)
  {
    var s, c, env := StateAt(root, h, k), h[k].command, h[k].env;
    DirectoryCodes(s, c.arg, env);
    EffectsAre(s, RMD, c.arg, env);
    AppliedOne(fs, RemoveDirectory(PathOf(root, h, k)));
  }

  /** A 226 to DELE: nothing is left at its path, nor beneath it if it was a directory. */
  lemma AfterDele(fs: Files, root: string, h: seq<Event>, k: nat)
    requires k < |h| && Is(h[k].command, {DELE}) && CodeAt(root, h, k) == 226
    ensures var path, after := PathOf(root, h, k), After(fs, root, h, k);
            var whole := h[k].env.isDirectory(path) == Some(true);
            forall q :: after(q) == if q == path || (whole && Beneath(path, q)) then None else fs(q)
  {
    var s, c, env := StateAt(root, h, k), h[k].command, h[k].env;
    var path := PathOf(root, h, k);
    DeleCode(s, c.arg, env);
    EffectsAre(s, DELE, c.arg, env);
    if env.isDirectory(path) == Some(true) {
      AppliedOne(fs, RemoveDirectory(path));
    } else {
      AppliedOne(fs, RemoveFile(path));
    }
  }

  /** A 226 to RNTO: at its path and beneath is what was at the path of the latest RNFR answered
      with 350 and beneath; there nothing is left, and nothing else has changed. */
  lemma AfterRnto(fs: Files, root: string, h: seq<Event>, k: nat)
    requires k < |h| && Is(h[k].command, {RNTO}) && CodeAt(root, h, k) == 226
    ensures Latest(root, h, k, {RNFR}, 350).Some?
    ensures var from, path := PathOf(root, h, Latest(root, h, k, {RNFR}, 350).value), PathOf(root, h, k);
            var after := After(fs, root, h, k);
            forall q :: after(q) ==
              if Beneath(path, q) then fs(from + q[|path|..]) else if Beneath(from, q) then None else fs(q)
  {
    var s, c, env := StateAt(root, h, k), h[k].command, h[k].env;
    RenameCodes(s, c.arg, env);
    EffectsAre(s, RNTO, c.arg, env);
    RenameSourceIsLatest(root, h, k);
    AppliedOne(fs, Rename(s.renameFrom, PathOf(root, h, k)));
  }

  /** No other command changes what is where. */
  lemma AfterOthers(fs: Files, root: string, h: seq<Event>, k: nat)
    requires k < |h| && !Is(h[k].command, {MKD, RMD, DELE, RNTO})
    ensures After(fs, root, h, k) == fs
  {
    var s, c, env := StateAt(root, h, k), h[k].command, h[k].env;
    if c.Known? {
      EffectsAre(s, c.verb, c.arg, env);
      AppliedOne(fs, Store(PathOf(root, h, k)));
    } else {
      UnknownIsRefused(s, c, env);
    }
  }

  // ---------------------------------------------------------------- whole sessions

  /** The files after `n` commands; a change that failed has changed nothing. */
  function FilesAt(fs: Files, root: string, h: seq<Event>, n: nat): Files
    requires n <= |h|
  {
    if n == 0 then fs
    else
      var before := FilesAt(fs, root, h, n - 1);
      if CodeAt(root, h, n - 1) in {226, 257} then After(before, root, h, n - 1) else before
  }

  /** The file system has canonical forms only for paths at which something is. */
  ghost predicate Truthful(env: Env, fs: Files) {
    forall d, a :: env.canonical(d, a).Some? ==> fs(env.canonical(d, a).value).Some?
  }

  /** Command `k` has moved something to `q`. */
  ghost predicate MovedTo(root: string, h: seq<Event>, k: nat, q: string)
    requires k < |h|
  {
    Is(h[k].command, {RNTO}) && CodeAt(root, h, k) == 226 && Beneath(PathOf(root, h, k), q)
  }

  lemma CommandMakesNoPath(before: Files, root: string, h: seq<Event>, k: nat, q: string)
    requires k < |h| && Truthful(h[k].env, before) && CodeAt(root, h, k) in {226, 257}
    ensures After(before, root, h, k)(q).Some? ==> before(q).Some? || MovedTo(root, h, k, q)
  {
    var s, c, env := StateAt(root, h, k), h[k].command, h[k].env;
    if !Is(c, {MKD, RMD, DELE, RNTO}) {
      AfterOthers(before, root, h, k);
    } else if c.verb == MKD {
      DirectoryCodes(s, c.arg, env);
      AfterMkd(before, root, h, k);
      PathIsAccepted(s, c.arg, env, PathOf(root, h, k));
      assert env.canonical(s.currentDirectory, c.arg).Some?;
    } else {
      RemovalOrRename(before, root, h, k, q);
    }
  }

  lemma RemovalOrRename(before: Files, root: string, h: seq<Event>, k: nat, q: string)
    requires k < |h| && Is(h[k].command, {RMD, DELE, RNTO}) && CodeAt(root, h, k) in {226, 257}
    ensures After(before, root, h, k)(q).Some? ==> before(q).Some? || MovedTo(root, h, k, q)
  {
    var s, c, env := StateAt(root, h, k), h[k].command, h[k].env;
    DirectoryCodes(s, c.arg, env);
    DeleCode(s, c.arg, env);
    RenameCodes(s, c.arg, env);
    match c.verb
    case RMD => AfterRmd(before, root, h, k);
    case DELE => AfterDele(before, root, h, k);
    case RNTO => AfterRnto(before, root, h, k);
  }

  lemma StepMakesNoPath(fs: Files, root: string, h: seq<Event>, k: nat, q: string)
    requires k < |h| && Truthful(h[k].env, FilesAt(fs, root, h, k))
    ensures FilesAt(fs, root, h, k + 1)(q).Some? ==> FilesAt(fs, root, h, k)(q).Some? || MovedTo(root, h, k, q)
  {
    if CodeAt(root, h, k) in {226, 257} { CommandMakesNoPath(FilesAt(fs, root, h, k), root, h, k, q); }
  }

  /** What holds in the end held at the start or has a cause. */
  lemma {:induction false} HasCause(holds: nat -> bool, cause: nat -> bool, n: nat) returns (k: nat)
    requires forall i :: 0 <= i < n ==> (holds(i + 1) ==> holds(i) || cause(i))
    ensures holds(n) && !holds(0) ==> k < n && cause(k)
  {
    k := 0;
    if n > 0 && holds(n) && !holds(0) {
      assert holds(n - 1 + 1) ==> holds(n - 1) || cause(n - 1);
      if cause(n - 1) { k := n - 1; } else { k := HasCause(holds, cause, n - 1); }
    }
  }

  function Holds(fs: Files, root: string, h: seq<Event>, q: string): nat -> bool {
    (k: nat) => k <= |h| && FilesAt(fs, root, h, k)(q).Some?
  }

  ghost function Moves(root: string, h: seq<Event>, q: string): nat -> bool {
    (k: nat) => k < |h| && MovedTo(root, h, k, q)
  }

  /** Whatever a client does, the only paths that come into being are those to which something has
      been renamed: uploads and MKD create nothing. */
  lemma OnlyRenamesMakePaths(fs: Files, root: string, h: seq<Event>, n: nat, q: string) returns (k: nat)
    requires n <= |h|
    requires forall i :: 0 <= i < n ==> Truthful(h[i].env, FilesAt(fs, root, h, i))
    ensures FilesAt(fs, root, h, n)(q).Some? && fs(q).None? ==> k < n && MovedTo(root, h, k, q)
  {
    var holds, moves := Holds(fs, root, h, q), Moves(root, h, q);
    forall i | 0 <= i < n ensures holds(i + 1) ==> holds(i) || moves(i) {
      StepHolds(fs, root, h, i, q);
    }
    k := HasCause(holds, moves, n);
  }

  lemma StepHolds(fs: Files, root: string, h: seq<Event>, k: nat, q: string)
    requires k < |h| && Truthful(h[k].env, FilesAt(fs, root, h, k))
    ensures Holds(fs, root, h, q)(k + 1) ==> Holds(fs, root, h, q)(k) || Moves(root, h, q)(k)
  {
    StepMakesNoPath(fs, root, h, k, q);
  }

  // ---------------------------------------------------------------- outside the root

  lemma BeneathIsTransitive(root: string, p: string, q: string)
    requires Beneath(root, p) && Beneath(p, q)
    ensures Beneath(root, q)
  {}

  lemma EffectStaysInside(fs: Files, root: string, e: Effect, q: string)
    requires EffectBeneath(root, e) && !Beneath(root, q)
    ensures Applied(fs, e)(q) == fs(q)
  {
    assert Beneath(root, root);
    if Beneath(e.path, q) { BeneathIsTransitive(root, e.path, q); }
    if e.Rename? && Beneath(e.from, q) { BeneathIsTransitive(root, e.from, q); }
  }

  lemma {:induction false} EffectsStayInside(fs: Files, root: string, es: seq<Effect>, q: string)
    requires (forall e :: e in es ==> EffectBeneath(root, e)) && !Beneath(root, q)
    ensures AppliedAll(fs, es)(q) == fs(q)
  {
    if es != [] {
      var n := |es| - 1;
      EffectsStayInside(fs, root, es[..n], q);
      EffectStaysInside(AppliedAll(fs, es[..n]), root, es[n], q);
    }
  }

  lemma EffectByStays(root: string, h: seq<Event>, k: nat)
    requires k < |h| && Confined(root, h, k + 1)
    ensures forall e :: e in EffectsBy(root, h, k) ==> EffectBeneath(root, e)
  {
    forall e | e in EffectsBy(root, h, k) ensures EffectBeneath(root, e) {
      assert e in EffectsAt(root, h, k + 1);
    }
  }

  lemma CommandStaysInside(before: Files, root: string, h: seq<Event>, k: nat, q: string)
    requires k < |h| && Confined(root, h, k + 1) && !Beneath(root, q)
    ensures After(before, root, h, k)(q) == before(q)
  {
    EffectByStays(root, h, k);
    EffectsStayInside(before, root, EffectsBy(root, h, k), q);
  }

  /** Where nothing beside the root starts with its text, no session changes anything outside it. */
  lemma {:induction false} OutsideIsUntouched(fs: Files, root: string, h: seq<Event>, n: nat,
                                              present: string -> bool, q: string)
    requires n <= |h| && Answers(h, present) && NoSibling(root, present) && !Beneath(root, q)
    ensures FilesAt(fs, root, h, n)(q) == fs(q)
  {
    if n > 0 {
      OutsideIsUntouched(fs, root, h, n - 1, present, q);
      StaysBeneath(root, h, n, present);
      CommandStaysInside(FilesAt(fs, root, h, n - 1), root, h, n - 1, q);
    }
  }
}
