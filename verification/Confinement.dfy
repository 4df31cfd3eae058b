/** What the root check of `PathResolver::resolve` confines a session to.  The check compares
    the texts of two canonical paths; here paths also have components, the drive first, and
    their texts put a separator between them. */
module Confinement {
  import opened Text
  import opened Splitting
  import opened FtpCommands
  import opened FtpState
  import opened FtpHistory
  import P = Paths

  const SEP: string := [SEPARATOR]

  // ---------------------------------------------------------------- paths and their texts

  predicate ValidPath(p: P.Path) { p != [] && forall i :: 0 <= i < |p| ==> p[i] != "" && SEPARATOR !in p[i] }

  /** A drive alone is written with a separator behind it. */
  function Padded(p: P.Path): P.Path { if |p| == 1 then p + [""] else p }

  function PathText(p: P.Path): string { Join(Padded(p), SEP) }

  /** How paths are spelled: `C:\`, `C:\srv`, `C:\srv\pub`. */
  lemma PathsAreSpelled(drive: string, p: P.Path, name: string)
    ensures PathText([drive]) == drive + "\\" && PathText([drive, name]) == drive + ("\\" + name)
    ensures |p| >= 2 ==> PathText(p + [name]) == PathText(p) + ("\\" + name)
  {
    JoinHead(drive, [""], SEP);
    JoinHead(drive, [name], SEP);
    assert [drive] + [""] == [drive, ""] && [drive] + [name] == [drive, name];
    assert Join([""], SEP) == "" && Join([name], SEP) == name;
    if |p| >= 2 { JoinConcat(p, [name], SEP); }
  }

  lemma PaddedIsFree(p: P.Path)
    requires ValidPath(p)
    ensures Free(Padded(p), SEPARATOR) && |Padded(p)| >= 2
  {}

  lemma SplitPathText(p: P.Path)
    requires ValidPath(p)
    ensures Split(PathText(p), {SEPARATOR}, false) == Padded(p)
  {
    PaddedIsFree(p);
    SplitUndoesJoin(Padded(p), SEPARATOR);
  }

  lemma {:induction false} JoinConcat(a: seq<string>, b: seq<string>, sep: string)
    requires a != [] && b != []
    ensures Join(a + b, sep) == Join(a, sep) + (sep + Join(b, sep))
  {
    if |a| == 1 {
      assert a == [a[0]];
      JoinHead(a[0], b, sep);
    } else {
      assert a + b == [a[0]] + (a[1..] + b) && a == [a[0]] + a[1..];
      JoinConcat(a[1..], b, sep);
      JoinHead(a[0], a[1..] + b, sep);
      JoinHead(a[0], a[1..], sep);
      Regroup(a[0], sep, Join(a[1..], sep), sep + Join(b, sep));
    }
  }

  lemma Regroup(a: string, b: string, c: string, d: string)
    ensures a + (b + (c + d)) == (a + (b + c)) + d
  {}

  lemma FreeConcat(a: seq<string>, b: seq<string>, c: char)
    requires Free(a, c) && Free(b, c)
    ensures Free(a + b, c)
  {}

  lemma SplitConcat(a: string, b: string, c: char)
    ensures Split(a + ([c] + b), {c}, false) == Split(a, {c}, false) + Split(b, {c}, false)
  {
    var x, y := Split(a, {c}, false), Split(b, {c}, false);
    JoinUndoesSplit(a, c);
    JoinUndoesSplit(b, c);
    TokensAreFree(a, c, [], "");
    TokensAreFree(b, c, [], "");
    JoinConcat(x, y, [c]);
    FreeConcat(x, y, c);
    SplitUndoesJoin(x + y, c);
  }

  // ---------------------------------------------------------------- being beneath the root

  predicate EndsInSeparator(t: string) { t != "" && t[|t| - 1] == SEPARATOR }

  /** Beneath the root as far as the texts tell: the root itself, or a text that goes on with a
      separator. */
  predicate Beneath(root: string, t: string) {
    t == root || (root <= t && (EndsInSeparator(root) || (|root| < |t| && t[|root|] == SEPARATOR)))
  }

  lemma SameText(r: P.Path, p: P.Path)
    requires ValidPath(r) && ValidPath(p) && PathText(r) == PathText(p)
    ensures r == p
  {
    SplitPathText(r);
    SplitPathText(p);
    if |r| == 1 { assert p[0] == Padded(p)[0] == r[0]; }
  }

  lemma CutText(t: string, n: nat)
    requires n < |t|
    ensures t == t[..n] + ([t[n]] + t[n + 1..])
  {}

  /** A root that ends in a separator is a drive. */
  lemma OnlyDrivesEnd(r: P.Path)
    requires ValidPath(r) && EndsInSeparator(PathText(r))
    ensures |r| == 1 && Split(PathText(r)[..|PathText(r)| - 1], {SEPARATOR}, false) == [r[0]]
  {
    var t := PathText(r);
    var front := t[..|t| - 1];
    CutText(t, |t| - 1);
    assert t[|t|..] == "";
    SplitConcat(front, "", SEPARATOR);
    OnlyPart("", SEPARATOR);
    SplitPathText(r);
    var x := Split(front, {SEPARATOR}, false);
    assert (x + [""])[|x|] == "";
    assert Padded(r)[|x|] == "";
    assert x == (x + [""])[..|x|] == Padded(r)[..|x|];
  }

  lemma BeneathDrive(r: P.Path, p: P.Path)
    requires ValidPath(r) && ValidPath(p) && EndsInSeparator(PathText(r)) && PathText(r) <= PathText(p)
    ensures r <= p
  {
    var t, n := PathText(p), |PathText(r)| - 1;
    OnlyDrivesEnd(r);
    var front, back := t[..n], t[n + 1..];
    assert front == PathText(r)[..n] && t[n] == SEPARATOR;
    CutText(t, n);
    SplitConcat(front, back, SEPARATOR);
    SplitPathText(p);
    SameHead(r, Padded(p), Split(back, {SEPARATOR}, false));
    HeadIsPrefix(r, p);
  }

  lemma HeadIsPrefix(r: P.Path, p: P.Path)
    requires |r| == 1 && p != [] && Padded(p)[0] == r[0]
    ensures r <= p
  {}

  lemma SameHead(r: P.Path, p: P.Path, rest: P.Path)
    requires |r| == 1 && p == [r[0]] + rest
    ensures p != [] && p[0] == r[0]
  {}

  lemma LongerGoesOn(r: P.Path, p: P.Path, rest: P.Path)
    requires |r| >= 2 && rest != [] && Padded(p) == r + rest
    ensures r <= p
  {
    assert |Padded(p)| >= 3;
    assert Padded(p) == p;
    assert p[..|r|] == r;
  }

  lemma BeneathDirectory(r: P.Path, p: P.Path)
    requires ValidPath(r) && ValidPath(p) && |r| >= 2
    requires PathText(r) <= PathText(p) && |PathText(r)| < |PathText(p)| && PathText(p)[|PathText(r)|] == SEPARATOR
    ensures r <= p
  {
    var t, n := PathText(p), |PathText(r)|;
    var front, back := t[..n], t[n + 1..];
    assert front == PathText(r);
    CutText(t, n);
    SplitConcat(front, back, SEPARATOR);
    SplitPathText(r);
    SplitPathText(p);
    JoinUndoesSplit(back, SEPARATOR);
    LongerGoesOn(r, p, Split(back, {SEPARATOR}, false));
  }

  lemma DriveEnds(r: P.Path)
    requires ValidPath(r) && |r| == 1
    ensures PathText(r) == r[0] + SEP && EndsInSeparator(PathText(r))
  {
    JoinHead(r[0], [""], SEP);
    assert r + [""] == [r[0]] + [""];
  }

  lemma PrefixIsBeneath(r: P.Path, p: P.Path)
    requires ValidPath(r) && ValidPath(p) && r <= p
    ensures Beneath(PathText(r), PathText(p))
  {
    if r != p {
      var rest := p[|r|..];
      assert p == r + rest;
      JoinConcat(r, rest, SEP);
      if |r| == 1 {
        DriveEnds(r);
        assert r == [r[0]];
        assert Join(r, SEP) == r[0];
        Concat3(r[0], SEP, Join(rest, SEP));
      } else {
        assert (Join(r, SEP) + (SEP + Join(rest, SEP)))[|Join(r, SEP)|] == SEPARATOR;
      }
    }
  }

  /** The texts tell exactly whether one path lies beneath another. */
  lemma BeneathIsPrefix(r: P.Path, p: P.Path)
    requires ValidPath(r) && ValidPath(p)
    ensures Beneath(PathText(r), PathText(p)) <==> r <= p
  {
    if r <= p {
      PrefixIsBeneath(r, p);
    } else if PathText(r) == PathText(p) {
      SameText(r, p);
    } else if PathText(r) <= PathText(p) {
      if EndsInSeparator(PathText(r)) {
        BeneathDrive(r, p);
      } else {
        if |r| == 1 { DriveEnds(r); }
        if PathText(p)[|PathText(r)|] == SEPARATOR { BeneathDirectory(r, p); }
      }
    }
  }

  /** What `resolve` accepts lies beneath the root exactly when its text is the root's, or goes
      on with a separator, or the root's text ends in one. */
  lemma AcceptedIsBeneath(r: P.Path, p: P.Path)
    requires ValidPath(r) && ValidPath(p) && PathText(r) <= PathText(p)
    ensures var root, t := PathText(r), PathText(p);
            r <= p <==> t == root || EndsInSeparator(root) || t[|root|] == SEPARATOR
  {
    BeneathIsPrefix(r, p);
  }

  // ---------------------------------------------------------------- whole sessions

  predicate EffectBeneath(root: string, e: Effect) { Beneath(root, e.path) && (e.Rename? ==> Beneath(root, e.from)) }

  predicate HoldsBeneath(root: string, s: State) {
    Beneath(root, s.currentDirectory) && (s.renameFrom != "" ==> Beneath(root, s.renameFrom))
  }

  /** After `n` commands the session holds only paths beneath the root and has asked only for
      changes beneath it. */
  ghost predicate Confined(root: string, h: seq<Event>, n: nat)
    requires n <= |h|
  {
    && HoldsBeneath(root, StateAt(root, h, n))
    && forall e :: e in EffectsAt(root, h, n) ==> EffectBeneath(root, e)
  }

  /** Every path the file system answers with is one of those present. */
  ghost predicate Answers(h: seq<Event>, present: string -> bool) {
    forall k, d, a :: 0 <= k < |h| && h[k].env.canonical(d, a).Some? ==> present(h[k].env.canonical(d, a).value)
  }

  /** Every path present whose text starts with the root's lies beneath it. */
  ghost predicate NoSibling(root: string, present: string -> bool) {
    forall p :: present(p) && root <= p ==> Beneath(root, p)
  }

  lemma ResolvesBeneath(s: State, arg: string, env: Env, present: string -> bool)
    requires NoSibling(s.rootDirectory, present)
    requires forall d, a :: env.canonical(d, a).Some? ==> present(env.canonical(d, a).value)
    ensures Resolve(s, arg, env) != "" ==> Beneath(s.rootDirectory, Resolve(s, arg, env))
  {
    var found := env.canonical(s.currentDirectory, arg);
    if found.Some? { assert present(found.value); }
  }

  lemma StateStaysBeneath(s: State, c: Command, env: Env)
    requires HoldsBeneath(s.rootDirectory, s)
    requires forall a :: Resolve(s, a, env) != "" ==> Beneath(s.rootDirectory, Resolve(s, a, env))
    ensures HoldsBeneath(s.rootDirectory, StateAfterCommand(s, c, env))
  {
    DirectoryStep(s, c, env);
    RenameStep(s, c, env);
  }

  lemma EffectsStayBeneath(s: State, c: Command, env: Env)
    requires HoldsBeneath(s.rootDirectory, s)
    requires c.Known? && Resolve(s, c.arg, env) != "" ==> Beneath(s.rootDirectory, Resolve(s, c.arg, env))
    ensures forall e :: e in EffectsOfCommand(s, c, env) ==> EffectBeneath(s.rootDirectory, e)
  {}

  lemma OneMoreStep(root: string, h: seq<Event>, n: nat)
    requires 0 < n <= |h| && Confined(root, h, n - 1) && HoldsBeneath(root, StateAt(root, h, n))
    requires forall e :: e in EffectsBy(root, h, n - 1) ==> EffectBeneath(root, e)
    ensures Confined(root, h, n)
  {}

  lemma {:induction false} StaysBeneath(root: string, h: seq<Event>, n: nat, present: string -> bool)
    requires n <= |h| && Answers(h, present) && NoSibling(root, present)
    ensures Confined(root, h, n)
  {
    if n > 0 {
      StaysBeneath(root, h, n - 1, present);
      ActiveUntilQuit(root, h, n - 1);
      var s, event := StateAt(root, h, n - 1), h[n - 1];
      assert s.rootDirectory == root;
      StepStaysBeneath(s, event.command, event.env, present);
      OneMoreStep(root, h, n);
    }
  }

  lemma StepStaysBeneath(s: State, c: Command, env: Env, present: string -> bool)
    requires HoldsBeneath(s.rootDirectory, s) && NoSibling(s.rootDirectory, present)
    requires forall d, a :: env.canonical(d, a).Some? ==> present(env.canonical(d, a).value)
    ensures HoldsBeneath(s.rootDirectory, StateAfterCommand(s, c, env))
    ensures forall e :: e in EffectsOfCommand(s, c, env) ==> EffectBeneath(s.rootDirectory, e)
  {
    forall a ensures Resolve(s, a, env) != "" ==> Beneath(s.rootDirectory, Resolve(s, a, env)) {
      ResolvesBeneath(s, a, env, present);
    }
    StateStaysBeneath(s, c, env);
    EffectsStayBeneath(s, c, env);
  }

  /** A file system that answers every question about a path with `p`. */
  function Always(p: string): Env {
    Env((_, _) => Some(p), true, true, _ => Some(true), _ => Some(true), _ => 0, true, None, _ => false, None)
  }

  /** A client logs in and changes its directory. */
  function Visit(p: string): seq<Event> {
    [Event(Known(USER, "a"), Always(p)), Event(Known(PASS, ""), Always(p)), Event(Known(CWD, "x"), Always(p))]
  }

  lemma VisitEnds(root: string, p: string)
    requires root <= p && p != ""
    ensures StateAt(root, Visit(p), 3).currentDirectory == p
  {
    var h := Visit(p);
    assert StateAt(root, h, 0) == Initial(root);
    assert StateAt(root, h, 1) == Initial(root).(username := "a");
    assert StateAt(root, h, 2) == Initial(root).(username := "a", authenticated := true, permission := WRITE);
  }

  /** A sibling whose name starts with the root's name can be entered. */
  lemma SiblingIsEntered()
    ensures var root, sibling := "C:\\srv", "C:\\srv2";
      && StateAt(root, Visit(sibling), 3).currentDirectory == sibling
      && !Beneath(root, sibling) && !Confined(root, Visit(sibling), 3)
  {
    var root, sibling := "C:\\srv", "C:\\srv2";
    VisitEnds(root, sibling);
    assert sibling[|root|] == '2';
  }

  /** Every session stays beneath the root if and only if nothing present beside the root starts
      with its text. */
  lemma ConfinedIff(root: string, present: string -> bool)
    ensures (forall h, n: nat :: n <= |h| && Answers(h, present) ==> Confined(root, h, n)) <==> NoSibling(root, present)
  {
    if NoSibling(root, present) {
      forall h, n: nat | n <= |h| && Answers(h, present) ensures Confined(root, h, n) {
        StaysBeneath(root, h, n, present);
      }
    } else {
      var p :| present(p) && root <= p && !Beneath(root, p);
      VisitEnds(root, p);
      assert Answers(Visit(p), present);
      assert !Confined(root, Visit(p), 3);
    }
  }

  ghost predicate IsPathText(t: string) { exists p :: ValidPath(p) && PathText(p) == t }

  lemma RenamedLast(front: P.Path, last: string, other: string)
    requires front != [] && ValidPath(front + [last]) && other != last && other != "" && SEPARATOR !in other
    ensures ValidPath(front + [other]) && !(front + [last] <= front + [other])
  {
    assert forall i :: 0 <= i < |front| ==> (front + [last])[i] == front[i];
    assert (front + [last])[|front|] == last;
  }

  /** The path beside `r` whose name has one more character. */
  lemma SiblingPath(r: P.Path) returns (p: P.Path)
    requires ValidPath(r) && |r| >= 2
    ensures ValidPath(p) && !(r <= p) && PathText(p) == PathText(r) + "2"
  {
    var front, last := r[..|r| - 1], r[|r| - 1];
    assert r == front + [last];
    p := front + [last + "2"];
    RenamedLast(front, last, last + "2");
    JoinConcat(front, [last], SEP);
    JoinConcat(front, [last + "2"], SEP);
    Regroup(Join(front, SEP), SEP, last, "2");
  }

  /** Whatever the file system holds, every session stays beneath its root if and only if the
      root is a drive. */
  lemma ConfinedByDrive(r: P.Path)
    requires ValidPath(r)
    ensures (forall h, n: nat :: n <= |h| && Answers(h, IsPathText) ==> Confined(PathText(r), h, n)) <==> |r| == 1
  {
    ConfinedIff(PathText(r), IsPathText);
    if |r| == 1 {
      DriveEnds(r);
    } else {
      var p := SiblingPath(r);
      BeneathIsPrefix(r, p);
      assert IsPathText(PathText(p)) && PathText(r) <= PathText(p);
    }
  }

  // ---------------------------------------------------------------- what PWD tells

  lemma ComponentsOfText(p: P.Path)
    requires ValidPath(p)
    ensures Components(PathText(p)) == p
  {
    SkippingIsDropping(PathText(p), {SEPARATOR});
    SplitPathText(p);
    NothingToDrop(p);
    NonEmptySnoc(p, "");
  }

  /** In a session with root `r` and current directory `p` beneath it, PWD is answered with the
      names below the root. */
  lemma PwdReply(s: State, r: P.Path, p: P.Path, arg: string, env: Env)
    requires ValidPath(r) && ValidPath(p) && r <= p
    requires s.rootDirectory == PathText(r) && s.currentDirectory == PathText(p)
    requires s.authenticated && env.pathsFound
    ensures FinalReply(s, Known(PWD, arg), env)
      == Response(257, "\"" + (if p == r then "/" else Join(p[|r|..], "\\")) + "\"")
  {
    ComponentsOfText(r);
    ComponentsOfText(p);
    P.RelativePathBelow(p, r);
    if p != r { NamesAreShown(p[|r|..]); }
  }

  lemma NamesAreShown(names: P.Path)
    requires names != [] && names[0] != ""
    ensures Join(names, SEP) != ""
  {}

  /** The relative path `PWD` shows leads from the root to the directory when that lies beneath
      the root, and otherwise climbs out of the root. */
  lemma PwdLeadsToDirectory(r: P.Path, p: P.Path)
    requires ValidPath(r) && ValidPath(p) && P.CanonicalUnder([r[0]], r) && P.CanonicalUnder([r[0]], p)
    ensures var shown := P.RelativePath(p, r);
      && RelativeText(PathText(p), PathText(r)) == Join(shown, SEP)
      && (r <= p ==> P.Resolve(r, r, shown) == p)
      && (".." in shown <==> !(r <= p))
  {
    ComponentsOfText(r);
    ComponentsOfText(p);
    P.RelativePathClimbs([r[0]], p, r);
    if r <= p { P.RelativePathLeadsBack(r, p, r); }
  }
}
