/** `PathResolver::get_relative_path` on canonical paths, given as their components: those of
    the root first, then plain names. */
module Paths {
  type Path = seq<string>

  /** The path "/", which the program returns when nothing else is left. */
  const SLASH := "/"
  const UP := ".."

  predicate IsName(c: string) { c != "" && c != "." && c != UP && c != SLASH }

  predicate CanonicalUnder(root: Path, p: Path) {
    root <= p && forall i :: |root| <= i < |p| ==> IsName(p[i])
  }

  /** How many leading components two paths share. */
  function Common(a: Path, b: Path): (k: nat)
    ensures k <= |a| && k <= |b| && a[..k] == b[..k]
    ensures k < |a| && k < |b| ==> a[k] != b[k]
  {
    if a == [] || b == [] || a[0] != b[0] then 0
    else
      var k := 1 + Common(a[1..], b[1..]);
      assert a[..k] == [a[0]] + a[1..][..k - 1] && b[..k] == [b[0]] + b[1..][..k - 1];
      k
  }

  function Ups(n: nat): (p: Path)
    ensures |p| == n && forall i :: 0 <= i < n ==> p[i] == UP
  {
    seq(n, _ => UP)
  }

  function RelativePath(abs: Path, base: Path): Path {
    var k := Common(abs, base);
    var r := Ups(|base| - k) + abs[k..];
    if r == [] then [SLASH] else r
  }

  /** The first loop: how far both iterators go together. */
  method SkipCommon(abs: Path, base: Path) returns (k: nat)
    ensures k == Common(abs, base)
  {
    k := 0;
    while k < |abs| && k < |base| && abs[k] == base[k]
      invariant k <= |abs| && k <= |base| && abs[..k] == base[..k]
    {
      PrefixesGrow(abs, base, k);
      k := k + 1;
    }
    CommonIs(abs, base, k);
  }

  lemma PrefixesGrow(a: Path, b: Path, k: nat)
    requires k < |a| && k < |b| && a[..k] == b[..k] && a[k] == b[k]
    ensures a[..k + 1] == b[..k + 1]
  {
    assert a[..k + 1] == a[..k] + [a[k]] && b[..k + 1] == b[..k] + [b[k]];
  }

  lemma UpsSnoc(n: nat)
    ensures Ups(n) + [UP] == Ups(n + 1)
  {}

  lemma SliceSnoc(ups: Path, p: Path, k: nat, i: nat)
    requires k <= i < |p|
    ensures (ups + p[k..i]) + [p[i]] == ups + p[k..i + 1]
  {}

  /** Two indices stand for the two iterators. */
  method GetRelativePath(abs: Path, base: Path) returns (result: Path)
    ensures result == RelativePath(abs, base)
  {
    var k := SkipCommon(abs, base);
    var itAbs, itRoot := k, k;
    result := [];
    while itRoot < |base|
      invariant k <= itRoot <= |base| && result == Ups(itRoot - k)
    {
      UpsSnoc(itRoot - k);
      result := result + [UP];
      itRoot := itRoot + 1;
    }
    ghost var ups := result;
    assert ups + abs[k..k] == ups;
    while itAbs < |abs|
      invariant k <= itAbs <= |abs| && result == ups + abs[k..itAbs]
    {
      SliceSnoc(ups, abs, k, itAbs);
      result := result + [abs[itAbs]];
      itAbs := itAbs + 1;
    }
    assert abs[k..|abs|] == abs[k..];
    if result == [] { result := [SLASH]; }
  }

  lemma {:induction false} CommonIs(a: Path, b: Path, k: nat)
    requires k <= |a| && k <= |b| && a[..k] == b[..k]
    requires k < |a| && k < |b| ==> a[k] != b[k]
    ensures Common(a, b) == k
  {
    if k > 0 {
      assert a[0] == a[..k][0] && b[0] == b[..k][0];
      assert a[1..][..k - 1] == a[..k][1..] && b[1..][..k - 1] == b[..k][1..];
      CommonIs(a[1..], b[1..], k - 1);
    }
  }

  /** Walks from a directory along relative components; an absolute one starts over at the
      root, and `..` does not leave the root. */
  function Resolve(root: Path, at: Path, rel: Path): Path
    decreases rel
  {
    if rel == [] then at
    else if rel[0] == UP then Resolve(root, if |root| < |at| then at[..|at| - 1] else at, rel[1..])
    else if rel[0] == SLASH then Resolve(root, root, rel[1..])
    else if rel[0] == "." || rel[0] == "" then Resolve(root, at, rel[1..])
    else Resolve(root, at + [rel[0]], rel[1..])
  }

  lemma {:induction false} ResolveUps(root: Path, at: Path, n: nat, rest: Path)
    requires |root| + n <= |at|
    ensures Resolve(root, at, Ups(n) + rest) == Resolve(root, at[..|at| - n], rest)
    decreases n
  {
    if n == 0 {
      assert Ups(0) + rest == rest && at[..|at|] == at;
    } else {
      assert (Ups(n) + rest)[1..] == Ups(n - 1) + rest;
      ResolveUps(root, at[..|at| - 1], n - 1, rest);
      assert at[..|at| - 1][..|at| - n] == at[..|at| - n];
    }
  }

  lemma {:induction false} ResolveNames(root: Path, at: Path, names: Path)
    requires forall i :: 0 <= i < |names| ==> IsName(names[i])
    ensures Resolve(root, at, names) == at + names
    decreases names
  {
    if names != [] {
      ResolveNames(root, at + [names[0]], names[1..]);
      assert (at + [names[0]]) + names[1..] == at + names;
    }
  }

  lemma RootIsCommon(root: Path, abs: Path, base: Path)
    requires root <= abs && root <= base
    ensures |root| <= Common(abs, base)
  {
    assert forall i :: 0 <= i < |root| ==> abs[i] == root[i] && base[i] == root[i];
  }

  lemma EqualPaths(root: Path, p: Path)
    requires CanonicalUnder(root, p)
    ensures RelativePath(p, p) == ["/"] && Resolve(root, p, ["/"]) == root
  {
    CommonIs(p, p, |p|);
    assert Ups(0) + p[|p|..] == [];
    assert [SLASH][1..] == [];
  }

  lemma DifferentPaths(root: Path, abs: Path, base: Path)
    requires CanonicalUnder(root, abs) && CanonicalUnder(root, base) && abs != base
    ensures Resolve(root, base, RelativePath(abs, base)) == abs
  {
    var k := Common(abs, base);
    RootIsCommon(root, abs, base);
    assert abs[..|abs|] == abs && base[..|base|] == base;
    assert Ups(|base| - k) + abs[k..] != [];
    ResolveUps(root, base, |base| - k, abs[k..]);
    ResolveNames(root, base[..k], abs[k..]);
    assert abs == abs[..k] + abs[k..];
  }

  /** Below `base` the relative path is what follows it. */
  lemma RelativePathBelow(abs: Path, base: Path)
    requires base <= abs
    ensures RelativePath(abs, base) == if abs == base then ["/"] else abs[|base|..]
  {
    CommonIs(abs, base, |base|);
    assert Ups(0) + abs[|base|..] == abs[|base|..];
  }

  /** From `base`, the relative path leads back to `abs`, unless the two are equal: then the
      program answers "/", which only the root deserves. */
  lemma RelativePathLeadsBack(root: Path, abs: Path, base: Path)
    requires CanonicalUnder(root, abs) && CanonicalUnder(root, base)
    ensures Resolve(root, base, RelativePath(abs, base)) == abs <==> abs != base || abs == root
  {
    if abs == base { EqualPaths(root, abs); } else { DifferentPaths(root, abs, base); }
  }

  /** The relative path climbs exactly when `base` is not an ancestor of `abs`. */
  lemma {:induction false} RelativePathClimbs(root: Path, abs: Path, base: Path)
    requires CanonicalUnder(root, abs) && CanonicalUnder(root, base)
    ensures ".." in RelativePath(abs, base) <==> !(base <= abs)
  {
    var k := Common(abs, base);
    RootIsCommon(root, abs, base);
    var r := Ups(|base| - k) + abs[k..];
    if base <= abs {
      CommonIs(abs, base, |base|);
      assert forall c :: c in r ==> c in abs[k..];
    } else {
      assert base[..|base|] == base;
      assert r[0] == UP;
    }
  }
}
