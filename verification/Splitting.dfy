/** The tokenisers of `ModernString` (and `utils::split`, which is `split` on one character
    keeping empty parts), and how they relate to each other and to `join`. */
module Splitting {
  import opened Text

  // ---------------------------------------------------------------- the tokens of a string

  function Emit(done: seq<string>, part: string, skipEmpty: bool): seq<string> {
    if skipEmpty && part == "" then done else done + [part]
  }

  /** A tokeniser that reads one character at a time: `done` are the parts so far, `part` is the
      one being read. */
  function Tokens(s: string, d: set<char>, skipEmpty: bool, done: seq<string>, part: string): seq<string>
    decreases |s|
  {
    if s == "" then Emit(done, part, skipEmpty)
    else if s[0] in d then Tokens(s[1..], d, skipEmpty, Emit(done, part, skipEmpty), "")
    else Tokens(s[1..], d, skipEmpty, done, part + [s[0]])
  }

  function Split(s: string, d: set<char>, skipEmpty: bool): seq<string> { Tokens(s, d, skipEmpty, [], "") }

  predicate NoneOf(s: string, d: set<char>) { forall c :: c in s ==> c !in d }

  lemma {:induction false} ReadPart(head: string, rest: string, d: set<char>, skipEmpty: bool,
                                    done: seq<string>, part: string)
    requires NoneOf(head, d)
    ensures Tokens(head + rest, d, skipEmpty, done, part) == Tokens(rest, d, skipEmpty, done, part + head)
    decreases |head|
  {
    if head == "" {
      assert head + rest == rest && part + head == part;
    } else {
      assert (head + rest)[1..] == head[1..] + rest;
      assert head[0] !in d;
      ReadPart(head[1..], rest, d, skipEmpty, done, part + [head[0]]);
      assert part + [head[0]] + head[1..] == part + head;
    }
  }

  /** A part up to a delimiter. */
  lemma ReadPartAndDelimiter(head: string, c: char, rest: string, d: set<char>, skipEmpty: bool, done: seq<string>)
    requires NoneOf(head, d) && c in d
    ensures Tokens(head + ([c] + rest), d, skipEmpty, done, "")
      == Tokens(rest, d, skipEmpty, Emit(done, head, skipEmpty), "")
  {
    ReadPart(head, [c] + rest, d, skipEmpty, done, "");
    assert "" + head == head;
    assert ([c] + rest)[1..] == rest;
  }

  /** The last part. */
  lemma ReadLastPart(head: string, d: set<char>, skipEmpty: bool, done: seq<string>)
    requires NoneOf(head, d)
    ensures Tokens(head, d, skipEmpty, done, "") == Emit(done, head, skipEmpty)
  {
    ReadPart(head, "", d, skipEmpty, done, "");
    assert head + "" == head && "" + head == head;
  }

  lemma {:induction false} DoneStays(s: string, d: set<char>, skipEmpty: bool,
                                     first: seq<string>, done: seq<string>, part: string)
    ensures Tokens(s, d, skipEmpty, first + done, part) == first + Tokens(s, d, skipEmpty, done, part)
    decreases |s|
  {
    if s != "" && s[0] !in d {
      DoneStays(s[1..], d, skipEmpty, first, done, part + [s[0]]);
    } else {
      assert Emit(first + done, part, skipEmpty) == first + Emit(done, part, skipEmpty);
      if s != "" { DoneStays(s[1..], d, skipEmpty, first, Emit(done, part, skipEmpty), ""); }
    }
  }

  // ---------------------------------------------------------------- split

  lemma CutAt(s: string, d: set<char>, start: nat, pos: nat)
    requires start <= |s| && pos == FirstOf(s, d, start)
    ensures NoneOf(s[start..pos], d)
    ensures pos < |s| ==> s[start..] == s[start..pos] + ([s[pos]] + s[pos + 1..])
  {
    FirstOfIsFirst(s, d, start);
  }

  /** One turn of either loop: a part and its delimiter. */
  lemma SplitStep(s: string, d: set<char>, skipEmpty: bool, start: nat, pos: nat, done: seq<string>)
    requires start <= |s| && pos == FirstOf(s, d, start) < |s|
    ensures Tokens(s[start..], d, skipEmpty, done, "")
      == Tokens(s[pos + 1..], d, skipEmpty, Emit(done, s[start..pos], skipEmpty), "")
  {
    CutAt(s, d, start, pos);
    ReadPartAndDelimiter(s[start..pos], s[pos], s[pos + 1..], d, skipEmpty, done);
  }

  lemma SplitEnd(s: string, d: set<char>, skipEmpty: bool, start: nat, done: seq<string>)
    requires start <= |s| && FirstOf(s, d, start) == |s|
    ensures Tokens(s[start..], d, skipEmpty, done, "") == Emit(done, s[start..], skipEmpty)
  {
    CutAt(s, d, start, |s|);
    assert s[start..|s|] == s[start..];
    ReadLastPart(s[start..], d, skipEmpty, done);
  }

  method SplitLoop(s: string, d: set<char>, skipEmpty: bool) returns (result: seq<string>)
    ensures result == Split(s, d, skipEmpty)
  {
    result := [];
    var start := 0;
    var pos := FirstOf(s, d, start);
    assert s[0..] == s;
    while pos != |s|
      invariant start <= |s| && pos == FirstOf(s, d, start)
      invariant Split(s, d, skipEmpty) == Tokens(s[start..], d, skipEmpty, result, "")
      decreases |s| - start
    {
      SplitStep(s, d, skipEmpty, start, pos, result);
      if !skipEmpty || pos > start {
        result := result + [s[start..pos]];
      }
      start := pos + 1;
      pos := FirstOf(s, d, start);
    }
    SplitEnd(s, d, skipEmpty, start, result);
    if !skipEmpty || start < |s| {
      result := result + [s[start..]];
    }
  }

  // ---------------------------------------------------------------- split_with_delim

  lemma SkipDelimiter(s: string, d: set<char>, pos: nat, done: seq<string>)
    requires pos < |s| && s[pos] in d
    ensures Tokens(s[pos..], d, true, done, "") == Tokens(s[pos + 1..], d, true, done, "")
  {
    assert s[pos..][1..] == s[pos + 1..];
  }

  /** A run of characters that are not delimiters, with the delimiter that ends it, if any. */
  lemma RunStep(s: string, d: set<char>, pos: nat, end: nat, done: seq<string>)
    requires pos < |s| && pos < end == FirstOf(s, d, pos)
    ensures Tokens(s[pos..], d, true, done, "") == Tokens(s[end..], d, true, done + [s[pos..end]], "")
  {
    if end < |s| {
      SplitStep(s, d, true, pos, end, done);
      SkipDelimiter(s, d, end, done + [s[pos..end]]);
    } else {
      SplitEnd(s, d, true, pos, done);
      assert s[pos..end] == s[pos..];
    }
  }

  /** The second tokeniser finds the same parts as the first one without its empty parts. */
  method RunsLoop(s: string, d: set<char>) returns (parts: seq<string>)
    ensures parts == Split(s, d, true)
  {
    parts := [];
    var pos := 0;
    assert s[0..] == s;
    while pos < |s|
      invariant pos <= |s| && Split(s, d, true) == Tokens(s[pos..], d, true, parts, "")
      decreases |s| - pos
    {
      while pos < |s| && FirstOf(s, d, pos) == pos
        invariant pos <= |s| && Split(s, d, true) == Tokens(s[pos..], d, true, parts, "")
      {
        SkipDelimiter(s, d, pos, parts);
        pos := pos + 1;
      }
      if pos >= |s| { break; }
      var end := FirstOf(s, d, pos);
      RunStep(s, d, pos, end, parts);
      parts := parts + [s[pos..end]];
      pos := end;
    }
  }

  // ---------------------------------------------------------------- join

  method JoinLoop(range: seq<string>, separator: string) returns (result: string)
    ensures result == Join(range, separator)
  {
    result := "";
    var first := true;
    for k := 0 to |range|
      invariant first == (k == 0) && (first ==> result == "")
      invariant !first ==> Join(range, separator) == result + JoinRest(range[k..], separator)
    {
      assert range[k..][0] == range[k] && range[k..][1..] == range[k + 1..];
      if !first { result := result + separator; }
      result := result + range[k];
      first := false;
    }
  }

  lemma OnlyPart(s: string, c: char)
    requires c !in s
    ensures Split(s, {c}, false) == [s]
  {
    ReadLastPart(s, {c}, false, []);
  }

  /** The first part, and the parts of the rest. */
  lemma SplitHead(head: string, rest: string, c: char)
    requires c !in head
    ensures Split(head + ([c] + rest), {c}, false) == [head] + Split(rest, {c}, false)
  {
    ReadPartAndDelimiter(head, c, rest, {c}, false, []);
    assert [] + [head] == [head] + [];
    DoneStays(rest, {c}, false, [head], [], "");
  }

  lemma CutAtFirst(s: string, c: char, pos: nat)
    requires pos == FirstOf(s, {c}, 0) < |s|
    ensures c !in s[..pos] && s == s[..pos] + ([c] + s[pos + 1..])
  {
    FirstOfIsFirst(s, {c}, 0);
  }

  /** Joining undoes splitting on one character. */
  lemma {:induction false} JoinUndoesSplit(s: string, c: char)
    ensures Split(s, {c}, false) != [] && Join(Split(s, {c}, false), [c]) == s
    decreases |s|
  {
    var pos := FirstOf(s, {c}, 0);
    if pos < |s| {
      var head, rest := s[..pos], s[pos + 1..];
      CutAtFirst(s, c, pos);
      SplitHead(head, rest, c);
      JoinUndoesSplit(rest, c);
      JoinHead(head, Split(rest, {c}, false), [c]);
    } else {
      FirstOfIsFirst(s, {c}, 0);
      OnlyPart(s, c);
    }
  }

  lemma CutAround(s: string, start: nat, pos: nat, end: nat)
    requires start <= pos <= end <= |s|
    ensures s[start..] == s[start..pos] + (s[pos..end] + s[end..])
  {}

  lemma {:induction false} TokensAreFree(s: string, c: char, done: seq<string>, part: string)
    requires Free(done, c) && c !in part
    ensures Free(Tokens(s, {c}, false, done, part), c)
    decreases |s|
  {
    if s != "" && s[0] != c {
      TokensAreFree(s[1..], c, done, part + [s[0]]);
    } else if s != "" {
      TokensAreFree(s[1..], c, done + [part], "");
    }
  }

  lemma {:induction false} SplitJoined(ps: seq<string>, c: char)
    requires ps != [] && Free(ps, c)
    ensures Split(Join(ps, [c]), {c}, false) == ps
  {
    FreeTail(ps, c);
    if |ps| == 1 {
      assert Join(ps, [c]) == ps[0];
      OnlyPart(ps[0], c);
    } else {
      JoinHead(ps[0], ps[1..], [c]);
      SplitHead(ps[0], Join(ps[1..], [c]), c);
      SplitJoined(ps[1..], c);
    }
  }

  /** Splitting undoes joining exactly on the non-empty lists whose parts do not contain the
      separator. */
  lemma SplitUndoesJoin(ps: seq<string>, c: char)
    ensures Split(Join(ps, [c]), {c}, false) == ps <==> ps != [] && Free(ps, c)
  {
    var s := Join(ps, [c]);
    TokensAreFree(s, c, [], "");
    JoinUndoesSplit(s, c);
    if ps != [] && Free(ps, c) { SplitJoined(ps, c); }
  }

  /** Every delimiter replaced by `c`. */
  function Unified(s: string, d: set<char>, c: char): string {
    seq(|s|, i requires 0 <= i < |s| => if s[i] in d then c else s[i])
  }

  lemma {:induction false} TokensAtAnyOf(s: string, d: set<char>, c: char, skipEmpty: bool,
                                         done: seq<string>, part: string)
    requires c in d
    ensures Tokens(s, d, skipEmpty, done, part) == Tokens(Unified(s, d, c), {c}, skipEmpty, done, part)
    decreases |s|
  {
    if s != "" {
      var t := Unified(s, d, c);
      assert t[1..] == Unified(s[1..], d, c);
      if s[0] in d {
        TokensAtAnyOf(s[1..], d, c, skipEmpty, Emit(done, part, skipEmpty), "");
      } else {
        TokensAtAnyOf(s[1..], d, c, skipEmpty, done, part + [s[0]]);
      }
    }
  }

  /** Splitting at any of several delimiters is splitting at one that stands for all of them. */
  lemma SplitAtAnyOf(s: string, d: set<char>, c: char, skipEmpty: bool)
    requires c in d
    ensures Split(s, d, skipEmpty) == Split(Unified(s, d, c), {c}, skipEmpty)
  {
    TokensAtAnyOf(s, d, c, skipEmpty, [], "");
  }

  function NonEmpty(ps: seq<string>): seq<string> {
    if ps == [] then []
    else if ps[|ps| - 1] == "" then NonEmpty(ps[..|ps| - 1])
    else NonEmpty(ps[..|ps| - 1]) + [ps[|ps| - 1]]
  }

  lemma NonEmptySnoc(ps: seq<string>, p: string)
    ensures NonEmpty(ps + [p]) == if p == "" then NonEmpty(ps) else NonEmpty(ps) + [p]
  {
    assert (ps + [p])[..|ps|] == ps;
  }

  lemma {:induction false} TokensWithoutEmpty(s: string, d: set<char>, done: seq<string>, part: string)
    ensures Tokens(s, d, true, NonEmpty(done), part) == NonEmpty(Tokens(s, d, false, done, part))
    decreases |s|
  {
    if s != "" && s[0] !in d {
      TokensWithoutEmpty(s[1..], d, done, part + [s[0]]);
    } else {
      NonEmptySnoc(done, part);
      if s != "" { TokensWithoutEmpty(s[1..], d, done + [part], ""); }
    }
  }

  /** Skipping empty parts while splitting is dropping them afterwards. */
  lemma SkippingIsDropping(s: string, d: set<char>)
    ensures Split(s, d, true) == NonEmpty(Split(s, d, false))
  {
    TokensWithoutEmpty(s, d, [], "");
  }

  lemma {:induction false} NothingToDrop(ps: seq<string>)
    requires forall i :: 0 <= i < |ps| ==> ps[i] != ""
    ensures NonEmpty(ps) == ps
  {
    if ps != [] {
      NothingToDrop(ps[..|ps| - 1]);
      assert ps == ps[..|ps| - 1] + [ps[|ps| - 1]];
    }
  }

  // ---------------------------------------------------------------- split_by

  function SplitByFrom(s: string, p: string, keep: bool, prev: nat): seq<string>
    requires p != "" && prev <= |s|
    decreases |s| - prev
  {
    match Find(s, p, prev)
    case None => [s[prev..]]
    case Some(pos) => [s[prev..pos]] + Prepend(keep, p, SplitByFrom(s, p, keep, pos + |p|))
  }

  function AddPart(parts: seq<string>, part: string, p: string, keep: bool): seq<string> {
    if keep then parts + [part] + [p] else parts + [part]
  }

  /** The same, adding to the parts found so far. */
  function SplitByOnto(s: string, p: string, keep: bool, prev: nat, parts: seq<string>): seq<string>
    requires p != "" && prev <= |s|
    decreases |s| - prev
  {
    match Find(s, p, prev)
    case None => parts + [s[prev..]]
    case Some(pos) => SplitByOnto(s, p, keep, pos + |p|, AddPart(parts, s[prev..pos], p, keep))
  }

  lemma {:induction false} OntoAppends(s: string, p: string, keep: bool, prev: nat, parts: seq<string>)
    requires p != "" && prev <= |s|
    ensures SplitByOnto(s, p, keep, prev, parts) == parts + SplitByFrom(s, p, keep, prev)
    decreases |s| - prev
  {
    var found := Find(s, p, prev);
    if found.Some? {
      var pos := found.value;
      var part, rest := s[prev..pos], SplitByFrom(s, p, keep, pos + |p|);
      OntoAppends(s, p, keep, pos + |p|, AddPart(parts, part, p, keep));
      PartsAddUp(parts, part, p, keep, rest);
    }
  }

  lemma OntoNothing(s: string, p: string, keep: bool)
    requires p != ""
    ensures SplitByOnto(s, p, keep, 0, []) == SplitByFrom(s, p, keep, 0)
  {
    OntoAppends(s, p, keep, 0, []);
  }

  lemma PartsAddUp(parts: seq<string>, part: string, p: string, keep: bool, rest: seq<string>)
    ensures AddPart(parts, part, p, keep) + rest == parts + ([part] + Prepend(keep, p, rest))
  {}

  method TakePart(s: string, p: string, prev: nat, pos: nat, keep: bool, parts: seq<string>) returns (r: seq<string>)
    requires prev <= pos && pos + |p| <= |s| && OccursAt(s, p, pos)
    ensures r == AddPart(parts, s[prev..pos], p, keep)
  {
    OccursIsSlice(s, p, pos);
    r := parts + [s[prev..pos]];
    if keep { r := r + [s[pos..pos + |p|]]; }
  }

  /** On the empty pattern `find` matches at `prev` for ever: see `SplitByEndsIff`. */
  method SplitByLoop(s: string, p: string, keep: bool) returns (parts: seq<string>)
    requires p != ""
    ensures parts == SplitByFrom(s, p, keep, 0)
  {
    parts := [];
    var prev := 0;
    var pos := Find(s, p, prev);
    OntoNothing(s, p, keep);
    while pos.Some?
      invariant prev <= |s| && pos == Find(s, p, prev)
      invariant SplitByOnto(s, p, keep, prev, parts) == SplitByFrom(s, p, keep, 0)
      decreases |s| - prev
    {
      parts := TakePart(s, p, prev, pos.value, keep, parts);
      prev := pos.value + |p|;
      pos := Find(s, p, prev);
    }
    parts := parts + [s[prev..]];
  }

  /** Where the loop stands after `n` turns; `None` if it has ended before. */
  function AfterTurns(s: string, p: string, n: nat): Option<nat> {
    if n == 0 then Some(0)
    else match AfterTurns(s, p, n - 1)
      case None => None
      case Some(prev) => if prev <= |s| then NextTurn(s, p, prev) else None
  }

  function NextTurn(s: string, p: string, prev: nat): Option<nat>
    requires prev <= |s|
  {
    match Find(s, p, prev)
    case None => None
    case Some(pos) => Some(pos + |p|)
  }

  lemma {:induction false} EmptyPatternStands(s: string, n: nat)
    ensures AfterTurns(s, "", n) == Some(0)
  {
    if n > 0 {
      EmptyPatternStands(s, n - 1);
      assert OccursAt(s, "", 0);
      FindIsFirst(s, "", 0, 0);
    }
  }

  lemma {:induction false} TurnsAdvance(s: string, p: string, n: nat)
    requires p != "" && AfterTurns(s, p, n).Some?
    ensures n <= AfterTurns(s, p, n).value <= |s|
  {
    if n > 0 { TurnsAdvance(s, p, n - 1); }
  }

  /** The loop ends, on any string, if and only if the pattern is not empty. */
  lemma SplitByEndsIff(s: string, p: string)
    ensures (exists n: nat :: AfterTurns(s, p, n).None?) <==> p != ""
  {
    if p == "" {
      forall n: nat ensures AfterTurns(s, p, n).Some? { EmptyPatternStands(s, n); }
    } else {
      var n := |s| + 1;
      if AfterTurns(s, p, n).Some? { TurnsAdvance(s, p, n); }
      assert AfterTurns(s, p, n).None?;
    }
  }

  ghost predicate Contains(s: string, p: string) { exists i :: 0 <= i && OccursAt(s, p, i) }

  lemma NoMatchWithin(s: string, p: string, prev: nat, end: nat)
    requires p != "" && prev <= end <= |s|
    requires forall i :: prev <= i && i + |p| <= end ==> !OccursAt(s, p, i)
    ensures !Contains(s[prev..end], p)
  {
    forall i | 0 <= i ensures !OccursAt(s[prev..end], p, i) {
      OccursIsSlice(s[prev..end], p, i);
      if prev + i + |p| <= end {
        OccursIsSlice(s, p, prev + i);
        SliceOfSlice(s, prev, end, i, i + |p|);
      }
    }
  }

  /** Joining undoes splitting by a pattern, and no part still holds the pattern. */
  lemma JoinUndoesSplitBy(s: string, p: string, prev: nat)
    requires p != "" && prev <= |s|
    ensures var parts := SplitByFrom(s, p, false, prev);
            parts != [] && Join(parts, p) == s[prev..] && forall i :: 0 <= i < |parts| ==> !Contains(parts[i], p)
  {
    PartsJoin(s, p, prev);
    PartsHaveNoMatch(s, p, prev);
  }

  /** The first part ends at the first match. */
  lemma FirstPartIsShortest(s: string, p: string, keep: bool, i: nat)
    requires p != "" && OccursAt(s, p, i) && i + |p| <= |s|
    ensures var parts := SplitByFrom(s, p, keep, 0);
            |parts| >= 2 && |parts[0]| <= i && parts[0] + p <= s
  {
    FindIsFirst(s, p, 0, i);
    var pos := Find(s, p, 0).value;
    OccursIsSlice(s, p, pos);
    SplitByIsNonEmpty(s, p, keep, pos + |p|);
    assert s[0..pos] + s[pos..pos + |p|] == s[..pos + |p|];
  }

  lemma SplitByIsNonEmpty(s: string, p: string, keep: bool, prev: nat)
    requires p != "" && prev <= |s|
    ensures SplitByFrom(s, p, keep, prev) != []
  {}

  lemma {:induction false} PartsJoin(s: string, p: string, prev: nat)
    requires p != "" && prev <= |s|
    ensures SplitByFrom(s, p, false, prev) != [] && Join(SplitByFrom(s, p, false, prev), p) == s[prev..]
    decreases |s| - prev
  {
    match Find(s, p, prev)
    case None =>
    case Some(pos) =>
      PartsJoin(s, p, pos + |p|);
      JoinHead(s[prev..pos], SplitByFrom(s, p, false, pos + |p|), p);
      OccursIsSlice(s, p, pos);
      CutAround(s, prev, pos, pos + |p|);
  }

  lemma NoMatchBefore(s: string, p: string, prev: nat, end: nat)
    requires p != "" && prev <= end <= |s|
    requires var r := Find(s, p, prev); if r.Some? then end == r.value else end == |s|
    ensures !Contains(s[prev..end], p)
  {
    forall i | prev <= i && i + |p| <= end ensures !OccursAt(s, p, i) {
      if OccursAt(s, p, i) { FindIsFirst(s, p, prev, i); }
    }
    NoMatchWithin(s, p, prev, end);
  }

  lemma {:induction false} PartsHaveNoMatch(s: string, p: string, prev: nat)
    requires p != "" && prev <= |s|
    ensures var parts := SplitByFrom(s, p, false, prev);
            forall i :: 0 <= i < |parts| ==> !Contains(parts[i], p)
    decreases |s| - prev
  {
    var found := Find(s, p, prev);
    if found.None? {
      NoMatchBefore(s, p, prev, |s|);
      assert s[prev..|s|] == s[prev..];
    } else {
      var pos := found.value;
      PartsHaveNoMatch(s, p, pos + |p|);
      NoMatchBefore(s, p, prev, pos);
      assert SplitByFrom(s, p, false, prev) == [s[prev..pos]] + SplitByFrom(s, p, false, pos + |p|);
    }
  }

  function Flatten(ps: seq<string>): string { if ps == [] then "" else ps[0] + Flatten(ps[1..]) }

  lemma FlattenTwo(a: string, b: string, rest: seq<string>)
    ensures Flatten([a] + ([b] + rest)) == a + (b + Flatten(rest))
  {
    assert ([b] + rest)[1..] == rest;
    assert ([a] + ([b] + rest))[1..] == [b] + rest;
  }

  /** With the matches kept, the parts simply concatenate to the input. */
  lemma {:induction false} KeptPartsConcatenate(s: string, p: string, prev: nat)
    requires p != "" && prev <= |s|
    ensures Flatten(SplitByFrom(s, p, true, prev)) == s[prev..]
    decreases |s| - prev
  {
    match Find(s, p, prev)
    case None => assert [s[prev..]][1..] == [];
    case Some(pos) =>
      KeptPartsConcatenate(s, p, pos + |p|);
      OccursIsSlice(s, p, pos);
      FlattenTwo(s[prev..pos], p, SplitByFrom(s, p, true, pos + |p|));
      CutAround(s, prev, pos, pos + |p|);
  }
}
