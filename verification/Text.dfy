/** Searching byte strings: the parts of `std::string` the other modules rely on.  A string
    holds one character per byte. */
module Text {
  datatype Option<+T> = None | Some(value: T)

  function Min(a: nat, b: nat): nat { if a < b then a else b }

  predicate IsSpace(c: char) { c == ' ' || 9 <= c as int <= 13 }

  /** `find_first_of`: the first index from `start` on that holds a character of `d`, or the
      length if there is none. */
  function FirstOf(s: string, d: set<char>, start: nat): (k: nat)
    requires start <= |s|
    ensures start <= k <= |s|
    ensures k < |s| ==> s[k] in d
    decreases |s| - start
  {
    if start == |s| || s[start] in d then start else FirstOf(s, d, start + 1)
  }

  lemma {:induction false} FirstOfIsFirst(s: string, d: set<char>, start: nat)
    requires start <= |s|
    ensures forall i :: start <= i < FirstOf(s, d, start) ==> s[i] !in d
    decreases |s| - start
  {
    if start < |s| && s[start] !in d { FirstOfIsFirst(s, d, start + 1); }
  }

  predicate OccursAt(s: string, p: string, i: nat)
    decreases |p|
  {
    if p == "" then i <= |s| else i < |s| && s[i] == p[0] && OccursAt(s, p[1..], i + 1)
  }

  lemma {:induction false} OccursIsSlice(s: string, p: string, i: nat)
    ensures OccursAt(s, p, i) <==> i + |p| <= |s| && s[i..i + |p|] == p
    decreases |p|
  {
    if p != "" {
      OccursIsSlice(s, p[1..], i + 1);
      if i + |p| <= |s| { SliceHead(s, i, i + |p|, p); }
    }
  }

  lemma SliceHead(s: string, i: nat, j: nat, p: string)
    requires i < j <= |s| && p != ""
    ensures s[i..j] == p <==> s[i] == p[0] && s[i + 1..j] == p[1..]
  {
    assert s[i..j] == [s[i]] + s[i + 1..j];
    assert p == [p[0]] + p[1..];
  }

  /** `find`: the first index from `start` on at which `p` occurs. */
  function Find(s: string, p: string, start: nat): (r: Option<nat>)
    ensures r.Some? ==> start <= r.value && r.value + |p| <= |s| && OccursAt(s, p, r.value)
    decreases |s| - start
  {
    if start + |p| > |s| then None
    else if OccursAt(s, p, start) then Some(start)
    else Find(s, p, start + 1)
  }

  lemma {:induction false} FindIsFirst(s: string, p: string, start: nat, i: nat)
    requires start <= i && i + |p| <= |s| && OccursAt(s, p, i)
    ensures Find(s, p, start).Some? && Find(s, p, start).value <= i
    decreases i - start
  {
    if start < i { FindIsFirst(s, p, start + 1, i); }
  }

  /** Pieces, each after a separator. */
  function JoinRest(ps: seq<string>, sep: string): string {
    if ps == [] then "" else sep + (ps[0] + JoinRest(ps[1..], sep))
  }

  function Join(ps: seq<string>, sep: string): string {
    if ps == [] then "" else ps[0] + JoinRest(ps[1..], sep)
  }

  lemma JoinHead(head: string, rest: seq<string>, sep: string)
    requires rest != []
    ensures Join([head] + rest, sep) == head + (sep + Join(rest, sep))
  {
    assert ([head] + rest)[1..] == rest;
  }

  /** Pieces, each followed by a terminator. */
  function Terminated(ps: seq<string>, end: string): string {
    if ps == [] then "" else ps[0] + (end + Terminated(ps[1..], end))
  }

  lemma TerminatedHead(ps: seq<string>, end: string)
    requires ps != []
    ensures Terminated(ps, end) == ps[0] + (end + Terminated(ps[1..], end))
  {}

  lemma {:induction false} TerminatedSnoc(ps: seq<string>, p: string, end: string)
    ensures Terminated(ps + [p], end) == Terminated(ps, end) + (p + end)
  {
    if ps == [] {
      assert [p][1..] == [];
    } else {
      assert (ps + [p])[1..] == ps[1..] + [p];
      TerminatedSnoc(ps[1..], p, end);
    }
  }

  function Prepend<T>(take: bool, x: T, rest: seq<T>): seq<T> { if take then [x] + rest else rest }

  lemma SliceOfSlice<T>(s: seq<T>, a: nat, b: nat, i: nat, j: nat)
    requires a <= b <= |s| && i <= j <= b - a
    ensures s[a..b][i..j] == s[a + i..a + j]
  {
    forall k | 0 <= k < j - i ensures s[a..b][i..j][k] == s[a + i..a + j][k] {}
  }

  lemma OccursInPrefix(s: string, n: nat, p: string, i: nat)
    requires n <= |s|
    ensures OccursAt(s[..n], p, i) <==> i + |p| <= n && OccursAt(s, p, i)
  {
    OccursIsSlice(s, p, i);
    OccursIsSlice(s[..n], p, i);
    if i + |p| <= n { SliceOfSlice(s, 0, n, i, i + |p|); }
  }

  lemma FoundBefore(s: string, n: nat, p: string, e: nat)
    requires Find(s, p, 0) == Some(e) && e + |p| <= n <= |s|
    ensures Find(s[..n], p, 0).Some? && Find(s[..n], p, 0).value <= e
  {
    OccursInPrefix(s, n, p, e);
    FindIsFirst(s[..n], p, 0, e);
  }

  lemma FoundAfter(s: string, n: nat, p: string, f: nat)
    requires n <= |s| && Find(s[..n], p, 0) == Some(f)
    ensures Find(s, p, 0).Some? && Find(s, p, 0).value <= f
  {
    OccursInPrefix(s, n, p, f);
    FindIsFirst(s, p, 0, f);
  }

  lemma FindInPrefix(s: string, n: nat, p: string, e: nat)
    requires Find(s, p, 0) == Some(e) && e + |p| <= n <= |s|
    ensures Find(s[..n], p, 0) == Some(e)
  {
    FoundBefore(s, n, p, e);
    var f := Find(s[..n], p, 0).value;
    FoundAfter(s, n, p, f);
    assert f == e;
  }

  lemma DropPrefix<T>(prefix: seq<T>, tail: seq<T>)
    ensures (prefix + tail)[|prefix|..] == tail
  {}

  lemma Concat3<T>(a: seq<T>, b: seq<T>, c: seq<T>)
    ensures (a + b) + c == a + (b + c)
  {}

  // ---------------------------------------------------------------- numbers

  function Decimal(n: nat): string {
    if n < 10 then [(48 + n) as char] else Decimal(n / 10) + [(48 + n % 10) as char]
  }

  predicate IsDigit(c: char) { '0' <= c <= '9' }

  lemma {:induction false} DecimalIsDigits(n: nat)
    ensures Decimal(n) != "" && forall c :: c in Decimal(n) ==> IsDigit(c)
  {
    if n >= 10 { DecimalIsDigits(n / 10); }
  }

  function ReadDigits(s: string, acc: nat): nat {
    if s == "" || !IsDigit(s[0]) then acc else ReadDigits(s[1..], acc * 10 + (s[0] as int - 48))
  }

  predicate IsNumber(s: string) { s != "" && forall c :: c in s ==> IsDigit(c) }

  lemma {:induction false} ReadDigitsSnoc(s: string, d: char, acc: nat)
    requires (forall c :: c in s ==> IsDigit(c)) && IsDigit(d)
    ensures ReadDigits(s + [d], acc) == ReadDigits(s, acc) * 10 + (d as int - 48)
  {
    if s == "" {
      assert s + [d] == [d];
      assert ReadDigits([d][1..], acc * 10 + (d as int - 48)) == acc * 10 + (d as int - 48);
    } else {
      assert (s + [d])[1..] == s[1..] + [d];
      assert IsDigit(s[0]);
      ReadDigitsSnoc(s[1..], d, acc * 10 + (s[0] as int - 48));
    }
  }

  lemma {:induction false} DecimalReadsBack(n: nat)
    ensures ReadDigits(Decimal(n), 0) == n && IsNumber(Decimal(n))
  {
    DecimalIsDigits(n);
    if n < 10 {
      assert Decimal(n)[1..] == "";
    } else {
      DecimalReadsBack(n / 10);
      ReadDigitsSnoc(Decimal(n / 10), (48 + n % 10) as char, 0);
    }
  }

  const DIGITS := "0123456789"

  lemma DigitAt(i: nat)
    requires i < 10
    ensures DIGITS[i] == (48 + i) as char
  {}

  lemma DigitsAreTen(c: char)
    ensures IsDigit(c) <==> c in "0123456789"
  {
    if IsDigit(c) { DigitAt(c as int - 48); }
  }

  /** Decimal numbers are positional. */
  lemma DecimalIsPositional(n: nat, d: nat)
    requires d < 10
    ensures Decimal(d) == ["0123456789"[d]]
    ensures n > 0 ==> Decimal(10 * n + d) == Decimal(n) + ["0123456789"[d]]
  {
    DigitAt(d);
    assert (10 * n + d) / 10 == n && (10 * n + d) % 10 == d;
  }

  /** A number ends at the first character that is no digit. */
  lemma {:induction false} ReadDigitsStops(s: string, t: string, acc: nat)
    requires (forall c :: c in s ==> IsDigit(c)) && (t == "" || !IsDigit(t[0]))
    ensures ReadDigits(s + t, acc) == ReadDigits(s, acc)
    decreases |s|
  {
    if s == "" {
      assert s + t == t;
    } else {
      assert (s + t)[1..] == s[1..] + t;
      assert s[0] in s;
      ReadDigitsStops(s[1..], t, acc * 10 + (s[0] as int - 48));
    }
  }

  // ---------------------------------------------------------------- letters and white space

  const UPPER_CASE := "ABCDEFGHIJKLMNOPQRSTUVWXYZ"
  const LOWER_CASE := "abcdefghijklmnopqrstuvwxyz"

  lemma LetterAt(i: nat)
    requires i < 26
    ensures UPPER_CASE[i] == (65 + i) as char && LOWER_CASE[i] == (97 + i) as char
  {}

  /** `tolower` and `toupper` in the C locale. */
  function LowerChar(c: char): char { if 'A' <= c <= 'Z' then (c as int + 32) as char else c }

  function UpperChar(c: char): char { if 'a' <= c <= 'z' then (c as int - 32) as char else c }

  lemma LettersChangeCase(i: nat)
    requires i < 26
    ensures var upper, lower := "ABCDEFGHIJKLMNOPQRSTUVWXYZ"[i], "abcdefghijklmnopqrstuvwxyz"[i];
            LowerChar(upper) == LowerChar(lower) == lower && UpperChar(lower) == UpperChar(upper) == upper
  {
    LetterAt(i);
  }

  lemma UpperCaseIs(c: char)
    ensures c in "ABCDEFGHIJKLMNOPQRSTUVWXYZ" <==> 'A' <= c <= 'Z'
  {
    if 'A' <= c <= 'Z' { LetterAt(c as int - 65); }
  }

  lemma LowerCaseIs(c: char)
    ensures c in "abcdefghijklmnopqrstuvwxyz" <==> 'a' <= c <= 'z'
  {
    if 'a' <= c <= 'z' { LetterAt(c as int - 97); }
  }

  lemma OthersKeepCase(c: char)
    ensures c !in "ABCDEFGHIJKLMNOPQRSTUVWXYZ" ==> LowerChar(c) == c
    ensures c !in "abcdefghijklmnopqrstuvwxyz" ==> UpperChar(c) == c
  {
    UpperCaseIs(c);
    LowerCaseIs(c);
  }

  function Lower(s: string): string { seq(|s|, i requires 0 <= i < |s| => LowerChar(s[i])) }

  function Upper(s: string): string { seq(|s|, i requires 0 <= i < |s| => UpperChar(s[i])) }

  lemma CaseCharacterByCharacter(c: char, t: string)
    ensures Lower([c] + t) == [LowerChar(c)] + Lower(t) && Upper([c] + t) == [UpperChar(c)] + Upper(t)
    ensures Lower("") == Upper("") == ""
  {}

  lemma SpacesAreSix(c: char)
    ensures IsSpace(c) <==> c in " \t\n\U{0B}\U{0C}\r"
  {}

  // ---------------------------------------------------------------- getline

  /** What repeated `std::getline(stream, line, c)` yields: the pieces between the separators,
      but no empty piece after the last one. */
  function Lines(s: string, c: char): seq<string>
    decreases |s|
  {
    if s == "" then []
    else
      var pos := FirstOf(s, {c}, 0);
      if pos == |s| then [s] else [s[..pos]] + Lines(s[pos + 1..], c)
  }

  /** A line without one carriage return at its end. */
  function DropCr(line: string): string {
    if line != "" && line[|line| - 1] == '\r' then line[..|line| - 1] else line
  }

  lemma OneCrIsDropped(line: string)
    ensures DropCr(line + "\r") == line
    ensures line == "" || line[|line| - 1] != '\r' ==> DropCr(line) == line
  {
    assert (line + "\r")[..|line|] == line;
  }

  predicate Free(ps: seq<string>, c: char) { forall i :: 0 <= i < |ps| ==> c !in ps[i] }

  lemma {:induction false} LinesAreFree(s: string, c: char)
    ensures Free(Lines(s, c), c)
    decreases |s|
  {
    var pos := FirstOf(s, {c}, 0);
    FirstOfIsFirst(s, {c}, 0);
    if pos < |s| { LinesAreFree(s[pos + 1..], c); }
  }

  /** A line holds only characters of the text it was cut from. */
  lemma {:induction false} LinesWithin(s: string, c: char, i: nat, x: char)
    requires i < |Lines(s, c)| && x in Lines(s, c)[i]
    ensures x in s
    decreases |s|
  {
    var pos := FirstOf(s, {c}, 0);
    if pos < |s| && i > 0 { LinesWithin(s[pos + 1..], c, i - 1, x); }
  }

  lemma {:induction false} FirstOfIs(s: string, d: set<char>, start: nat, k: nat)
    requires start <= k <= |s| && forall i :: start <= i < k ==> s[i] !in d
    requires k < |s| ==> s[k] in d
    ensures FirstOf(s, d, start) == k
    decreases k - start
  {
    if start < k { FirstOfIs(s, d, start + 1, k); }
  }

  /** The first piece of a text that starts with a piece and a separator. */
  lemma HeadPiece(head: string, rest: string, c: char)
    requires c !in head
    ensures var s := head + ([c] + rest);
            FirstOf(s, {c}, 0) == |head| < |s| && s[..|head|] == head && s[|head| + 1..] == rest
  {
    var s := head + ([c] + rest);
    FirstOfIs(s, {c}, 0, |head|);
  }

  /** The first line, and the lines of the rest. */
  lemma LinesHead(head: string, rest: string, c: char)
    requires c !in head
    ensures Lines(head + ([c] + rest), c) == [head] + Lines(rest, c)
  {
    HeadPiece(head, rest, c);
  }

  lemma OnlyLine(s: string, c: char)
    requires s != "" && c !in s
    ensures Lines(s, c) == [s]
  {
    FirstOfIs(s, {c}, 0, |s|);
  }

  lemma FreeTail(ps: seq<string>, c: char)
    requires ps != [] && Free(ps, c)
    ensures c !in ps[0] && Free(ps[1..], c) && ps == [ps[0]] + ps[1..]
  {}

  /** `getline` recovers terminated lines. */
  lemma {:induction false} LinesOfTerminated(ps: seq<string>, c: char)
    requires Free(ps, c)
    ensures Lines(Terminated(ps, [c]), c) == ps
  {
    if ps != [] {
      FreeTail(ps, c);
      TerminatedHead(ps, [c]);
      LinesHead(ps[0], Terminated(ps[1..], [c]), c);
      LinesOfTerminated(ps[1..], c);
    }
  }
}
