/** Text-mode streams of the C library on Windows, which the program opens for its data files
    (mode "r+") and for the user file.  Reading joins a carriage return and a line feed and
    stops at control-Z; writing puts a carriage return in front of every line feed. */
module TextMode {
  import opened Text

  const CR := '\r'
  const LF := '\n'
  const CTRL_Z := '\U{1A}'

  predicate LineEnd(s: string, i: nat) { i + 1 < |s| && s[i] == CR && s[i + 1] == LF }

  /** What a program reads from a file that holds `s`. */
  function ReadText(s: string): string {
    if s == "" || s[0] == CTRL_Z then ""
    else if LineEnd(s, 0) then [LF] + ReadText(s[2..])
    else [s[0]] + ReadText(s[1..])
  }

  function WriteChar(c: char): string { if c == LF then [CR, LF] else [c] }

  /** What a file holds after a program has written `s`. */
  function WriteText(s: string): string { if s == "" then "" else WriteChar(s[0]) + WriteText(s[1..]) }

  lemma {:induction false} WriteConcat(a: string, b: string)
    ensures WriteText(a + b) == WriteText(a) + WriteText(b)
  {
    if a == "" {
      assert a + b == b;
    } else {
      assert (a + b)[1..] == a[1..] + b;
      WriteConcat(a[1..], b);
    }
  }

  // ---------------------------------------------------------------- character by character

  /** Reading, character by character: a line end becomes one line feed, control-Z (26) ends the
      text, and everything else stays. */
  lemma ReadsCharacter(c: char, rest: string)
    ensures ReadText("") == ""
    ensures ReadText([c] + rest) ==
      if c as int == 26 then ""
      else if c == '\r' && rest != "" && rest[0] == '\n' then ReadText(rest)
      else [c] + ReadText(rest)
  {
    var s := [c] + rest;
    assert s[1..] == rest;
    if LineEnd(s, 0) { assert rest == [LF] + rest[1..] && s[2..] == rest[1..]; }
  }

  /** Writing, character by character. */
  lemma WritesCharacter(c: char, rest: string)
    ensures WriteText([c] + rest) == (if c == '\n' then "\r\n" else [c]) + WriteText(rest)
  {
    assert ([c] + rest)[1..] == rest;
  }

  // ---------------------------------------------------------------- reading what was written

  lemma ReadPlain(c: char, rest: string)
    requires c != CTRL_Z && (c == CR ==> rest == "" || rest[0] != LF)
    ensures ReadText([c] + rest) == [c] + ReadText(rest)
  {
    assert ([c] + rest)[1..] == rest;
  }

  lemma ReadLineEnd(rest: string)
    ensures ReadText([CR, LF] + rest) == [LF] + ReadText(rest)
  {
    assert ([CR, LF] + rest)[2..] == rest;
  }

  /** One written character, read back in front of the rest of the file. */
  lemma ReadWrittenChar(c: char, rest: string)
    requires c != CTRL_Z && (c == CR ==> rest == "" || rest[0] != LF)
    ensures ReadText(WriteChar(c) + rest) == [c] + ReadText(rest)
  {
    if c == LF { ReadLineEnd(rest); } else { ReadPlain(c, rest); }
  }

  /** The text's last carriage return meets a line feed that follows in the file. */
  predicate Merges(s: string, tail: string) { s != "" && s[|s| - 1] == CR && tail != "" && tail[0] == LF }

  lemma RestStart(s: string, tail: string)
    ensures var rest := WriteText(s) + tail;
            if s == "" then rest == tail else rest != "" && rest[0] != LF
  {}

  lemma ConsConcat(s: string, x: string)
    requires s != ""
    ensures s + x == [s[0]] + (s[1..] + x)
  {}

  lemma {:induction false} ReadWritten(s: string, tail: string)
    requires CTRL_Z !in s && !Merges(s, tail)
    ensures ReadText(WriteText(s) + tail) == s + ReadText(tail)
    decreases |s|
  {
    if s == "" {
      assert "" + tail == tail;
    } else {
      var rest := WriteText(s[1..]) + tail;
      ReadWritten(s[1..], tail);
      RestStart(s[1..], tail);
      ReadWrittenChar(s[0], rest);
      Concat3(WriteChar(s[0]), WriteText(s[1..]), tail);
      ConsConcat(s, ReadText(tail));
    }
  }

  /** What is written at the start of a file, in front of `tail`, is read back exactly when it
      has no control-Z and nothing of the tail can be read. */
  lemma WrittenTextReadsBack(s: string, tail: string)
    ensures ReadText(WriteText(s) + tail) == s <==> CTRL_Z !in s && (tail == "" || tail[0] == CTRL_Z)
  {
    if CTRL_Z in s {
      NothingPastControlZ(WriteText(s) + tail);
    } else if Merges(s, tail) {
      MergedLineEnd(s, tail);
    } else {
      ReadWritten(s, tail);
    }
  }

  lemma MergedLineEnd(s: string, tail: string)
    requires CTRL_Z !in s && Merges(s, tail)
    ensures ReadText(WriteText(s) + tail) != s
  {
    var n := |s| - 1;
    var front, back := s[..n], [CR, LF] + tail[1..];
    assert s == front + [CR];
    WriteConcat(front, [CR]);
    assert [CR][1..] == "";
    assert WriteText([CR]) == [CR];
    assert WriteText(s) + tail == WriteText(front) + back;
    ReadWritten(front, back);
    ReadLineEnd(tail[1..]);
    assert (front + ([LF] + ReadText(tail[1..])))[n] == LF;
  }

  lemma {:induction false} NothingPastControlZ(s: string)
    ensures CTRL_Z !in ReadText(s) && |ReadText(s)| <= |s|
  {
    if s != "" {
      NothingPastControlZ(s[1..]);
      if LineEnd(s, 0) { NothingPastControlZ(s[2..]); }
    }
  }

  // ---------------------------------------------------------------- when the bytes stay as they are

  /** A text-mode reader leaves byte `i` of the file alone. */
  predicate Kept(s: string, i: nat)
    requires i < |s|
  {
    s[i] != CTRL_Z && !LineEnd(s, i)
  }

  predicate AllKept(s: string, n: nat)
    requires n <= |s|
  {
    forall i :: 0 <= i < n ==> Kept(s, i)
  }

  function Prefix(s: string, n: nat): string { s[..Min(n, |s|)] }

  lemma PrefixHead(c: char, rest: string, n: nat)
    requires n > 0
    ensures Prefix([c] + rest, n) == [c] + Prefix(rest, n - 1)
  {}

  lemma AllKeptHead(s: string, n: nat)
    requires 0 < n && s != ""
    ensures AllKept(s, Min(n, |s|)) <==> Kept(s, 0) && AllKept(s[1..], Min(n - 1, |s| - 1))
  {
    var m := Min(n, |s|);
    assert forall i :: 0 <= i < m - 1 ==> (Kept(s[1..], i) <==> Kept(s, i + 1));
    if Kept(s, 0) && AllKept(s[1..], m - 1) {
      forall i | 0 <= i < m ensures Kept(s, i) { if i > 0 { assert Kept(s[1..], i - 1); } }
    }
  }

  lemma PrefixCons(s: string, n: nat)
    requires 0 < n && s != ""
    ensures Prefix(s, n) == [s[0]] + Prefix(s[1..], n - 1)
  {
    assert s == [s[0]] + s[1..];
    PrefixHead(s[0], s[1..], n);
  }

  /** The first `n` bytes read are the first `n` bytes of the file exactly when there is no
      control-Z among those and no line end starts among them. */
  lemma {:induction false} ReadUnchanged(s: string, n: nat)
    ensures Prefix(ReadText(s), n) == Prefix(s, n) <==> AllKept(s, Min(n, |s|))
    decreases |s|
  {
    if n > 0 && s != "" {
      AllKeptHead(s, n);
      PrefixCons(s, n);
      if Kept(s, 0) {
        ReadUnchanged(s[1..], n - 1);
        PrefixHead(s[0], ReadText(s[1..]), n);
        SameCons(s[0], Prefix(ReadText(s[1..]), n - 1), Prefix(s[1..], n - 1));
      } else {
        ChangedHead(s, n);
      }
    }
  }

  lemma SameCons(c: char, a: string, b: string)
    ensures [c] + a == [c] + b <==> a == b
  {
    assert ([c] + a)[1..] == a && ([c] + b)[1..] == b;
  }

  lemma ChangedHead(s: string, n: nat)
    requires n > 0 && s != "" && !Kept(s, 0)
    ensures Prefix(ReadText(s), n) != Prefix(s, n)
  {
    if s[0] != CTRL_Z {
      assert Prefix(ReadText(s), n)[0] == LF && Prefix(s, n)[0] == CR;
    }
  }

  lemma {:induction false} WriteFree(s: string)
    requires LF !in s
    ensures WriteText(s) == s
  {
    if s != "" { WriteFree(s[1..]); }
  }

  /** The first line feed is where the written text starts to differ. */
  lemma WriteFirstLineFeed(s: string) returns (k: nat)
    requires LF in s
    ensures k < |s| && s[k] == LF && k < |WriteText(s)| && WriteText(s)[k] == CR
  {
    k := FirstOf(s, {LF}, 0);
    FirstOfIsFirst(s, {LF}, 0);
    var a, b := s[..k], s[k + 1..];
    assert s == a + ([LF] + b);
    WriteConcat(a, [LF] + b);
    WriteFree(a);
    assert WriteText([LF] + b)[0] == CR;
  }
}
