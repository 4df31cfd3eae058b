/** How `FTPSession::read_command` cuts the control connection into command lines. */
module FtpFraming {
  import opened Text
  import opened Network

  const LF := '\n'
  const READ_SIZE := 1024

  // ---------------------------------------------------------------- the stream's own lines

  /** The lines a byte stream has completed, and what follows the last line feed. */
  datatype Stream = Stream(lines: seq<string>, partial: string)

  function FeedChar(st: Stream, c: char): Stream {
    if c == LF then Stream(st.lines + [st.partial], "") else Stream(st.lines, st.partial + [c])
  }

  function Feed(s: string, st: Stream): Stream
    decreases |s|
  {
    if s == "" then st else Feed(s[1..], FeedChar(st, s[0]))
  }

  function CompleteLines(s: string): seq<string> { Feed(s, Stream([], "")).lines }

  function LfCount(s: string): nat { if s == "" then 0 else (if s[0] == LF then 1 else 0) + LfCount(s[1..]) }

  lemma {:induction false} FeedConcat(a: string, b: string, st: Stream)
    ensures Feed(a + b, st) == Feed(b, Feed(a, st))
    decreases |a|
  {
    if a == "" {
      assert a + b == b;
    } else {
      assert (a + b)[1..] == a[1..] + b;
      FeedConcat(a[1..], b, FeedChar(st, a[0]));
    }
  }

  lemma {:induction false} FeedLineFree(s: string, st: Stream)
    requires LF !in s
    ensures Feed(s, st) == Stream(st.lines, st.partial + s)
    decreases |s|
  {
    if s == "" {
      assert st.partial + s == st.partial;
    } else {
      FeedLineFree(s[1..], FeedChar(st, s[0]));
      assert st.partial + [s[0]] + s[1..] == st.partial + s;
    }
  }

  lemma {:induction false} FeedCounts(s: string, st: Stream)
    ensures st.lines <= Feed(s, st).lines && |Feed(s, st).lines| == |st.lines| + LfCount(s)
    decreases |s|
  {
    if s != "" { FeedCounts(s[1..], FeedChar(st, s[0])); }
  }

  lemma {:induction false} LfCountConcat(a: string, b: string)
    ensures LfCount(a + b) == LfCount(a) + LfCount(b)
  {
    if a == "" {
      assert a + b == b;
    } else {
      assert (a + b)[1..] == a[1..] + b;
      LfCountConcat(a[1..], b);
    }
  }

  lemma {:induction false} NoLfCount(s: string)
    ensures LfCount(s) == 0 <==> LF !in s
  {
    if s != "" { NoLfCount(s[1..]); }
  }

  // ---------------------------------------------------------------- what the server does

  /** The lines handed out so far, without their line feed, and `command_buffer_`. */
  datatype Framed = Framed(lines: seq<string>, buffer: string)

  /** One `async_read_some` and the search for a line feed: at most one line leaves the buffer,
      even when more are complete. */
  function Receive(f: Framed, chunk: string): Framed {
    var b := f.buffer + chunk;
    var pos := FirstOf(b, {LF}, 0);
    if pos == |b| then Framed(f.lines, b) else Framed(f.lines + [b[..pos]], b[pos + 1..])
  }

  /** The state after the first `n` reads. */
  function Run(chunks: seq<string>, n: nat): Framed
    requires n <= |chunks|
  {
    if n == 0 then Framed([], "") else Receive(Run(chunks, n - 1), chunks[n - 1])
  }

  function Flat(chunks: seq<string>, n: nat): string
    requires n <= |chunks|
  {
    if n == 0 then "" else Flat(chunks, n - 1) + chunks[n - 1]
  }

  /** Every read returns something, and at most 1024 bytes. */
  predicate Reads(chunks: seq<string>) { forall i :: 0 <= i < |chunks| ==> 0 < |chunks[i]| <= 1024 }

  lemma ReadsSnoc(chunks: seq<string>, chunk: string)
    requires Reads(chunks) && 0 < |chunk| <= 1024
    ensures Reads(chunks + [chunk])
  {}

  class CommandReader {
    const socket: Socket<char>
    var buffer: string
    /** What every read so far returned, and the lines handed out. */
    ghost var chunks: seq<string>
    ghost var lines: seq<string>

    /** Everything received and still to be received. */
    ghost function Wire(): string reads this, socket { Flat(chunks, |chunks|) + socket.incoming }

    ghost predicate Valid() reads this { Run(chunks, |chunks|) == Framed(lines, buffer) && Reads(chunks) }

    constructor (s: Socket<char>)
      ensures Valid() && socket == s && chunks == [] && lines == []
    {
      socket, buffer, chunks, lines := s, "", [], [];
    }

    /** Reads until the buffer holds a line; `None` when the connection ends first. */
    method ReadCommand() returns (line: Option<string>)
      requires Valid()
      modifies this, socket`incoming
      ensures Valid() && old(chunks) <= chunks
      ensures Wire() == old(Wire())
      ensures |socket.incoming| < |old(socket.incoming)| || line.None?
      ensures line.None? ==> lines == old(lines) && socket.incoming == []
      ensures line.Some? ==> exists raw :: lines == old(lines) + [raw] && line.value == DropCr(raw)
      decreases |socket.incoming|
    {
      ghost var left := socket.incoming;
      var bytes := socket.ReadSome(READ_SIZE);
      if bytes.None? { return None; }
      StateAfterRead(chunks, bytes.value, lines, buffer);
      ReadsAddUp(chunks, bytes.value, socket.incoming, left);
      chunks := chunks + [bytes.value];
      buffer := buffer + bytes.value;
      var pos := FirstOf(buffer, {LF}, 0);
      if pos == |buffer| {
        line := ReadCommand();
        return;
      }
      var text := StripEnd(buffer, pos);
      line := Some(text);
      lines := lines + [buffer[..pos]];
      buffer := buffer[pos + 1..];
    }
  }

  /** The line up to the line feed at `pos`, without the line feed and without one carriage
      return in front of it. */
  method StripEnd(buffer: string, pos: nat) returns (text: string)
    requires pos < |buffer| && buffer[pos] == LF
    ensures text == DropCr(buffer[..pos])
  {
    text := buffer[..pos + 1];
    if text != "" && text[|text| - 1] == LF {
      text := text[..|text| - 1];
    }
    assert text == buffer[..pos];
    if text != "" && text[|text| - 1] == '\r' {
      text := text[..|text| - 1];
    }
  }

  /** What one more read makes of the lines and the buffer. */
  lemma StateAfterRead(chunks: seq<string>, chunk: string, lines: seq<string>, buffer: string)
    requires Run(chunks, |chunks|) == Framed(lines, buffer) && Reads(chunks) && 0 < |chunk| <= 1024
    ensures var after, b := chunks + [chunk], buffer + chunk;
            var pos := FirstOf(b, {LF}, 0);
            && Reads(after)
            && Run(after, |after|) == if pos == |b| then Framed(lines, b) else Framed(lines + [b[..pos]], b[pos + 1..])
  {
    ReadOneMore(chunks, chunk);
    ReadsSnoc(chunks, chunk);
  }

  lemma ReadsAddUp(chunks: seq<string>, chunk: string, rest: string, left: string)
    requires chunk + rest == left
    ensures var after := chunks + [chunk];
            Flat(after, |after|) + rest == Flat(chunks, |chunks|) + left
  {
    ReadOneMore(chunks, chunk);
    Concat3(Flat(chunks, |chunks|), chunk, rest);
  }

  lemma {:induction false} RunPrefix(chunks: seq<string>, more: seq<string>, n: nat)
    requires n <= |chunks|
    ensures Run(chunks + more, n) == Run(chunks, n) && Flat(chunks + more, n) == Flat(chunks, n)
  {
    if n > 0 { RunPrefix(chunks, more, n - 1); }
  }

  lemma ReadOneMore(chunks: seq<string>, chunk: string)
    ensures var after := chunks + [chunk];
            && Run(after, |after|) == Receive(Run(chunks, |chunks|), chunk)
            && Flat(after, |after|) == Flat(chunks, |chunks|) + chunk
  {
    RunPrefix(chunks, [chunk], |chunks|);
  }

  // ---------------------------------------------------------------- what that gives the client

  lemma FirstLine(b: string, pos: nat)
    requires pos < |b| && pos == FirstOf(b, {LF}, 0)
    ensures LF !in b[..pos] && b == b[..pos] + ([LF] + b[pos + 1..])
  {
    FirstOfIsFirst(b, {LF}, 0);
    CutHere(b, pos);
  }

  lemma CutHere(b: string, pos: nat)
    requires pos < |b|
    ensures b == b[..pos] + ([b[pos]] + b[pos + 1..])
  {}

  lemma FeedFirstLine(line: string, rest: string, lines: seq<string>)
    requires LF !in line
    ensures Feed(line + ([LF] + rest), Stream(lines, "")) == Feed(rest, Stream(lines + [line], ""))
    ensures LfCount(line + ([LF] + rest)) == 1 + LfCount(rest)
  {
    FeedConcat(line, [LF] + rest, Stream(lines, ""));
    FeedLineFree(line, Stream(lines, ""));
    assert "" + line == line;
    assert ([LF] + rest)[1..] == rest;
    LfCountConcat(line, [LF] + rest);
    NoLfCount(line);
  }

  /** Nothing is lost and nothing is reordered: feeding the stream is feeding the buffer after
      the lines handed out. */
  lemma {:induction false} NothingIsLost(chunks: seq<string>, n: nat)
    requires n <= |chunks|
    ensures var f := Run(chunks, n);
            Feed(Flat(chunks, n), Stream([], "")) == Feed(f.buffer, Stream(f.lines, ""))
  {
    if n > 0 {
      NothingIsLost(chunks, n - 1);
      var f, chunk := Run(chunks, n - 1), chunks[n - 1];
      FeedConcat(Flat(chunks, n - 1), chunk, Stream([], ""));
      FeedConcat(f.buffer, chunk, Stream(f.lines, ""));
      ReceiveFeeds(f, chunk);
    }
  }

  lemma ReceiveFeeds(f: Framed, chunk: string)
    ensures var g := Receive(f, chunk);
            Feed(f.buffer + chunk, Stream(f.lines, "")) == Feed(g.buffer, Stream(g.lines, ""))
  {
    var b := f.buffer + chunk;
    var pos := FirstOf(b, {LF}, 0);
    if pos < |b| {
      FirstLine(b, pos);
      FeedFirstLine(b[..pos], b[pos + 1..], f.lines);
    }
  }

  /** Consumed lines plus buffer are the bytes received. */
  lemma {:induction false} BytesAreConserved(chunks: seq<string>, n: nat)
    requires n <= |chunks|
    ensures Terminated(Run(chunks, n).lines, [LF]) + Run(chunks, n).buffer == Flat(chunks, n)
  {
    if n > 0 {
      BytesAreConserved(chunks, n - 1);
      var f, chunk := Run(chunks, n - 1), chunks[n - 1];
      var b := f.buffer + chunk;
      var pos := FirstOf(b, {LF}, 0);
      Concat3(Terminated(f.lines, [LF]), f.buffer, chunk);
      if pos < |b| {
        FirstLine(b, pos);
        TerminatedSnoc(f.lines, b[..pos], [LF]);
        Regroup(Terminated(f.lines, [LF]), b[..pos], [LF], b[pos + 1..]);
      }
    }
  }

  lemma Regroup(a: string, b: string, c: string, d: string)
    ensures (a + (b + c)) + d == a + (b + (c + d))
  {}

  /** However the stream was cut, the lines handed out are its first lines. */
  lemma LinesArePrefix(chunks: seq<string>, n: nat)
    requires n <= |chunks|
    ensures Run(chunks, n).lines <= CompleteLines(Flat(chunks, n))
  {
    NothingIsLost(chunks, n);
    FeedCounts(Run(chunks, n).buffer, Stream(Run(chunks, n).lines, ""));
  }

  /** The same for what is still to come: they are the first lines of the whole stream. */
  lemma LinesOpenStream(chunks: seq<string>, rest: string)
    ensures Run(chunks, |chunks|).lines <= CompleteLines(Flat(chunks, |chunks|) + rest)
  {
    var flat := Flat(chunks, |chunks|);
    LinesArePrefix(chunks, |chunks|);
    FeedConcat(flat, rest, Stream([], ""));
    FeedCounts(rest, Feed(flat, Stream([], "")));
  }

  /** Two ways to cut the same stream differ at most in how many lines have been handed out. */
  lemma {:induction false} FragmentationOnlyDelays(a: seq<string>, b: seq<string>)
    requires Flat(a, |a|) == Flat(b, |b|) && |Run(a, |a|).lines| <= |Run(b, |b|).lines|
    ensures Run(a, |a|).lines <= Run(b, |b|).lines
  {
    LinesArePrefix(a, |a|);
    LinesArePrefix(b, |b|);
  }

  // ---------------------------------------------------------------- when every line is answered

  /** How many more lines than reads there are from read `k` to read `n`. */
  function Surplus(chunks: seq<string>, k: nat, n: nat): int
    requires k <= n <= |chunks|
    decreases n
  {
    if n == k then 0 else Surplus(chunks, k, n - 1) + LfCount(chunks[n - 1]) - 1
  }

  function Backlog(chunks: seq<string>, n: nat): nat
    requires n <= |chunks|
  {
    LfCount(Run(chunks, n).buffer)
  }

  lemma BacklogStep(f: Framed, chunk: string)
    ensures var before := LfCount(f.buffer) + LfCount(chunk);
            LfCount(Receive(f, chunk).buffer) == if before == 0 then 0 else before - 1
  {
    var b := f.buffer + chunk;
    LfCountConcat(f.buffer, chunk);
    NoLfCount(b);
    var pos := FirstOf(b, {LF}, 0);
    FirstOfIsFirst(b, {LF}, 0);
    if pos < |b| {
      FirstLine(b, pos);
      FeedFirstLine(b[..pos], b[pos + 1..], []);
    }
  }

  /** The complete lines still in the buffer are the largest surplus of lines over reads that
      any tail of the reads has had. */
  lemma {:induction false} BacklogIsLargestSurplus(chunks: seq<string>, n: nat) returns (worst: nat)
    requires n <= |chunks|
    ensures forall k :: 0 <= k <= n ==> Surplus(chunks, k, n) <= Backlog(chunks, n)
    ensures worst <= n && Surplus(chunks, worst, n) == Backlog(chunks, n)
  {
    worst := n;
    if n > 0 {
      BacklogStep(Run(chunks, n - 1), chunks[n - 1]);
      var w := BacklogIsLargestSurplus(chunks, n - 1);
      if Backlog(chunks, n - 1) + LfCount(chunks[n - 1]) > 0 { worst := w; }
      forall k | 0 <= k <= n ensures Surplus(chunks, k, n) <= Backlog(chunks, n) {
        if k < n { assert Surplus(chunks, k, n - 1) <= Backlog(chunks, n - 1); }
      }
    }
  }

  /** Every complete line has been handed out if and only if no tail of the reads carried more
      lines than reads. */
  lemma AllLinesHandedOut(chunks: seq<string>, n: nat)
    requires n <= |chunks|
    ensures Run(chunks, n).lines == CompleteLines(Flat(chunks, n))
      <==> forall k :: 0 <= k <= n ==> Surplus(chunks, k, n) <= 0
  {
    var worst := BacklogIsLargestSurplus(chunks, n);
    NothingIsLost(chunks, n);
    FeedCounts(Run(chunks, n).buffer, Stream(Run(chunks, n).lines, ""));
  }

  /** Two lines in one segment: the second waits for the next read. */
  lemma SecondLineWaits()
    ensures Run(["A\nB\n"], 1) == Framed(["A"], "B\n")
  {
    var b := "A\nB\n";
    assert "" + b == b;
    FirstOfIs(b, {LF}, 0, 1);
    assert b[..1] == "A" && b[2..] == "B\n";
    assert Run([b], 0) == Framed([], "");
  }
}
