/** The UTF-8 acceptor `Encoding::is_utf8`, and how it relates to the decoder and the
    encoder of module `Utf`.

    The acceptor also admits the five- to eight-byte forms with lead bytes 0xF8 and
    above; the decoder throws on those. */
module Utf8Acceptor {
  import opened Utf

  datatype State = Reject | Expect(more: nat)

  /** How many of the high bits of a byte are ones, from the top down. */
  function LeadingOnes(b: byte): nat {
    if b < 0x80 then 0 else if b < 0xC0 then 1 else if b < 0xE0 then 2 else if b < 0xF0 then 3
    else if b < 0xF8 then 4 else if b < 0xFC then 5 else if b < 0xFE then 6 else if b < 0xFF then 7 else 8
  }

  /** The lambda `high_len`: counts by shifting the byte left until its top bit is clear. */
  method HighLen(b: byte) returns (len: nat)
    ensures len == LeadingOnes(b)
  {
    var ch := b;
    len := 0;
    while ch & 0x80 != 0
      invariant len + LeadingOnes(ch) == LeadingOnes(b)
      decreases LeadingOnes(ch)
    {
      len := len + 1;
      ch := ch << 1;
    }
  }

  function Next(more: nat, b: byte): State {
    var len := LeadingOnes(b);
    if more > 0 then (if len != 1 then Reject else Expect(more - 1))
    else if len == 1 then Reject
    else if len > 1 then Expect(len - 1)
    else Expect(0)
  }

  function RunFrom(more: nat, s: seq<byte>): State
    decreases s
  {
    if s == [] then Expect(more)
    else match Next(more, s[0])
      case Reject => Reject
      case Expect(m) => RunFrom(m, s[1..])
  }

  predicate IsUtf8(s: seq<byte>) { RunFrom(0, s) == Expect(0) }

  method CheckUtf8(data: seq<byte>) returns (r: bool)
    ensures r == IsUtf8(data)
  {
    var state := 0;
    for i := 0 to |data|
      invariant RunFrom(0, data) == RunFrom(state, data[i..])
    {
      assert data[i..][1..] == data[i + 1..];
      var len := HighLen(data[i]);
      if state > 0 {
        if len != 1 { return false; }
        state := state - 1;
      } else if len == 1 {
        return false;
      } else if len > 1 {
        state := len - 1;
      }
    }
    return state == 0;
  }

  // ---------------------------------------------------------------- segments

  predicate IsTail(b: byte) { b >> 6 == 0x02 }

  lemma TailIsOne(b: byte)
    ensures IsTail(b) <==> LeadingOnes(b) == 1
  {}

  lemma WidthIsLeadingOnes(b: byte)
    ensures Width(b) == if LeadingOnes(b) == 0 then 1 else if 2 <= LeadingOnes(b) <= 4 then LeadingOnes(b) else 0
  {}

  /** Continuation bytes only count the expectation down. */
  lemma {:induction false} RunTails(more: nat, s: seq<byte>, n: nat)
    requires n <= more
    requires RunFrom(more, s) != Reject
    ensures n <= |s| ==> RunFrom(more, s) == RunFrom(more - n, s[n..])
    ensures forall i :: 0 <= i < n && i < |s| ==> IsTail(s[i])
    ensures |s| <= n ==> RunFrom(more, s) == Expect(more - |s|)
  {
    if n > 0 && s != [] {
      TailIsOne(s[0]);
      RunTails(more - 1, s[1..], n - 1);
      if n <= |s| { assert s[1..][n - 1..] == s[n..]; }
      forall i | 0 <= i < n && i < |s| ensures IsTail(s[i]) {
        if i > 0 { assert s[i] == s[1..][i - 1]; }
      }
    }
  }

  /** A decoder step from a position the acceptor is at rest in stays inside the input,
      passes continuation bytes only and ends where the acceptor is at rest again. */
  lemma SegmentOfAccepted(s: seq<byte>)
    requires IsUtf8(s) && s != [] && Width(s[0]) > 0
    ensures var n := Width(s[0]); n <= |s| && IsUtf8(s[n..]) && forall i :: 0 < i < n ==> IsTail(s[i])
  {
    var n := Width(s[0]);
    WidthIsLeadingOnes(s[0]);
    RunTails(n - 1, s[1..], n - 1);
    assert n <= |s|;
    assert s[1..][n - 1..] == s[n..];
    forall i | 0 < i < n ensures IsTail(s[i]) {
      assert s[i] == s[1..][i - 1];
    }
  }

  // ---------------------------------------------------------------- lockstep

  lemma {:induction false} RunConcat(more: nat, a: seq<byte>, b: seq<byte>)
    ensures RunFrom(more, a + b) ==
            match RunFrom(more, a) case Reject => Reject case Expect(m) => RunFrom(m, b)
    decreases a
  {
    if a == [] {
      assert a + b == b;
    } else {
      assert (a + b)[1..] == a[1..] + b;
      match Next(more, a[0])
      case Reject =>
      case Expect(m) => RunConcat(m, a[1..], b);
    }
  }

  lemma RestIsAccepted(s: seq<byte>, i: nat)
    requires i <= |s| && IsUtf8(s) && RunFrom(0, s[..i]) == Expect(0)
    ensures IsUtf8(s[i..])
  {
    assert s[..i] + s[i..] == s;
    RunConcat(0, s[..i], s[i..]);
  }

  /** One step of the decoder from where the acceptor is at rest. */
  lemma StepAtRest(s: seq<byte>, i: nat)
    requires i < |s| && IsUtf8(s) && RunFrom(0, s[..i]) == Expect(0) && Width(s[i]) > 0
    ensures Width(s[i]) <= |s| - i && RunFrom(0, s[..i + Width(s[i])]) == Expect(0)
  {
    RestIsAccepted(s, i);
    SegmentOfAccepted(s[i..]);
    AtRest(s, i, Width(s[i]));
  }

  lemma {:induction false} LockstepFrom(s: seq<byte>, i: nat, p: nat)
    requires i <= |s| && IsUtf8(s) && RunFrom(0, s[..i]) == Expect(0)
    requires p in Positions(s, i)
    ensures i <= p <= |s| && RunFrom(0, s[..p]) == Expect(0)
    ensures p < |s| ==> Width(s[p]) <= |s| - p
    decreases |s| - i
  {
    if i < |s| && Width(s[i]) > 0 {
      StepAtRest(s, i);
      if p != i { LockstepFrom(s, i + Width(s[i]), p); }
    }
  }

  lemma AtRest(s: seq<byte>, i: nat, n: nat)
    requires i < |s| && n == Width(s[i]) && 0 < n <= |s| - i
    requires RunFrom(0, s[..i]) == Expect(0)
    requires forall k :: 0 < k < n ==> IsTail(s[i..][k])
    ensures RunFrom(0, s[..i + n]) == Expect(0)
  {
    var seg := s[i..i + n];
    assert s[..i + n] == s[..i] + seg;
    RunConcat(0, s[..i], seg);
    WidthIsLeadingOnes(s[i]);
    assert forall k :: 0 <= k < n - 1 ==> seg[1..][k] == s[i..][k + 1];
    CountDown(n - 1, seg[1..]);
  }

  lemma {:induction false} CountDown(more: nat, s: seq<byte>)
    requires |s| == more && forall k :: 0 <= k < |s| ==> IsTail(s[k])
    ensures RunFrom(more, s) == Expect(0)
  {
    if s != [] {
      TailIsOne(s[0]);
      CountDown(more - 1, s[1..]);
    }
  }

  /** On accepted input the decoder and the acceptor walk in step: wherever the decoder's
      loop stands, the acceptor is in state 0 and the bytes the decoder is about to read
      exist. */
  lemma Lockstep(s: seq<byte>, p: nat)
    requires IsUtf8(s) && p in Positions(s, 0)
    ensures p <= |s| && RunFrom(0, s[..p]) == Expect(0)
    ensures p < |s| ==> Width(s[p]) <= |s| - p
  {
    LockstepFrom(s, 0, p);
  }

  // ---------------------------------------------------------------- what is accepted

  /** The ones at the top of a byte are followed by a zero, unless there are eight. */
  lemma LeadingOnesAre(b: byte, n: nat)
    requires n <= 8
    ensures LeadingOnes(b) == n <==>
      match n
      case 0 => b / 0x80 == 0x00
      case 1 => b / 0x40 == 0x02
      case 2 => b / 0x20 == 0x06
      case 3 => b / 0x10 == 0x0E
      case 4 => b / 0x08 == 0x1E
      case 5 => b / 0x04 == 0x3E
      case 6 => b / 0x02 == 0x7E
      case 7 => b == 0xFE
      case 8 => b == 0xFF
  {}

  /** Segments of a lead byte with `n` leading ones and `n - 1` bytes `10xxxxxx`, or of one byte
      below 0x80. */
  predicate Segmented(s: seq<byte>) {
    s == [] ||
      var ones := LeadingOnes(s[0]);
      var n := if ones == 0 then 1 else ones;
      ones != 1 && n <= |s| && (forall i :: 0 < i < n ==> 0x80 <= s[i] < 0xC0) && Segmented(s[n..])
  }

  lemma TailRange(b: byte)
    ensures 0x80 <= b < 0xC0 <==> IsTail(b)
  {}

  /** Tails that are there count down; a missing or a wrong one is noticed. */
  lemma {:induction false} RunSegmentTails(more: nat, s: seq<byte>)
    ensures RunFrom(more, s) == Expect(0) <==>
      more <= |s| && (forall i :: 0 <= i < more ==> 0x80 <= s[i] < 0xC0) && RunFrom(0, s[more..]) == Expect(0)
    decreases more
  {
    if more == 0 {
      assert s[0..] == s;
    } else if s != [] {
      TailRange(s[0]);
      TailIsOne(s[0]);
      if LeadingOnes(s[0]) == 1 {
        RunSegmentTails(more - 1, s[1..]);
        ShiftTails(more, s);
      }
    }
  }

  lemma ShiftTails(more: nat, s: seq<byte>)
    requires 0 < more && s != []
    ensures more <= |s| ==> s[1..][more - 1..] == s[more..]
    ensures more <= |s| ==> ((forall i :: 0 <= i < more ==> 0x80 <= s[i] < 0xC0) <==>
      0x80 <= s[0] < 0xC0 && forall i :: 0 <= i < more - 1 ==> 0x80 <= s[1..][i] < 0xC0)
  {
    if more <= |s| && 0x80 <= s[0] < 0xC0 && forall i :: 0 <= i < more - 1 ==> 0x80 <= s[1..][i] < 0xC0 {
      forall i | 0 <= i < more ensures 0x80 <= s[i] < 0xC0 { if i > 0 { assert s[1..][i - 1] == s[i]; } }
    }
  }

  /** The automaton accepts exactly the strings made of whole segments, of up to eight bytes. */
  lemma {:induction false} AcceptedIsSegmented(s: seq<byte>)
    ensures IsUtf8(s) <==> Segmented(s)
    decreases |s|
  {
    if s != [] && LeadingOnes(s[0]) != 1 {
      var ones := LeadingOnes(s[0]);
      var n := if ones == 0 then 1 else ones;
      RunSegmentTails(n - 1, s[1..]);
      if n <= |s| {
        assert s[1..][n - 1..] == s[n..];
        AcceptedIsSegmented(s[n..]);
        forall i | 0 < i < n ensures s[i] == s[1..][i - 1] {}
      }
    }
  }

  predicate NoLongLead(s: seq<byte>) { forall i :: 0 <= i < |s| ==> s[i] < 0xF8 }

  lemma LongLeadByte(b: byte)
    ensures Width(b) > 0 || IsTail(b) ==> b < 0xF8
    ensures Width(b) == 0 && !IsTail(b) ==> b >= 0xF8
  {}

  lemma SegmentHasNoLongLead(s: seq<byte>, n: nat)
    requires 0 < n <= |s| && Width(s[0]) > 0 && forall i :: 0 < i < n ==> IsTail(s[i])
    ensures NoLongLead(s) <==> NoLongLead(s[n..])
  {
    forall i | 0 <= i < n ensures s[i] < 0xF8 { LongLeadByte(s[i]); }
    assert forall i :: n <= i < |s| ==> s[i] == s[n..][i - n];
  }

  /** Hence accepted input is never read past its end, and it is decoded exactly when it
      has no lead byte of 0xF8 or above. */
  lemma {:induction false} AcceptedIsDecodable(s: seq<byte>)
    requires IsUtf8(s)
    ensures DecodeUtf8(s) != PastEnd
    ensures DecodeUtf8(s).Points? <==> NoLongLead(s)
  {
    if s != [] {
      if Width(s[0]) > 0 {
        var n := Width(s[0]);
        SegmentOfAccepted(s);
        AcceptedIsDecodable(s[n..]);
        SegmentHasNoLongLead(s, n);
      } else {
        TailIsOne(s[0]);
        LongLeadByte(s[0]);
      }
    }
  }
}
