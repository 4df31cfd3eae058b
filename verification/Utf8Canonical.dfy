/** Which byte strings UTF-8 decoding and encoding leave alone, and what the acceptor makes
    of the encoder's output. */
module Utf8Canonical {
  import opened Utf
  import opened Utf8Acceptor

  // ---------------------------------------------------------------- encoder output

  lemma LeadsAndTails(c: point)
    ensures c < 0x80 ==> LeadingOnes(LowByte(c)) == 0
    ensures 0x80 <= c < 0x800 ==> LeadingOnes(Lead2(c)) == 2
    ensures 0x800 <= c < 0x10000 ==> LeadingOnes(Lead3(c)) == 3
    ensures IsTail(Tail0(c)) && IsTail(Tail6(c)) && IsTail(Tail12(c))
  {}

  lemma LongLead(c: point)
    ensures if Bit21(c) then LeadingOnes(Lead4(c)) >= 5 else LeadingOnes(Lead4(c)) == 4
  {}

  /** The tails of an encoded code point bring the acceptor back to rest, unless the lead
      byte announced more of them than the encoder writes. */
  lemma RunEncodedPoint(c: point)
    ensures var e := EncodePoint(c);
            if Bit21(c) && 0x10000 <= c then RunFrom(0, e).Expect? && RunFrom(0, e).more > 0
            else RunFrom(0, e) == Expect(0)
  {
    var e := EncodePoint(c);
    LeadsAndTails(c);
    LongLead(c);
    forall k | 0 <= k < |e[1..]| ensures IsTail(e[1..][k]) {}
    if Bit21(c) && 0x10000 <= c {
      RunEncodedTails(LeadingOnes(e[0]) - 1, e[1..]);
    } else {
      CountDown(|e| - 1, e[1..]);
    }
  }

  lemma {:induction false} RunEncodedTails(more: nat, s: seq<byte>)
    requires |s| <= more && forall k :: 0 <= k < |s| ==> IsTail(s[k])
    ensures RunFrom(more, s) == Expect(more - |s|)
  {
    if s != [] {
      TailIsOne(s[0]);
      RunEncodedTails(more - 1, s[1..]);
    }
  }

  predicate NoBit21(cs: seq<point>) { forall i :: 0 <= i < |cs| ==> !Bit21(cs[i]) }

  /** The acceptor takes the encoder's output exactly when no code point has bit 21 set; in
      particular it takes the encoding of everything below 0x200000. */
  lemma {:induction false} EncodingIsAccepted(cs: seq<point>)
    ensures IsUtf8(EncodeUtf8(cs)) <==> NoBit21(cs)
    ensures Below21(cs) ==> NoBit21(cs)
  {
    if cs != [] {
      var c, tail := cs[0], EncodeUtf8(cs[1..]);
      EncodingIsAccepted(cs[1..]);
      RunEncodedPoint(c);
      RunConcat(0, EncodePoint(c), tail);
      assert c < 0x200000 ==> !Bit21(c);
      assert Bit21(c) ==> 0x10000 <= c;
      assert cs == [c] + cs[1..];
      if Bit21(c) { EncodingStartsWithLead(RunFrom(0, EncodePoint(c)).more, cs[1..]); }
    }
  }

  lemma LeadIsNoTail(c: point)
    ensures EncodePoint(c) != [] && !IsTail(EncodePoint(c)[0])
  {
    LeadsAndTails(c);
    LongLead(c);
  }

  lemma EncodingStartsWithLead(more: nat, cs: seq<point>)
    requires more > 0
    ensures RunFrom(more, EncodeUtf8(cs)) != Expect(0)
  {
    if cs != [] {
      LeadIsNoTail(cs[0]);
      assert EncodeUtf8(cs)[0] == EncodePoint(cs[0])[0];
    }
  }

  // ---------------------------------------------------------------- overlong forms

  /** A sequence longer than its code point needs (the forms section 3 of RFC 3629 forbids). */
  predicate Overlong(s: seq<byte>)
    requires s != [] && 0 < Width(s[0]) <= |s|
  {
    || s[0] == 0xC0
    || s[0] == 0xC1
    || (s[0] == 0xE0 && s[1] < 0xA0)
    || (s[0] == 0xF0 && s[1] < 0x90)
  }

  /** No overlong sequence starts where the decoder stands. */
  predicate NoOverlong(s: seq<byte>) {
    s == [] || Width(s[0]) == 0 || |s| < Width(s[0]) || (!Overlong(s) && NoOverlong(s[Width(s[0])..]))
  }

  lemma Reencode2(a: byte, b: byte)
    requires Width(a) == 2 && IsTail(b)
    ensures Lead2(Point2(a, b)) == a && Tail0(Point2(a, b)) == b
    ensures Point2(a, b) < 0x800 && (Point2(a, b) < 0x80 <==> a == 0xC0 || a == 0xC1)
  {}

  lemma Reencode3(a: byte, b: byte, c: byte)
    requires Width(a) == 3 && IsTail(b) && IsTail(c)
    ensures Lead3(Point3(a, b, c)) == a && Tail6(Point3(a, b, c)) == b && Tail0(Point3(a, b, c)) == c
    ensures Point3(a, b, c) < 0x10000 && (Point3(a, b, c) < 0x800 <==> a == 0xE0 && b < 0xA0)
  {}

  lemma Reencode4(a: byte, b: byte, c: byte, d: byte)
    requires a >> 3 == 0x1E && IsTail(b) && IsTail(c) && IsTail(d)
    ensures Lead4(Point4(a, b, c, d)) == a && Tail12(Point4(a, b, c, d)) == b
    ensures Tail6(Point4(a, b, c, d)) == c && Tail0(Point4(a, b, c, d)) == d
  {}

  lemma Size4(a: byte, b: byte, c: byte, d: byte)
    requires a >> 3 == 0x1E && IsTail(b)
    ensures Point4(a, b, c, d) < 0x10000 <==> a == 0xF0 && b < 0x90
  {}

  /** Re-encoding one decoded segment gives it back, or something shorter if it was
      overlong. */
  lemma {:induction false} ReencodeSegment(s: seq<byte>)
    requires s != [] && 0 < Width(s[0]) <= |s| && forall i :: 0 < i < Width(s[0]) ==> IsTail(s[i])
    ensures var n, e := Width(s[0]), EncodePoint(FirstPoint(s));
            if Overlong(s) then |e| < n else e == s[..n]
  {
    match Width(s[0])
    case 1 => assert LowByte(s[0] as point) == s[0] && s[0] as point < 0x80;
    case 2 => Reencode2(s[0], s[1]);
    case 3 => Reencode3(s[0], s[1], s[2]);
    case 4 => Reencode4(s[0], s[1], s[2], s[3]); Size4(s[0], s[1], s[2], s[3]);
  }

  lemma SamePrefix(s: seq<byte>, n: nat, head: seq<byte>, tail: seq<byte>)
    requires n <= |s| && |tail| <= |s| - n
    requires |head| < n || head == s[..n]
    ensures head + tail == s <==> head == s[..n] && tail == s[n..]
  {
    if head == s[..n] {
      assert (head + tail)[n..] == tail;
      assert s == s[..n] + s[n..];
    }
  }

  lemma ReencodeHead(s: seq<byte>)
    requires s != [] && IsUtf8(s) && DecodeUtf8(s).Points?
    ensures var n := Width(s[0]);
            && 0 < n <= |s| && IsUtf8(s[n..]) && DecodeUtf8(s[n..]).Points?
            && EncodeUtf8(DecodeUtf8(s).points) == EncodePoint(FirstPoint(s)) + EncodeUtf8(DecodeUtf8(s[n..]).points)
            && (if Overlong(s) then |EncodePoint(FirstPoint(s))| < n else EncodePoint(FirstPoint(s)) == s[..n])
  {
    SegmentOfAccepted(s);
    ReencodeSegment(s);
    assert DecodeUtf8(s).points[1..] == DecodeUtf8(s[Width(s[0])..]).points;
  }

  lemma {:induction false} ReencodeAccepted(s: seq<byte>)
    requires IsUtf8(s) && DecodeUtf8(s).Points?
    ensures var e := EncodeUtf8(DecodeUtf8(s).points); |e| <= |s| && (e == s <==> NoOverlong(s))
  {
    if s != [] {
      var n := Width(s[0]);
      ReencodeHead(s);
      ReencodeAccepted(s[n..]);
      SamePrefix(s, n, EncodePoint(FirstPoint(s)), EncodeUtf8(DecodeUtf8(s[n..]).points));
    }
  }

  lemma PointsFit(a: byte, b: byte, c: byte, d: byte)
    ensures Point2(a, b) < 0x200000 && Point3(a, b, c) < 0x200000 && Point4(a, b, c, d) < 0x200000
  {}

  lemma {:induction false} DecodedBelow21(s: seq<byte>)
    requires DecodeUtf8(s).Points?
    ensures Below21(DecodeUtf8(s).points)
  {
    if s != [] {
      DecodedBelow21(s[Width(s[0])..]);
      match Width(s[0])
      case 1 =>
      case 2 => PointsFit(s[0], s[1], 0, 0);
      case 3 => PointsFit(s[0], s[1], s[2], 0);
      case 4 => PointsFit(s[0], s[1], s[2], s[3]);
    }
  }

  /** The byte strings that decoding and encoding leave alone are exactly the accepted ones
      with no lead of 0xF8 or above and no overlong form. */
  lemma Utf8FixedPoints(s: seq<byte>)
    ensures DecodeUtf8(s).Points? && EncodeUtf8(DecodeUtf8(s).points) == s
       <==> IsUtf8(s) && NoLongLead(s) && NoOverlong(s)
  {
    if DecodeUtf8(s).Points? {
      DecodedBelow21(s);
      EncodingIsAccepted(DecodeUtf8(s).points);
    }
    if IsUtf8(s) {
      AcceptedIsDecodable(s);
      if DecodeUtf8(s).Points? { ReencodeAccepted(s); }
    }
  }
}
