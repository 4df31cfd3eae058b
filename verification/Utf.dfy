/** The UTF-8, UTF-16 and UTF-32 codecs of `stringUtil.h`.

    Bytes, 16-bit units and code points are bit vectors of the widths the C++ types have,
    so every shift, mask and truncating cast is the one the program performs.  A code
    point is any 32-bit value: nothing in the program restricts it to the Unicode range. */
module Utf {
  import opened Pairing
  import Text

  type byte = bv8
  type unit = bv16
  type point = bv32

  /** `PastEnd` stands for reading a continuation byte beyond the end of the input, which
      the C++ code does not guard against; `Invalid` is the exception it throws. */
  datatype Decoded = Points(points: seq<point>) | Invalid | PastEnd {
    function After(prefix: seq<point>): Decoded {
      if Points? then Points(prefix + points) else this
    }
  }

  // ---------------------------------------------------------------- UTF-8, one character

  function Width(lead: byte): nat {
    if lead < 0x80 then 1
    else if lead >> 5 == 0x06 then 2
    else if lead >> 4 == 0x0E then 3
    else if lead >> 3 == 0x1E then 4
    else 0
  }

  function Point2(b0: byte, b1: byte): point {
    ((b0 & 0x1F) as point << 6) | (b1 & 0x3F) as point
  }

  function Point3(b0: byte, b1: byte, b2: byte): point {
    ((b0 & 0x0F) as point << 12) | ((b1 & 0x3F) as point << 6) | (b2 & 0x3F) as point
  }

  function Point4(b0: byte, b1: byte, b2: byte, b3: byte): point {
    ((b0 & 0x07) as point << 18) | ((b1 & 0x3F) as point << 12) | ((b2 & 0x3F) as point << 6) | (b3 & 0x3F) as point
  }

  function FirstPoint(s: seq<byte>): point
    requires s != [] && 0 < Width(s[0]) <= |s|
  {
    match Width(s[0])
    case 1 => s[0] as point
    case 2 => Point2(s[0], s[1])
    case 3 => Point3(s[0], s[1], s[2])
    case _ => Point4(s[0], s[1], s[2], s[3])
  }

  function LowByte(c: point): byte { (c & 0xFF) as byte }
  function Lead2(c: point): byte { LowByte(0xC0 | (c >> 6)) }
  function Lead3(c: point): byte { LowByte(0xE0 | (c >> 12)) }
  function Lead4(c: point): byte { LowByte(0xF0 | (c >> 18)) }
  function Tail0(c: point): byte { LowByte(0x80 | (c & 0x3F)) }
  function Tail6(c: point): byte { LowByte(0x80 | ((c >> 6) & 0x3F)) }
  function Tail12(c: point): byte { LowByte(0x80 | ((c >> 12) & 0x3F)) }

  function EncodePoint(c: point): seq<byte> {
    if c < 0x80 then [LowByte(c)]
    else if c < 0x800 then [Lead2(c), Tail0(c)]
    else if c < 0x10000 then [Lead3(c), Tail6(c), Tail0(c)]
    else [Lead4(c), Tail12(c), Tail6(c), Tail0(c)]
  }

  // ---------------------------------------------------------------- UTF-8, whole strings

  function DecodeUtf8(s: seq<byte>): Decoded {
    if s == [] then Points([])
    else if Width(s[0]) == 0 then Invalid
    else if |s| < Width(s[0]) then PastEnd
    else DecodeUtf8(s[Width(s[0])..]).After([FirstPoint(s)])
  }

  function EncodeUtf8(cs: seq<point>): seq<byte> {
    if cs == [] then [] else EncodePoint(cs[0]) + EncodeUtf8(cs[1..])
  }

  /** The indices at which the loop of `utf8_to_utf32_view` starts an iteration or ends. */
  function Positions(s: seq<byte>, i: nat): set<nat>
    requires i <= |s|
    decreases |s| - i
  {
    if i < |s| && 0 < Width(s[i]) <= |s| - i then {i} + Positions(s, i + Width(s[i])) else {i}
  }

  lemma DecodeStep(input: seq<byte>, i: nat, buffer: seq<point>)
    requires i < |input| && 0 < Width(input[i]) <= |input| - i
    ensures DecodeUtf8(input[i..]).After(buffer)
         == DecodeUtf8(input[i + Width(input[i])..]).After(buffer + [FirstPoint(input[i..])])
  {
    assert input[i..][Width(input[i])..] == input[i + Width(input[i])..];
    assert forall ps :: (buffer + [FirstPoint(input[i..])]) + ps == buffer + ([FirstPoint(input[i..])] + ps);
  }

  /** The end of one turn of the loop: a code point and the next index, or an early return. */
  datatype Turn = Read(codepoint: point, next: nat) | Stop(why: Decoded)

  function NextTurn(input: seq<byte>, i: nat): Turn
    requires i < |input|
  {
    if Width(input[i]) == 0 then Stop(Invalid)
    else if |input| - i < Width(input[i]) then Stop(PastEnd)
    else Read(FirstPoint(input[i..]), i + Width(input[i]))
  }

  /** The body of the loop of `utf8_to_utf32_view`. */
  method ReadUtf8(input: seq<byte>, i: nat) returns (r: Turn)
    requires i < |input|
    ensures r == NextTurn(input, i)
  {
    var lead := input[i];
    if lead < 0x80 {
      return Read(lead as point, i + 1);
    } else if lead >> 5 == 0x06 {
      if |input| < i + 2 { return Stop(PastEnd); }
      return Read(Point2(lead, input[i + 1]), i + 2);
    } else if lead >> 4 == 0x0E {
      if |input| < i + 3 { return Stop(PastEnd); }
      return Read(Point3(lead, input[i + 1], input[i + 2]), i + 3);
    } else if lead >> 3 == 0x1E {
      if |input| < i + 4 { return Stop(PastEnd); }
      return Read(Point4(lead, input[i + 1], input[i + 2], input[i + 3]), i + 4);
    } else {
      return Stop(Invalid);
    }
  }

  lemma StopDecodes(input: seq<byte>, i: nat)
    requires i < |input| && NextTurn(input, i).Stop?
    ensures DecodeUtf8(input[i..]) == NextTurn(input, i).why
    ensures !DecodeUtf8(input[i..]).Points?
  {}

  lemma ReadMovesOn(input: seq<byte>, i: nat)
    requires i < |input| && NextTurn(input, i).Read?
    ensures var next := NextTurn(input, i).next;
            i < next <= |input| && next in Positions(input, next) && Positions(input, next) <= Positions(input, i)
  {}

  method Utf8ToUtf32(input: seq<byte>) returns (r: Decoded)
    ensures r == DecodeUtf8(input)
  {
    var buffer: seq<point> := [];
    var i := 0;
    while i < |input|
      invariant i <= |input| && i in Positions(input, 0) && Positions(input, i) <= Positions(input, 0)
      invariant DecodeUtf8(input) == DecodeUtf8(input[i..]).After(buffer)
    {
      var turn := ReadUtf8(input, i);
      if turn.Stop? {
        StopDecodes(input, i);
        return turn.why;
      }
      DecodeStep(input, i, buffer);
      ReadMovesOn(input, i);
      i := turn.next;
      buffer := buffer + [turn.codepoint];
    }
    return Points(buffer);
  }

  lemma EncodeStep(input: seq<point>, k: nat, result: seq<byte>)
    requires k < |input|
    ensures result + EncodeUtf8(input[k..]) == (result + EncodePoint(input[k])) + EncodeUtf8(input[k + 1..])
  { assert input[k..][1..] == input[k + 1..]; }

  /** The body of the loop of `utf32_to_utf8`: what one code point appends. */
  method AppendUtf8(c: point, result: seq<byte>) returns (r: seq<byte>)
    ensures r == result + EncodePoint(c)
  {
    if c < 0x80 {
      return result + [LowByte(c)];
    } else if c < 0x800 {
      return result + [Lead2(c), Tail0(c)];
    } else if c < 0x10000 {
      return result + [Lead3(c), Tail6(c), Tail0(c)];
    } else {
      return result + [Lead4(c), Tail12(c), Tail6(c), Tail0(c)];
    }
  }

  method Utf32ToUtf8(input: seq<point>) returns (result: seq<byte>)
    ensures result == EncodeUtf8(input)
  {
    result := [];
    for k := 0 to |input|
      invariant EncodeUtf8(input) == result + EncodeUtf8(input[k..])
    {
      EncodeStep(input, k, result);
      result := AppendUtf8(input[k], result);
    }
  }

  // ---------------------------------------------------------------- UTF-8, there and back

  /** The UTF-8 writer keeps 21 bits.  Code points with bit 21 set get a lead byte the
      reader refuses; the bits above are lost. */
  predicate Bit21(c: point) { c & 0x200000 != 0 }

  predicate Below21(cs: seq<point>) { forall i :: 0 <= i < |cs| ==> cs[i] < 0x200000 }

  lemma Form4(c: point)
    requires 0x10000 <= c
    ensures Point4(Lead4(c), Tail12(c), Tail6(c), Tail0(c)) == c & 0x1FFFFF
    ensures Width(Lead4(c)) == if Bit21(c) then 0 else 4
  {}

  lemma Form1(c: point)
    requires c < 0x80
    ensures LowByte(c) as point == c && Width(LowByte(c)) == 1 && c & 0x1FFFFF == c
  {}

  lemma Form2(c: point)
    requires 0x80 <= c < 0x800
    ensures Point2(Lead2(c), Tail0(c)) == c && Width(Lead2(c)) == 2 && c & 0x1FFFFF == c
  {}

  lemma Form3(c: point)
    requires 0x800 <= c < 0x10000
    ensures Point3(Lead3(c), Tail6(c), Tail0(c)) == c && Width(Lead3(c)) == 3 && c & 0x1FFFFF == c
  {}

  lemma {:induction false} DecodeEncodedPoint(c: point, rest: seq<byte>)
    ensures DecodeUtf8(EncodePoint(c) + rest) ==
            if Bit21(c) && 0x10000 <= c then Invalid else DecodeUtf8(rest).After([c & 0x1FFFFF])
  {
    var e := EncodePoint(c);
    if c < 0x80 { Form1(c); } else if c < 0x800 { Form2(c); } else if c < 0x10000 { Form3(c); } else { Form4(c); }
    assert (e + rest)[|e|..] == rest;
  }

  lemma Mask21(c: point)
    ensures c & 0x1FFFFF == c <==> c < 0x200000
    ensures Bit21(c) ==> 0x200000 <= c
  {}

  lemma Below21Cons(cs: seq<point>)
    requires cs != []
    ensures Below21(cs) <==> cs[0] < 0x200000 && Below21(cs[1..])
  {
    assert cs == [cs[0]] + cs[1..];
  }

  lemma SameCons(a: point, x: seq<point>, cs: seq<point>)
    requires cs != []
    ensures [a] + x == cs <==> a == cs[0] && x == cs[1..]
  {
    assert ([a] + x)[1..] == x;
    assert cs == [cs[0]] + cs[1..];
  }

  /** What the UTF-8 pair does to any list of 32-bit code points: it either throws or
      reduces each modulo 2^21, so it is the identity exactly below 0x200000. */
  lemma {:induction false} Utf32ThroughUtf8(cs: seq<point>)
    ensures DecodeUtf8(EncodeUtf8(cs)) == Points(cs) <==> Below21(cs)
  {
    if cs != [] {
      var c, tail := cs[0], EncodeUtf8(cs[1..]);
      Utf32ThroughUtf8(cs[1..]);
      DecodeEncodedPoint(c, tail);
      Mask21(c);
      Below21Cons(cs);
      if DecodeUtf8(tail).Points? { SameCons(c & 0x1FFFFF, DecodeUtf8(tail).points, cs); }
    }
  }

  // ---------------------------------------------------------------- UTF-16

  predicate High(c: point) { 0xD800 <= c <= 0xDBFF }

  predicate Low(c: point) { 0xDC00 <= c <= 0xDFFF }

  function Combine(high: point, low: point): point {
    0x10000 + ((high - 0xD800) << 10) + (low - 0xDC00)
  }

  function HighUnit(c: point): unit { ((0xD800 | ((c - 0x10000) >> 10)) & 0xFFFF) as unit }
  function LowUnit(c: point): unit { ((0xDC00 | ((c - 0x10000) & 0x3FF)) & 0xFFFF) as unit }

  function ShortUnit(c: point): unit { (c & 0xFFFF) as unit }

  function EncodeUnits(c: point): seq<unit> {
    if c < 0x10000 then [ShortUnit(c)] else [HighUnit(c), LowUnit(c)]
  }

  predicate IsPair(high: unit, low: unit) { High(high as point) && Low(low as point) }

  function Joined(high: unit, low: unit): point { Combine(high as point, low as point) }

  function Widened(u: unit): point { u as point }

  function DecodeUtf16(s: seq<unit>): seq<point> { Pairwise(s, IsPair, Joined, Widened) }

  function EncodeUtf16(cs: seq<point>): seq<unit> { Each(cs, EncodeUnits) }

  /** `decode_utf16`: reads one code point at index `ptr` and says where the next one is. */
  method DecodeOneUtf16(s: seq<unit>, ptr: nat) returns (codepoint: point, next: nat)
    requires ptr < |s|
    ensures ptr < next <= |s|
    ensures DecodeUtf16(s[ptr..]) == [codepoint] + DecodeUtf16(s[next..])
  {
    PairStep(s, ptr, IsPair, Joined, Widened);
    codepoint, next := s[ptr] as point, ptr + 1;
    if 0xD800 <= codepoint <= 0xDBFF && next < |s| {
      var low := s[next] as point;
      if 0xDC00 <= low <= 0xDFFF {
        codepoint := Combine(codepoint, low);
        next := next + 1;
      }
    }
  }

  method Utf16ToUtf32(input: seq<unit>) returns (result: seq<point>)
    ensures result == DecodeUtf16(input)
  {
    result := [];
    var ptr := 0;
    while ptr < |input|
      invariant ptr <= |input|
      invariant DecodeUtf16(input) == result + DecodeUtf16(input[ptr..])
    {
      var codepoint, next := DecodeOneUtf16(input, ptr);
      ghost var rest := DecodeUtf16(input[next..]);
      assert DecodeUtf16(input[ptr..]) == [codepoint] + rest;
      Text.Concat3(result, [codepoint], rest);
      result := result + [codepoint];
      ptr := next;
    }
  }

  /** `encode_utf16`. */
  method AppendUtf16(codepoint: point, result: seq<unit>) returns (r: seq<unit>)
    ensures r == result + EncodeUnits(codepoint)
  {
    if codepoint < 0x10000 {
      return result + [ShortUnit(codepoint)];
    }
    r := result + [HighUnit(codepoint)];
    r := r + [LowUnit(codepoint)];
  }

  method Utf32ToUtf16(input: seq<point>) returns (result: seq<unit>)
    ensures result == EncodeUtf16(input)
  {
    result := [];
    for k := 0 to |input|
      invariant EncodeUtf16(input) == result + EncodeUtf16(input[k..])
    {
      assert input[k..][1..] == input[k + 1..];
      result := AppendUtf16(input[k], result);
    }
  }

  lemma PairBits(h: unit, l: unit)
    requires IsPair(h, l)
    ensures 0x10000 <= Joined(h, l) < 0x110000
    ensures HighUnit(Joined(h, l)) == h && LowUnit(Joined(h, l)) == l
  {}

  lemma UnitBits(u: unit)
    ensures ShortUnit(Widened(u)) == u && Widened(u) < 0x10000
  {}

  lemma ShortBits(c: point)
    requires c < 0x10000
    ensures Widened(ShortUnit(c)) == c
  {}

  lemma PointSurrogates(c: point)
    requires 0x10000 <= c < 0x110000
    ensures IsPair(HighUnit(c), LowUnit(c)) && !Low(HighUnit(c) as point)
  {}

  lemma PointBits(c: point)
    requires 0x10000 <= c < 0x110000
    ensures Joined(HighUnit(c), LowUnit(c)) == c
  {}

  lemma PairUnits(h: unit, l: unit)
    requires IsPair(h, l)
    ensures EncodeUnits(Joined(h, l)) == [h, l]
  {
    PairBits(h, l);
  }

  lemma OneUnit(u: unit)
    ensures EncodeUnits(Widened(u)) == [u]
  {
    UnitBits(u);
  }

  predicate Unicode(c: point) { c < 0x110000 }

  predicate InUnicodeRange(cs: seq<point>) { forall i :: 0 <= i < |cs| ==> Unicode(cs[i]) }

  /** Every list of 16-bit units, lone surrogates included, is recovered from its code
      points, which all lie in the Unicode range. */
  lemma Utf16ThroughUtf32(s: seq<unit>)
    ensures EncodeUtf16(DecodeUtf16(s)) == s
    ensures InUnicodeRange(DecodeUtf16(s))
  {
    forall a, b | IsPair(a, b) ensures EncodeUnits(Joined(a, b)) == [a, b] && Unicode(Joined(a, b)) {
      PairUnits(a, b);
      PairBits(a, b);
    }
    forall a ensures EncodeUnits(Widened(a)) == [a] && Unicode(Widened(a)) {
      OneUnit(a);
      UnitBits(a);
    }
    EachUndoesPairwise(s, IsPair, Joined, Widened, EncodeUnits);
    PairwiseKeeps(s, IsPair, Joined, Widened, Unicode);
  }

  /** No two neighbours that read as one surrogate pair. */
  predicate NoSplitPair(cs: seq<point>) {
    forall i :: 0 <= i < |cs| - 1 ==> !(High(cs[i]) && Low(cs[i + 1]))
  }

  predicate SplitPairAtHead(cs: seq<point>) { |cs| > 1 && High(cs[0]) && Low(cs[1]) }

  lemma NoSplitCons(cs: seq<point>)
    requires cs != []
    ensures NoSplitPair(cs) <==> NoSplitPair(cs[1..]) && !SplitPairAtHead(cs)
  {
    if NoSplitPair(cs[1..]) && !SplitPairAtHead(cs) {
      forall i | 0 <= i < |cs| - 1 ensures !(High(cs[i]) && Low(cs[i + 1])) {
        if i > 0 { assert !(High(cs[1..][i - 1]) && Low(cs[1..][i])); }
      }
    }
    if NoSplitPair(cs) {
      forall i | 0 <= i < |cs[1..]| - 1 ensures !(High(cs[1..][i]) && Low(cs[1..][i + 1])) {
        assert !(High(cs[i + 1]) && Low(cs[i + 2]));
      }
    }
  }

  lemma FirstUnitIsLow(c: point)
    requires Unicode(c)
    ensures EncodeUnits(c) != [] && (Low(EncodeUnits(c)[0] as point) <==> Low(c))
  {
    if c >= 0x10000 { PointSurrogates(c); } else { ShortBits(c); }
  }

  lemma LongHead(c: point, tail: seq<unit>)
    requires 0x10000 <= c < 0x110000
    ensures DecodeUtf16(EncodeUnits(c) + tail) == [c] + DecodeUtf16(tail)
  {
    PointSurrogates(c);
    PointBits(c);
    PairFirst(HighUnit(c), LowUnit(c), tail, IsPair, Joined, Widened);
  }

  /** A lone unit in front of encoded text: only a high surrogate that meets a low one is
      swallowed. */
  lemma UnitHead(a: unit, tail: seq<unit>)
    ensures var d := DecodeUtf16([a] + tail);
            if tail != [] && IsPair(a, tail[0]) then d != [] && d[0] != Widened(a)
            else d == [Widened(a)] + DecodeUtf16(tail)
  {
    if tail != [] && IsPair(a, tail[0]) {
      PairBits(a, tail[0]);
      UnitBits(a);
      PairFirst(a, tail[0], tail[1..], IsPair, Joined, Widened);
      assert [a] + tail == [a, tail[0]] + tail[1..];
    } else {
      OneFirst(a, tail, IsPair, Joined, Widened);
    }
  }

  lemma ShortHead(c: point, tail: seq<unit>)
    requires c < 0x10000
    ensures var d := DecodeUtf16(EncodeUnits(c) + tail);
            if High(c) && tail != [] && Low(tail[0] as point) then d != [] && d[0] != c
            else d == [c] + DecodeUtf16(tail)
  {
    ShortBits(c);
    UnitHead(ShortUnit(c), tail);
  }

  lemma FirstOfEach(cs: seq<point>)
    requires cs != [] && Unicode(cs[0])
    ensures EncodeUtf16(cs) != [] && (Low(EncodeUtf16(cs)[0] as point) <==> Low(cs[0]))
  {
    FirstUnitIsLow(cs[0]);
  }

  lemma HeadThroughUtf16(cs: seq<point>)
    requires cs != [] && InUnicodeRange(cs)
    ensures var d := DecodeUtf16(EncodeUtf16(cs));
            if SplitPairAtHead(cs) then d != [] && d[0] != cs[0]
            else d == [cs[0]] + DecodeUtf16(EncodeUtf16(cs[1..]))
  {
    var c, tail := cs[0], EncodeUtf16(cs[1..]);
    assert Unicode(c);
    if c < 0x10000 {
      if |cs| > 1 {
        assert Unicode(cs[1]);
        FirstOfEach(cs[1..]);
      }
      ShortHead(c, tail);
    } else {
      LongHead(c, tail);
    }
  }

  lemma {:induction false} InRangeThroughUtf16(cs: seq<point>)
    requires InUnicodeRange(cs)
    ensures DecodeUtf16(EncodeUtf16(cs)) == cs <==> NoSplitPair(cs)
  {
    if cs != [] {
      var rest := DecodeUtf16(EncodeUtf16(cs[1..]));
      InRangeThroughUtf16(cs[1..]);
      HeadThroughUtf16(cs);
      NoSplitCons(cs);
      SameCons(cs[0], rest, cs);
    }
  }

  /** UTF-32 survives UTF-16 exactly when it is Unicode and has no high surrogate right
      before a low one: every other list comes back changed. */
  lemma {:induction false} Utf32ThroughUtf16(cs: seq<point>)
    ensures DecodeUtf16(EncodeUtf16(cs)) == cs <==> InUnicodeRange(cs) && NoSplitPair(cs)
  {
    if InUnicodeRange(cs) {
      InRangeThroughUtf16(cs);
    } else {
      Utf16ThroughUtf32(EncodeUtf16(cs));
    }
  }

  // ---------------------------------------------------------------- EncodingConverter

  datatype Units = Units(units: seq<unit>) | Failed(why: Decoded)

  function FromUtf16(input: seq<unit>): seq<byte> { EncodeUtf8(DecodeUtf16(input)) }

  function ToUtf16(input: seq<byte>): Units {
    var utf32 := DecodeUtf8(input);
    if utf32.Points? then Units(EncodeUtf16(utf32.points)) else Failed(utf32)
  }

  method ConvertFromUtf16(input: seq<unit>) returns (r: seq<byte>)
    ensures r == FromUtf16(input)
  {
    var utf32 := Utf16ToUtf32(input);
    r := Utf32ToUtf8(utf32);
  }

  method ConvertToUtf16(input: seq<byte>) returns (r: Units)
    ensures r == ToUtf16(input)
  {
    var utf32 := Utf8ToUtf32(input);
    if !utf32.Points? { return Failed(utf32); }
    var units := Utf32ToUtf16(utf32.points);
    r := Units(units);
  }

  /** Four loops composed: any UTF-16 text, well formed or not, survives UTF-8. */
  lemma Utf16ThroughUtf8(s: seq<unit>)
    ensures ToUtf16(FromUtf16(s)) == Units(s)
  {
    Utf16ThroughUtf32(s);
    Utf32ThroughUtf8(DecodeUtf16(s));
  }
}
