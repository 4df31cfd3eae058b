/** UTF-8 and UTF-16 in arithmetic, as sections 3 of RFC 3629 and 2 of RFC 2781 lay them out: no
    shifts and masks here. */
module UtfLayout {
  import opened Pairing
  import opened Utf

  // ---------------------------------------------------------------- UTF-8, encoding

  lemma OneByte(c: point)
    requires c < 0x80
    ensures LowByte(c) as point == c
  {}

  lemma Lead2Is(c: point)
    requires 0x80 <= c < 0x800
    ensures Lead2(c) as point == 0xC0 + c / 0x40
  {}

  lemma Lead3Is(c: point)
    requires 0x800 <= c < 0x10000
    ensures Lead3(c) as point == 0xE0 + c / 0x1000
  {}

  lemma Lead4Is(c: point)
    requires 0x10000 <= c < 0x200000
    ensures Lead4(c) as point == 0xF0 + c / 0x40000
  {}

  lemma TailsAre(c: point)
    ensures Tail0(c) as point == 0x80 + c % 0x40
    ensures Tail6(c) as point == 0x80 + c / 0x40 % 0x40
    ensures Tail12(c) as point == 0x80 + c / 0x1000 % 0x40
  {}

  lemma Encoding1(c: point)
    requires c < 0x80
    ensures var e := EncodePoint(c); |e| == 1 && e[0] as point == c
  {
    OneByte(c);
  }

  lemma Encoding2(c: point)
    requires 0x80 <= c < 0x800
    ensures var e := EncodePoint(c); |e| == 2 && e[0] as point == 0xC0 + c / 0x40 && e[1] as point == 0x80 + c % 0x40
  {
    Lead2Is(c);
    TailsAre(c);
  }

  lemma Encoding3(c: point)
    requires 0x800 <= c < 0x10000
    ensures var e := EncodePoint(c);
      |e| == 3 && e[0] as point == 0xE0 + c / 0x1000
      && e[1] as point == 0x80 + c / 0x40 % 0x40 && e[2] as point == 0x80 + c % 0x40
  {
    Lead3Is(c);
    TailsAre(c);
  }

  lemma Encoding4(c: point)
    requires 0x10000 <= c < 0x200000
    ensures var e := EncodePoint(c);
      |e| == 4 && e[0] as point == 0xF0 + c / 0x40000 && e[1] as point == 0x80 + c / 0x1000 % 0x40
      && e[2] as point == 0x80 + c / 0x40 % 0x40 && e[3] as point == 0x80 + c % 0x40
  {
    Lead4Is(c);
    TailsAre(c);
  }

  // ---------------------------------------------------------------- UTF-8, decoding

  lemma WidthIs(b: byte)
    ensures Width(b) ==
      if b < 0x80 then 1 else if b < 0xC0 then 0 else if b < 0xE0 then 2
      else if b < 0xF0 then 3 else if b < 0xF8 then 4 else 0
  {}

  lemma Point2Is(a: byte, b: byte)
    requires 0xC0 <= a < 0xE0
    ensures Point2(a, b) == (a as point - 0xC0) * 0x40 + b as point % 0x40
  {}

  lemma Point3Is(a: byte, b: byte, c: byte)
    requires 0xE0 <= a < 0xF0
    ensures Point3(a, b, c) == (a as point - 0xE0) * 0x1000 + b as point % 0x40 * 0x40 + c as point % 0x40
  {}

  lemma Point4Is(a: byte, b: byte, c: byte, d: byte)
    requires 0xF0 <= a < 0xF8
    ensures Point4(a, b, c, d) ==
      (a as point - 0xF0) * 0x40000 + b as point % 0x40 * 0x1000 + c as point % 0x40 * 0x40 + d as point % 0x40
  {}

  /** What the first byte of any string makes of it.  Of the bytes that follow it only the lower six
      bits count, whatever the upper two are. */
  lemma DecodingIs(s: seq<byte>)
    requires s != []
    ensures var a, n := s[0], |s|;
      DecodeUtf8(s) ==
        if a < 0x80 then DecodeUtf8(s[1..]).After([a as point])
        else if a < 0xC0 || 0xF8 <= a then Invalid
        else if a < 0xE0 then
          if n < 2 then PastEnd
          else DecodeUtf8(s[2..]).After([(a as point - 0xC0) * 0x40 + s[1] as point % 0x40])
        else if a < 0xF0 then
          if n < 3 then PastEnd
          else DecodeUtf8(s[3..]).After(
            [(a as point - 0xE0) * 0x1000 + s[1] as point % 0x40 * 0x40 + s[2] as point % 0x40])
        else if n < 4 then PastEnd
        else DecodeUtf8(s[4..]).After(
          [(a as point - 0xF0) * 0x40000 + s[1] as point % 0x40 * 0x1000
           + s[2] as point % 0x40 * 0x40 + s[3] as point % 0x40])
  {
    WidthIs(s[0]);
    if 0xC0 <= s[0] < 0xE0 && |s| >= 2 { Point2Is(s[0], s[1]); }
    if 0xE0 <= s[0] < 0xF0 && |s| >= 3 { Point3Is(s[0], s[1], s[2]); }
    if 0xF0 <= s[0] < 0xF8 && |s| >= 4 { Point4Is(s[0], s[1], s[2], s[3]); }
  }

  // ---------------------------------------------------------------- UTF-16

  lemma SurrogatesAre(c: point)
    requires 0x10000 <= c < 0x110000
    ensures HighUnit(c) as point == 0xD800 + (c - 0x10000) / 0x400
    ensures LowUnit(c) as point == 0xDC00 + (c - 0x10000) % 0x400
  {}

  lemma JoinedIs(h: unit, l: unit)
    ensures IsPair(h, l) <==> 0xD800 <= h < 0xDC00 && 0xDC00 <= l < 0xE000
    ensures IsPair(h, l) ==> Joined(h, l) == 0x10000 + (h as point - 0xD800) * 0x400 + (l as point - 0xDC00)
  {}

  lemma ShortIs(c: point)
    requires c < 0x10000
    ensures ShortUnit(c) as point == c
  {}

  /** Every code point below 0x10000, surrogates included, is one unit, and every other Unicode code
      point is two. */
  lemma ShortUnits(c: point)
    requires c < 0x10000
    ensures var e := EncodeUnits(c); |e| == 1 && e[0] as point == c
  {
    ShortIs(c);
  }

  lemma PairedUnits(c: point)
    requires 0x10000 <= c < 0x110000
    ensures var e := EncodeUnits(c);
      && |e| == 2 && e[0] as point == 0xD800 + (c - 0x10000) / 0x400
      && e[1] as point == 0xDC00 + (c - 0x10000) % 0x400
  {
    SurrogatesAre(c);
  }

  lemma PairIs(h: unit, l: unit, c: point)
    requires 0xD800 <= h < 0xDC00 && 0xDC00 <= l < 0xE000
    requires c == 0x10000 + (h as point - 0xD800) * 0x400 + (l as point - 0xDC00)
    ensures IsPair(h, l) && Joined(h, l) == c
  {
    JoinedIs(h, l);
  }

  /** A high surrogate right in front of a low one takes that along... */
  lemma PairDecodes(h: unit, l: unit, c: point, rest: seq<unit>)
    requires 0xD800 <= h < 0xDC00 && 0xDC00 <= l < 0xE000
    requires c == 0x10000 + (h as point - 0xD800) * 0x400 + (l as point - 0xDC00)
    ensures DecodeUtf16([h, l] + rest) == [c] + DecodeUtf16(rest)
  {
    PairIs(h, l, c);
    PairFirst(h, l, rest, IsPair, Joined, Widened);
  }

  lemma NoPair(u: unit, v: unit)
    requires !(0xD800 <= u < 0xDC00 && 0xDC00 <= v < 0xE000)
    ensures !IsPair(u, v)
  {
    JoinedIs(u, v);
  }

  /** ...and every other unit, the other surrogates included, stands for itself. */
  lemma UnitDecodes(u: unit, rest: seq<unit>)
    requires rest == [] || !(0xD800 <= u < 0xDC00 && 0xDC00 <= rest[0] < 0xE000)
    ensures DecodeUtf16([u] + rest) == [u as point] + DecodeUtf16(rest)
  {
    if rest != [] { NoPair(u, rest[0]); }
    OneFirst(u, rest, IsPair, Joined, Widened);
  }
}
