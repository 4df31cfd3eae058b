/** UTF-8 keeps the order of code points: comparing `String`s byte by byte agrees with
    comparing the `U32String`s they encode. */
module Utf8Order {
  import opened Utf

  /** `std::basic_string::compare` on unsigned elements, with the sign as the result. */
  function Compare<T(==)>(less: (T, T) -> bool, a: seq<T>, b: seq<T>): int {
    if a == [] then (if b == [] then 0 else -1)
    else if b == [] then 1
    else if less(a[0], b[0]) then -1
    else if less(b[0], a[0]) then 1
    else Compare(less, a[1..], b[1..])
  }

  /** The order of `compare`: a text comes before its continuations, and otherwise the first
      difference decides. */
  lemma {:induction false} CompareIs(p: seq<byte>, a: seq<byte>, b: seq<byte>)
    ensures a == b == [] ==> Compare(ByteLess, p + a, p + b) == 0
    ensures a == [] && b != [] ==> Compare(ByteLess, p + a, p + b) == -1
    ensures a != [] && b == [] ==> Compare(ByteLess, p + a, p + b) == 1
    ensures a != [] && b != [] && a[0] < b[0] ==> Compare(ByteLess, p + a, p + b) == -1
    ensures a != [] && b != [] && b[0] < a[0] ==> Compare(ByteLess, p + a, p + b) == 1
  {
    CompareAfterPrefix(p, a, b);
  }

  predicate ByteLess(x: byte, y: byte) { x < y }

  predicate PointLess(x: point, y: point) { x < y }

  lemma {:induction false} CompareAfterPrefix(p: seq<byte>, a: seq<byte>, b: seq<byte>)
    ensures Compare(ByteLess, p + a, p + b) == Compare(ByteLess, a, b)
  {
    if p == [] {
      assert p + a == a && p + b == b;
    } else {
      assert (p + a)[1..] == p[1..] + a && (p + b)[1..] == p[1..] + b;
      CompareAfterPrefix(p[1..], a, b);
    }
  }

  lemma FirstDifference(p: seq<byte>, x: byte, a: seq<byte>, y: byte, b: seq<byte>)
    requires x < y
    ensures Compare(ByteLess, p + ([x] + a), p + ([y] + b)) == -1
    ensures Compare(ByteLess, p + ([y] + b), p + ([x] + a)) == 1
  {
    CompareAfterPrefix(p, [x] + a, [y] + b);
    CompareAfterPrefix(p, [y] + b, [x] + a);
  }

  lemma LeadRanges(c: point)
    ensures c < 0x80 ==> LowByte(c) < 0x80 && LowByte(c) as point == c
    ensures 0x80 <= c < 0x800 ==> 0xC0 <= Lead2(c) < 0xE0
    ensures 0x800 <= c < 0x10000 ==> 0xE0 <= Lead3(c) < 0xF0
    ensures 0x10000 <= c < 0x200000 ==> 0xF0 <= Lead4(c)
  {}

  // ---------------------------------------------------------------- totality, bytewise

  lemma Total24(c: point, d: point)
    requires c >> 24 != d >> 24
    ensures c < d || d < c
  {}

  lemma Total16(c: point, d: point)
    requires c >> 24 == d >> 24 && c >> 16 != d >> 16
    ensures c < d || d < c
  {}

  lemma Total8(c: point, d: point)
    requires c >> 16 == d >> 16 && c >> 8 != d >> 8
    ensures c < d || d < c
  {}

  lemma Total0(c: point, d: point)
    requires c >> 8 == d >> 8 && c != d
    ensures c < d || d < c
  {}

  lemma TotalLow16(c: point, d: point)
    requires c >> 16 == d >> 16 && c != d
    ensures c < d || d < c
  {
    if c >> 8 == d >> 8 { Total0(c, d); } else { Total8(c, d); }
  }

  lemma TotalLow24(c: point, d: point)
    requires c >> 24 == d >> 24 && c != d
    ensures c < d || d < c
  {
    if c >> 16 == d >> 16 { TotalLow16(c, d); } else { Total16(c, d); }
  }

  lemma Total(c: point, d: point)
    requires c != d
    ensures c < d || d < c
  {
    if c >> 24 == d >> 24 { TotalLow24(c, d); } else { Total24(c, d); }
  }

  // ---------------------------------------------------------------- first difference

  /** `e` and `f` first differ at index `k`, where `e` is smaller. */
  predicate Precedes(e: seq<byte>, f: seq<byte>, k: nat) {
    k < |e| && k < |f| && e[k] < f[k] && forall i :: 0 <= i < k ==> e[i] == f[i]
  }

  lemma Low6Decides(c: point, d: point)
    requires c < d && c >> 6 == d >> 6
    ensures Tail0(c) < Tail0(d) && Tail6(c) == Tail6(d) && Lead2(c) == Lead2(d)
  {}

  lemma Low12Decides(c: point, d: point)
    requires c < d && c >> 12 == d >> 12 && c >> 6 != d >> 6
    ensures Tail6(c) < Tail6(d)
  {}

  lemma Low18Decides(c: point, d: point)
    requires c < d && c >> 18 == d >> 18 && c >> 12 != d >> 12
    ensures Tail12(c) < Tail12(d)
  {}

  lemma Agree12(c: point, d: point)
    requires c >> 12 == d >> 12
    ensures Tail12(c) == Tail12(d) && Lead3(c) == Lead3(d)
  {}

  lemma Agree18(c: point, d: point)
    requires c >> 18 == d >> 18
    ensures Lead4(c) == Lead4(d)
  {}

  lemma Lead2Decides(c: point, d: point)
    requires 0x80 <= c < d < 0x800 && c >> 6 != d >> 6
    ensures Lead2(c) < Lead2(d)
  {}

  lemma Lead3Decides(c: point, d: point)
    requires 0x800 <= c < d < 0x10000 && c >> 12 != d >> 12
    ensures Lead3(c) < Lead3(d)
  {}

  lemma Lead4Decides(c: point, d: point)
    requires 0x10000 <= c < d < 0x200000 && c >> 18 != d >> 18
    ensures Lead4(c) < Lead4(d)
  {}

  predicate Less2(a: byte, b: byte, x: byte, y: byte) { a < x || (a == x && b < y) }

  predicate Less3(a: byte, b: byte, c: byte, x: byte, y: byte, z: byte) { a < x || (a == x && Less2(b, c, y, z)) }

  lemma Order2(c: point, d: point)
    requires 0x80 <= c < d < 0x800
    ensures Less2(Lead2(c), Tail0(c), Lead2(d), Tail0(d))
  {
    if c >> 6 == d >> 6 { Low6Decides(c, d); } else { Lead2Decides(c, d); }
  }

  /** The order of the last two bytes of code points that agree above them. */
  lemma OrderLow12(c: point, d: point)
    requires c < d && c >> 12 == d >> 12
    ensures Less2(Tail6(c), Tail0(c), Tail6(d), Tail0(d))
  {
    if c >> 6 == d >> 6 { Low6Decides(c, d); } else { Low12Decides(c, d); }
  }

  lemma Order3(c: point, d: point)
    requires 0x800 <= c < d < 0x10000
    ensures Less3(Lead3(c), Tail6(c), Tail0(c), Lead3(d), Tail6(d), Tail0(d))
  {
    if c >> 12 == d >> 12 { Agree12(c, d); OrderLow12(c, d); } else { Lead3Decides(c, d); }
  }

  lemma OrderLow18(c: point, d: point)
    requires c < d && c >> 18 == d >> 18
    ensures Less3(Tail12(c), Tail6(c), Tail0(c), Tail12(d), Tail6(d), Tail0(d))
  {
    if c >> 12 == d >> 12 { Agree12(c, d); OrderLow12(c, d); } else { Low18Decides(c, d); }
  }

  lemma Order4(c: point, d: point)
    requires 0x10000 <= c < d < 0x200000
    ensures Lead4(c) < Lead4(d) ||
            (Lead4(c) == Lead4(d) && Less3(Tail12(c), Tail6(c), Tail0(c), Tail12(d), Tail6(d), Tail0(d)))
  {
    if c >> 18 == d >> 18 { Agree18(c, d); OrderLow18(c, d); } else { Lead4Decides(c, d); }
  }

  lemma Differ(e: seq<byte>, f: seq<byte>) returns (k: nat)
    requires |e| == |f| && 2 <= |e| <= 4
    requires |e| == 2 ==> Less2(e[0], e[1], f[0], f[1])
    requires |e| == 3 ==> Less3(e[0], e[1], e[2], f[0], f[1], f[2])
    requires |e| == 4 ==> e[0] < f[0] || (e[0] == f[0] && Less3(e[1], e[2], e[3], f[1], f[2], f[3]))
    ensures Precedes(e, f, k)
  {
    k := if e[0] != f[0] then 0 else if e[1] != f[1] then 1 else if e[2] != f[2] then 2 else 3;
  }

  /** Encodings of different lengths, and single bytes, are told apart by the first byte. */
  lemma PrecedeByLength(c: point, d: point) returns (k: nat)
    requires c < d < 0x200000 && (|EncodePoint(c)| != |EncodePoint(d)| || d < 0x80)
    ensures Precedes(EncodePoint(c), EncodePoint(d), k)
  {
    LeadRanges(c);
    LeadRanges(d);
    k := 0;
  }

  lemma PointPrecedes(c: point, d: point) returns (k: nat)
    requires c < d < 0x200000
    ensures Precedes(EncodePoint(c), EncodePoint(d), k)
  {
    if |EncodePoint(c)| != |EncodePoint(d)| || d < 0x80 {
      k := PrecedeByLength(c, d);
    } else {
      if d < 0x800 { Order2(c, d); } else if d < 0x10000 { Order3(c, d); } else { Order4(c, d); }
      k := Differ(EncodePoint(c), EncodePoint(d));
    }
  }

  lemma PrecedingFirst(e: seq<byte>, f: seq<byte>, k: nat, a: seq<byte>, b: seq<byte>)
    requires Precedes(e, f, k)
    ensures Compare(ByteLess, e + a, f + b) == -1 && Compare(ByteLess, f + b, e + a) == 1
  {
    assert e[..k] == f[..k];
    FirstDifference(e[..k], e[k], e[k + 1..] + a, f[k], f[k + 1..] + b);
    assert e + a == e[..k] + ([e[k]] + (e[k + 1..] + a));
    assert f + b == f[..k] + ([f[k]] + (f[k + 1..] + b));
  }

  function HeadOrder(c: point, d: point, rest: int): int {
    if c < d then -1 else if d < c then 1 else rest
  }

  lemma HeadsDecide(c: point, d: point, a: seq<byte>, b: seq<byte>)
    requires c < 0x200000 && d < 0x200000
    ensures Compare(ByteLess, EncodePoint(c) + a, EncodePoint(d) + b) == HeadOrder(c, d, Compare(ByteLess, a, b))
  {
    if c == d {
      CompareAfterPrefix(EncodePoint(c), a, b);
    } else if c < d {
      var k := PointPrecedes(c, d);
      PrecedingFirst(EncodePoint(c), EncodePoint(d), k, a, b);
    } else {
      Total(c, d);
      var k := PointPrecedes(d, c);
      PrecedingFirst(EncodePoint(d), EncodePoint(c), k, b, a);
    }
  }

  /** For code points below 0x200000 the order of the encodings is the order of the lists. */
  lemma {:induction false} Utf8KeepsOrder(cs: seq<point>, ds: seq<point>)
    requires Below21(cs) && Below21(ds)
    ensures Compare(ByteLess, EncodeUtf8(cs), EncodeUtf8(ds)) == Compare(PointLess, cs, ds)
  {
    if cs == [] || ds == [] {
      assert cs != [] ==> EncodePoint(cs[0]) != [];
      assert ds != [] ==> EncodePoint(ds[0]) != [];
    } else {
      HeadsDecide(cs[0], ds[0], EncodeUtf8(cs[1..]), EncodeUtf8(ds[1..]));
      Utf8KeepsOrder(cs[1..], ds[1..]);
    }
  }
}
