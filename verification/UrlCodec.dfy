/** Percent encoding and decoding of `http_parser.cpp`.

    The code page conversion in front of `encodeFilename` is not modelled: the functions
    start from the converted bytes. */
module UrlCodec {
  import opened Text
  import opened Splitting

  type byte = c: char | c as int < 256

  // ---------------------------------------------------------------- encoding

  predicate IsAlnum(c: char) { '0' <= c <= '9' || 'A' <= c <= 'Z' || 'a' <= c <= 'z' }

  predicate IsUnreserved(c: char) { IsAlnum(c) || c == '-' || c == '_' || c == '.' || c == '~' }

  function HexDigit(n: nat): byte
    requires n < 16
  {
    if n < 10 then (48 + n) as char else (55 + n) as char
  }

  function Escape(c: byte): seq<byte> { ['%', HexDigit(c as int / 16), HexDigit(c as int % 16)] }

  function UrlByte(c: byte): seq<byte> { if IsUnreserved(c) then [c] else Escape(c) }

  /** `encodeFilename` only touches the space and bytes above 0x7F; `%` stays as it is. */
  function FileByte(c: byte): seq<byte> { if c == ' ' || 0x7F < c as int then Escape(c) else [c] }

  function EncodeUrl(s: seq<byte>): seq<byte> { if s == [] then [] else UrlByte(s[0]) + EncodeUrl(s[1..]) }

  function EncodeFilename(s: seq<byte>): seq<byte> {
    if s == [] then [] else FileByte(s[0]) + EncodeFilename(s[1..])
  }

  lemma EncodeStep(str: seq<byte>, k: nat, oss: seq<byte>)
    requires k < |str|
    ensures oss + EncodeUrl(str[k..]) == (oss + UrlByte(str[k])) + EncodeUrl(str[k + 1..])
    ensures oss + EncodeFilename(str[k..]) == (oss + FileByte(str[k])) + EncodeFilename(str[k + 1..])
  {
    assert str[k..][1..] == str[k + 1..];
  }

  /** The body of the loop of `encode_url`. */
  method AppendUrlByte(c: byte, oss: seq<byte>) returns (r: seq<byte>)
    ensures r == oss + UrlByte(c)
  {
    if IsAlnum(c) || c == '-' || c == '_' || c == '.' || c == '~' {
      return oss + [c];
    }
    return oss + ['%', HexDigit(c as int / 16), HexDigit(c as int % 16)];
  }

  /** The body of the loop of `encodeFilename`. */
  method AppendFileByte(c: byte, oss: seq<byte>) returns (r: seq<byte>)
    ensures r == oss + FileByte(c)
  {
    if IsAlnum(c) || c == '-' || c == '_' || c == '.' || c == '~' {
      return oss + [c];
    } else if c == ' ' {
      return oss + ['%', '2', '0'];
    } else if c as int <= 0x7F {
      return oss + [c];
    } else {
      return oss + ['%', HexDigit(c as int / 16), HexDigit(c as int % 16)];
    }
  }

  method EncodeUrlLoop(str: seq<byte>) returns (oss: seq<byte>)
    ensures oss == EncodeUrl(str)
  {
    oss := [];
    for k := 0 to |str|
      invariant EncodeUrl(str) == oss + EncodeUrl(str[k..])
    {
      EncodeStep(str, k, oss);
      oss := AppendUrlByte(str[k], oss);
    }
  }

  method EncodeFilenameLoop(str: seq<byte>) returns (oss: seq<byte>)
    ensures oss == EncodeFilename(str)
  {
    oss := [];
    for k := 0 to |str|
      invariant EncodeFilename(str) == oss + EncodeFilename(str[k..])
    {
      EncodeStep(str, k, oss);
      oss := AppendFileByte(str[k], oss);
    }
  }

  // ---------------------------------------------------------------- decoding

  function HexValue(c: char): Option<nat> {
    if '0' <= c <= '9' then Some(c as int - 48)
    else if 'A' <= c <= 'F' then Some(c as int - 55)
    else if 'a' <= c <= 'f' then Some(c as int - 87)
    else None
  }

  /** `iss >> std::hex >> value` on a stream of two characters, then a cast to `char`.
      The stream skips white space, takes a sign, stops at the first character that is not
      a digit, and fails on a lone `0x` prefix. */
  function ReadHex(a: char, b: char): Option<byte> {
    match (HexValue(a), HexValue(b))
    case (Some(x), Some(y)) => Some((16 * x + y) as char)
    case (Some(x), None) => if a == '0' && (b == 'x' || b == 'X') then None else Some(x as char)
    case (None, Some(y)) =>
      if IsSpace(a) || a == '+' then Some(y as char)
      else if a == '-' then Some(((256 - y) % 256) as char)
      else None
    case (None, None) => None
  }

  /** An escape stands at the front: a percent sign, and two more characters that read. */
  predicate EscapeAhead(s: seq<char>) { |s| > 2 && s[0] == '%' && ReadHex(s[1], s[2]).Some? }

  function DecodeUrl(s: seq<byte>): seq<byte> {
    if s == [] then []
    else if EscapeAhead(s) then [ReadHex(s[1], s[2]).value] + DecodeUrl(s[3..])
    else [s[0]] + DecodeUrl(s[1..])
  }

  lemma DecodeStep(s: seq<byte>, i: nat, result: seq<byte>)
    requires i < |s|
    ensures EscapeAhead(s[i..]) ==>
              result + DecodeUrl(s[i..]) == (result + [ReadHex(s[i + 1], s[i + 2]).value]) + DecodeUrl(s[i + 3..])
    ensures !EscapeAhead(s[i..]) ==> result + DecodeUrl(s[i..]) == (result + [s[i]]) + DecodeUrl(s[i + 1..])
  {
    var t := s[i..];
    assert t[1..] == s[i + 1..];
    if EscapeAhead(t) { assert t[1] == s[i + 1] && t[2] == s[i + 2] && t[3..] == s[i + 3..]; }
  }

  method DecodeUrlLoop(encoded: seq<byte>) returns (result: seq<byte>)
    ensures result == DecodeUrl(encoded)
  {
    result := [];
    var i := 0;
    while i < |encoded|
      invariant i <= |encoded|
      invariant DecodeUrl(encoded) == result + DecodeUrl(encoded[i..])
    {
      DecodeStep(encoded, i, result);
      if encoded[i] == '%' {
        if i + 2 < |encoded| {
          var value := ReadHex(encoded[i + 1], encoded[i + 2]);
          if value.Some? {
            result := result + [value.value];
            i := i + 3;
            continue;
          }
        }
      }
      result := result + [encoded[i]];
      i := i + 1;
    }
  }

  // ---------------------------------------------------------------- character by character

  /** `c` stands for `x`, in upper or in lower case. */
  predicate IsHex(c: char, x: nat) {
    x < 16 && (c == "0123456789ABCDEF"[x] || c == "0123456789abcdef"[x])
  }

  lemma HexDigitAt(x: nat)
    requires x < 16
    ensures HexDigit(x) == "0123456789ABCDEF"[x]
    ensures "0123456789abcdef"[x] == if x < 10 then (48 + x) as char else (87 + x) as char
  {
    if x < 10 {
      assert "0123456789ABCDEF"[x] == "0123456789"[x] == "0123456789abcdef"[x];
      DigitAt(x);
    } else {
      assert "0123456789ABCDEF"[x] == "ABCDEFGHIJKLMNOPQRSTUVWXYZ"[x - 10];
      assert "0123456789abcdef"[x] == "abcdefghijklmnopqrstuvwxyz"[x - 10];
      LetterAt(x - 10);
    }
  }

  lemma HexValueIs(c: char, x: nat)
    ensures HexValue(c) == Some(x) <==> IsHex(c, x)
  {
    if x < 16 { HexDigitAt(x); }
  }

  /** Both digits count, in this order and in either case. */
  lemma EscapeDecodes(d: byte, e: byte, x: nat, y: nat, t: seq<byte>)
    requires IsHex(d, x) && IsHex(e, y)
    ensures DecodeUrl(['%', d, e] + t) == [(16 * x + y) as char] + DecodeUrl(t)
  {
    HexValueIs(d, x);
    HexValueIs(e, y);
    assert (['%', d, e] + t)[3..] == t;
  }

  /** One digit is enough: in front of something else, unless that makes it a lone prefix, or
      behind white space or a sign.  A minus sign takes the value from 256. */
  lemma HalfEscapeDecodes(d: byte, e: byte, x: nat, t: seq<byte>)
    ensures var r, rest := DecodeUrl(['%', d, e] + t), DecodeUrl(t);
            && (IsHex(d, x) && HexValue(e).None? && !(d == '0' && e in "xX") ==> r == [x as char] + rest)
            && (d in " \t\n\U{0B}\U{0C}\r+" && IsHex(e, x) ==> r == [x as char] + rest)
            && (d == '-' && IsHex(e, x) ==> r == [((256 - x) % 256) as char] + rest)
  {
    assert (['%', d, e] + t)[3..] == t;
    SpacesAreSix(d);
    HexValueIs(d, x);
    HexValueIs(e, x);
    if d in " \t\n\U{0B}\U{0C}\r+-" { NoHexDigit(d); }
  }

  lemma NoHexDigit(c: char)
    requires c in " \t\n\U{0B}\U{0C}\r+-"
    ensures HexValue(c) == None
  {}

  /** Nothing else is an escape: the percent sign stands for itself. */
  lemma NoEscapeDecodes(d: byte, e: byte, t: seq<byte>)
    requires HexValue(d).None? || (d == '0' && e in "xX")
    requires !(d in " \t\n\U{0B}\U{0C}\r+-" && HexValue(e).Some?)
    ensures DecodeUrl(['%', d, e] + t) == ['%'] + DecodeUrl([d, e] + t)
  {
    assert (['%', d, e] + t)[1..] == [d, e] + t;
    SpacesAreSix(d);
  }

  /** What `encode_url` writes for each byte. */
  lemma EncodesByte(c: byte, t: seq<byte>)
    ensures EncodeUrl([c] + t) ==
      (if c in "ABCDEFGHIJKLMNOPQRSTUVWXYZ" || c in "abcdefghijklmnopqrstuvwxyz" || c in "0123456789-_.~" then [c]
       else ['%', "0123456789ABCDEF"[c as int / 16], "0123456789ABCDEF"[c as int % 16]]) + EncodeUrl(t)
  {
    assert ([c] + t)[1..] == t;
    UnreservedAre(c);
    HexDigitAt(c as int / 16);
    HexDigitAt(c as int % 16);
  }

  lemma UnreservedAre(c: char)
    ensures IsUnreserved(c) <==>
      c in "ABCDEFGHIJKLMNOPQRSTUVWXYZ" || c in "abcdefghijklmnopqrstuvwxyz" || c in "0123456789-_.~"
  {
    UpperCaseIs(c);
    LowerCaseIs(c);
    DigitsAreTen(c);
    assert "0123456789-_.~" == "0123456789" + "-_.~";
  }

  /** What `encodeFilename` writes for each byte. */
  lemma EncodesFilenameByte(c: byte, t: seq<byte>)
    ensures EncodeFilename([c] + t) ==
      (if c == ' ' || 128 <= c as int
       then ['%', "0123456789ABCDEF"[c as int / 16], "0123456789ABCDEF"[c as int % 16]] else [c]) + EncodeFilename(t)
  {
    assert ([c] + t)[1..] == t;
    HexDigitAt(c as int / 16);
    HexDigitAt(c as int % 16);
  }

  // ---------------------------------------------------------------- there and back

  lemma ReadEscape(c: byte)
    ensures ReadHex(Escape(c)[1], Escape(c)[2]) == Some(c)
  {}

  lemma DecodeEscape(c: byte, tail: seq<byte>)
    ensures DecodeUrl(Escape(c) + tail) == [c] + DecodeUrl(tail)
  {
    ReadEscape(c);
    assert (Escape(c) + tail)[3..] == tail;
  }

  lemma DecodeLiteral(c: byte, tail: seq<byte>)
    requires c != '%'
    ensures DecodeUrl([c] + tail) == [c] + DecodeUrl(tail)
  {
    assert ([c] + tail)[1..] == tail;
  }

  /** Every byte string survives URL encoding. */
  lemma {:induction false} DecodeUndoesEncodeUrl(s: seq<byte>)
    ensures DecodeUrl(EncodeUrl(s)) == s
  {
    if s != [] {
      DecodeUndoesEncodeUrl(s[1..]);
      if IsUnreserved(s[0]) { DecodeLiteral(s[0], EncodeUrl(s[1..])); } else { DecodeEscape(s[0], EncodeUrl(s[1..])); }
    }
  }

  // ---------------------------------------------------------------- decoding twice

  predicate NoEscape(s: seq<byte>) { s == [] || (!EscapeAhead(s) && NoEscape(s[1..])) }

  /** Decoding is the identity exactly on texts without escapes, and shortens all others. */
  lemma {:induction false} DecodeShortens(s: seq<byte>)
    ensures NoEscape(s) ==> DecodeUrl(s) == s
    ensures !NoEscape(s) ==> |DecodeUrl(s)| < |s|
  {
    if s == [] {
    } else if EscapeAhead(s) {
      DecodeShortens(s[3..]);
    } else {
      DecodeShortens(s[1..]);
    }
  }

  /** Some percent sign of the file name, left alone by `encodeFilename`, starts an escape
      in the encoded text. */
  predicate NoLiveEscape(p: seq<byte>) {
    p == [] || (!(p[0] == '%' && EscapeAhead(EncodeFilename(p))) && NoLiveEscape(p[1..]))
  }

  lemma LiteralHead(q: seq<byte>)
    requires EncodeFilename(q) != [] && EncodeFilename(q)[0] != '%'
    ensures q != [] && FileByte(q[0]) == [q[0]]
    ensures EncodeFilename(q) == [q[0]] + EncodeFilename(q[1..])
  {
    assert EncodeFilename(q)[0] == FileByte(q[0])[0];
  }

  lemma PercentIsNoDigit(b: byte)
    ensures ReadHex('%', b) == None
  {}

  lemma TwoHeads(c: byte, e: byte, u: seq<byte>)
    ensures [c] + ([e] + u) == [c, e] + u
  {}

  /** A live escape takes the next two characters with it.  Its first digit is literal... */
  lemma LiveEscapeFirst(p: seq<byte>)
    requires p != [] && p[0] == '%' && EscapeAhead(EncodeFilename(p))
    ensures |p| >= 2 && FileByte(p[1]) == [p[1]] && EncodeFilename(p[2..]) != []
    ensures EncodeFilename(p) == ['%', p[1]] + EncodeFilename(p[2..])
  {
    var t := EncodeFilename(p[1..]);
    assert EncodeFilename(p) == ['%'] + t;
    PercentIsNoDigit(t[1]);
    LiteralHead(p[1..]);
    assert p[1..][1..] == p[2..];
    TwoHeads('%', p[1], EncodeFilename(p[2..]));
  }

  lemma LiveEscapeShape(p: seq<byte>)
    requires p != [] && p[0] == '%' && EscapeAhead(EncodeFilename(p))
    ensures |p| >= 3 && FileByte(p[1]) == [p[1]]
    ensures EncodeFilename(p) == ['%', p[1]] + (FileByte(p[2]) + EncodeFilename(p[3..]))
  {
    LiveEscapeFirst(p);
    EncodeFilenameHead(p[2..]);
    assert p[2..][1..] == p[3..];
  }

  lemma EncodeFilenameHead(q: seq<byte>)
    requires EncodeFilename(q) != []
    ensures q != [] && EncodeFilename(q) == FileByte(q[0]) + EncodeFilename(q[1..])
  {}

  /** ...the second may be literal too... */
  lemma LiveEscapeLiteral(p: seq<byte>)
    requires p != [] && p[0] == '%' && EscapeAhead(EncodeFilename(p))
    requires |p| >= 3 && |FileByte(p[2])| == 1
    ensures |DecodeUrl(EncodeFilename(p))| == 1 + |DecodeUrl(EncodeFilename(p[3..]))|
  {
    LiveEscapeShape(p);
    assert EncodeFilename(p)[3..] == EncodeFilename(p[3..]);
  }

  lemma DecodeLeftover(d: byte, h: seq<byte>, tail: seq<byte>)
    requires |h| == 3 && h[0] == '%' && h[1] != '%' && h[2] != '%' && ReadHex(d, '%').Some?
    ensures var r := DecodeUrl(['%', d] + (h + tail)); |r| == 3 + |DecodeUrl(tail)| && r[0] != '%'
  {
    var e := ['%', d] + (h + tail);
    assert e[1] == d && e[2] == '%' && e[3..] == [h[1]] + ([h[2]] + tail);
    DecodeLiteral(h[1], [h[2]] + tail);
    DecodeLiteral(h[2], tail);
  }

  /** ...or the percent sign of an encoded byte, whose digits are then left over. */
  lemma LiveEscapeEncoded(p: seq<byte>)
    requires p != [] && p[0] == '%' && EscapeAhead(EncodeFilename(p))
    requires |p| >= 3 && |FileByte(p[2])| == 3
    ensures DecodeUrl(EncodeFilename(p)) != [] && DecodeUrl(EncodeFilename(p))[0] != '%'
    ensures |DecodeUrl(EncodeFilename(p))| == 3 + |DecodeUrl(EncodeFilename(p[3..]))|
  {
    LiveEscapeShape(p);
    DecodeLeftover(p[1], FileByte(p[2]), EncodeFilename(p[3..]));
  }

  /** A file name survives one decoding exactly when it has no live escape. */
  lemma {:induction false} FilenameDecodedOnce(p: seq<byte>)
    ensures DecodeUrl(EncodeFilename(p)) == p <==> NoLiveEscape(p)
    ensures |DecodeUrl(EncodeFilename(p))| <= |p|
    decreases |p|
  {
    if p != [] {
      var tail := EncodeFilename(p[1..]);
      FilenameDecodedOnce(p[1..]);
      if p[0] == '%' && EscapeAhead(EncodeFilename(p)) {
        LiveEscapeShape(p);
        if |FileByte(p[2])| == 1 { LiveEscapeLiteral(p); } else { LiveEscapeEncoded(p); }
        FilenameDecodedOnce(p[3..]);
      } else {
        HeadSurvives(p);
        assert p == [p[0]] + p[1..];
      }
    }
  }

  lemma HeadSurvives(p: seq<byte>)
    requires p != [] && !(p[0] == '%' && EscapeAhead(EncodeFilename(p)))
    ensures DecodeUrl(EncodeFilename(p)) == [p[0]] + DecodeUrl(EncodeFilename(p[1..]))
  {
    var tail := EncodeFilename(p[1..]);
    if |FileByte(p[0])| == 3 {
      DecodeEscape(p[0], tail);
    } else {
      assert EncodeFilename(p)[1..] == tail;
    }
  }

  /** The server decodes a request path twice.  A file name survives that exactly when it
      has no live escape and no escape of its own. */
  lemma FilenameDecodedTwice(p: seq<byte>)
    ensures DecodeUrl(DecodeUrl(EncodeFilename(p))) == p <==> NoLiveEscape(p) && NoEscape(p)
  {
    FilenameDecodedOnce(p);
    DecodeShortens(DecodeUrl(EncodeFilename(p)));
    DecodeShortens(p);
  }

  /** In particular every name without a percent sign survives. */
  lemma {:induction false} PercentFreeSurvives(p: seq<byte>)
    requires '%' !in p
    ensures NoLiveEscape(p) && NoEscape(p)
    ensures DecodeUrl(DecodeUrl(EncodeFilename(p))) == p
  {
    if p != [] { PercentFreeSurvives(p[1..]); }
    FilenameDecodedTwice(p);
  }

  /** The two conditions differ: each decoding can damage a name the other leaves alone. */
  lemma {:induction false} DecodingsDiffer()
    ensures DecodeUrl(EncodeFilename(['%', ' ', '1'])) == ['%', ' ', '1']
    ensures DecodeUrl(['%', ' ', '1']) != ['%', ' ', '1']
  {
    var p: seq<byte> := ['%', ' ', '1'];
    assert p[1..] == [' ', '1'] && p[1..][1..] == ['1'];
    assert EncodeFilename(['1']) == ['1'];
    assert EncodeFilename([' ', '1']) == ['%', '2', '0', '1'];
    assert EncodeFilename(p) == ['%', '%', '2', '0', '1'];
    HeadSurvives(p);
    HeadSurvives([' ', '1']);
    HeadSurvives(['1']);
  }

  // ---------------------------------------------------------------- path components

  predicate IsBytes(s: string) { forall i :: 0 <= i < |s| ==> s[i] as int < 256 }

  predicate AllBytes(ps: seq<string>) { forall i :: 0 <= i < |ps| ==> IsBytes(ps[i]) }

  lemma {:induction false} TokensAreBytes(s: seq<byte>, c: char, done: seq<string>, part: string)
    requires AllBytes(done) && IsBytes(part)
    ensures AllBytes(Tokens(s, {c}, false, done, part))
    decreases |s|
  {
    if s != "" && s[0] != c {
      TokensAreBytes(s[1..], c, done, part + [s[0]]);
    } else if s != "" {
      TokensAreBytes(s[1..], c, done + [part], "");
    }
  }

  function Component(s: seq<byte>, c: char, i: nat): (p: seq<byte>)
    requires i < |Split(s, {c}, false)|
    ensures p == Split(s, {c}, false)[i]
  {
    TokensAreBytes(s, c, [], "");
    assert AllBytes(Split(s, {c}, false)) && IsBytes(Split(s, {c}, false)[i]);
    Split(s, {c}, false)[i]
  }

  /** `utils::split` of a byte string. */
  function Components(s: seq<byte>, c: char): (ps: seq<seq<byte>>)
    ensures ps == Split(s, {c}, false)
  {
    var n := |Split(s, {c}, false)|;
    seq(n, i requires 0 <= i < n => Component(s, c, i))
  }

  function EncodeParts(ps: seq<seq<byte>>): seq<seq<byte>> {
    seq(|ps|, i requires 0 <= i < |ps| => EncodeFilename(ps[i]))
  }

  lemma {:induction false} EncodeFilenameConcat(a: seq<byte>, b: seq<byte>)
    ensures EncodeFilename(a + b) == EncodeFilename(a) + EncodeFilename(b)
  {
    if a == [] {
      assert a + b == b;
    } else {
      assert (a + b)[1..] == a[1..] + b;
      EncodeFilenameConcat(a[1..], b);
    }
  }

  lemma {:induction false} EncodeAddsNoSlash(s: seq<byte>)
    requires '/' !in s
    ensures '/' !in EncodeFilename(s)
  {
    if s != [] { EncodeAddsNoSlash(s[1..]); }
  }

  lemma {:induction false} EncodeJoined(ps: seq<seq<byte>>, s: seq<byte>)
    requires ps != [] && Join(ps, "/") == s
    ensures Join(EncodeParts(ps), "/") == EncodeFilename(s)
    decreases |ps|
  {
    if |ps| == 1 {
      assert s == ps[0] && EncodeParts(ps) == [EncodeFilename(ps[0])];
    } else {
      var rest: seq<byte> := s[|ps[0]| + 1..];
      assert ps == [ps[0]] + ps[1..];
      JoinHead(ps[0], ps[1..], "/");
      assert s == ps[0] + ("/" + Join(ps[1..], "/"));
      assert rest == Join(ps[1..], "/");
      assert s == ps[0] + (['/'] + rest);
      EncodeJoined(ps[1..], rest);
      EncodeFilenameConcat(ps[0], ['/'] + rest);
      EncodeFilenameConcat(['/'], rest);
      JoinHead(EncodeFilename(ps[0]), EncodeParts(ps[1..]), "/");
      assert EncodeParts(ps) == [EncodeFilename(ps[0])] + EncodeParts(ps[1..]);
    }
  }

  /** Encoding a path and splitting it at slashes gives the encoded components. */
  lemma EncodingCommutesWithSplitting(s: seq<byte>)
    ensures Components(EncodeFilename(s), '/') == EncodeParts(Components(s, '/'))
  {
    var ps := Components(s, '/');
    JoinUndoesSplit(s, '/');
    TokensAreFree(s, '/', [], "");
    EncodeJoined(ps, s);
    forall i | 0 <= i < |ps| ensures '/' !in EncodeParts(ps)[i] { EncodeAddsNoSlash(ps[i]); }
    SplitUndoesJoin(EncodeParts(ps), '/');
  }
}
