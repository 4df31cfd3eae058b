/** Base64 in arithmetic, as section 4 of RFC 4648 lays it out: three bytes and four digits to the
    base 64 are the same number. */
module Base64Layout {
  import opened Base64
  import Text

  const ALPHABET := Text.UPPER_CASE + Text.LOWER_CASE + Text.DIGITS + "+/"

  /** The ranges in `CharOf` are the program's table of 64 characters. */
  lemma {:induction false} Alphabet(i: sextet)
    ensures |ALPHABET| == 64
    ensures CharOf(i) == ALPHABET[i]
      == ("ABCDEFGHIJKLMNOPQRSTUVWXYZ" + "abcdefghijklmnopqrstuvwxyz" + "0123456789" + "+/")[i]
  {
    if i < 26 { Text.LetterAt(i); }
    else if i < 52 { Text.LetterAt(i - 26); }
    else if i < 62 { Text.DigitAt(i - 52); }
  }

  /** The 24-bit number of three bytes, and of four digits. */
  function OfBytes(a: byte, b: byte, c: byte): nat { (a * 256 + b) * 256 + c }

  function OfDigits(p: sextet, q: sextet, r: sextet, s: sextet): nat { ((p * 64 + q) * 64 + r) * 64 + s }

  lemma GroupIs(a: byte, b: byte, c: byte)
    ensures var g := Group(a, b, c);
      |g| == 4 && (forall i :: 0 <= i < 4 ==> g[i] < 64) && OfDigits(g[0], g[1], g[2], g[3]) == OfBytes(a, b, c)
  {}

  lemma BytesAre(p: sextet, q: sextet, r: sextet, s: sextet)
    ensures var d := Bytes(p, q, r, s); |d| == 3 && OfBytes(d[0], d[1], d[2]) == OfDigits(p, q, r, s)
  {}

  lemma SameBytes(a: byte, b: byte, c: byte, x: byte, y: byte, z: byte)
    ensures OfBytes(a, b, c) == OfBytes(x, y, z) ==> a == x && b == y && c == z
  {}

  lemma SameDigits(p: sextet, q: sextet, r: sextet, s: sextet, t: sextet, u: sextet, v: sextet, w: sextet)
    ensures OfDigits(p, q, r, s) == OfDigits(t, u, v, w) ==> p == t && q == u && r == v && s == w
  {}

  /** The group of three bytes is their number's digits. */
  lemma DigitsOf(a: byte, b: byte, c: byte, p: sextet, q: sextet, r: sextet, s: sextet)
    requires OfDigits(p, q, r, s) == OfBytes(a, b, c)
    ensures Group(a, b, c) == [p, q, r, s] && Bytes(p, q, r, s) == [a, b, c]
  {
    var g, d := Group(a, b, c), Bytes(p, q, r, s);
    GroupIs(a, b, c);
    SameDigits(p, q, r, s, g[0], g[1], g[2], g[3]);
    BytesAre(p, q, r, s);
    SameBytes(a, b, c, d[0], d[1], d[2]);
  }

  // ---------------------------------------------------------------- encoding

  lemma CharsConcat(x: seq<code>, y: seq<code>)
    ensures Chars(x + y) == Chars(x) + Chars(y)
  {}

  /** Three bytes become the four digits of their number. */
  lemma EncodesThree(a: byte, b: byte, c: byte, rest: seq<byte>, p: sextet, q: sextet, r: sextet, s: sextet)
    requires OfDigits(p, q, r, s) == OfBytes(a, b, c)
    ensures Encode([a, b, c] + rest) == [ALPHABET[p], ALPHABET[q], ALPHABET[r], ALPHABET[s]] + Encode(rest)
  {
    DigitsOf(a, b, c, p, q, r, s);
    assert ([a, b, c] + rest)[3..] == rest;
    CharsConcat([p, q, r, s], Pack(rest));
    FourCharacters(p, q, r, s);
  }

  lemma FourCharacters(p: sextet, q: sextet, r: sextet, s: sextet)
    ensures Chars([p, q, r, s]) == [ALPHABET[p], ALPHABET[q], ALPHABET[r], ALPHABET[s]]
  {
    Alphabet(p);
    Alphabet(q);
    Alphabet(r);
    Alphabet(s);
  }

  lemma Padded(p: sextet, q: sextet, r: sextet)
    ensures Chars([p, q, r, PAD]) == [ALPHABET[p], ALPHABET[q], ALPHABET[r], '=']
    ensures Chars([p, q, PAD, PAD]) == [ALPHABET[p], ALPHABET[q], '=', '=']
  {
    Alphabet(p);
    Alphabet(q);
    Alphabet(r);
  }

  /** Two bytes become three digits and an equals sign... */
  lemma EncodesTwo(a: byte, b: byte, p: sextet, q: sextet, r: sextet)
    requires OfDigits(p, q, r, 0) == OfBytes(a, b, 0)
    ensures Encode([a, b]) == [ALPHABET[p], ALPHABET[q], ALPHABET[r], '=']
  {
    DigitsOf(a, b, 0, p, q, r, 0);
    assert Pack([a, b]) == [p, q, r, PAD];
    Padded(p, q, r);
  }

  /** ...and one byte becomes two digits and two equals signs. */
  lemma EncodesOne(a: byte, p: sextet, q: sextet)
    requires OfDigits(p, q, 0, 0) == OfBytes(a, 0, 0)
    ensures Encode([a]) == [ALPHABET[p], ALPHABET[q], '=', '='] && Encode([]) == ""
  {
    DigitsOf(a, 0, 0, p, q, 0, 0);
    assert Pack([a]) == [p, q, PAD, PAD];
    Padded(p, q, 0);
  }

  // ---------------------------------------------------------------- decoding

  lemma SymbolsConcat(s: string, t: string)
    ensures Symbols(s + t) == Symbols(s) + Symbols(t)
  {}

  lemma DigitIsFound(p: sextet)
    ensures SymbolOf(ALPHABET[p]) == p
  {
    Alphabet(p);
    SymbolOfChar(p);
  }

  lemma FourAreFound(p: sextet, q: sextet, r: sextet, s: sextet)
    ensures Symbols([ALPHABET[p], ALPHABET[q], ALPHABET[r], ALPHABET[s]]) == [p, q, r, s]
  {
    DigitIsFound(p);
    DigitIsFound(q);
    DigitIsFound(r);
    DigitIsFound(s);
  }

  /** Four digits become the three bytes of their number. */
  lemma DecodesFour(p: sextet, q: sextet, r: sextet, s: sextet, rest: string, a: byte, b: byte, c: byte)
    requires OfBytes(a, b, c) == OfDigits(p, q, r, s)
    ensures Decode([ALPHABET[p], ALPHABET[q], ALPHABET[r], ALPHABET[s]] + rest) == [a, b, c] + Decode(rest)
  {
    var four := [ALPHABET[p], ALPHABET[q], ALPHABET[r], ALPHABET[s]];
    FourAreFound(p, q, r, s);
    SymbolsConcat(four, rest);
    DigitsOf(a, b, c, p, q, r, s);
    UnpackGroup([p, q, r, s], Symbols(rest));
  }

  lemma PartsOf(a: byte, b: byte, c: byte)
    ensures OfBytes(a, b, c) / 0x1_0000 == a && OfBytes(a, b, c) / 0x100 % 0x100 == b
  {
    assert OfBytes(a, b, c) / 0x100 == a * 256 + b;
  }

  lemma ChunkOfThree(p: sextet, q: sextet, r: sextet)
    ensures Chunk([p, q, r]) == [OfDigits(p, q, r, 0) / 0x1_0000, OfDigits(p, q, r, 0) / 0x100 % 0x100]
  {
    var d := Bytes(p, q, r, 0);
    BytesAre(p, q, r, 0);
    PartsOf(d[0], d[1], d[2]);
    assert d[..2] == [d[0], d[1]];
  }

  lemma ChunkOfTwo(p: sextet, q: sextet)
    ensures Chunk([p, q]) == [OfDigits(p, q, 0, 0) / 0x1_0000]
  {
    var d := Bytes(p, q, 0, 0);
    BytesAre(p, q, 0, 0);
    PartsOf(d[0], d[1], d[2]);
    assert d[..1] == [d[0]];
  }

  lemma UnpackShort(x: seq<symbol>)
    requires |x| < 4 && AllSextets(x)
    ensures Unpack(x) == Chunk(x)
  {
    assert x[..|x|] == x;
    UnpackEnd(x, |x|);
  }

  /** Three digits at the end become two bytes, two become one, and a single digit is lost; bits
      that are left over do not count. */
  lemma DecodesThree(p: sextet, q: sextet, r: sextet)
    ensures Decode([ALPHABET[p], ALPHABET[q], ALPHABET[r]])
      == [OfDigits(p, q, r, 0) / 0x1_0000, OfDigits(p, q, r, 0) / 0x100 % 0x100]
  {
    DigitIsFound(p);
    DigitIsFound(q);
    DigitIsFound(r);
    assert Symbols([ALPHABET[p], ALPHABET[q], ALPHABET[r]]) == [p, q, r];
    UnpackShort([p, q, r]);
    ChunkOfThree(p, q, r);
  }

  lemma DecodesTwo(p: sextet, q: sextet)
    ensures Decode([ALPHABET[p], ALPHABET[q]]) == [OfDigits(p, q, 0, 0) / 0x1_0000]
    ensures Decode([ALPHABET[p]]) == [] && Decode("") == []
  {
    DigitIsFound(p);
    DigitIsFound(q);
    assert Symbols([ALPHABET[p], ALPHABET[q]]) == [p, q] && Symbols([ALPHABET[p]]) == [p] && Symbols("") == [];
    UnpackShort([p, q]);
    UnpackShort([p]);
    UnpackShort([]);
    ChunkOfTwo(p, q);
  }

  /** Whatever follows the first character outside the alphabet does not count. */
  lemma {:induction false} UnpackStops(x: seq<symbol>, bad: symbol, y: seq<symbol>)
    requires AllSextets(x) && bad >= 64
    ensures Unpack(x + ([bad] + y)) == Unpack(x)
    decreases |x|
  {
    var all := x + ([bad] + y);
    if |x| < 4 {
      UnpackEnd(x, |x|);
      UnpackEnd(all, |x|);
      assert all[..|x|] == x;
    } else {
      var g, tail := x[..4], x[4..];
      assert x == g + tail && all == g + (tail + ([bad] + y));
      UnpackGroup(g, tail);
      UnpackGroup(g, tail + ([bad] + y));
      UnpackStops(tail, bad, y);
    }
  }

  lemma AllFound(s: string)
    requires forall i :: 0 <= i < |s| ==> IsBase64Char(s[i])
    ensures AllSextets(Symbols(s))
  {}

  lemma SymbolsAround(s: string, c: char, t: string)
    ensures Symbols(s + ([c] + t)) == Symbols(s) + ([SymbolOf(c)] + Symbols(t))
  {
    SymbolsConcat(s, [c] + t);
    SymbolsConcat([c], t);
    assert Symbols([c]) == [SymbolOf(c)];
  }

  lemma DecodeStops(s: string, c: char, t: string)
    requires (forall i :: 0 <= i < |s| ==> IsBase64Char(s[i])) && !IsBase64Char(c)
    ensures Decode(s + ([c] + t)) == Decode(s)
  {
    AllFound(s);
    SymbolsAround(s, c, t);
    UnpackStops(Symbols(s), SymbolOf(c), Symbols(t));
  }

  lemma CharactersAre64(c: char)
    ensures IsBase64Char(c) <==> c in ALPHABET
  {
    if IsBase64Char(c) {
      CharOfSymbol(c);
      Alphabet(SymbolOf(c));
    } else if c in ALPHABET {
      var i :| 0 <= i < |ALPHABET| && ALPHABET[i] == c;
      DigitIsFound(i);
    }
  }

  // ---------------------------------------------------------------- is_base64_str

  /** The check accepts exactly the strings of alphabet characters, of which the last two may be
      equals signs; a single character has to be in the alphabet. */
  lemma CheckIs(s: string)
    requires |s| < 0x1_0000_0000_0000_0000
    ensures IsBase64Str(s) <==> forall i :: 0 <= i < |s| ==>
      s[i] in ALPHABET || (|s| >= 2 && |s| - 2 <= i && s[i] == '=')
  {
    forall i | 0 <= i < |s| ensures IsBase64Char(s[i]) <==> s[i] in ALPHABET { CharactersAre64(s[i]); }
  }
}
