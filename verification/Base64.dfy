/** The base64 byte loops of `Encoding.hpp`.

    A byte is an integer below 256, so `(x & 0xfc) >> 2` is `x / 4`, `(x & 0x03) << 4` is
    `x % 4 * 16`, and so on.  The code page conversions around the loops are not modelled.

    The specification has two layers: `Pack` and `Unpack` work on symbol numbers, `Chars`
    and `Symbols` translate those to and from text. */
module Base64 {
  type byte = x: int | 0 <= x < 256
  type sextet = x: int | 0 <= x < 64

  // ---------------------------------------------------------------- the alphabet

  /** 0 to 63 for the alphabet, 64 for the padding character, 65 for anything else. */
  type symbol = x: int | 0 <= x <= 65
  type code = x: int | 0 <= x <= 64
  const PAD: code := 64

  function CharOf(i: code): char {
    if i < 26 then (65 + i) as char
    else if i < 52 then (71 + i) as char
    else if i < 62 then (i - 4) as char
    else if i == 62 then '+'
    else if i == 63 then '/'
    else '='
  }

  predicate IsBase64Char(c: char) {
    '0' <= c <= '9' || 'A' <= c <= 'Z' || 'a' <= c <= 'z' || c == '+' || c == '/'
  }

  function SymbolOf(c: char): (i: symbol)
    ensures i < 64 <==> IsBase64Char(c)
    ensures i == PAD <==> c == '='
  {
    if 'A' <= c <= 'Z' then c as int - 65
    else if 'a' <= c <= 'z' then c as int - 71
    else if '0' <= c <= '9' then c as int + 4
    else if c == '+' then 62
    else if c == '/' then 63
    else if c == '=' then PAD
    else 65
  }

  function Chars(x: seq<code>): string { seq(|x|, i requires 0 <= i < |x| => CharOf(x[i])) }

  function Symbols(s: string): seq<symbol> { seq(|s|, i requires 0 <= i < |s| => SymbolOf(s[i])) }

  lemma SymbolOfChar(i: code)
    ensures SymbolOf(CharOf(i)) == i
  {}

  lemma CharOfSymbol(c: char)
    requires SymbolOf(c) <= 64
    ensures CharOf(SymbolOf(c)) == c
  {}

  lemma SymbolsOfChars(x: seq<code>)
    ensures Symbols(Chars(x)) == x
  {
    forall i | 0 <= i < |x| ensures Symbols(Chars(x))[i] == x[i] { SymbolOfChar(x[i]); }
  }

  predicate AllCodes(x: seq<symbol>) { forall i :: 0 <= i < |x| ==> x[i] <= 64 }

  lemma CharsOfSymbols(s: string)
    requires AllCodes(Symbols(s))
    ensures Chars(Symbols(s)) == s
  {
    forall i | 0 <= i < |s| ensures Chars(Symbols(s))[i] == s[i] {
      assert Symbols(s)[i] <= 64;
      CharOfSymbol(s[i]);
    }
  }

  // ---------------------------------------------------------------- encoding

  function Group(a: byte, b: byte, c: byte): seq<code> {
    [a / 4, a % 4 * 16 + b / 16, b % 16 * 4 + c / 64, c % 64]
  }

  function Pack(data: seq<byte>): seq<code> {
    if |data| == 0 then []
    else if |data| == 1 then Group(data[0], 0, 0)[..2] + [PAD, PAD]
    else if |data| == 2 then Group(data[0], data[1], 0)[..3] + [PAD]
    else Group(data[0], data[1], data[2]) + Pack(data[3..])
  }

  function Encode(data: seq<byte>): string { Chars(Pack(data)) }

  /** Turns the three buffered bytes into four sextets and appends the first `n` characters. */
  method AppendGroup(char3: array<byte>, n: nat, prefix: string) returns (ret: string)
    requires char3.Length == 3 && n <= 4
    ensures ret == prefix + Chars(Group(char3[0], char3[1], char3[2])[..n])
  {
    var char4 := new code[4];
    char4[0] := char3[0] / 4;
    char4[1] := char3[0] % 4 * 16 + char3[1] / 16;
    char4[2] := char3[1] % 16 * 4 + char3[2] / 64;
    char4[3] := char3[2] % 64;
    assert char4[..] == Group(char3[0], char3[1], char3[2]);
    ret := prefix;
    for j := 0 to n
      invariant ret == prefix + Chars(char4[..j])
    {
      ret := ret + [CharOf(char4[j])];
    }
  }

  /** The part after the main loop: one or two bytes are left in the buffer. */
  method AppendEnd(char3: array<byte>, left: nat, prefix: string) returns (ret: string)
    requires char3.Length == 3 && 0 < left < 3
    modifies char3
    ensures ret == prefix + Encode(old(char3[..left]))
  {
    ghost var rest := char3[..left];
    for j := left to 3
      invariant char3[..left] == rest
      invariant forall k :: left <= k < j ==> char3[k] == 0
    {
      char3[j] := 0;
    }
    assert char3[0] == rest[0] && char3[1] == (if left == 2 then rest[1] else 0) && char3[2] == 0;
    ret := AppendGroup(char3, left + 1, prefix);
    ghost var group := ret;
    var i := left;
    while i < 3
      invariant left <= i <= 3
      invariant ret == group + seq(i - left, _ => '=')
    {
      ret := ret + "=";
      i := i + 1;
    }
    assert Encode(rest) == Chars(Group(char3[0], char3[1], char3[2])[..left + 1]) + seq(3 - left, _ => '=');
  }

  lemma PackStep(data: seq<byte>, at: nat, ret: string)
    requires at + 3 <= |data|
    ensures ret + Encode(data[at..]) ==
            (ret + Chars(Group(data[at], data[at + 1], data[at + 2])[..4])) + Encode(data[at + 3..])
  {
    assert data[at..][3..] == data[at + 3..];
    ghost var g := Group(data[at], data[at + 1], data[at + 2]);
    assert g[..4] == g;
    assert Chars(g + Pack(data[at + 3..])) == Chars(g) + Chars(Pack(data[at + 3..]));
  }

  /** The body of the loop: a full buffer is emptied. */
  method TakeByte(char3: array<byte>, i: nat, data: seq<byte>, pos: nat, prefix: string, ghost done: nat)
    returns (ret: string, next: nat, ghost after: nat)
    requires char3.Length == 3 && i < 3 && pos < |data| && done + i == pos
    requires forall k :: 0 <= k < i ==> char3[k] == data[done + k]
    modifies char3
    ensures next < 3 && after + next == pos + 1
    ensures forall k :: 0 <= k < next ==> char3[k] == data[after + k]
    ensures prefix + Encode(data[done..]) == ret + Encode(data[after..])
  {
    char3[i] := data[pos];
    ret, next, after := prefix, i + 1, done;
    if next == 3 {
      PackStep(data, done, prefix);
      ret := AppendGroup(char3, 4, prefix);
      next, after := 0, pos + 1;
    }
  }

  method EncodeLoop(data: seq<byte>) returns (ret: string)
    ensures ret == Encode(data)
  {
    ret := "";
    var i: nat := 0;
    var char3 := new byte[3];
    var pos := 0;
    ghost var done: nat := 0;
    assert data[0..] == data;
    while pos < |data|
      invariant i < 3 && done + i == pos <= |data|
      invariant forall k :: 0 <= k < i ==> char3[k] == data[done + k]
      invariant Encode(data) == ret + Encode(data[done..])
    {
      ret, i, done := TakeByte(char3, i, data, pos, ret, done);
      pos := pos + 1;
    }
    if i != 0 {
      assert char3[..i] == data[done..];
      ret := AppendEnd(char3, i, ret);
    }
  }

  // ---------------------------------------------------------------- decoding

  function Bytes(p: sextet, q: sextet, r: sextet, s: sextet): seq<byte> {
    [p * 4 + q / 16, q % 16 * 16 + r / 4, r % 4 * 64 + s]
  }

  predicate AllSextets(x: seq<symbol>) { forall i :: 0 <= i < |x| ==> x[i] < 64 }

  /** Up to four sextets give one byte less; missing ones count as zero. */
  function Chunk(x: seq<symbol>): seq<byte>
    requires |x| <= 4 && AllSextets(x)
  {
    if |x| < 2 then []
    else Bytes(x[0], x[1], if |x| > 2 then x[2] else 0, if |x| > 3 then x[3] else 0)[..|x| - 1]
  }

  /** How many base64 characters stand at the front; reading stops at the first other one. */
  function Valid(x: seq<symbol>): (n: nat)
    ensures n <= |x| && AllSextets(x[..n])
    ensures n < |x| ==> x[n] >= 64
  {
    if x == [] || x[0] >= 64 then 0
    else
      var n := 1 + Valid(x[1..]);
      assert x[..n] == [x[0]] + x[1..][..n - 1];
      n
  }

  function Unpack(x: seq<symbol>): seq<byte> {
    if Valid(x) < 4 then Chunk(x[..Valid(x)])
    else
      assert x[..4] == x[..Valid(x)][..4];
      Chunk(x[..4]) + Unpack(x[4..])
  }

  function Decode(s: string): seq<byte> { Unpack(Symbols(s)) }

  lemma {:induction false} ValidIs(x: seq<symbol>, n: nat)
    requires n <= |x| && AllSextets(x[..n])
    ensures n <= Valid(x)
    ensures n == |x| || x[n] >= 64 ==> n == Valid(x)
  {
    if n > 0 {
      assert x[0] == x[..n][0] && x[1..][..n - 1] == x[..n][1..];
      ValidIs(x[1..], n - 1);
    }
  }

  lemma UnpackGroup(g: seq<symbol>, tail: seq<symbol>)
    requires |g| == 4 && AllSextets(g)
    ensures Unpack(g + tail) == Chunk(g) + Unpack(tail)
  {
    assert (g + tail)[..4] == g && (g + tail)[4..] == tail;
    ValidIs(g + tail, 4);
  }

  lemma UnpackEnd(x: seq<symbol>, n: nat)
    requires n <= |x| && n < 4 && AllSextets(x[..n]) && (n == |x| || x[n] >= 64)
    ensures Unpack(x) == Chunk(x[..n])
  {
    ValidIs(x, n);
  }

  /** Looks the `n` buffered characters up and appends all but one of their bytes. */
  method AppendBytes(char4: array<char>, n: nat, prefix: seq<byte>) returns (ret: seq<byte>)
    requires char4.Length == 4 && 0 < n <= 4 && AllSextets(Symbols(char4[..n]))
    ensures ret == prefix + Chunk(Symbols(char4[..n]))
  {
    ghost var x := Symbols(char4[..n]);
    var index := new sextet[4](_ => 0);
    for j := 0 to n
      invariant forall k :: 0 <= k < 4 ==> index[k] == if k < j then x[k] else 0
    {
      assert x[j] == SymbolOf(char4[j]);
      index[j] := SymbolOf(char4[j]);
    }
    var char3 := Bytes(index[0], index[1], index[2], index[3]);
    ret := prefix + char3[..n - 1];
  }

  lemma UnpackFrom(x: seq<symbol>, done: nat)
    requires done + 4 <= |x| && AllSextets(x[done..done + 4])
    ensures Unpack(x[done..]) == Chunk(x[done..done + 4]) + Unpack(x[done + 4..])
  {
    UnpackGroup(x[done..done + 4], x[done + 4..]);
    assert x[done..] == x[done..done + 4] + x[done + 4..];
  }

  lemma Regroup<T>(a: seq<T>, b: seq<T>, c: seq<T>)
    ensures a + (b + c) == (a + b) + c
  {}

  /** Inside the loop: four characters are buffered. */
  method AppendFull(char4: array<char>, ghost x: seq<symbol>, ghost done: nat, prefix: seq<byte>)
      returns (ret: seq<byte>)
    requires char4.Length == 4 && done + 4 <= |x|
    requires AllSextets(x[done..done + 4]) && Symbols(char4[..4]) == x[done..done + 4]
    ensures prefix + Unpack(x[done..]) == ret + Unpack(x[done + 4..])
  {
    UnpackFrom(x, done);
    Regroup(prefix, Chunk(x[done..done + 4]), Unpack(x[done + 4..]));
    ret := AppendBytes(char4, 4, prefix);
  }

  /** After the loop: fewer than four characters are buffered. */
  method AppendRest(char4: array<char>, i: nat, ghost x: seq<symbol>, ghost done: nat, prefix: seq<byte>)
    returns (ret: seq<byte>)
    requires char4.Length == 4 && i < 4 && done + i <= |x| && (done + i == |x| || x[done + i] >= 64)
    requires AllSextets(x[done..done + i]) && Symbols(char4[..i]) == x[done..done + i]
    ensures ret == prefix + Unpack(x[done..])
  {
    assert x[done..][..i] == x[done..done + i];
    UnpackEnd(x[done..], i);
    ret := prefix;
    if i != 0 { ret := AppendBytes(char4, i, prefix); }
  }

  lemma OneMore(data: string, done: nat, pos: nat, before: string, after: string)
    requires done <= pos < |data| && AllSextets(Symbols(data)[done..pos]) && IsBase64Char(data[pos])
    requires Symbols(before) == Symbols(data)[done..pos] && after == before + [data[pos]]
    ensures Symbols(after) == Symbols(data)[done..pos + 1] && AllSextets(Symbols(data)[done..pos + 1])
  {
    assert Symbols(after) == Symbols(before) + [SymbolOf(data[pos])];
    assert Symbols(data)[done..pos + 1] == Symbols(data)[done..pos] + [SymbolOf(data[pos])];
  }

  method BufferOne(char4: array<char>, i: nat, data: string, pos: nat, ghost done: nat)
    requires i < char4.Length && done <= pos < |data| && IsBase64Char(data[pos])
    requires Symbols(char4[..i]) == Symbols(data)[done..pos] && AllSextets(Symbols(data)[done..pos])
    modifies char4
    ensures Symbols(char4[..i + 1]) == Symbols(data)[done..pos + 1] && AllSextets(Symbols(data)[done..pos + 1])
  {
    ghost var before := char4[..i];
    char4[i] := data[pos];
    OneMore(data, done, pos, before, char4[..i + 1]);
  }

  /** The first `i` places of the buffer hold the characters from `done` on. */
  ghost predicate Buffered(char4: array<char>, i: nat, x: seq<symbol>, done: nat)
    requires char4.Length == 4
    reads char4
  {
    i <= 4 && done + i <= |x| && AllSextets(x[done..done + i]) && Symbols(char4[..i]) == x[done..done + i]
  }

  /** The body of the loop: a full buffer is emptied. */
  method TakeChar(char4: array<char>, i: nat, data: string, pos: nat, prefix: seq<byte>, ghost done: nat)
    returns (ret: seq<byte>, next: nat, ghost after: nat)
    requires char4.Length == 4 && pos < |data| && IsBase64Char(data[pos])
    requires i < 4 && done + i == pos && Buffered(char4, i, Symbols(data), done)
    modifies char4
    ensures next < 4 && after + next == pos + 1 && Buffered(char4, next, Symbols(data), after)
    ensures prefix + Unpack(Symbols(data)[done..]) == ret + Unpack(Symbols(data)[after..])
  {
    BufferOne(char4, i, data, pos, done);
    ret, next, after := prefix, i + 1, done;
    if next == 4 {
      ret := AppendFull(char4, Symbols(data), done, prefix);
      next, after := 0, pos + 1;
    }
  }

  method DecodeLoop(data: string) returns (ret: seq<byte>)
    ensures ret == Decode(data)
  {
    ret := [];
    var i: nat := 0;
    var char4 := new char[4](_ => '=');
    var pos := 0;
    ghost var done: nat := 0;
    assert Symbols(data)[0..] == Symbols(data);
    while pos < |data| && data[pos] != '=' && IsBase64Char(data[pos])
      invariant i < 4 && done + i == pos <= |data| && Buffered(char4, i, Symbols(data), done)
      invariant Decode(data) == ret + Unpack(Symbols(data)[done..])
    {
      ret, i, done := TakeChar(char4, i, data, pos, ret, done);
      pos := pos + 1;
    }
    ret := AppendRest(char4, i, Symbols(data), done, ret);
  }

  // ---------------------------------------------------------------- there and back

  lemma BytesOfGroup(a: byte, b: byte, c: byte, n: nat)
    requires 2 <= n <= 4
    ensures Chunk(Group(a, b, c)[..n])[0] == a
    ensures n == 3 && c == 0 ==> Chunk(Group(a, b, c)[..n]) == [a, b]
    ensures n == 4 ==> Chunk(Group(a, b, c)[..n]) == [a, b, c]
  {}

  lemma {:induction false} UnpackUndoesPack(data: seq<byte>)
    ensures Unpack(Pack(data)) == data
  {
    if data == [] {
    } else if |data| < 3 {
      var n, b := |data| + 1, if |data| == 2 then data[1] else 0;
      BytesOfGroup(data[0], b, 0, n);
      assert Pack(data)[..n] == Group(data[0], b, 0)[..n];
      UnpackEnd(Pack(data), n);
    } else {
      var g := Group(data[0], data[1], data[2]);
      BytesOfGroup(data[0], data[1], data[2], 4);
      assert g[..4] == g;
      UnpackGroup(g, Pack(data[3..]));
      UnpackUndoesPack(data[3..]);
    }
  }

  /** Decoding undoes encoding, for every byte sequence. */
  lemma {:induction false} DecodeUndoesEncode(data: seq<byte>)
    ensures Decode(Encode(data)) == data
  {
    SymbolsOfChars(Pack(data));
    UnpackUndoesPack(data);
  }

  /** Groups of four, of which the last may be padded if the bits it does not use are zero
      (sections 3.5 and 4 of RFC 4648). */
  predicate CanonicalSymbols(x: seq<symbol>) {
    if x == [] then true
    else if |x| < 4 then false
    else if |x| == 4 && x[3] == PAD then PaddedGroup(x)
    else AllSextets(x[..4]) && CanonicalSymbols(x[4..])
  }

  predicate PaddedGroup(x: seq<symbol>)
    requires |x| == 4
  {
    x[0] < 64 && x[1] < 64 && ((x[2] == PAD && x[1] % 16 == 0) || (x[2] < 64 && x[2] % 4 == 0))
  }

  predicate Canonical(s: string) { CanonicalSymbols(Symbols(s)) }

  lemma {:induction false} PackIsCanonical(data: seq<byte>)
    ensures CanonicalSymbols(Pack(data))
    ensures |Pack(data)| == 4 * ((|data| + 2) / 3)
  {
    if |data| >= 3 {
      var g := Group(data[0], data[1], data[2]);
      PackIsCanonical(data[3..]);
      assert Pack(data)[..4] == g && Pack(data)[4..] == Pack(data[3..]);
    }
  }

  lemma EncodingIsCanonical(data: seq<byte>)
    ensures Canonical(Encode(data)) && |Encode(data)| == 4 * ((|data| + 2) / 3)
  {
    SymbolsOfChars(Pack(data));
    PackIsCanonical(data);
  }

  lemma FirstByte(p: sextet, q: sextet)
    ensures (p * 4 + q / 16) / 4 == p && (p * 4 + q / 16) % 4 == q / 16
  {}

  lemma SecondByte(q: sextet, r: sextet)
    ensures (q % 16 * 16 + r / 4) / 16 == q % 16 && (q % 16 * 16 + r / 4) % 16 == r / 4
  {}

  lemma ThirdByte(r: sextet, s: sextet)
    ensures (r % 4 * 64 + s) / 64 == r % 4 && (r % 4 * 64 + s) % 64 == s
  {}

  lemma GroupOfBytes(p: sextet, q: sextet, r: sextet, s: sextet)
    ensures var d := Bytes(p, q, r, s); Group(d[0], d[1], d[2]) == [p, q, r, s]
    ensures var d := Bytes(p, q, r, 0); r % 4 == 0 ==> Group(d[0], d[1], 0)[..3] == [p, q, r]
    ensures var d := Bytes(p, q, 0, 0); q % 16 == 0 ==> Group(d[0], 0, 0)[..2] == [p, q]
  {
    FirstByte(p, q);
    SecondByte(q, r);
    ThirdByte(r, s);
  }

  lemma PackPadded(x: seq<symbol>)
    requires |x| == 4 && x[3] == PAD && PaddedGroup(x)
    ensures Pack(Unpack(x)) == x
  {
    var n := if x[2] == PAD then 2 else 3;
    UnpackEnd(x, n);
    GroupOfBytes(x[0], x[1], if n == 3 then x[2] else 0, 0);
  }

  lemma {:induction false} PackUndoesUnpack(x: seq<symbol>)
    requires CanonicalSymbols(x)
    ensures Pack(Unpack(x)) == x && AllCodes(x)
  {
    if x == [] {
    } else if |x| == 4 && x[3] == PAD {
      PackPadded(x);
    } else {
      var g, tail := x[..4], x[4..];
      assert x == g + tail;
      PackUndoesUnpack(tail);
      UnpackGroup(g, tail);
      GroupOfBytes(g[0], g[1], g[2], g[3]);
      var d := Chunk(g);
      assert (d + Unpack(tail))[3..] == Unpack(tail);
    }
  }

  /** Encoding gives a text back exactly when the text is canonical. */
  lemma {:induction false} EncodeDecodeFixedPoints(s: string)
    ensures Encode(Decode(s)) == s <==> Canonical(s)
  {
    EncodingIsCanonical(Decode(s));
    if Canonical(s) {
      PackUndoesUnpack(Symbols(s));
      CharsOfSymbols(s);
    }
  }

  // ---------------------------------------------------------------- is_base64_str

  /** `size_t` arithmetic: 64 bits, so 0 - 2 and 1 - 2 wrap around to large values. */
  function TwoBefore(size: nat): nat { (size - 2) % 0x1_0000_0000_0000_0000 }

  predicate IsBase64Str(s: string) {
    forall i :: 0 <= i < |s| ==> IsBase64Char(s[i]) || (TwoBefore(|s|) <= i && s[i] == '=')
  }

  method CheckBase64(data: string) returns (r: bool)
    requires |data| < 0x1_0000_0000_0000_0000
    ensures r == IsBase64Str(data)
  {
    for i := 0 to |data|
      invariant forall k :: 0 <= k < i ==> IsBase64Char(data[k]) || (TwoBefore(|data|) <= k && data[k] == '=')
    {
      if !IsBase64Char(data[i]) {
        if i < TwoBefore(|data|) || data[i] != '=' { return false; }
      }
    }
    return true;
  }

  lemma {:induction false} CanonicalShape(x: seq<symbol>, i: nat)
    requires CanonicalSymbols(x) && i < |x|
    ensures |x| >= 4 && (x[i] < 64 || (|x| - 2 <= i && x[i] == PAD))
  {
    if |x| == 4 && x[3] == PAD {
    } else if i < 4 {
      assert x[i] == x[..4][i];
    } else {
      CanonicalShape(x[4..], i - 4);
    }
  }

  /** What is encoded passes `is_base64_str`, for every length a `size_t` can hold. */
  lemma EncodingPassesCheck(data: seq<byte>)
    requires |Encode(data)| < 0x1_0000_0000_0000_0000
    ensures IsBase64Str(Encode(data))
  {
    var s := Encode(data);
    EncodingIsCanonical(data);
    forall i | 0 <= i < |s| ensures IsBase64Char(s[i]) || (TwoBefore(|s|) <= i && s[i] == '=') {
      CanonicalShape(Symbols(s), i);
    }
  }
}
