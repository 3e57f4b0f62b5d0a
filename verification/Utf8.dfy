/** UTF-8 encoding and decoding, of one character and of buffers. */
module Utf8 {
  import opened Arithmetic

  datatype Result<T> = Ok(value: T) | Invalid

  predicate IsByte(b: int) { 0 <= b < 256 }

  ghost predicate AreBytes(s: seq<int>) { forall b :: b in s ==> IsByte(b) }

  /** A Unicode scalar value: no surrogate, nothing above U+10FFFF. */
  predicate IsScalar(c: int) { 0 <= c <= 0x10ffff && !(0xd800 <= c <= 0xdfff) }

  // ---- one character ----

  /** (b & 0xc0) == 0x80 */
  predicate IsTail(b: int) { 0x80 <= b <= 0xbf }

  /** The low six bits. */
  function Low(b: int): int { b % 64 }

  /** A decoded character and the bytes it took. */
  datatype Char = Char(codepoint: int, length: nat)

  /** utf8_decode_char; the masks and shifts are written as remainders and products. */
  function DecodeChar(s: seq<int>): Result<Char> {
    if |s| == 0 then Ok(Char(0, 0))
    else if s[0] <= 0x7f then Ok(Char(s[0], 1))
    else if s[0] <= 0xc1 then Invalid
    else if s[0] <= 0xdf then
      if |s| < 2 || !IsTail(s[1]) then Invalid
      else
        var c := s[0] % 32 * 64 + Low(s[1]);
        if c <= 0x7f then Invalid else Ok(Char(c, 2))
    else if s[0] <= 0xef then
      if |s| < 3 || !IsTail(s[1]) || !IsTail(s[2]) then Invalid
      else
        var c := s[0] % 16 * 4096 + Low(s[1]) * 64 + Low(s[2]);
        if c <= 0x7ff || 0xd800 <= c <= 0xdfff then Invalid else Ok(Char(c, 3))
    else if s[0] <= 0xf7 then
      if |s| < 4 || !IsTail(s[1]) || !IsTail(s[2]) || !IsTail(s[3]) then Invalid
      else
        var c := s[0] % 8 * 262144 + Low(s[1]) * 4096 + Low(s[2]) * 64 + Low(s[3]);
        if c <= 0xffff || c > 0x10ffff then Invalid else Ok(Char(c, 4))
    else Invalid
  }

  /** utf8_encode_char */
  function EncodeChar(c: int): Result<seq<int>> {
    if c < 0 then Invalid
    else if c <= 0x7f then Ok([c])
    else if c <= 0x7ff then Ok([0xc0 + c / 64 % 32, 0x80 + c % 64])
    else if c <= 0xffff then
      if 0xd800 <= c <= 0xdfff then Invalid
      else Ok([0xe0 + c / 4096 % 16, 0x80 + c / 64 % 64, 0x80 + c % 64])
    else if c <= 0x10ffff then
      Ok([0xf0 + c / 262144 % 8, 0x80 + c / 4096 % 64, 0x80 + c / 64 % 64, 0x80 + c % 64])
    else Invalid
  }

  /** Exactly the scalar values can be encoded, into bytes. */
  lemma EncodeScalars(c: int)
    ensures EncodeChar(c).Ok? <==> IsScalar(c)
    ensures EncodeChar(c).Ok? ==> AreBytes(EncodeChar(c).value) && 1 <= |EncodeChar(c).value| <= 4
  {
  }

  // ---- the digits of a code point in base 64 ----

  lemma Digits(c: int)
    requires c >= 0
    ensures c / 4096 == c / 64 / 64 && c / 262144 == c / 64 / 64 / 64
    ensures c == c / 64 * 64 + c % 64 && c / 64 == c / 4096 * 64 + c / 64 % 64
    ensures c / 4096 == c / 262144 * 64 + c / 4096 % 64
  {
    var q, r := c / 64, c % 64;
    var h, m := q / 64, q % 64;
    var d, k := h / 64, h % 64;
    DivUnique(h, m * 64 + r, 4096);
    DivUnique(d, k * 4096 + m * 64 + r, 262144);
  }

  lemma FromDigits(w: int, x: int, y: int, z: int)
    requires 0 <= w && 0 <= x < 64 && 0 <= y < 64 && 0 <= z < 64
    ensures var c := w * 262144 + x * 4096 + y * 64 + z;
      c / 262144 == w && c / 4096 == w * 64 + x && c / 64 == w * 4096 + x * 64 + y && c % 64 == z
  {
    DivUnique(w, x * 4096 + y * 64 + z, 262144);
    DivUnique(w * 64 + x, y * 64 + z, 4096);
    DivUnique(w * 4096 + x * 64 + y, z, 64);
  }

  /** The low bits of a byte in its range. */
  lemma LowBits(b: int)
    ensures 0x80 <= b <= 0xbf ==> Low(b) == b - 0x80
    ensures 0xc0 <= b <= 0xdf ==> b % 32 == b - 0xc0
    ensures 0xe0 <= b <= 0xef ==> b % 16 == b - 0xe0
    ensures 0xf0 <= b <= 0xf7 ==> b % 8 == b - 0xf0
  {
  }

  lemma DecodeTwo(s: seq<int>, c: int)
    requires 0x80 <= c <= 0x7ff && |s| >= 2 && [s[0], s[1]] == EncodeChar(c).value
    ensures DecodeChar(s) == Ok(Char(c, 2))
  {
    hide Low;
    Digits(c);
    LowBits(s[0]);
    LowBits(s[1]);
  }

  lemma DecodeThree(s: seq<int>, c: int)
    requires IsScalar(c) && 0x800 <= c <= 0xffff && |s| >= 3 && [s[0], s[1], s[2]] == EncodeChar(c).value
    ensures DecodeChar(s) == Ok(Char(c, 3))
  {
    hide Low, DecodeChar;
    Digits(c);
    var x, y, z := c / 4096, c / 64 % 64, c % 64;
    assert c == x * 4096 + y * 64 + z && 0 <= x < 16;
    DecodeParts(s, 0, x, y, z);
  }

  lemma DecodeFour(s: seq<int>, c: int)
    requires 0x10000 <= c <= 0x10ffff && |s| >= 4 && [s[0], s[1], s[2], s[3]] == EncodeChar(c).value
    ensures DecodeChar(s) == Ok(Char(c, 4))
  {
    hide Low, DecodeChar;
    Digits(c);
    var w, x, y, z := c / 262144, c / 4096 % 64, c / 64 % 64, c % 64;
    assert c == w * 262144 + x * 4096 + y * 64 + z && 0 <= w < 5;
    DecodeParts(s, w, x, y, z);
  }

  /** Decoding, with the digits given. */
  lemma DecodeParts(s: seq<int>, w: int, x: int, y: int, z: int)
    requires 0 <= w < 8 && 0 <= x < 64 && 0 <= y < 64 && 0 <= z < 64
    ensures var c := x * 4096 + y * 64 + z;
      x < 16 && |s| >= 3 && s[0] == 0xe0 + x && s[1] == 0x80 + y && s[2] == 0x80 + z && c > 0x7ff && IsScalar(c) ==>
        DecodeChar(s) == Ok(Char(c, 3))
    ensures var c := w * 262144 + x * 4096 + y * 64 + z;
      |s| >= 4 && s[0] == 0xf0 + w && s[1] == 0x80 + x && s[2] == 0x80 + y && s[3] == 0x80 + z && 0xffff < c <= 0x10ffff ==>
        DecodeChar(s) == Ok(Char(c, 4))
  {
    hide Low;
    LowBits(0xe0 + x);
    LowBits(0xf0 + w);
    LowBits(0x80 + x);
    LowBits(0x80 + y);
    LowBits(0x80 + z);
  }

  lemma DecodeEncoded(c: int, rest: seq<int>)
    requires IsScalar(c)
    ensures DecodeChar(EncodeChar(c).value + rest) == Ok(Char(c, |EncodeChar(c).value|))
  {
    var e := EncodeChar(c).value;
    var s := e + rest;
    if c <= 0x7f {
      assert s[0] == c;
    } else if c <= 0x7ff {
      assert s[0] == e[0] && s[1] == e[1];
      DecodeTwo(s, c);
    } else if c <= 0xffff {
      assert s[0] == e[0] && s[1] == e[1] && s[2] == e[2];
      DecodeThree(s, c);
    } else {
      assert s[0] == e[0] && s[1] == e[1] && s[2] == e[2] && s[3] == e[3];
      DecodeFour(s, c);
    }
  }

  /** The bytes of a decoded character are determined by its code point. */
  lemma EncodeTwo(s: seq<int>)
    requires |s| >= 2 && 0xc2 <= s[0] <= 0xdf && IsTail(s[1])
    ensures EncodeChar(s[0] % 32 * 64 + Low(s[1])) == Ok([s[0], s[1]])
  {
    hide Low;
    LowBits(s[0]);
    LowBits(s[1]);
    FromDigits(0, 0, s[0] - 0xc0, s[1] - 0x80);
  }

  lemma EncodeThree(s: seq<int>)
    requires |s| >= 3 && 0xe0 <= s[0] <= 0xef && IsTail(s[1]) && IsTail(s[2])
    ensures var c := s[0] % 16 * 4096 + Low(s[1]) * 64 + Low(s[2]);
      c > 0x7ff && !(0xd800 <= c <= 0xdfff) ==> EncodeChar(c) == Ok([s[0], s[1], s[2]])
  {
    hide Low;
    LowBits(s[0]);
    LowBits(s[1]);
    LowBits(s[2]);
    FromDigits(0, s[0] - 0xe0, s[1] - 0x80, s[2] - 0x80);
    DivUnique(s[0] - 0xe0, s[1] - 0x80, 64);
  }

  lemma EncodeFour(s: seq<int>)
    requires |s| >= 4 && 0xf0 <= s[0] <= 0xf7 && IsTail(s[1]) && IsTail(s[2]) && IsTail(s[3])
    ensures var c := s[0] % 8 * 262144 + Low(s[1]) * 4096 + Low(s[2]) * 64 + Low(s[3]);
      0xffff < c <= 0x10ffff ==> EncodeChar(c) == Ok([s[0], s[1], s[2], s[3]])
  {
    hide Low;
    LowBits(s[0]);
    LowBits(s[1]);
    LowBits(s[2]);
    LowBits(s[3]);
    var w, x, y := s[0] - 0xf0, s[1] - 0x80, s[2] - 0x80;
    FromDigits(w, x, y, s[3] - 0x80);
    DivUnique(w, x, 64);
    DivUnique(w * 64 + x, y, 64);
  }

  lemma EncodeDecoded(s: seq<int>)
    requires AreBytes(s) && s != [] && DecodeChar(s).Ok?
    ensures var h := DecodeChar(s).value;
      && IsScalar(h.codepoint) && 0 < h.length <= |s| && EncodeChar(h.codepoint) == Ok(s[..h.length])
  {
    hide Low, EncodeChar;
    assert s[0] in s;
    if s[0] <= 0x7f {
      assert s[..1] == [s[0]];
      EncodeOne(s[0]);
    } else if s[0] <= 0xdf {
      assert s[..2] == [s[0], s[1]];
      EncodeTwo(s);
    } else if s[0] <= 0xef {
      assert s[..3] == [s[0], s[1], s[2]];
      EncodeThree(s);
    } else {
      assert s[..4] == [s[0], s[1], s[2], s[3]];
      EncodeFour(s);
    }
    EncodeScalars(DecodeChar(s).value.codepoint);
  }

  lemma EncodeOne(c: int)
    requires 0 <= c <= 0x7f
    ensures EncodeChar(c) == Ok([c])
  {
  }

  // ---- the grammar of section 4 of RFC 3629 ----

  predicate In(b: int, lo: int, hi: int) { lo <= b <= hi }

  predicate Utf8Char(s: seq<int>) {
    || (|s| == 1 && In(s[0], 0x00, 0x7f))
    || (|s| == 2 && In(s[0], 0xc2, 0xdf) && IsTail(s[1]))
    || (|s| == 3 && In(s[0], 0xe0, 0xe0) && In(s[1], 0xa0, 0xbf) && IsTail(s[2]))
    || (|s| == 3 && In(s[0], 0xe1, 0xec) && IsTail(s[1]) && IsTail(s[2]))
    || (|s| == 3 && In(s[0], 0xed, 0xed) && In(s[1], 0x80, 0x9f) && IsTail(s[2]))
    || (|s| == 3 && In(s[0], 0xee, 0xef) && IsTail(s[1]) && IsTail(s[2]))
    || (|s| == 4 && In(s[0], 0xf0, 0xf0) && In(s[1], 0x90, 0xbf) && IsTail(s[2]) && IsTail(s[3]))
    || (|s| == 4 && In(s[0], 0xf1, 0xf3) && IsTail(s[1]) && IsTail(s[2]) && IsTail(s[3]))
    || (|s| == 4 && In(s[0], 0xf4, 0xf4) && In(s[1], 0x80, 0x8f) && IsTail(s[2]) && IsTail(s[3]))
  }

  /** The decoder accepts exactly the characters of the grammar. */
  lemma DecodesTheGrammar(s: seq<int>, n: nat)
    requires AreBytes(s) && s != []
    ensures DecodeChar(s).Ok? && DecodeChar(s).value.length == n <==> n <= |s| && Utf8Char(s[..n])
  {
    hide Low;
    assert s[0] in s;
    LowBits(s[0]);
    if |s| >= 2 { LowBits(s[1]); }
    if |s| >= 3 { LowBits(s[2]); }
    if |s| >= 4 { LowBits(s[3]); }
  }

  // ---- buffers ----

  /** What decoding a whole buffer means. */
  function Decode(s: seq<int>): Result<seq<int>>
    requires AreBytes(s)
  {
    if s == [] then Ok([])
    else
      var h := DecodeChar(s);
      if h.Invalid? then Invalid
      else
        EncodeDecoded(s);
        var t := Decode(s[h.value.length..]);
        if t.Invalid? then Invalid else Ok([h.value.codepoint] + t.value)
  }

  function Encode(cs: seq<int>): Result<seq<int>> {
    if cs == [] then Ok([])
    else
      var h, t := EncodeChar(cs[0]), Encode(cs[1..]);
      if h.Invalid? || t.Invalid? then Invalid else Ok(h.value + t.value)
  }

  ghost predicate AreScalars(cs: seq<int>) { forall c :: c in cs ==> IsScalar(c) }

  /** A sequence can be encoded exactly if it is made of scalar values. */
  lemma {:induction false} EncodeWhich(cs: seq<int>)
    ensures Encode(cs).Ok? <==> AreScalars(cs)
    ensures Encode(cs).Ok? ==> AreBytes(Encode(cs).value)
  {
    if cs != [] {
      EncodeScalars(cs[0]);
      EncodeWhich(cs[1..]);
      assert cs == [cs[0]] + cs[1..];
    }
  }

  /** Decoding the encoding gives the sequence back. */
  lemma {:induction false} DecodeOfEncode(cs: seq<int>)
    requires AreScalars(cs)
    ensures Encode(cs).Ok? && AreBytes(Encode(cs).value) && Decode(Encode(cs).value) == Ok(cs)
  {
    hide DecodeChar, EncodeChar;
    EncodeWhich(cs);
    if cs != [] {
      EncodeScalars(cs[0]);
      DecodeOfEncode(cs[1..]);
      var e, t := EncodeChar(cs[0]).value, Encode(cs[1..]).value;
      DecodeEncoded(cs[0], t);
      assert (e + t)[|e|..] == t;
      assert [cs[0]] + cs[1..] == cs;
    }
  }

  /** Whatever the decoder accepts is the encoding of what it returns: there is no other form. */
  lemma {:induction false} EncodeOfDecode(s: seq<int>)
    requires AreBytes(s) && Decode(s).Ok?
    ensures AreScalars(Decode(s).value) && Encode(Decode(s).value) == Ok(s)
  {
    hide DecodeChar, EncodeChar;
    if s != [] {
      EncodeDecoded(s);
      var h := DecodeChar(s).value;
      EncodeOfDecode(s[h.length..]);
      var t := Decode(s[h.length..]).value;
      assert ([h.codepoint] + t)[1..] == t;
      assert s[..h.length] + s[h.length..] == s;
    }
  }

  /** utf8_decode_buf */
  method DecodeBuf(data: seq<int>) returns (r: Result<seq<int>>)
    requires AreBytes(data)
    ensures r == Decode(data)
  {
    hide DecodeChar, EncodeChar;
    var rest, codepoints := data, [];
    while rest != []
      invariant AreBytes(rest) && (Decode(data).Ok? <==> Decode(rest).Ok?)
      invariant Decode(rest).Ok? ==> Decode(data).value == codepoints + Decode(rest).value
    {
      var h := DecodeChar(rest);
      if h.Invalid? { return Invalid; }
      EncodeDecoded(rest);
      codepoints := codepoints + [h.value.codepoint];
      rest := rest[h.value.length..];
    }
    assert codepoints + [] == codepoints;
    r := Ok(codepoints);
  }

  /** utf8_encode_buf */
  method EncodeBuf(codepoints: seq<int>) returns (r: Result<seq<int>>)
    ensures r == Encode(codepoints)
  {
    hide EncodeChar;
    var rest, data := codepoints, [];
    while rest != []
      invariant Encode(codepoints).Ok? <==> Encode(rest).Ok?
      invariant Encode(rest).Ok? ==> Encode(codepoints).value == data + Encode(rest).value
    {
      var h := EncodeChar(rest[0]);
      if h.Invalid? { return Invalid; }
      data := data + h.value;
      rest := rest[1..];
    }
    assert data + [] == data;
    r := Ok(data);
  }

  /** The accepted byte strings are exactly the strings of characters of the grammar. */
  lemma {:induction false} DecodesGrammarStrings(s: seq<int>)
    requires AreBytes(s)
    ensures Decode(s).Ok? <==> Utf8Octets(s)
  {
    hide DecodeChar, EncodeChar, Utf8Char;
    if s != [] {
      forall n: nat ensures DecodeChar(s).Ok? && DecodeChar(s).value.length == n <==> n <= |s| && Utf8Char(s[..n]) {
        DecodesTheGrammar(s, n);
      }
      if DecodeChar(s).Ok? {
        EncodeDecoded(s);
        var n := DecodeChar(s).value.length;
        DecodesGrammarStrings(s[n..]);
      }
      CharLength();
    }
  }

  lemma CharLength()
    ensures forall s :: Utf8Char(s) ==> 1 <= |s| <= 4
  {
  }

  ghost predicate Utf8Octets(s: seq<int>) {
    s == [] || exists n: nat :: 1 <= n <= |s| && Utf8Char(s[..n]) && Utf8Octets(s[n..])
  }
}
