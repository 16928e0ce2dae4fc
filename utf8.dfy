/** Well-formed UTF-8 as defined by the byte-sequence grammar of section 4 of RFC 3629:

      UTF8-1 = 00-7F
      UTF8-2 = C2-DF tail
      UTF8-3 = E0 A0-BF tail | E1-EC tail tail | ED 80-9F tail | EE-EF tail tail
      UTF8-4 = F0 90-BF tail tail | F1-F3 tail tail tail | F4 80-8F tail tail
      tail   = 80-BF

    This is the set of byte strings Rust's `std::str::from_utf8` accepts. `Encode` (section 3 of
    the RFC) describes the same strings from the code-point side; `EncodingsAreValid` and
    `ValidIsEncodings` prove that the two descriptions agree. */
module Utf8 {
  import opened Bytes

  predicate IsTail(b: U8) {
    0x80 <= b <= 0xBF
  }

  /** The length of the well-formed UTF8-char that `s` starts with, or 0 if `s` does not start
      with one. */
  function CharWidth(s: seq<U8>): (w: nat)
    requires |s| > 0
    ensures w <= 4 && w <= |s|
    ensures w == 1 <==> s[0] < 0x80
  {
    var b := s[0];
    if b < 0x80 then 1
    else if 0xC2 <= b <= 0xDF then
      if |s| >= 2 && IsTail(s[1]) then 2 else 0
    else if 0xE0 <= b <= 0xEF then
      var lo := if b == 0xE0 then 0xA0 else 0x80;
      var hi := if b == 0xED then 0x9F else 0xBF;
      if |s| >= 3 && lo <= s[1] <= hi && IsTail(s[2]) then 3 else 0
    else if 0xF0 <= b <= 0xF4 then
      var lo := if b == 0xF0 then 0x90 else 0x80;
      var hi := if b == 0xF4 then 0x8F else 0xBF;
      if |s| >= 4 && lo <= s[1] <= hi && IsTail(s[2]) && IsTail(s[3]) then 4 else 0
    else 0
  }

  /** `UTF8-octets = *( UTF8-char )`: `s` splits into well-formed characters. */
  predicate ValidUtf8(s: seq<U8>)
    decreases |s|
  {
    s == [] || (CharWidth(s) > 0 && ValidUtf8(s[CharWidth(s)..]))
  }

  /** Every byte string of US-ASCII characters is well-formed UTF-8. */
  lemma {:induction false} AsciiIsValid(s: seq<U8>)
    requires forall i :: 0 <= i < |s| ==> s[i] < 0x80
    ensures ValidUtf8(s)
  {
    if s != [] {
      AsciiIsValid(s[1..]);
    }
  }

  /** Well-formed UTF-8 is closed under concatenation. */
  lemma {:induction false} ValidConcat(a: seq<U8>, b: seq<U8>)
    requires ValidUtf8(a) && ValidUtf8(b)
    ensures ValidUtf8(a + b)
    decreases |a|
  {
    if a == [] {
      assert a + b == b;
    } else {
      var w := CharWidth(a);
      ValidConcat(a[w..], b);
      ValidPrefixChar(a, b, w);
    }
  }

  /** A well-formed leading character of `a` followed by well-formed `a[w..] + b` makes `a + b`
      well-formed. */
  lemma ValidPrefixChar(a: seq<U8>, b: seq<U8>, w: nat)
    requires |a| > 0 && w == CharWidth(a) > 0 && ValidUtf8(a[w..] + b)
    ensures ValidUtf8(a + b)
  {
    CharWidthExtend(a, b);
    assert (a + b)[w..] == a[w..] + b;
    ValidStep(a + b);
  }

  /** A well-formed character followed by well-formed UTF-8 is well-formed UTF-8. */
  lemma ValidStep(s: seq<U8>)
    requires |s| > 0 && CharWidth(s) > 0 && ValidUtf8(s[CharWidth(s)..])
    ensures ValidUtf8(s)
  {
  }

  /** A well-formed leading character keeps its width whatever is appended. */
  lemma CharWidthExtend(a: seq<U8>, b: seq<U8>)
    requires |a| > 0 && CharWidth(a) > 0
    ensures CharWidth(a + b) == CharWidth(a)
  {
    var w := CharWidth(a);
    assert forall k :: 0 <= k < w ==> (a + b)[k] == a[k];
  }

  /** A byte that can only continue a character never starts a well-formed string. */
  lemma LeadingTailIsInvalid(s: seq<U8>)
    requires |s| > 0 && IsTail(s[0])
    ensures !ValidUtf8(s)
  {
  }

  /** Bytes that occur in no well-formed UTF-8 string: C0, C1 and F5-FF. */
  predicate NeverInUtf8(b: U8) {
    b == 0xC0 || b == 0xC1 || b >= 0xF5
  }

  /** Well-formed UTF-8 contains none of those bytes, at any position. */
  lemma {:induction false} ValidExcludesNeverInUtf8(s: seq<U8>, i: nat)
    requires ValidUtf8(s) && i < |s|
    ensures !NeverInUtf8(s[i])
    decreases |s|
  {
    var w := CharWidth(s);
    if i >= w {
      ValidExcludesNeverInUtf8(s[w..], i - w);
    }
  }

  /** A Unicode scalar value: a code point that is not a surrogate. */
  predicate IsScalarValue(cp: int) {
    0 <= cp < 0xD800 || 0xE000 <= cp <= 0x10FFFF
  }

  /** The UTF-8 encoding of a scalar value (section 3 of RFC 3629). */
  function Encode(cp: int): (r: seq<U8>)
    requires IsScalarValue(cp)
    ensures 1 <= |r| <= 4
  {
    if cp < 0x80 then [cp]
    else if cp < 0x800 then [0xC0 + cp / 0x40, 0x80 + cp % 0x40]
    else if cp < 0x10000 then [0xE0 + cp / 0x1000, 0x80 + (cp / 0x40) % 0x40, 0x80 + cp % 0x40]
    else [0xF0 + cp / 0x40000, 0x80 + (cp / 0x1000) % 0x40, 0x80 + (cp / 0x40) % 0x40, 0x80 + cp % 0x40]
  }

  /** The grammar accepts the encoding of every scalar value as one character, whatever
      follows it. */
  lemma EncodeIsOneChar(cp: int, rest: seq<U8>)
    requires IsScalarValue(cp)
    ensures CharWidth(Encode(cp) + rest) == |Encode(cp)|
  {
    if cp < 0x80 {
    } else if cp < 0x800 {
      TwoByteEncodingIsOneChar(cp, rest);
    } else if cp < 0x10000 {
      ThreeByteEncodingIsOneChar(cp, rest);
    } else {
      FourByteEncodingIsOneChar(cp, rest);
    }
  }

  /** Code points 0x80..0x7FF encode as a C2-DF lead byte and one tail. */
  lemma TwoByteEncodingIsOneChar(cp: int, rest: seq<U8>)
    requires 0x80 <= cp < 0x800
    ensures CharWidth(Encode(cp) + rest) == 2
  {
    var s := Encode(cp) + rest;
    assert s[0] == 0xC0 + cp / 0x40 && s[1] == 0x80 + cp % 0x40;
  }

  /** Code points 0x800..0xFFFF other than surrogates encode as three bytes within the
      lead-specific second-byte ranges of E0 and ED. */
  lemma ThreeByteEncodingIsOneChar(cp: int, rest: seq<U8>)
    requires 0x800 <= cp < 0xD800 || 0xE000 <= cp < 0x10000
    ensures CharWidth(Encode(cp) + rest) == 3
  {
    var s := Encode(cp) + rest;
    var hi := cp / 0x40;
    assert 0x20 <= hi < 0x400;
    assert s[0] == 0xE0 + hi / 0x40 && s[1] == 0x80 + hi % 0x40 && s[2] == 0x80 + cp % 0x40;
  }

  /** Code points 0x10000..0x10FFFF encode as four bytes within the lead-specific second-byte
      ranges of F0 and F4. */
  lemma FourByteEncodingIsOneChar(cp: int, rest: seq<U8>)
    requires 0x10000 <= cp <= 0x10FFFF
    ensures CharWidth(Encode(cp) + rest) == 4
  {
    var s := Encode(cp) + rest;
    var hi := cp / 0x1000;
    assert 0x10 <= hi < 0x110;
    assert s[0] == 0xF0 + hi / 0x40 && s[1] == 0x80 + hi % 0x40;
    assert s[2] == 0x80 + (cp / 0x40) % 0x40 && s[3] == 0x80 + cp % 0x40;
  }

  /** The code point a well-formed character encodes. */
  function DecodeChar(s: seq<U8>): int
    requires |s| > 0 && CharWidth(s) > 0
  {
    var w := CharWidth(s);
    var b0: int, b1: int, b2: int, b3: int := s[0],
      if w > 1 then s[1] - 0x80 else 0,
      if w > 2 then s[2] - 0x80 else 0,
      if w > 3 then s[3] - 0x80 else 0;
    if w == 1 then b0
    else if w == 2 then (b0 - 0xC0) * 0x40 + b1
    else if w == 3 then (b0 - 0xE0) * 0x1000 + b1 * 0x40 + b2
    else (b0 - 0xF0) * 0x40000 + b1 * 0x1000 + b2 * 0x40 + b3
  }

  /** Decoding undoes encoding, so no two scalar values share an encoding. */
  lemma DecodeEncode(cp: int)
    requires IsScalarValue(cp)
    ensures |Encode(cp)| > 0 && CharWidth(Encode(cp)) > 0
    ensures DecodeChar(Encode(cp)) == cp
  {
    EncodeIsOneChar(cp, []);
    assert Encode(cp) + [] == Encode(cp);
    if cp < 0x80 {
    } else if cp < 0x800 {
      DecodeTwoByteEncoding(cp);
    } else if cp < 0x10000 {
      DecodeThreeByteEncoding(cp);
    } else {
      DecodeFourByteEncoding(cp);
    }
  }

  /** The two-byte case of `DecodeEncode`. */
  lemma DecodeTwoByteEncoding(cp: int)
    requires 0x80 <= cp < 0x800 && CharWidth(Encode(cp)) == 2
    ensures DecodeChar(Encode(cp)) == cp
  {
    var e := Encode(cp);
    assert e[0] == 0xC0 + cp / 0x40 && e[1] == 0x80 + cp % 0x40;
  }

  /** The three-byte case of `DecodeEncode`. */
  lemma DecodeThreeByteEncoding(cp: int)
    requires (0x800 <= cp < 0xD800 || 0xE000 <= cp < 0x10000) && CharWidth(Encode(cp)) == 3
    ensures DecodeChar(Encode(cp)) == cp
  {
    var e := Encode(cp);
    var hi := cp / 0x40;
    assert cp == (hi / 0x40) * 0x1000 + (hi % 0x40) * 0x40 + cp % 0x40;
    assert e[0] == 0xE0 + hi / 0x40 && e[1] == 0x80 + hi % 0x40 && e[2] == 0x80 + cp % 0x40;
  }

  /** The four-byte case of `DecodeEncode`. */
  lemma DecodeFourByteEncoding(cp: int)
    requires 0x10000 <= cp <= 0x10FFFF && CharWidth(Encode(cp)) == 4
    ensures DecodeChar(Encode(cp)) == cp
  {
    var e := Encode(cp);
    var hi, mid := cp / 0x1000, cp / 0x40;
    assert mid == hi * 0x40 + mid % 0x40;
    assert cp == (hi / 0x40) * 0x40000 + (hi % 0x40) * 0x1000 + (mid % 0x40) * 0x40 + cp % 0x40;
    assert e[0] == 0xF0 + hi / 0x40 && e[1] == 0x80 + hi % 0x40;
    assert e[2] == 0x80 + mid % 0x40 && e[3] == 0x80 + cp % 0x40;
  }

  /** Every character the grammar accepts is the encoding of exactly one scalar value: the
      grammar and the encoder describe the same set of byte sequences. */
  lemma CharIsEncoding(s: seq<U8>)
    requires |s| > 0 && CharWidth(s) > 0
    ensures IsScalarValue(DecodeChar(s))
    ensures Encode(DecodeChar(s)) == s[..CharWidth(s)]
    ensures forall cp :: IsScalarValue(cp) && Encode(cp) == s[..CharWidth(s)] ==> cp == DecodeChar(s)
  {
    EncodingOf(s);
    forall cp | IsScalarValue(cp) && Encode(cp) == s[..CharWidth(s)]
      ensures cp == DecodeChar(s)
    {
      DecodeEncode(cp);
      DecodeEncode(DecodeChar(s));
    }
  }

  /** The scalar value `DecodeChar` gives is one whose encoding is the character. */
  lemma EncodingOf(s: seq<U8>)
    requires |s| > 0 && CharWidth(s) > 0
    ensures IsScalarValue(DecodeChar(s))
    ensures Encode(DecodeChar(s)) == s[..CharWidth(s)]
  {
    var w := CharWidth(s);
    if w == 1 {
      assert Encode(DecodeChar(s)) == [s[0]] == s[..1];
    } else if w == 2 {
      TwoByteChar(s);
    } else if w == 3 {
      ThreeByteChar(s);
    } else {
      FourByteChar(s);
    }
  }

  lemma TwoByteChar(s: seq<U8>)
    requires |s| > 0 && CharWidth(s) == 2
    ensures IsScalarValue(DecodeChar(s)) && Encode(DecodeChar(s)) == s[..2]
  {
    TwoByteIsEncoding(s[0], s[1]);
    assert Encode(DecodeChar(s)) == [s[0], s[1]];
  }

  lemma ThreeByteChar(s: seq<U8>)
    requires |s| > 0 && CharWidth(s) == 3
    ensures IsScalarValue(DecodeChar(s)) && Encode(DecodeChar(s)) == s[..3]
  {
    ThreeByteIsEncoding(s[0], s[1], s[2]);
    assert Encode(DecodeChar(s)) == [s[0], s[1], s[2]];
  }

  lemma FourByteChar(s: seq<U8>)
    requires |s| > 0 && CharWidth(s) == 4
    ensures IsScalarValue(DecodeChar(s)) && Encode(DecodeChar(s)) == s[..4]
  {
    FourByteIsEncoding(s[0], s[1], s[2], s[3]);
    assert Encode(DecodeChar(s)) == [s[0], s[1], s[2], s[3]];
  }

  /** Euclidean division is determined by its quotient and remainder. */
  lemma DivModUnique(n: int, d: int, q: int, r: int)
    requires d > 0 && 0 <= r < d && n == q * d + r
    ensures n / d == q && n % d == r
  {
    var q', r' := n / d, n % d;
    assert (q - q') * d == r' - r;
    assert q - q' >= 1 ==> (q - q') * d >= d;
    assert q' - q >= 1 ==> (q' - q) * d >= d;
  }

  lemma TwoByteIsEncoding(b0: U8, b1: U8)
    requires 0xC2 <= b0 <= 0xDF && IsTail(b1)
    ensures var cp := (b0 - 0xC0) * 0x40 + (b1 - 0x80);
      0x80 <= cp < 0x800 && cp / 0x40 == b0 - 0xC0 && cp % 0x40 == b1 - 0x80
  {
    DivModUnique((b0 - 0xC0) * 0x40 + (b1 - 0x80), 0x40, b0 - 0xC0, b1 - 0x80);
  }

  lemma ThreeByteIsEncoding(b0: U8, b1: U8, b2: U8)
    requires 0xE0 <= b0 <= 0xEF && IsTail(b1) && IsTail(b2)
    requires b0 == 0xE0 ==> b1 >= 0xA0
    requires b0 == 0xED ==> b1 <= 0x9F
    ensures var cp := (b0 - 0xE0) * 0x1000 + (b1 - 0x80) * 0x40 + (b2 - 0x80);
      0x800 <= cp < 0x10000 && IsScalarValue(cp) &&
      cp / 0x1000 == b0 - 0xE0 && (cp / 0x40) % 0x40 == b1 - 0x80 && cp % 0x40 == b2 - 0x80
  {
    var q, c1, c2 := b0 - 0xE0, b1 - 0x80, b2 - 0x80;
    var low := c1 * 0x40 + c2;
    var cp := q * 0x1000 + low;
    DivModUnique(cp, 0x1000, q, low);
    DivModUnique(cp, 0x40, q * 0x40 + c1, c2);
    DivModUnique(q * 0x40 + c1, 0x40, q, c1);
  }

  lemma FourByteIsEncoding(b0: U8, b1: U8, b2: U8, b3: U8)
    requires 0xF0 <= b0 <= 0xF4 && IsTail(b1) && IsTail(b2) && IsTail(b3)
    requires b0 == 0xF0 ==> b1 >= 0x90
    requires b0 == 0xF4 ==> b1 <= 0x8F
    ensures var cp := (b0 - 0xF0) * 0x40000 + (b1 - 0x80) * 0x1000 + (b2 - 0x80) * 0x40 + (b3 - 0x80);
      0x10000 <= cp <= 0x10FFFF &&
      cp / 0x40000 == b0 - 0xF0 && (cp / 0x1000) % 0x40 == b1 - 0x80 &&
      (cp / 0x40) % 0x40 == b2 - 0x80 && cp % 0x40 == b3 - 0x80
  {
    var q, c1, c2, c3 := b0 - 0xF0, b1 - 0x80, b2 - 0x80, b3 - 0x80;
    var low := c2 * 0x40 + c3;
    var mid := c1 * 0x1000 + low;
    var cp := q * 0x40000 + mid;
    DivModUnique(cp, 0x40000, q, mid);
    DivModUnique(cp, 0x1000, q * 0x40 + c1, low);
    DivModUnique(q * 0x40 + c1, 0x40, q, c1);
    DivModUnique(cp, 0x40, q * 0x1000 + c1 * 0x40 + c2, c3);
    DivModUnique(q * 0x1000 + c1 * 0x40 + c2, 0x40, q * 0x40 + c1, c2);
  }

  /** The encodings of a sequence of scalar values, one after the other. */
  function EncodeAll(cps: seq<int>): seq<U8>
    requires forall i :: 0 <= i < |cps| ==> IsScalarValue(cps[i])
  {
    if cps == [] then [] else Encode(cps[0]) + EncodeAll(cps[1..])
  }

  /** The scalar values a well-formed string encodes, character by character. */
  function DecodeAll(s: seq<U8>): seq<int>
    requires ValidUtf8(s)
    decreases |s|
  {
    if s == [] then [] else [DecodeChar(s)] + DecodeAll(s[CharWidth(s)..])
  }

  /** The grammar accepts every string of encoded scalar values. */
  lemma {:induction false} EncodingsAreValid(cps: seq<int>)
    requires forall i :: 0 <= i < |cps| ==> IsScalarValue(cps[i])
    ensures ValidUtf8(EncodeAll(cps))
  {
    if cps != [] {
      var rest := EncodeAll(cps[1..]);
      EncodingsAreValid(cps[1..]);
      EncodeIsOneChar(cps[0], rest);
      var s := Encode(cps[0]) + rest;
      assert s[|Encode(cps[0])|..] == rest;
      ValidStep(s);
    }
  }

  /** Every string the grammar accepts is a string of encoded scalar values: it is the encoding
      of the values it decodes to. */
  lemma {:induction false} ValidIsEncodings(s: seq<U8>)
    requires ValidUtf8(s)
    ensures forall i :: 0 <= i < |DecodeAll(s)| ==> IsScalarValue(DecodeAll(s)[i])
    ensures EncodeAll(DecodeAll(s)) == s
    decreases |s|
  {
    if s != [] {
      var w := CharWidth(s);
      ValidIsEncodings(s[w..]);
      EncodingOf(s);
      EncodingsCons(s, w, DecodeChar(s), DecodeAll(s[w..]));
    }
  }

  /** A character's value in front of the values of the rest encodes the whole string. */
  lemma EncodingsCons(s: seq<U8>, w: nat, cp: int, cps: seq<int>)
    requires w <= |s| && IsScalarValue(cp) && Encode(cp) == s[..w]
    requires forall i :: 0 <= i < |cps| ==> IsScalarValue(cps[i])
    requires EncodeAll(cps) == s[w..]
    ensures forall i :: 0 <= i < |[cp] + cps| ==> IsScalarValue(([cp] + cps)[i])
    ensures EncodeAll([cp] + cps) == s
  {
    assert ([cp] + cps)[1..] == cps;
    assert s[..w] + s[w..] == s;
  }
}
