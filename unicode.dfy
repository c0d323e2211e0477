/** The text encodings `encodeURIComponent` works with: JavaScript strings
    are sequences of UTF-16 code units (section 6.1.4 of ECMA-262), and each
    code point is escaped as its UTF-8 bytes (section 3.9 of the Unicode
    Standard, table 3-7 for the well-formed byte sequences). */
module Unicode {
  import opened Results

  /** One element of a JavaScript string. */
  type CodeUnit = u: int | 0 <= u < 0x1_0000

  type Byte = b: int | 0 <= b < 0x100

  predicate IsHighSurrogate(u: int) { 0xD800 <= u < 0xDC00 }

  predicate IsLowSurrogate(u: int) { 0xDC00 <= u < 0xE000 }

  /** A code point that is not a surrogate: what UTF-8 may encode. */
  predicate IsScalarValue(cp: int) {
    0 <= cp < 0x11_0000 && !(0xD800 <= cp < 0xE000)
  }

  /** The code point a surrogate pair stands for (UTF16SurrogatePairToCodePoint
      in ECMA-262). */
  function PairToCodePoint(hi: CodeUnit, lo: CodeUnit): (cp: int)
    requires IsHighSurrogate(hi) && IsLowSurrogate(lo)
    ensures 0x1_0000 <= cp < 0x11_0000
  {
    (hi - 0xD800) * 0x400 + (lo - 0xDC00) + 0x1_0000
  }

  /** The code units of one code point (UTF16EncodeCodePoint in ECMA-262):
      the code point itself below U+10000, otherwise the surrogate pair that
      PairToCodePoint maps back to it. */
  function Utf16Encode(cp: int): (units: seq<CodeUnit>)
    requires IsScalarValue(cp)
    ensures |units| == 1 || |units| == 2
    ensures |units| == 1 ==> units[0] == cp && !IsHighSurrogate(cp) && !IsLowSurrogate(cp)
    ensures |units| == 2 ==>
      && IsHighSurrogate(units[0]) && IsLowSurrogate(units[1])
      && PairToCodePoint(units[0], units[1]) == cp
  {
    if cp < 0x1_0000 then [cp]
    else [(cp - 0x1_0000) / 0x400 + 0xD800, (cp - 0x1_0000) % 0x400 + 0xDC00]
  }

  /** Encoding the code point of a surrogate pair gives the pair back. */
  lemma Utf16EncodePair(hi: CodeUnit, lo: CodeUnit)
    requires IsHighSurrogate(hi) && IsLowSurrogate(lo)
    ensures Utf16Encode(PairToCodePoint(hi, lo)) == [hi, lo]
  {
    var cp := PairToCodePoint(hi, lo);
    assert cp - 0x1_0000 == (hi - 0xD800) * 0x400 + (lo - 0xDC00);
  }

  /** A UTF-8 byte that continues a multi-byte sequence (10xxxxxx). */
  predicate IsContinuation(b: int) { 0x80 <= b < 0xC0 }

  /** The number of leading one bits of a byte: 0 for a byte that stands
      alone, 1 for a continuation byte, n for the first of an n-byte
      sequence. */
  function LeadingOnes(b: Byte): (n: nat)
    ensures n <= 8
    ensures n == 0 <==> b < 0x80
    ensures n == 1 <==> IsContinuation(b)
  {
    if b < 0x80 then 0
    else if b < 0xC0 then 1
    else if b < 0xE0 then 2
    else if b < 0xF0 then 3
    else if b < 0xF8 then 4
    else if b < 0xFC then 5
    else if b < 0xFE then 6
    else if b < 0xFF then 7
    else 8
  }

  /** The UTF-8 bytes of one code point (CodePointToUTF8 in section 3.9 of
      the Unicode Standard). */
  function Utf8Encode(cp: int): (bytes: seq<Byte>)
    requires IsScalarValue(cp)
    ensures 1 <= |bytes| <= 4
    ensures |bytes| == 1 <==> cp < 0x80
    ensures LeadingOnes(bytes[0]) == if |bytes| == 1 then 0 else |bytes|
    ensures forall k :: 1 <= k < |bytes| ==> IsContinuation(bytes[k])
  {
    if cp < 0x80 then [cp]
    else if cp < 0x800 then [0xC0 + cp / 0x40, 0x80 + cp % 0x40]
    else if cp < 0x1_0000 then
      [0xE0 + cp / 0x1000, 0x80 + cp / 0x40 % 0x40, 0x80 + cp % 0x40]
    else
      [0xF0 + cp / 0x4_0000, 0x80 + cp / 0x1000 % 0x40, 0x80 + cp / 0x40 % 0x40, 0x80 + cp % 0x40]
  }

  /** The code point encoded by a well-formed UTF-8 sequence of exactly one
      code point; `None` for an ill-formed one: a bad lead or continuation
      byte, an overlong form, a surrogate, or a value past U+10FFFF. */
  function Utf8Decode(bytes: seq<Byte>): (cp: Option<int>)
  {
    if |bytes| == 1 then
      if bytes[0] < 0x80 then Some(bytes[0]) else None
    else if |bytes| == 2 then
      if LeadingOnes(bytes[0]) == 2 && IsContinuation(bytes[1]) then
        var v: int := (bytes[0] as int - 0xC0) * 0x40 + (bytes[1] as int - 0x80);
        if 0x80 <= v then Some(v) else None
      else None
    else if |bytes| == 3 then
      if LeadingOnes(bytes[0]) == 3 && IsContinuation(bytes[1]) && IsContinuation(bytes[2]) then
        var v: int := (bytes[0] as int - 0xE0) * 0x1000 + (bytes[1] as int - 0x80) * 0x40
                       + (bytes[2] as int - 0x80);
        if 0x800 <= v && !(0xD800 <= v < 0xE000) then Some(v) else None
      else None
    else if |bytes| == 4 then
      if LeadingOnes(bytes[0]) == 4 && IsContinuation(bytes[1]) && IsContinuation(bytes[2])
         && IsContinuation(bytes[3]) then
        var v: int := (bytes[0] as int - 0xF0) * 0x4_0000 + (bytes[1] as int - 0x80) * 0x1000
                       + (bytes[2] as int - 0x80) * 0x40 + (bytes[3] as int - 0x80);
        if 0x1_0000 <= v < 0x11_0000 then Some(v) else None
      else None
    else None
  }

  /** Decoding the UTF-8 of a scalar value gives the scalar value back. */
  lemma Utf8RoundTrip(cp: int)
    requires IsScalarValue(cp)
    ensures Utf8Decode(Utf8Encode(cp)) == Some(cp)
  {
    if cp >= 0x80 {
      SplitBase64(cp);
      if cp < 0x800 {
        Utf8RoundTripTwo(cp);
      } else if cp < 0x1_0000 {
        Utf8RoundTripThree(cp);
      } else {
        Utf8RoundTripFour(cp);
      }
    }
  }

  lemma Utf8RoundTripTwo(cp: int)
    requires 0x80 <= cp < 0x800
    requires cp == (cp / 0x40) * 0x40 + cp % 0x40
    ensures Utf8Decode(Utf8Encode(cp)) == Some(cp)
  {
    var bytes := Utf8Encode(cp);
    assert bytes[0] as int - 0xC0 == cp / 0x40 && bytes[1] as int - 0x80 == cp % 0x40;
  }

  lemma Utf8RoundTripThree(cp: int)
    requires IsScalarValue(cp) && 0x800 <= cp < 0x1_0000
    requires cp == (cp / 0x1000) * 0x1000 + (cp / 0x40 % 0x40) * 0x40 + cp % 0x40
    ensures Utf8Decode(Utf8Encode(cp)) == Some(cp)
  {
    var bytes := Utf8Encode(cp);
    assert bytes[0] as int - 0xE0 == cp / 0x1000;
    assert bytes[1] as int - 0x80 == cp / 0x40 % 0x40 && bytes[2] as int - 0x80 == cp % 0x40;
  }

  lemma Utf8RoundTripFour(cp: int)
    requires 0x1_0000 <= cp < 0x11_0000
    requires cp == (cp / 0x4_0000) * 0x4_0000 + (cp / 0x1000 % 0x40) * 0x1000
                   + (cp / 0x40 % 0x40) * 0x40 + cp % 0x40
    ensures Utf8Decode(Utf8Encode(cp)) == Some(cp)
  {
    var bytes := Utf8Encode(cp);
    assert bytes[0] as int - 0xF0 == cp / 0x4_0000 && bytes[1] as int - 0x80 == cp / 0x1000 % 0x40;
    assert bytes[2] as int - 0x80 == cp / 0x40 % 0x40 && bytes[3] as int - 0x80 == cp % 0x40;
  }

  /** A number is the sum of its base-64 digits. */
  lemma SplitBase64(v: nat)
    ensures v == (v / 0x40) * 0x40 + v % 0x40
    ensures v < 0x1_0000 ==> v == (v / 0x1000) * 0x1000 + (v / 0x40 % 0x40) * 0x40 + v % 0x40
    ensures v == (v / 0x4_0000) * 0x4_0000 + (v / 0x1000 % 0x40) * 0x1000
                 + (v / 0x40 % 0x40) * 0x40 + v % 0x40
  {
    var q1 := v / 0x40;
    var q2 := q1 / 0x40;
    assert v / 0x1000 == q2;
    assert q2 / 0x40 == v / 0x4_0000;
    assert q1 == q2 * 0x40 + q1 % 0x40;
    assert q2 == (q2 / 0x40) * 0x40 + q2 % 0x40;
  }

  /** The decoder accepts only the encoder's output: whatever it decodes is a
      scalar value whose UTF-8 is exactly the bytes it was given. */
  lemma Utf8DecodeOnlyCanonical(bytes: seq<Byte>)
    requires Utf8Decode(bytes).Some?
    ensures IsScalarValue(Utf8Decode(bytes).value)
    ensures Utf8Encode(Utf8Decode(bytes).value) == bytes
  {
    if |bytes| == 2 {
      Utf8CanonicalTwo(bytes);
    } else if |bytes| == 3 {
      Utf8CanonicalThree(bytes);
    } else if |bytes| == 4 {
      Utf8CanonicalFour(bytes);
    }
  }

  lemma Utf8CanonicalTwo(bytes: seq<Byte>)
    requires |bytes| == 2 && Utf8Decode(bytes).Some?
    ensures IsScalarValue(Utf8Decode(bytes).value)
    ensures Utf8Encode(Utf8Decode(bytes).value) == bytes
  {
    DigitsBase64(Utf8Decode(bytes).value, 0, 0, bytes[0] - 0xC0, bytes[1] - 0x80);
  }

  lemma Utf8CanonicalThree(bytes: seq<Byte>)
    requires |bytes| == 3 && Utf8Decode(bytes).Some?
    ensures IsScalarValue(Utf8Decode(bytes).value)
    ensures Utf8Encode(Utf8Decode(bytes).value) == bytes
  {
    DigitsBase64(Utf8Decode(bytes).value, 0, bytes[0] - 0xE0, bytes[1] - 0x80, bytes[2] - 0x80);
  }

  lemma Utf8CanonicalFour(bytes: seq<Byte>)
    requires |bytes| == 4 && Utf8Decode(bytes).Some?
    ensures IsScalarValue(Utf8Decode(bytes).value)
    ensures Utf8Encode(Utf8Decode(bytes).value) == bytes
  {
    DigitsBase64(Utf8Decode(bytes).value, bytes[0] - 0xF0, bytes[1] - 0x80, bytes[2] - 0x80, bytes[3] - 0x80);
  }

  /** Reading a number back from its base-64 digits. */
  lemma DigitsBase64(v: int, d3: int, d2: int, d1: int, d0: int)
    requires 0 <= d3 && 0 <= d2 < 0x40 && 0 <= d1 < 0x40 && 0 <= d0 < 0x40
    requires v == d3 * 0x4_0000 + d2 * 0x1000 + d1 * 0x40 + d0
    ensures v / 0x4_0000 == d3 && v / 0x1000 % 0x40 == d2 && v / 0x40 % 0x40 == d1 && v % 0x40 == d0
    ensures v / 0x1000 == d3 * 0x40 + d2 && v / 0x40 == (d3 * 0x40 + d2) * 0x40 + d1
  {
    assert v / 0x40 == (d3 * 0x40 + d2) * 0x40 + d1;
    assert v / 0x1000 == d3 * 0x40 + d2;
  }

  /** A string with no lone surrogate: every high surrogate is followed by a
      low one and every low surrogate follows a high one. */
  predicate IsWellFormedUtf16(s: seq<CodeUnit>) {
    forall i :: 0 <= i < |s| ==> IsPairedAt(s, i)
  }

  /** The unit at index `i` is not a surrogate, or is one half of a pair. */
  predicate IsPairedAt(s: seq<CodeUnit>, i: nat)
    requires i < |s|
  {
    && (IsHighSurrogate(s[i]) ==> i + 1 < |s| && IsLowSurrogate(s[i + 1]))
    && (IsLowSurrogate(s[i]) ==> 0 < i && IsHighSurrogate(s[i - 1]))
  }

  lemma WellFormedAfterUnit(s: seq<CodeUnit>)
    requires |s| > 0 && !IsHighSurrogate(s[0]) && !IsLowSurrogate(s[0])
    ensures IsWellFormedUtf16(s) <==> IsWellFormedUtf16(s[1..])
  {
    var t := s[1..];
    if IsWellFormedUtf16(s) {
      forall i | 0 <= i < |t|
        ensures IsPairedAt(t, i)
      {
        assert IsPairedAt(s, i + 1);
        assert t[i] == s[i + 1];
        if i + 1 < |t| { assert t[i + 1] == s[i + 2]; }
        if 0 < i { assert t[i - 1] == s[i]; }
      }
    }
    if IsWellFormedUtf16(t) {
      forall i | 0 <= i < |s|
        ensures IsPairedAt(s, i)
      {
        if 0 < i {
          assert IsPairedAt(t, i - 1);
          assert t[i - 1] == s[i];
          if i + 1 < |s| { assert t[i] == s[i + 1]; }
          if 1 < i { assert t[i - 2] == s[i - 1]; }
        }
      }
    }
  }

  lemma WellFormedAfterPair(s: seq<CodeUnit>)
    requires |s| > 1 && IsHighSurrogate(s[0]) && IsLowSurrogate(s[1])
    ensures IsWellFormedUtf16(s) <==> IsWellFormedUtf16(s[2..])
  {
    var t := s[2..];
    if IsWellFormedUtf16(s) {
      forall i | 0 <= i < |t|
        ensures IsPairedAt(t, i)
      {
        assert IsPairedAt(s, i + 2);
        assert t[i] == s[i + 2];
        if i + 1 < |t| { assert t[i + 1] == s[i + 3]; }
        if 0 < i { assert t[i - 1] == s[i + 1]; }
      }
    }
    if IsWellFormedUtf16(t) {
      forall i | 0 <= i < |s|
        ensures IsPairedAt(s, i)
      {
        if 1 < i {
          assert IsPairedAt(t, i - 2);
          assert t[i - 2] == s[i];
          if i + 1 < |s| { assert t[i - 1] == s[i + 1]; }
          if 2 < i { assert t[i - 3] == s[i - 1]; }
        }
      }
    }
  }

  /** The code units of a Unicode string, each code point written as
      UTF-16: what a JavaScript string holding that text contains. */
  function JsString(s: string): (units: seq<CodeUnit>)
    decreases |s|
  {
    if s == [] then [] else Utf16Encode(s[0] as int) + JsString(s[1..])
  }

  /** A string of Unicode text never holds a lone surrogate. */
  lemma {:induction false} JsStringWellFormed(s: string)
    ensures IsWellFormedUtf16(JsString(s))
    decreases |s|
  {
    if s != [] {
      JsStringWellFormed(s[1..]);
      WellFormedPrepend(s[0] as int, JsString(s[1..]));
    }
  }

  /** The UTF-16 of a scalar value in front of a well-formed string keeps
      it well-formed. */
  lemma WellFormedPrepend(cp: int, rest: seq<CodeUnit>)
    requires IsScalarValue(cp) && IsWellFormedUtf16(rest)
    ensures IsWellFormedUtf16(Utf16Encode(cp) + rest)
  {
    var units := Utf16Encode(cp);
    var t := units + rest;
    if |units| == 1 {
      assert t[1..] == rest;
      WellFormedAfterUnit(t);
    } else {
      assert t[2..] == rest;
      WellFormedAfterPair(t);
    }
  }
}
