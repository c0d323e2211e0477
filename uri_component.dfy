/** `encodeURIComponent` and `decodeURIComponent`, the URI handling
    functions of section 19.2.6 of ECMA-262: percent-encoding as section
    2.1 of RFC 3986 describes it. The encoder keeps the unreserved
    characters `A-Z a-z 0-9 - _ . ! ~ * ' ( )`, writes every other code
    point as the `%XX` triplets of its UTF-8 bytes, and fails with a
    URIError on a lone surrogate. The decoder undoes every triplet. */
module UriComponent {
  import opened Results
  import opened Unicode

  /** The URIError both functions throw. */
  datatype URIError = URIError

  /** Upper-case hexadecimal digits, as the encoder writes them. */
  const HexDigits: string := "0123456789ABCDEF"

  /** The code units `encodeURIComponent` copies unescaped. */
  predicate IsUnreserved(u: int) {
    || 'A' as int <= u <= 'Z' as int
    || 'a' as int <= u <= 'z' as int
    || '0' as int <= u <= '9' as int
    || u == '-' as int || u == '_' as int || u == '.' as int || u == '!' as int
    || u == '~' as int || u == '*' as int || u == '\'' as int
    || u == '(' as int || u == ')' as int
  }

  /** A digit the encoder may write after `%`. */
  predicate IsUpperHexDigit(c: char) {
    '0' <= c <= '9' || 'A' <= c <= 'F'
  }

  /** The value of a hexadecimal digit of either case. */
  function HexValue(c: char): (d: Option<nat>)
    ensures d.Some? ==> d.value < 16
  {
    if '0' <= c <= '9' then Some(c as int - '0' as int)
    else if 'A' <= c <= 'F' then Some(c as int - 'A' as int + 10)
    else if 'a' <= c <= 'f' then Some(c as int - 'a' as int + 10)
    else None
  }

  /** Reading back a digit the encoder writes. */
  lemma HexDigitRoundTrip(d: nat)
    requires d < 16
    ensures IsUpperHexDigit(HexDigits[d]) && HexValue(HexDigits[d]) == Some(d)
  {
  }

  /** The triplet `%XX` for one byte. */
  function EscapeByte(b: Byte): string {
    ['%', HexDigits[b / 16], HexDigits[b % 16]]
  }

  function EscapeBytes(bytes: seq<Byte>): (t: string)
    ensures |t| == 3 * |bytes|
  {
    if bytes == [] then [] else EscapeByte(bytes[0]) + EscapeBytes(bytes[1..])
  }

  /** Text made only of unreserved characters and `%` followed by two
      upper-case hexadecimal digits. */
  predicate IsEscapedComponent(t: string)
    decreases |t|
  {
    || t == []
    || (IsUnreserved(t[0] as int) && IsEscapedComponent(t[1..]))
    || (3 <= |t| && t[0] == '%' && IsUpperHexDigit(t[1]) && IsUpperHexDigit(t[2])
        && IsEscapedComponent(t[3..]))
  }

  /** `encodeURIComponent(s)`: code unit by code unit, an unreserved unit is
      copied, a surrogate pair or any other unit is written as the escaped
      UTF-8 of its code point, and a lone surrogate is a URIError. */
  function EncodeURIComponent(s: seq<CodeUnit>): (r: Result<string, URIError>)
    ensures r.Success? ==> IsEscapedComponent(r.value)
    decreases |s|
  {
    if s == [] then Success([])
    else if IsUnreserved(s[0]) then
      var r := Prepend([s[0] as char], EncodeURIComponent(s[1..]));
      if r.Success? then EscapedConcat([s[0] as char], r.value[1..]); r else r
    else if IsLowSurrogate(s[0]) then Failure(URIError)
    else if IsHighSurrogate(s[0]) then
      if |s| < 2 || !IsLowSurrogate(s[1]) then Failure(URIError)
      else
        var bytes := Utf8Encode(PairToCodePoint(s[0], s[1]));
        var r := Prepend(EscapeBytes(bytes), EncodeURIComponent(s[2..]));
        if r.Success? then EscapedBytesConcat(bytes, r.value[3 * |bytes|..]); r else r
    else
      var bytes := Utf8Encode(s[0]);
      var r := Prepend(EscapeBytes(bytes), EncodeURIComponent(s[1..]));
      if r.Success? then EscapedBytesConcat(bytes, r.value[3 * |bytes|..]); r else r
  }

  /** Reads `n` triplets `%XX` from the front of `t`. */
  function ReadEscapes(t: string, n: nat): (r: Option<seq<Byte>>)
    ensures r.Some? ==> |r.value| == n && 3 * n <= |t|
    decreases n
  {
    if n == 0 then Some([])
    else if 3 <= |t| && t[0] == '%' && HexValue(t[1]).Some? && HexValue(t[2]).Some? then
      match ReadEscapes(t[3..], n - 1)
      case None => None
      case Some(rest) => Some([HexValue(t[1]).value * 16 + HexValue(t[2]).value] + rest)
    else None
  }

  /** `decodeURIComponent(t)`: a character other than `%` stands for itself;
      a triplet below 0x80 for that code unit; a lead byte of n ones must be
      followed by n - 1 more triplets that together are the well-formed UTF-8
      of one code point, which is written as UTF-16. Anything else is a
      URIError. A decoded string never holds a lone surrogate. */
  function DecodeURIComponent(t: string): (r: Result<seq<CodeUnit>, URIError>)
    ensures r.Success? ==> IsWellFormedUtf16(r.value)
    decreases |t|
  {
    if t == [] then Success([])
    else if t[0] != '%' then
      PrependWellFormed(t[0] as int, Utf16Encode(t[0] as int), DecodeURIComponent(t[1..]));
      Prepend(Utf16Encode(t[0] as int), DecodeURIComponent(t[1..]))
    else
      match ReadEscapes(t, 1)
      case None => Failure(URIError)
      case Some(lead) =>
        var n := LeadingOnes(lead[0]);
        if n == 0 then
          PrependWellFormed(lead[0], [lead[0]], DecodeURIComponent(t[3..]));
          Prepend([lead[0]], DecodeURIComponent(t[3..]))
        else if n == 1 || n > 4 then Failure(URIError)
        else
          match ReadEscapes(t[3..], n - 1)
          case None => Failure(URIError)
          case Some(trail) =>
            match Utf8Decode(lead + trail)
            case None => Failure(URIError)
            case Some(cp) =>
              Utf8DecodeOnlyCanonical(lead + trail);
              PrependWellFormed(cp, Utf16Encode(cp), DecodeURIComponent(t[3 * n..]));
              Prepend(Utf16Encode(cp), DecodeURIComponent(t[3 * n..]))
  }

  /** Prepending the UTF-16 of a scalar value to a well-formed decoding
      keeps it well-formed. */
  lemma PrependWellFormed(cp: int, units: seq<CodeUnit>, rest: Result<seq<CodeUnit>, URIError>)
    requires IsScalarValue(cp) && units == Utf16Encode(cp)
    requires rest.Success? ==> IsWellFormedUtf16(rest.value)
    ensures Prepend(units, rest).Success? ==> IsWellFormedUtf16(Prepend(units, rest).value)
  {
    if rest.Success? {
      WellFormedPrepend(cp, rest.value);
    }
  }

  lemma {:induction false} EscapedConcat(a: string, b: string)
    requires IsEscapedComponent(a) && IsEscapedComponent(b)
    ensures IsEscapedComponent(a + b)
    decreases |a|
  {
    if a == [] {
      assert a + b == b;
    } else if IsUnreserved(a[0] as int) {
      EscapedConcat(a[1..], b);
      DropConcat(a, b, 1);
    } else {
      EscapedConcat(a[3..], b);
      DropConcat(a, b, 3);
    }
  }

  lemma DropConcat<T>(a: seq<T>, b: seq<T>, k: nat)
    requires k <= |a|
    ensures (a + b)[..k] == a[..k] && (a + b)[k..] == a[k..] + b
  {
  }


  lemma {:induction false} EscapeBytesIsEscaped(bytes: seq<Byte>)
    ensures IsEscapedComponent(EscapeBytes(bytes))
    decreases |bytes|
  {
    if bytes != [] {
      var t := EscapeBytes(bytes);
      EscapeBytesIsEscaped(bytes[1..]);
      HexDigitRoundTrip(bytes[0] / 16);
      HexDigitRoundTrip(bytes[0] % 16);
      assert t[3..] == EscapeBytes(bytes[1..]);
    }
  }

  lemma EscapedBytesConcat(bytes: seq<Byte>, b: string)
    requires IsEscapedComponent(b)
    ensures IsEscapedComponent(EscapeBytes(bytes) + b)
  {
    EscapeBytesIsEscaped(bytes);
    EscapedConcat(EscapeBytes(bytes), b);
  }

  /** Reading back escaped bytes gives the bytes, whatever follows them. */
  lemma {:induction false} ReadEscapesOfEscaped(bytes: seq<Byte>, rest: string)
    ensures ReadEscapes(EscapeBytes(bytes) + rest, |bytes|) == Some(bytes)
    decreases |bytes|
  {
    if bytes != [] {
      var tail := EscapeBytes(bytes[1..]) + rest;
      assert EscapeBytes(bytes) + rest == EscapeByte(bytes[0]) + tail;
      ReadEscapesOfEscaped(bytes[1..], rest);
      ReadEscapeByte(bytes[0], tail, |bytes| - 1);
      assert [bytes[0]] + bytes[1..] == bytes;
    }
  }

  /** Reading one triplet the encoder wrote gives back its byte. */
  lemma ReadEscapeByte(b: Byte, tail: string, n: nat)
    ensures ReadEscapes(EscapeByte(b) + tail, n + 1)
         == if ReadEscapes(tail, n).Some? then Some([b] + ReadEscapes(tail, n).value) else None
  {
    var t := EscapeByte(b) + tail;
    assert t[0] == '%' && t[1] == HexDigits[b / 16] && t[2] == HexDigits[b % 16] && t[3..] == tail;
    assert HexValue(t[1]) == Some(b / 16) by { HexDigitRoundTrip(b / 16); }
    assert HexValue(t[2]) == Some(b % 16) by { HexDigitRoundTrip(b % 16); }
    assert (b / 16) * 16 + b % 16 == b;
  }

  lemma DecodeEscapedCodePoint(cp: int, rest: string)
    requires IsScalarValue(cp)
    ensures DecodeURIComponent(EscapeBytes(Utf8Encode(cp)) + rest)
         == Prepend(Utf16Encode(cp), DecodeURIComponent(rest))
  {
    var bytes := Utf8Encode(cp);
    var n := |bytes|;
    var t := EscapeBytes(bytes) + rest;
    var trail := EscapeBytes(bytes[1..]) + rest;
    EscapedLead(bytes, rest);
    if n == 1 {
      assert trail == rest;
      DecodeSingleByte(t, bytes[0]);
    } else {
      assert ReadEscapes(trail, n - 1) == Some(bytes[1..]) by {
        ReadEscapesOfEscaped(bytes[1..], rest);
      }
      assert Utf8Decode([bytes[0]] + bytes[1..]) == Some(cp) by {
        assert [bytes[0]] + bytes[1..] == bytes;
        Utf8RoundTrip(cp);
      }
      assert t[3 * n..] == rest;
      DecodeMultiByte(t, [bytes[0]], bytes[1..], cp);
    }
  }

  /** The first triplet of escaped bytes reads back as the first byte. */
  lemma EscapedLead(bytes: seq<Byte>, rest: string)
    requires |bytes| >= 1
    ensures ReadEscapes(EscapeBytes(bytes) + rest, 1) == Some([bytes[0]])
    ensures (EscapeBytes(bytes) + rest)[3..] == EscapeBytes(bytes[1..]) + rest
  {
    var t := EscapeBytes(bytes) + rest;
    var trail := EscapeBytes(bytes[1..]) + rest;
    assert EscapeBytes(bytes) == EscapeByte(bytes[0]) + EscapeBytes(bytes[1..]);
    assert t == EscapeByte(bytes[0]) + trail;
    ReadEscapeByte(bytes[0], trail, 0);
    assert ReadEscapes(trail, 0) == Some([]);
    assert [bytes[0]] + [] == [bytes[0]];
  }

  /** A triplet below 0x80 decodes to that code unit. */
  lemma DecodeSingleByte(t: string, b: Byte)
    requires ReadEscapes(t, 1) == Some([b]) && b < 0x80
    ensures DecodeURIComponent(t) == Prepend([b], DecodeURIComponent(t[3..]))
  {
    assert t[0] == '%';
  }

  /** A lead triplet of n ones followed by n - 1 triplets that together form
      the UTF-8 of `cp` decodes to the UTF-16 of `cp`. */
  lemma DecodeMultiByte(t: string, lead: seq<Byte>, trail: seq<Byte>, cp: int)
    requires |lead| == 1 && ReadEscapes(t, 1) == Some(lead)
    requires LeadingOnes(lead[0]) == |trail| + 1 && 1 <= |trail| <= 3
    requires ReadEscapes(t[3..], |trail|) == Some(trail)
    requires Utf8Decode(lead + trail) == Some(cp)
    ensures 3 * (|trail| + 1) <= |t|
    ensures DecodeURIComponent(t)
         == Prepend(Utf16Encode(cp), DecodeURIComponent(t[3 * (|trail| + 1)..]))
  {
    assert t[0] == '%';
  }

  /** Percent-decoding undoes `encodeURIComponent`: whenever the encoder
      succeeds, decoding its output gives back the original code units. */
  lemma {:induction false} DecodeEncode(s: seq<CodeUnit>)
    requires EncodeURIComponent(s).Success?
    ensures DecodeURIComponent(EncodeURIComponent(s).value) == Success(s)
    decreases |s|
  {
    if s != [] {
      if IsUnreserved(s[0]) {
        DecodeEncode(s[1..]);
        DecodeEncodeUnreserved(s);
      } else if IsHighSurrogate(s[0]) {
        DecodeEncode(s[2..]);
        DecodeEncodePair(s);
      } else {
        DecodeEncode(s[1..]);
        DecodeEncodeEscapedUnit(s);
      }
    }
  }

  lemma DecodeEncodeUnreserved(s: seq<CodeUnit>)
    requires |s| > 0 && IsUnreserved(s[0])
    requires EncodeURIComponent(s[1..]).Success?
    requires DecodeURIComponent(EncodeURIComponent(s[1..]).value) == Success(s[1..])
    ensures EncodeURIComponent(s).Success?
    ensures DecodeURIComponent(EncodeURIComponent(s).value) == Success(s)
  {
    var rest := EncodeURIComponent(s[1..]).value;
    var e := EncodeURIComponent(s).value;
    assert e == [s[0] as char] + rest;
    assert e[0] != '%' && e[1..] == rest;
    assert Utf16Encode(e[0] as int) == [s[0]];
    assert s == [s[0]] + s[1..];
  }

  lemma DecodeEncodePair(s: seq<CodeUnit>)
    requires |s| > 1 && IsHighSurrogate(s[0]) && IsLowSurrogate(s[1])
    requires EncodeURIComponent(s[2..]).Success?
    requires DecodeURIComponent(EncodeURIComponent(s[2..]).value) == Success(s[2..])
    ensures EncodeURIComponent(s).Success?
    ensures DecodeURIComponent(EncodeURIComponent(s).value) == Success(s)
  {
    var rest := EncodeURIComponent(s[2..]).value;
    var e := EscapeBytes(Utf8Encode(PairToCodePoint(s[0], s[1]))) + rest;
    assert EncodeURIComponent(s) == Success(e) by { EncodePairUnfold(s); }
    assert DecodeURIComponent(e) == Success([s[0], s[1]] + s[2..]) by {
      DecodeEscapedPair(s[0], s[1], rest, s[2..]);
    }
    SplitFirstTwo(s);
  }

  lemma SplitFirstTwo<T>(s: seq<T>)
    requires |s| >= 2
    ensures [s[0], s[1]] + s[2..] == s
  {
  }

  /** The escaped UTF-8 of a surrogate pair decodes back to the pair. */
  lemma DecodeEscapedPair(hi: CodeUnit, lo: CodeUnit, rest: string, tail: seq<CodeUnit>)
    requires IsHighSurrogate(hi) && IsLowSurrogate(lo)
    requires DecodeURIComponent(rest) == Success(tail)
    ensures DecodeURIComponent(EscapeBytes(Utf8Encode(PairToCodePoint(hi, lo))) + rest)
         == Success([hi, lo] + tail)
  {
    DecodeEscapedCodePoint(PairToCodePoint(hi, lo), rest);
    Utf16EncodePair(hi, lo);
  }

  lemma EncodePairUnfold(s: seq<CodeUnit>)
    requires |s| > 1 && IsHighSurrogate(s[0]) && IsLowSurrogate(s[1])
    ensures EncodeURIComponent(s)
         == Prepend(EscapeBytes(Utf8Encode(PairToCodePoint(s[0], s[1]))), EncodeURIComponent(s[2..]))
  {
  }

  lemma DecodeEncodeEscapedUnit(s: seq<CodeUnit>)
    requires |s| > 0 && !IsUnreserved(s[0]) && !IsHighSurrogate(s[0]) && !IsLowSurrogate(s[0])
    requires EncodeURIComponent(s[1..]).Success?
    requires DecodeURIComponent(EncodeURIComponent(s[1..]).value) == Success(s[1..])
    ensures EncodeURIComponent(s).Success?
    ensures DecodeURIComponent(EncodeURIComponent(s).value) == Success(s)
  {
    var rest := EncodeURIComponent(s[1..]).value;
    assert EncodeURIComponent(s).value == EscapeBytes(Utf8Encode(s[0])) + rest;
    DecodeEscapedCodePoint(s[0], rest);
    assert s == [s[0]] + s[1..];
  }

  /** `encodeURIComponent` fails exactly on the strings that hold a lone
      surrogate. */
  lemma {:induction false} EncodeSucceedsIffWellFormed(s: seq<CodeUnit>)
    ensures EncodeURIComponent(s).Success? <==> IsWellFormedUtf16(s)
    decreases |s|
  {
    if s != [] {
      if IsLowSurrogate(s[0]) {
        assert !IsPairedAt(s, 0);
      } else if IsHighSurrogate(s[0]) {
        if |s| < 2 || !IsLowSurrogate(s[1]) {
          assert !IsPairedAt(s, 0);
        } else {
          EncodeSucceedsIffWellFormed(s[2..]);
          WellFormedAfterPair(s);
        }
      } else {
        EncodeSucceedsIffWellFormed(s[1..]);
        WellFormedAfterUnit(s);
      }
    }
  }

  /** How one code point of Unicode text appears in the output: itself when
      unreserved, otherwise its escaped UTF-8. */
  function EscapeCodePoint(cp: int): string
    requires IsScalarValue(cp)
  {
    if IsUnreserved(cp) then [cp as char] else EscapeBytes(Utf8Encode(cp))
  }

  /** Text escaped code point by code point. */
  function EscapeText(text: string): string
    decreases |text|
  {
    if text == [] then [] else EscapeCodePoint(text[0] as int) + EscapeText(text[1..])
  }

  /** On the code units of Unicode text the encoder works code point by code
      point: it never fails, and its output is EscapeText. */
  lemma {:induction false} EncodeText(text: string)
    ensures EncodeURIComponent(JsString(text)) == Success(EscapeText(text))
    decreases |text|
  {
    if text != [] {
      EncodeText(text[1..]);
      EncodeCodePointThen(text[0] as int, JsString(text[1..]));
    }
  }

  /** The encoder's step over the units of one code point. */
  lemma EncodeCodePointThen(cp: int, rest: seq<CodeUnit>)
    requires IsScalarValue(cp)
    ensures EncodeURIComponent(Utf16Encode(cp) + rest)
         == Prepend(EscapeCodePoint(cp), EncodeURIComponent(rest))
  {
    var units := Utf16Encode(cp);
    var s := units + rest;
    if |units| == 1 {
      assert s[0] == cp && s[1..] == rest;
    } else {
      assert s[0] == units[0] && s[1] == units[1] && s[2..] == rest;
    }
  }

  lemma {:induction false} EscapeTextConcat(a: string, b: string)
    ensures EscapeText(a + b) == EscapeText(a) + EscapeText(b)
    decreases |a|
  {
    if a != [] {
      assert (a + b)[0] == a[0] && (a + b)[1..] == a[1..] + b;
      EscapeTextConcat(a[1..], b);
    } else {
      assert a + b == b;
    }
  }

  /** Text made of unreserved characters only. */
  predicate IsUnreservedText(text: string)
    decreases |text|
  {
    text == [] || (IsUnreserved(text[0] as int) && IsUnreservedText(text[1..]))
  }

  /** Text of unreserved characters only is copied unchanged. */
  lemma {:induction false} EscapeUnreservedText(text: string)
    requires IsUnreservedText(text)
    ensures EscapeText(text) == text
    decreases |text|
  {
    if text != [] {
      EscapeUnreservedText(text[1..]);
      assert text == [text[0]] + text[1..];
    }
  }
}
