/**
  JSON string literals: escaping, as the serializer does it, and scanning, as the lexer does it.
 */
module Strings {
  import opened Arith
  import opened Decimal
  import opened Utf8

  const TRUE_TEXT: bytes := ['t' as int, 'r' as int, 'u' as int, 'e' as int]
  const FALSE_TEXT: bytes := ['f' as int, 'a' as int, 'l' as int, 's' as int, 'e' as int]
  const NULL_TEXT: bytes := ['n' as int, 'u' as int, 'l' as int, 'l' as int]

  const QUOTE: byte := 0x22
  const BACKSLASH: byte := 0x5C
  const LETTER_U: byte := 'u' as int

  // ---- escaping

  function HexDigit(d: nat): byte
    requires d < 16
  {
    if d < 10 then DIGIT_0 + d else 0x57 + d
  }

  /** Four lower-case hexadecimal digits. */
  function Hex4(v: nat): (s: bytes)
    requires v < 0x10000
    ensures |s| == 4
  {
    var q1 := v / 0x10;
    var q2 := q1 / 0x10;
    var q3 := q2 / 0x10;
    [HexDigit(q3), HexDigit(q2 % 0x10), HexDigit(q1 % 0x10), HexDigit(v % 0x10)]
  }

  function UnicodeEscape(v: nat): (s: bytes)
    requires v < 0x10000
    ensures |s| == 6
  {
    [BACKSLASH, LETTER_U] + Hex4(v)
  }

  /** The letter after the backslash in a two-character escape, or 0. */
  function ShortEscape(c: nat): byte {
    if c == 0x08 then 'b' as int
    else if c == 0x09 then 't' as int
    else if c == 0x0A then 'n' as int
    else if c == 0x0C then 'f' as int
    else if c == 0x0D then 'r' as int
    else if c == QUOTE then QUOTE
    else if c == BACKSLASH then BACKSLASH
    else 0
  }

  predicate NeedsUnicodeEscape(c: nat, ensureAscii: bool) {
    c <= 0x1F || (ensureAscii && c >= 0x7F)
  }

  function HighSurrogate(c: nat): nat {
    0xD7C0 + c / 0x400
  }

  function LowSurrogate(c: nat): nat {
    0xDC00 + c % 0x400
  }

  /** The text of one character. */
  function EscapeChar(c: nat, raw: bytes, ensureAscii: bool): bytes
    requires Scalar(c)
  {
    if ShortEscape(c) != 0 then [BACKSLASH, ShortEscape(c)]
    else if NeedsUnicodeEscape(c, ensureAscii) then
      if c <= 0xFFFF then UnicodeEscape(c)
      else UnicodeEscape(HighSurrogate(c)) + UnicodeEscape(LowSurrogate(c))
    else raw
  }

  function FirstChar(s: bytes): bytes {
    s[..CharLength(s)]
  }

  function Escaped(s: bytes, ensureAscii: bool): bytes
    requires WellFormed(s)
  {
    if s == [] then []
    else EscapeChar(CodePoint(s), FirstChar(s), ensureAscii) + Escaped(s[CharLength(s)..], ensureAscii)
  }

  // ---- scanning

  function HexValue(c: int): int {
    if 0x30 <= c <= 0x39 then c - 0x30
    else if 0x41 <= c <= 0x46 then c - 0x37
    else if 0x61 <= c <= 0x66 then c - 0x57
    else -1
  }

  const NO_CODEPOINT := -1

  /** The number written in four hexadecimal digits. */
  function HexCodePoint(s: bytes): (c: int)
    ensures c == NO_CODEPOINT || (|s| >= 4 && 0 <= c <= 0xFFFF)
  {
    if |s| < 4 || HexValue(s[0]) < 0 || HexValue(s[1]) < 0 || HexValue(s[2]) < 0 || HexValue(s[3]) < 0 then NO_CODEPOINT
    else 0x1000 * HexValue(s[0]) + 0x100 * HexValue(s[1]) + 0x10 * HexValue(s[2]) + HexValue(s[3])
  }

  /** What comes next in a literal: a piece of its value, the closing quote, or an error. */
  datatype Unit = Piece(length: nat, text: bytes) | Closing | Bad

  function UnicodeUnit(s: bytes): (u: Unit)
    requires |s| >= 2
    ensures !u.Closing? && (u.Piece? ==> 6 <= u.length <= |s| && WellFormed(u.text))
  {
    var c := HexCodePoint(s[2..]);
    if c == NO_CODEPOINT || 0xDC00 <= c <= 0xDFFF then Bad
    else if 0xD800 <= c <= 0xDBFF then
      if |s| < 8 || s[6] != BACKSLASH || s[7] != LETTER_U then Bad
      else
        var d := HexCodePoint(s[8..]);
        if 0xDC00 <= d <= 0xDFFF then
          EncodeWellFormed(Paired(c, d));
          Piece(12, Encode(Paired(c, d)))
        else Bad
    else
      EncodeWellFormed(c);
      Piece(6, Encode(c))
  }

  function Paired(high: int, low: int): (c: int)
    requires 0xD800 <= high <= 0xDBFF && 0xDC00 <= low <= 0xDFFF
    ensures 0x10000 <= c <= 0x10FFFF
  {
    high * 0x400 + low - 0x35FDC00
  }

  lemma {:induction false} EncodeWellFormed(c: int)
    requires Scalar(c)
    ensures WellFormed(Encode(c)) && CharLength(Encode(c)) == |Encode(c)|
  {
    DecodeEncode(c, []);
    hide CharLength, Encode;
    assert Encode(c) + [] == Encode(c);
  }

  function EscapeUnit(s: bytes): (u: Unit)
    requires |s| >= 2
    ensures !u.Closing? && (u.Piece? ==> 0 < u.length <= |s| && WellFormed(u.text))
  {
    var c := s[1];
    if c == LETTER_U then UnicodeUnit(s)
    else if c == QUOTE || c == BACKSLASH || c == '/' as int then Piece(2, [c])
    else if c == 'b' as int then Piece(2, [0x08])
    else if c == 'f' as int then Piece(2, [0x0C])
    else if c == 'n' as int then Piece(2, [0x0A])
    else if c == 'r' as int then Piece(2, [0x0D])
    else if c == 't' as int then Piece(2, [0x09])
    else Bad
  }

  function NextUnit(s: bytes): (u: Unit)
    ensures u.Piece? ==> 0 < u.length <= |s| && WellFormed(u.text)
    ensures u.Closing? ==> s != []
  {
    if s == [] || s[0] <= 0x1F then Bad
    else if s[0] == QUOTE then Closing
    else if s[0] == BACKSLASH then (if |s| < 2 then Bad else EscapeUnit(s))
    else if CharLength(s) > 0 then
      FirstCharWellFormed(s);
      Piece(CharLength(s), FirstChar(s))
    else Bad
  }

  lemma {:induction false} FirstCharWellFormed(s: bytes)
    requires CharLength(s) > 0
    ensures WellFormed(FirstChar(s)) && CharLength(FirstChar(s)) == CharLength(s)
  {
    CharPrefixes(s, CharLength(s));
    hide CharLength;
  }

  datatype Scanned = Text(value: bytes, length: nat) | BadText

  /** The literal after its opening quote; the length includes the closing quote. */
  function ScanText(s: bytes): (r: Scanned)
    ensures r.Text? ==> 0 < r.length <= |s|
    decreases |s|
  {
    match NextUnit(s)
    case Bad => BadText
    case Closing => Text([], 1)
    case Piece(n, t) =>
      match ScanText(s[n..])
      case BadText => BadText
      case Text(v, m) => Text(t + v, n + m)
  }

  // ---- every scanned text is well formed

  lemma {:induction false} WellFormedConcat(s: bytes, t: bytes)
    requires WellFormed(s) && WellFormed(t)
    ensures WellFormed(s + t)
    decreases |s|
  {
    if s == [] {
      assert s + t == t;
    } else {
      FirstOfConcat(s, t);
      hide CharLength;
      WellFormedConcat(s[CharLength(s)..], t);
    }
  }

  lemma {:induction false} FirstOfConcat(s: bytes, t: bytes)
    requires CharLength(s) > 0
    ensures CharLength(s + t) == CharLength(s) && CodePoint(s + t) == CodePoint(s) && FirstChar(s + t) == FirstChar(s)
    ensures (s + t)[CharLength(s)..] == s[CharLength(s)..] + t
  {
    assert (s + t)[..|s|] == s;
    CharPrefixes(s + t, |s|);
    hide CharLength, CodePoint;
  }

  lemma {:induction false} ScannedIsWellFormed(s: bytes)
    requires ScanText(s).Text?
    ensures WellFormed(ScanText(s).value)
    decreases |s|
  {
    var u := NextUnit(s);
    hide NextUnit, CharLength;
    if u.Piece? {
      ScannedIsWellFormed(s[u.length..]);
      WellFormedConcat(u.text, ScanText(s[u.length..]).value);
    }
  }

  // ---- scanning undoes escaping

  lemma {:induction false} HexRoundTrip(v: nat, rest: bytes)
    requires v < 0x10000
    ensures HexCodePoint(Hex4(v) + rest) == v
  {
    hide HexDigit, HexValue;
    var q1 := v / 0x10;
    var q2 := q1 / 0x10;
    var q3 := q2 / 0x10;
    HexDigits(q3, q2 % 0x10, q1 % 0x10, v % 0x10, rest);
  }

  lemma {:induction false} HexDigits(a: nat, b: nat, c: nat, d: nat, rest: bytes)
    requires a < 16 && b < 16 && c < 16 && d < 16
    ensures HexCodePoint([HexDigit(a), HexDigit(b), HexDigit(c), HexDigit(d)] + rest) == 0x1000 * a + 0x100 * b + 0x10 * c + d
  {
    HexDigitValue(a);
    HexDigitValue(b);
    HexDigitValue(c);
    HexDigitValue(d);
    hide HexDigit, HexValue;
    var s := [HexDigit(a), HexDigit(b), HexDigit(c), HexDigit(d)] + rest;
    assert s[0] == HexDigit(a) && s[1] == HexDigit(b) && s[2] == HexDigit(c) && s[3] == HexDigit(d);
  }

  lemma {:induction false} HexDigitValue(d: nat)
    requires d < 16
    ensures HexValue(HexDigit(d)) == d
  {}

  lemma {:induction false} Surrogates(c: nat)
    requires 0x10000 <= c <= 0x10FFFF
    ensures 0xD800 <= HighSurrogate(c) <= 0xDBFF && 0xDC00 <= LowSurrogate(c) <= 0xDFFF
    ensures Paired(HighSurrogate(c), LowSurrogate(c)) == c
  {}

  lemma {:induction false} UnicodeUnitOf(c: nat, rest: bytes)
    requires Scalar(c) && c <= 0xFFFF
    ensures UnicodeUnit(UnicodeEscape(c) + rest) == Piece(6, Encode(c))
  {
    hide Hex4, HexCodePoint, Encode;
    assert (UnicodeEscape(c) + rest)[2..] == Hex4(c) + rest;
    HexRoundTrip(c, rest);
  }

  lemma {:induction false} SurrogateUnitOf(c: nat, rest: bytes)
    requires 0x10000 <= c <= 0x10FFFF
    ensures UnicodeUnit(UnicodeEscape(HighSurrogate(c)) + UnicodeEscape(LowSurrogate(c)) + rest) == Piece(12, Encode(c))
  {
    Surrogates(c);
    hide HighSurrogate, LowSurrogate, UnicodeEscape, UnicodeUnit, Encode;
    PairUnit(HighSurrogate(c), LowSurrogate(c), rest);
  }

  lemma {:induction false} EscapePieces(v: nat, more: bytes)
    requires v < 0x10000 && |more| >= 2
    ensures var s := UnicodeEscape(v) + more;
            && s[0] == BACKSLASH && s[1] == LETTER_U
            && HexCodePoint(s[2..]) == v && s[6..] == more && s[8..] == more[2..]
  {
    hide Hex4, HexCodePoint;
    HexRoundTrip(v, more);
    assert (UnicodeEscape(v) + more)[2..] == Hex4(v) + more;
  }

  lemma {:induction false} PairUnit(h: nat, l: nat, rest: bytes)
    requires 0xD800 <= h <= 0xDBFF && 0xDC00 <= l <= 0xDFFF
    ensures UnicodeUnit(UnicodeEscape(h) + UnicodeEscape(l) + rest) == Piece(12, Encode(Paired(h, l)))
  {
    var second := UnicodeEscape(l) + rest;
    var s := UnicodeEscape(h) + UnicodeEscape(l) + rest;
    assert s == UnicodeEscape(h) + second;
    EscapePieces(h, second);
    hide Hex4, HexCodePoint, Encode, Paired;
    assert second[2..] == Hex4(l) + rest;
    HexRoundTrip(l, rest);
    assert second[0] == BACKSLASH && second[1] == LETTER_U;
    assert s[6] == second[0] && s[7] == second[1];
  }

  /** One escaped character is one piece. */
  lemma {:induction false} UnitOfChar(s: bytes, ensureAscii: bool, rest: bytes)
    requires CharLength(s) > 0
    ensures var e := EscapeChar(CodePoint(s), FirstChar(s), ensureAscii);
            NextUnit(e + rest) == Piece(|e|, FirstChar(s))
  {
    var c := CodePoint(s);
    var e := EscapeChar(c, FirstChar(s), ensureAscii);
    EncodeDecode(s);
    if ShortEscape(c) != 0 {
      assert (e + rest)[0] == BACKSLASH && (e + rest)[1] == ShortEscape(c);
      assert FirstChar(s) == [c];
    } else if NeedsUnicodeEscape(c, ensureAscii) {
      hide CodePoint, CharLength, Encode, Hex4;
      if c <= 0xFFFF {
        UnicodeUnitOf(c, rest);
      } else {
        SurrogateUnitOf(c, rest);
      }
      assert (e + rest)[0] == BACKSLASH && (e + rest)[1] == LETTER_U;
    } else {
      PlainUnit(s, rest);
    }
  }

  lemma {:induction false} PlainUnit(s: bytes, rest: bytes)
    requires CharLength(s) > 0 && CodePoint(s) > 0x1F && CodePoint(s) != QUOTE && CodePoint(s) != BACKSLASH
    ensures NextUnit(FirstChar(s) + rest) == Piece(|FirstChar(s)|, FirstChar(s))
  {
    var e := FirstChar(s);
    FirstCharWellFormed(s);
    CharPrefixes(e + rest, |e|);
    assert (e + rest)[..|e|] == e;
    assert (e + rest)[0] == s[0];
    LeadByte(s);
    hide CharLength, CodePoint;
  }

  lemma {:induction false} LeadByte(s: bytes)
    requires CharLength(s) > 0
    ensures s[0] == CodePoint(s) || s[0] >= 0x80
  {}

  lemma {:induction false} ScanEscaped(s: bytes, ensureAscii: bool, rest: bytes)
    requires WellFormed(s)
    ensures var e := Escaped(s, ensureAscii);
            ScanText(e + [QUOTE] + rest) == Text(s, |e| + 1)
    decreases |s|
  {
    hide EscapeChar, CharLength, CodePoint, NextUnit;
    var e := Escaped(s, ensureAscii);
    if s == [] {
      ClosingUnit(rest);
      assert e + [QUOTE] + rest == [QUOTE] + rest;
    } else {
      var n := CharLength(s);
      var c, tail := EscapeChar(CodePoint(s), FirstChar(s), ensureAscii), Escaped(s[n..], ensureAscii);
      UnitOfChar(s, ensureAscii, tail + [QUOTE] + rest);
      assert e + [QUOTE] + rest == c + (tail + [QUOTE] + rest);
      assert (e + [QUOTE] + rest)[|c|..] == tail + [QUOTE] + rest;
      ScanEscaped(s[n..], ensureAscii, rest);
      assert FirstChar(s) + s[n..] == s;
    }
  }

  lemma {:induction false} ClosingUnit(rest: bytes)
    ensures NextUnit([QUOTE] + rest) == Closing
  {}

  // ---- ensure_ascii

  predicate Printable(s: bytes) {
    forall i | 0 <= i < |s| :: 0x20 <= s[i] <= 0x7E
  }

  lemma {:induction false} EscapeCharPrintable(s: bytes)
    requires CharLength(s) > 0
    ensures Printable(EscapeChar(CodePoint(s), FirstChar(s), true))
  {
    var c := CodePoint(s);
    if ShortEscape(c) == 0 && !NeedsUnicodeEscape(c, true) {
      LeadByte(s);
      assert FirstChar(s) == [c];
    }
  }

  /** With ensure_ascii the text is printable ASCII. */
  lemma {:induction false} EscapedPrintable(s: bytes)
    requires WellFormed(s)
    ensures Printable(Escaped(s, true))
    decreases |s|
  {
    hide CharLength, CodePoint, EscapeChar;
    if s != [] {
      EscapeCharPrintable(s);
      EscapedPrintable(s[CharLength(s)..]);
    }
  }
}
