/**
  The strings of section 7 of RFC 7159, stated character by character and apart from the scanner: each
  character stands for itself or is escaped, and the scanner takes exactly such strings.
 */
module StringGrammar {
  import opened Arith
  import opened Decimal
  import opened Utf8
  import opened Strings

  // ---- the grammar

  const LOWER_HEX := "0123456789abcdef"
  const UPPER_HEX := "0123456789ABCDEF"

  /** A hexadecimal digit, in either case. */
  predicate IsHex(b: byte, d: int) {
    0 <= d < 16 && (b == LOWER_HEX[d] as int || b == UPPER_HEX[d] as int)
  }

  /** A number in four of them, the highest first. */
  predicate FourHex(t: bytes, v: int) {
    var tens := v / 0x10;
    var hundreds := tens / 0x10;
    && |t| == 4
    && IsHex(t[0], hundreds / 0x10)
    && IsHex(t[1], hundreds % 0x10)
    && IsHex(t[2], tens % 0x10)
    && IsHex(t[3], v % 0x10)
  }

  /** A sixteen-bit unit, written out. */
  predicate SpellsUnit(t: bytes, v: int) {
    |t| == 6 && t[0] == '\\' as int && t[1] == 'u' as int && FourHex(t[2..], v)
  }

  /** The letters that may follow a backslash. */
  predicate SpellsShort(t: bytes, c: int) {
    && |t| == 2 && t[0] == '\\' as int
    && var letter := t[1];
    || (letter == '"' as int && c == 0x22)
    || (letter == '\\' as int && c == 0x5C)
    || (letter == '/' as int && c == 0x2F)
    || (letter == 'b' as int && c == 0x08)
    || (letter == 'f' as int && c == 0x0C)
    || (letter == 'n' as int && c == 0x0A)
    || (letter == 'r' as int && c == 0x0D)
    || (letter == 't' as int && c == 0x09)
  }

  /** A code point beyond the first 0x10000 as a pair of surrogates. */
  predicate SpellsPair(t: bytes, c: int) {
    && |t| == 12 && c >= 0x10000
    && SpellsUnit(t[..6], 0xD800 + (c - 0x10000) / 0x400)
    && SpellsUnit(t[6..], 0xDC00 + (c - 0x10000) % 0x400)
  }

  predicate SpellsItself(t: bytes, c: int)
    requires Scalar(c)
  {
    t == Encode(c) && c >= 0x20 && c != '"' as int && c != '\\' as int
  }

  predicate Spells(t: bytes, c: int) {
    Scalar(c) && (SpellsItself(t, c) || SpellsShort(t, c) || SpellsUnit(t, c) || SpellsPair(t, c))
  }

  /** A character of a string: the bytes it is written with, and its code point. */
  datatype Character = Character(spelling: bytes, c: int)

  predicate LegalString(cs: seq<Character>) {
    forall i | 0 <= i < |cs| :: Spells(cs[i].spelling, cs[i].c)
  }

  /** As it is written, */
  function Spelling(cs: seq<Character>): bytes {
    if cs == [] then [] else cs[0].spelling + Spelling(cs[1..])
  }

  /** and what it stands for, in UTF-8. */
  function Contents(cs: seq<Character>): bytes
    requires LegalString(cs)
  {
    if cs == [] then [] else Encode(cs[0].c) + Contents(cs[1..])
  }

  // ---- hexadecimal digits

  lemma {:induction false} HexValueExactly(b: byte, d: nat)
    ensures IsHex(b, d) <==> HexValue(b) == d
  {
    assert LOWER_HEX[0] == '0' && LOWER_HEX[10] == 'a' && UPPER_HEX[10] == 'A';
  }

  lemma {:induction false} HexValueBound(b: byte)
    ensures HexValue(b) >= 0 ==> HexValue(b) < 16 && IsHex(b, HexValue(b))
  {
    if HexValue(b) >= 0 {
      HexValueExactly(b, HexValue(b));
    }
  }

  lemma {:induction false} FourHexIsRead(t: bytes, v: nat, rest: bytes)
    requires FourHex(t, v)
    ensures HexCodePoint(t + rest) == v
  {
    var tens := v / 0x10;
    var hundreds := tens / 0x10;
    HexValueExactly(t[0], hundreds / 0x10);
    HexValueExactly(t[1], hundreds % 0x10);
    HexValueExactly(t[2], tens % 0x10);
    HexValueExactly(t[3], v % 0x10);
    hide IsHex, HexValue;
    var s := t + rest;
    assert s[0] == t[0] && s[1] == t[1] && s[2] == t[2] && s[3] == t[3];
  }

  lemma {:induction false} Digit(v: nat, q: nat, d: nat)
    requires d < 0x10 && v == 0x10 * q + d
    ensures v / 0x10 == q && v % 0x10 == d
  {}

  lemma {:induction false} FourDigits(t: bytes, v: nat, tens: nat, hundreds: nat, a: nat, b: nat, c: nat, d: nat)
    requires |t| == 4 && a < 16 && b < 16 && c < 16 && d < 16
    requires IsHex(t[0], a) && IsHex(t[1], b) && IsHex(t[2], c) && IsHex(t[3], d)
    requires v == 0x10 * tens + d && tens == 0x10 * hundreds + c && hundreds == 0x10 * a + b
    ensures FourHex(t, v)
  {
    hide IsHex;
    Digit(v, tens, d);
    Digit(tens, hundreds, c);
    Digit(hundreds, a, b);
  }

  lemma {:induction false} ReadIsFourHex(s: bytes)
    requires HexCodePoint(s) != NO_CODEPOINT
    ensures FourHex(s[..4], HexCodePoint(s))
  {
    hide IsHex, HexValue, FourHex;
    var a, b, c, d := HexValue(s[0]), HexValue(s[1]), HexValue(s[2]), HexValue(s[3]);
    HexValueBound(s[0]);
    HexValueBound(s[1]);
    HexValueBound(s[2]);
    HexValueBound(s[3]);
    var hundreds := 0x10 * a + b;
    var tens := 0x10 * hundreds + c;
    FourDigits(s[..4], HexCodePoint(s), tens, hundreds, a, b, c, d);
  }

  // ---- one character

  lemma {:induction false} UnitSpellingRead(t: bytes, v: nat, rest: bytes)
    requires SpellsUnit(t, v)
    ensures var s := t + rest;
            && |s| >= 6 && s[0] == BACKSLASH && s[1] == LETTER_U && HexCodePoint(s[2..]) == v && s[6..] == rest
            && (|s| >= 8 ==> s[8..] == rest[2..] && s[6] == rest[0] && s[7] == rest[1])
  {
    hide FourHex, HexCodePoint;
    FourHexIsRead(t[2..], v, rest);
    assert (t + rest)[2..] == t[2..] + rest;
  }

  lemma {:induction false} PairIs(c: int)
    requires 0x10000 <= c <= 0x10FFFF
    ensures var h, l := 0xD800 + (c - 0x10000) / 0x400, 0xDC00 + (c - 0x10000) % 0x400;
            0xD800 <= h <= 0xDBFF && 0xDC00 <= l <= 0xDFFF && Paired(h, l) == c
  {}

  lemma {:induction false} PairOf(h: int, l: int)
    requires 0xD800 <= h <= 0xDBFF && 0xDC00 <= l <= 0xDFFF
    ensures var c := Paired(h, l);
            0xD800 + (c - 0x10000) / 0x400 == h && 0xDC00 + (c - 0x10000) % 0x400 == l
  {}

  lemma {:induction false} PairRead(s: bytes, h: int, l: int)
    requires |s| >= 8 && s[0] == BACKSLASH && s[1] == LETTER_U && s[6] == BACKSLASH && s[7] == LETTER_U
    requires HexCodePoint(s[2..]) == h && HexCodePoint(s[8..]) == l
    requires 0xD800 <= h <= 0xDBFF && 0xDC00 <= l <= 0xDFFF
    ensures NextUnit(s) == Piece(12, Encode(Paired(h, l)))
  {
    hide HexCodePoint, Encode, Paired, CharLength;
  }

  lemma {:induction false} PairIsUnit(t: bytes, c: int, rest: bytes)
    requires Scalar(c) && SpellsPair(t, c)
    ensures NextUnit(t + rest) == Piece(12, Encode(c))
  {
    hide SpellsUnit, HexCodePoint, Encode, Paired, NextUnit;
    PairIs(c);
    var h, l := 0xD800 + (c - 0x10000) / 0x400, 0xDC00 + (c - 0x10000) % 0x400;
    var more := t[6..] + rest;
    UnitSpellingRead(t[6..], l, rest);
    UnitSpellingRead(t[..6], h, more);
    var s := t[..6] + more;
    assert t + rest == s;
    assert s[6] == more[0] && s[7] == more[1] && more[2..] == s[8..];
    PairRead(s, h, l);
  }

  lemma {:induction false} ItselfIsUnit(t: bytes, c: int, rest: bytes)
    requires Scalar(c) && SpellsItself(t, c)
    ensures NextUnit(t + rest) == Piece(|t|, t)
  {
    DecodeEncode(c, rest);
    LeadByte(t + rest);
    hide CharLength, CodePoint;
    assert (t + rest)[..|t|] == t;
  }

  /** Every character of the grammar is one piece for the scanner, */
  lemma {:induction false} CharacterIsUnit(t: bytes, c: int, rest: bytes)
    requires Spells(t, c)
    ensures NextUnit(t + rest) == Piece(|t|, Encode(c))
  {
    if SpellsItself(t, c) {
      ItselfIsUnit(t, c, rest);
    } else if SpellsShort(t, c) {
      assert (t + rest)[0] == t[0] && (t + rest)[1] == t[1];
    } else if SpellsUnit(t, c) {
      UnitSpellingRead(t, c, rest);
      hide FourHex, HexCodePoint, Encode, CharLength;
      assert c <= 0xFFFF by {
        FourHexIsRead(t[2..], c, rest);
      }
    } else {
      PairIsUnit(t, c, rest);
    }
  }

  lemma {:induction false} PlainIsCharacter(s: bytes)
    requires CharLength(s) > 0 && s[0] >= 0x20 && s[0] != QUOTE && s[0] != BACKSLASH
    ensures SpellsItself(FirstChar(s), CodePoint(s)) && Encode(CodePoint(s)) == FirstChar(s)
  {
    EncodeDecode(s);
    PlainIsHigh(s);
    hide CharLength, CodePoint, Encode;
  }

  lemma {:induction false} PlainIsHigh(s: bytes)
    requires CharLength(s) > 0 && s[0] >= 0x20 && s[0] != QUOTE && s[0] != BACKSLASH
    ensures CodePoint(s) >= 0x20 && CodePoint(s) != QUOTE && CodePoint(s) != BACKSLASH
  {}

  lemma {:induction false} ReadIsSpelling(s: bytes)
    requires |s| >= 2 && s[0] == BACKSLASH && s[1] == LETTER_U && HexCodePoint(s[2..]) != NO_CODEPOINT
    ensures SpellsUnit(s[..6], HexCodePoint(s[2..]))
  {
    ReadIsFourHex(s[2..]);
    hide FourHex, HexCodePoint;
    assert s[2..][..4] == s[..6][2..];
  }

  lemma {:induction false} ReadIsPair(s: bytes)
    requires |s| >= 12 && s[0] == BACKSLASH && s[1] == LETTER_U && s[6] == BACKSLASH && s[7] == LETTER_U
    requires 0xD800 <= HexCodePoint(s[2..]) <= 0xDBFF && 0xDC00 <= HexCodePoint(s[8..]) <= 0xDFFF
    ensures SpellsPair(s[..12], Paired(HexCodePoint(s[2..]), HexCodePoint(s[8..])))
  {
    hide HexCodePoint, Paired, SpellsUnit;
    PairOf(HexCodePoint(s[2..]), HexCodePoint(s[8..]));
    Regroup(s);
    var more := s[6..];
    ReadIsSpelling(s);
    assert more[0] == s[6] && more[1] == s[7] && more[2..] == s[8..];
    ReadIsSpelling(more);
  }

  lemma {:induction false} Regroup(s: bytes)
    requires |s| >= 12
    ensures s[..12][..6] == s[..6] && s[..12][6..] == s[6..][..6]
  {}

  lemma {:induction false} UnicodeIsCharacter(s: bytes) returns (c: int)
    requires |s| >= 2 && s[0] == BACKSLASH && s[1] == LETTER_U && UnicodeUnit(s).Piece?
    ensures var u := UnicodeUnit(s);
            Scalar(c) && u.text == Encode(c) && (SpellsUnit(s[..u.length], c) || SpellsPair(s[..u.length], c))
  {
    hide SpellsUnit, SpellsPair, HexCodePoint, Encode, Paired;
    if 0xD800 <= HexCodePoint(s[2..]) <= 0xDBFF {
      c := Paired(HexCodePoint(s[2..]), HexCodePoint(s[8..]));
      ReadIsPair(s);
    } else {
      c := HexCodePoint(s[2..]);
      ReadIsSpelling(s);
    }
  }

  /** and every piece is a character of the grammar. */
  lemma {:induction false} UnitIsCharacter(s: bytes) returns (c: int)
    requires NextUnit(s).Piece?
    ensures var u := NextUnit(s); Spells(s[..u.length], c) && u.text == Encode(c)
  {
    hide UnicodeUnit, CharLength, CodePoint, SpellsUnit, SpellsPair;
    if s[0] != BACKSLASH {
      c := CodePoint(s);
      PlainIsCharacter(s);
    } else if s[1] == LETTER_U {
      c := UnicodeIsCharacter(s);
      hide Encode;
    } else {
      c := EscapeUnit(s).text[0];
      assert s[..2][0] == s[0] && s[..2][1] == s[1];
    }
  }

  // ---- strings

  lemma {:induction false} StringIsScanned(cs: seq<Character>, rest: bytes)
    requires LegalString(cs)
    ensures ScanText(Spelling(cs) + ['"' as int] + rest) == Text(Contents(cs), |Spelling(cs)| + 1)
    decreases |cs|
  {
    var s := Spelling(cs) + ['"' as int] + rest;
    if cs == [] {
      ClosingUnit(rest);
      assert s == [QUOTE] + rest;
    } else {
      var t, tail := cs[0].spelling, Spelling(cs[1..]) + ['"' as int] + rest;
      assert s == t + tail;
      CharacterIsUnit(t, cs[0].c, tail);
      hide Spells, NextUnit, Encode;
      assert s[|t|..] == tail;
      StringIsScanned(cs[1..], rest);
    }
  }

  lemma {:induction false} StringCons(ch: Character, more: seq<Character>)
    requires Spells(ch.spelling, ch.c) && LegalString(more)
    ensures var cs := [ch] + more;
            LegalString(cs) && Spelling(cs) == ch.spelling + Spelling(more) && Contents(cs) == Encode(ch.c) + Contents(more)
  {
    hide Spells, Encode;
    assert ([ch] + more)[1..] == more;
  }

  lemma {:induction false} ScanStep(s: bytes)
    requires NextUnit(s).Piece? && ScanText(s).Text?
    ensures var u := NextUnit(s);
            var r := ScanText(s[u.length..]);
            r.Text? && ScanText(s) == Text(u.text + r.value, u.length + r.length)
  {
    hide NextUnit;
  }

  lemma {:induction false} TakeTwice(s: bytes, k: nat, n: nat)
    requires k <= |s| && n <= |s| - k
    ensures s[..k + n] == s[..k] + s[k..][..n]
  {}

  lemma {:induction false} ScannedIsString(s: bytes) returns (cs: seq<Character>)
    requires ScanText(s).Text?
    ensures var r := ScanText(s);
            LegalString(cs) && s[..r.length] == Spelling(cs) + ['"' as int] && r.value == Contents(cs)
    decreases |s|
  {
    hide Spells, NextUnit, Encode, Contents, Spelling, LegalString, ScanText;
    var u := NextUnit(s);
    if u.Closing? {
      cs := [];
      ClosingIsQuote(s);
      NoCharacters();
    } else {
      ScanIsGood(s);
      ScanStep(s);
      var c := UnitIsCharacter(s);
      var t, tail := s[..u.length], s[u.length..];
      var more := ScannedIsString(tail);
      cs := [Character(t, c)] + more;
      StringCons(Character(t, c), more);
      TakeTwice(s, u.length, ScanText(tail).length);
    }
  }

  lemma {:induction false} NoCharacters()
    ensures LegalString([]) && Spelling([]) == [] && Contents([]) == []
  {}

  lemma {:induction false} ClosingIsQuote(s: bytes)
    requires NextUnit(s).Closing?
    ensures ScanText(s) == Text([], 1) && s[..1] == ['"' as int]
  {}

  lemma {:induction false} ScanIsGood(s: bytes)
    requires ScanText(s).Text?
    ensures !NextUnit(s).Bad?
  {
    hide NextUnit;
  }

  /** The string takes the first n bytes, behind its opening quote, and stands for v. */
  ghost predicate IsString(s: bytes, n: nat, v: bytes) {
    exists cs :: LegalString(cs) && n <= |s| && s[..n] == Spelling(cs) + ['"' as int] && v == Contents(cs)
  }

  /** The scanner takes exactly the strings of the grammar, and gives what they stand for. */
  lemma {:induction false} ScansExactly(s: bytes, n: nat, v: bytes)
    ensures ScanText(s) == Text(v, n) <==> IsString(s, n, v)
  {
    hide ScanText, LegalString, Spelling, Contents;
    if IsString(s, n, v) {
      var cs :| LegalString(cs) && n <= |s| && s[..n] == Spelling(cs) + ['"' as int] && v == Contents(cs);
      StringIsScanned(cs, s[n..]);
      assert s[..n] + s[n..] == s;
    }
    if ScanText(s) == Text(v, n) {
      var cs := ScannedIsString(s);
    }
  }
}
