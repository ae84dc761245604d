/**
  The lexer: a cursor over the input, a token buffer, and one scanning method per kind of token, proved
  against a function from the rest of the input to the next token.
 */
module Lexer {
  import opened Arith
  import opened Decimal
  import opened Utf8
  import opened Strings
  import N = NumberToken

  const EOF := -1

  datatype Token =
    | EndOfInput | ParseError
    | BeginArray | EndArray | BeginObject | EndObject | NameSeparator | ValueSeparator
    | LiteralTrue | LiteralFalse | LiteralNull
    | StringToken(s: bytes)
    | UnsignedToken(u: uint64)
    | IntegerToken(i: int64)
    | FloatToken(bits: uint64)

  /** Conversion of a decimal text to the bits of a double; the C library's strtod in the source. */
  type Reader = bytes -> uint64

  // ---- the next token, as a function of the input

  predicate IsSpace(c: int) {
    c == 0x20 || c == 0x09 || c == 0x0A || c == 0x0D
  }

  function SkipSpace(s: bytes): (r: bytes)
    ensures |r| <= |s| && (r == [] || !IsSpace(r[0]))
  {
    if s != [] && IsSpace(s[0]) then SkipSpace(s[1..]) else s
  }

  /** The value of a scanned number; an integer that does not fit 64 bits becomes a float. */
  function NumberValueToken(kind: N.NumberKind, text: bytes, reader: Reader): Token {
    var m := N.Read(N.NOTHING_READ, text).mantissa;
    match kind
    case UnsignedKind => if m < TWO_64 then UnsignedToken(m) else FloatToken(reader(text))
    case IntegerKind => if m <= TWO_63 then IntegerToken(0 - m) else FloatToken(reader(text))
    case FloatKind => FloatToken(reader(text))
  }

  function Expect(s: bytes, text: bytes, t: Token): (r: (Token, bytes))
    requires s != [] && text != []
    ensures |r.1| < |s|
  {
    if text <= s then (t, s[|text|..]) else (ParseError, [])
  }

  predicate StartsNumber(c: int) {
    c == N.MINUS || DIGIT_0 <= c <= DIGIT_0 + 9
  }

  function StringAt(s: bytes): (r: (Token, bytes))
    requires s != []
    ensures |r.1| < |s|
  {
    match ScanText(s[1..])
    case Text(v, n) => (StringToken(v), s[1 + n..])
    case BadText => (ParseError, [])
  }

  function NumberAt(s: bytes, reader: Reader): (r: (Token, bytes))
    requires s != []
    ensures |r.1| < |s|
  {
    N.LexemeNotEmpty(s);
    match N.ScanNumber(s)
    case Lexeme(kind, n) => (NumberValueToken(kind, s[..n], reader), s[n..])
    case Invalid => (ParseError, [])
  }

  function Punctuation(c: byte): Token {
    if c == '[' as int then BeginArray
    else if c == ']' as int then EndArray
    else if c == '{' as int then BeginObject
    else if c == '}' as int then EndObject
    else if c == ':' as int then NameSeparator
    else if c == ',' as int then ValueSeparator
    else ParseError
  }

  /** The token that starts at the first byte, and the input behind it (after an error, that does not matter). */
  function TokenAt(s: bytes, reader: Reader): (r: (Token, bytes))
    requires s != []
    ensures |r.1| < |s|
  {
    var c := s[0];
    if Punctuation(c) != ParseError then (Punctuation(c), s[1..])
    else if c == 't' as int then Expect(s, TRUE_TEXT, LiteralTrue)
    else if c == 'f' as int then Expect(s, FALSE_TEXT, LiteralFalse)
    else if c == 'n' as int then Expect(s, NULL_TEXT, LiteralNull)
    else if c == QUOTE then StringAt(s)
    else if StartsNumber(c) then NumberAt(s, reader)
    else if c == 0 then (EndOfInput, s[1..])
    else (ParseError, [])
  }

  function NextToken(input: bytes, reader: Reader): (r: (Token, bytes))
    ensures |r.1| <= |input|
    ensures r.0 != EndOfInput ==> |r.1| < |input|
  {
    var s := SkipSpace(input);
    if s == [] then (EndOfInput, []) else TokenAt(s, reader)
  }

  // ---- the scanner

  datatype TokenKind =
    | KEndOfInput | KParseError
    | KBeginArray | KEndArray | KBeginObject | KEndObject | KNameSeparator | KValueSeparator
    | KTrue | KFalse | KNull | KString | KUnsigned | KInteger | KFloat

  class Lexer {
    const input: bytes
    const reader: Reader
    var cursor: nat
    var current: int
    var charsRead: nat
    var tokenBuffer: bytes
    var valueUnsigned: uint64
    var valueInteger: int64
    var valueFloat: uint64

    /** The cursor is in the input; current is the byte before it, or EOF at the end. */
    ghost predicate Valid()
      reads this
    {
      cursor <= |input|
    }

    ghost predicate JustRead()
      reads this
    {
      && Valid() && charsRead > 0
      && (current == EOF ==> cursor == |input|)
      && (current != EOF ==> cursor > 0 && current == input[cursor - 1])
    }

    ghost function Rest(): bytes
      reads this
      requires Valid()
    {
      input[cursor..]
    }

    /** The input from the byte that was read last. */
    ghost function Here(): bytes
      reads this
      requires JustRead()
    {
      if current == EOF then [] else input[cursor - 1..]
    }

    /** A byte order mark is skipped. */
    constructor (text: bytes, reader: Reader)
      ensures Valid() && input == text && this.reader == reader
      ensures Rest() == if [0xEF, 0xBB, 0xBF] <= text then text[3..] else text
    {
      input := text;
      this.reader := reader;
      cursor := if |text| >= 3 && text[0] == 0xEF && text[1] == 0xBB && text[2] == 0xBF then 3 else 0;
      current := 0;
      charsRead := 0;
      tokenBuffer := [];
      valueUnsigned, valueInteger, valueFloat := 0, 0, 0;
    }

    method Get()
      requires Valid()
      modifies this`cursor, this`current, this`charsRead
      ensures JustRead() && charsRead == old(charsRead) + 1 && Here() == old(Rest())
      ensures current == N.First(old(Rest()))
      ensures Rest() == if old(Rest()) == [] then [] else old(Rest())[1..]
      ensures cursor == old(cursor) + if old(Rest()) == [] then 0 else 1
    {
      charsRead := charsRead + 1;
      if cursor < |input| {
        current := input[cursor];
        cursor := cursor + 1;
      } else {
        current := EOF;
      }
    }

    /** The byte read last is read again next time. */
    method Unget()
      requires JustRead()
      modifies this`cursor, this`charsRead
      ensures Valid() && Rest() == old(Here())
      ensures charsRead == old(charsRead) - 1
    {
      charsRead := charsRead - 1;
      if current != EOF {
        cursor := cursor - 1;
      }
    }

    method Add(c: byte)
      modifies this`tokenBuffer
      ensures tokenBuffer == old(tokenBuffer) + [c]
    {
      tokenBuffer := tokenBuffer + [c];
    }

    /** Four hexadecimal digits. */
    method GetCodepoint() returns (c: int)
      requires Valid()
      modifies this`cursor, this`current, this`charsRead
      ensures Valid() && c == HexCodePoint(old(Rest()))
      ensures c != NO_CODEPOINT ==> |old(Rest())| >= 4 && Rest() == old(Rest())[4..] && cursor == old(cursor) + 4
    {
      c := 0;
      ghost var s := Rest();
      hide HexCodePoint, HexState, Shifted;
      HexStart(s);
      for i := 0 to 4
        invariant Valid() && i <= |s| && Rest() == s[i..] && cursor == old(cursor) + i
        invariant HexState(s, i, c)
      {
        HexStep(s, i, c);
        Get();
        if 0x30 <= current <= 0x39 {
          c := c + Shifted(current - 0x30, i);
        } else if 0x41 <= current <= 0x46 {
          c := c + Shifted(current - 0x37, i);
        } else if 0x61 <= current <= 0x66 {
          c := c + Shifted(current - 0x57, i);
        } else {
          return NO_CODEPOINT;
        }
      }
      HexEnd(s, c);
    }

    /** UTF-8 continuation bytes, each within its range. */
    method NextByteInRange(ranges: seq<(byte, byte)>) returns (ok: bool)
      requires JustRead() && current != EOF
      modifies this`cursor, this`current, this`charsRead, this`tokenBuffer
      ensures Valid()
      ensures ok == InRanges(old(Rest()), ranges)
      ensures ok ==> cursor == old(cursor) + |ranges| && Rest() == old(Rest())[|ranges|..]
      ensures ok ==> tokenBuffer == old(tokenBuffer) + old(Here())[..1 + |ranges|]
    {
      ghost var s, here := Rest(), Here();
      Add(current);
      for i := 0 to |ranges|
        invariant Valid() && i <= |s| && Rest() == s[i..] && cursor == old(cursor) + i
        invariant InRanges(s[..i], ranges[..i])
        invariant tokenBuffer == old(tokenBuffer) + here[..1 + i]
      {
        Get();
        if ranges[i].0 <= current && current <= ranges[i].1 {
          Add(current);
        } else {
          return false;
        }
      }
      return true;
    }

    /** A code point, in UTF-8. */
    method AddCodePoint(c: int)
      requires Scalar(c)
      modifies this`tokenBuffer
      ensures tokenBuffer == old(tokenBuffer) + Encode(c)
    {
      hide Low6, High;
      if c < 0x80 {
        Add(c);
      } else if c <= 0x7FF {
        Add(0xC0 + High(c));
        Add(Low6(c));
      } else if c <= 0xFFFF {
        Add(0xE0 + High(High(c)));
        Add(Low6(High(c)));
        Add(Low6(c));
      } else {
        Add(0xF0 + High(High(High(c))));
        Add(Low6(High(High(c))));
        Add(Low6(High(c)));
        Add(Low6(c));
      }
    }

    /** The escape \\u, surrogate pairs included. */
    method ScanUnicode() returns (ok: bool)
      requires JustRead() && current == LETTER_U && cursor >= 2
      modifies this`cursor, this`current, this`charsRead, this`tokenBuffer
      ensures Valid()
      ensures var u := UnicodeUnit(input[old(cursor) - 2..]);
              && ok == u.Piece?
              && (ok ==> tokenBuffer == old(tokenBuffer) + u.text && cursor == old(cursor) - 2 + u.length)
    {
      ghost var s := input[cursor - 2..];
      Slices(input, cursor);
      hide Encode, HexCodePoint, Scalar, Paired;
      var codepoint1 := GetCodepoint();
      var codepoint := codepoint1;
      if codepoint1 == NO_CODEPOINT {
        return false;
      }
      if 0xD800 <= codepoint1 <= 0xDBFF {
        Get();
        if current != BACKSLASH {
          return false;
        }
        Get();
        if current != LETTER_U {
          return false;
        }
        var codepoint2 := GetCodepoint();
        if codepoint2 == NO_CODEPOINT {
          return false;
        }
        if 0xDC00 <= codepoint2 <= 0xDFFF {
          codepoint := codepoint1 * 0x400 + codepoint2 - 0x35FDC00;
          assert codepoint == Paired(codepoint1, codepoint2);
        } else {
          return false;
        }
      } else if 0xDC00 <= codepoint1 <= 0xDFFF {
        return false;
      }
      assert Scalar(codepoint);
      AddCodePoint(codepoint);
      return true;
    }

    /** After a backslash. */
    method ScanEscape() returns (ok: bool)
      requires JustRead() && current == BACKSLASH
      modifies this`cursor, this`current, this`charsRead, this`tokenBuffer
      ensures Valid()
      ensures var s := input[old(cursor) - 1..];
              var u := if |s| < 2 then Bad else EscapeUnit(s);
              && ok == u.Piece?
              && (ok ==> tokenBuffer == old(tokenBuffer) + u.text && cursor == old(cursor) - 1 + u.length)
    {
      hide UnicodeUnit;
      Get();
      if current == QUOTE || current == BACKSLASH || current == '/' as int {
        Add(current);
      } else if current == 'b' as int {
        Add(0x08);
      } else if current == 'f' as int {
        Add(0x0C);
      } else if current == 'n' as int {
        Add(0x0A);
      } else if current == 'r' as int {
        Add(0x0D);
      } else if current == 't' as int {
        Add(0x09);
      } else if current == LETTER_U {
        ok := ScanUnicode();
        return;
      } else {
        return false;
      }
      return true;
    }

    /** The first byte of a character has been read: the others, by the ranges that the first byte calls for. */
    method ScanCharacter() returns (ok: bool)
      requires JustRead() && current != EOF
      modifies this`cursor, this`current, this`charsRead, this`tokenBuffer
      ensures Valid()
      ensures var s := input[old(cursor) - 1..];
              && ok == (CharLength(s) > 0)
              && (ok ==> tokenBuffer == old(tokenBuffer) + FirstChar(s) && cursor == old(cursor) - 1 + CharLength(s))
    {
      ghost var s := input[cursor - 1..];
      assert s[1..] == Rest();
      if current <= 0x7F {
        Add(current);
        return true;
      } else if 0xC2 <= current <= 0xDF {
        ok := NextByteInRange([(0x80, 0xBF)]);
      } else if current == 0xE0 {
        ok := NextByteInRange([(0xA0, 0xBF), (0x80, 0xBF)]);
      } else if 0xE1 <= current <= 0xEC || 0xEE <= current <= 0xEF {
        ok := NextByteInRange([(0x80, 0xBF), (0x80, 0xBF)]);
      } else if current == 0xED {
        ok := NextByteInRange([(0x80, 0x9F), (0x80, 0xBF)]);
      } else if current == 0xF0 {
        ok := NextByteInRange([(0x90, 0xBF), (0x80, 0xBF), (0x80, 0xBF)]);
      } else if 0xF1 <= current <= 0xF3 {
        ok := NextByteInRange([(0x80, 0xBF), (0x80, 0xBF), (0x80, 0xBF)]);
      } else if current == 0xF4 {
        ok := NextByteInRange([(0x80, 0x8F), (0x80, 0xBF), (0x80, 0xBF)]);
      } else {
        ok := false;
      }
    }

    /** The next byte, and what belongs to it. */
    method ScanUnit() returns (done: bool, ok: bool)
      requires Valid()
      modifies this`cursor, this`current, this`charsRead, this`tokenBuffer
      ensures Valid()
      ensures UnitScanned(NextUnit(old(Rest())), old(cursor), old(tokenBuffer), cursor, tokenBuffer, done, ok)
    {
      hide EscapeUnit, CharLength;
      done := false;
      Get();
      if current == EOF {
        return false, false;
      }
      if current == QUOTE {
        return true, true;
      }
      if current == BACKSLASH {
        ok := ScanEscape();
      } else if current <= 0x1F {
        ok := false;
      } else {
        ok := ScanCharacter();
      }
    }

    method ScanString() returns (kind: TokenKind)
      requires JustRead() && current == QUOTE
      modifies this`cursor, this`current, this`charsRead, this`tokenBuffer
      ensures Valid() && kind in {KString, KParseError}
      ensures var r := ScanText(input[old(cursor)..]);
              && (kind == KString <==> r.Text?)
              && (r.Text? ==> tokenBuffer == r.value && cursor == old(cursor) + r.length)
    {
      tokenBuffer := [];
      ghost var start := cursor;
      StringStart(input, start);
      hide ScanText, NextUnit, StringState;
      var done, ok := false, true;
      while !done && ok
        invariant Valid() && StringState(input, start, cursor, tokenBuffer, done, ok)
        decreases if !done && ok then |input| - cursor + 1 else 0
      {
        ghost var before, text := cursor, tokenBuffer;
        done, ok := ScanUnit();
        StringStep(input, start, before, text, cursor, tokenBuffer, done, ok);
      }
      StringEnd(input, start, cursor, tokenBuffer, done, ok);
      kind := if ok then KString else KParseError;
    }

    /** The automaton, state by state; the byte that ends the number is not consumed. */
    method RunAutomaton() returns (ok: bool, numberType: N.NumberKind)
      requires JustRead() && StartsNumber(current)
      modifies this`cursor, this`current, this`charsRead, this`tokenBuffer
      ensures Valid()
      ensures var s := input[old(cursor) - 1..];
              match N.ScanNumber(s)
              case Invalid => !ok
              case Lexeme(k, n) => ok && cursor == old(cursor) - 1 + n && numberType == k && tokenBuffer == s[..n]
    {
      tokenBuffer := [];
      ghost var start := cursor - 1;
      numberType := N.UnsignedKind;
      var state := N.Init;
      hide N.ScanFrom, N.NumberStep, N.ScanNumber, NumberState;
      NumberStart(input, start);
      var step := N.NumberStep(state, current);
      while step.Goto?
        invariant JustRead() && step == N.NumberStep(state, N.First(Here()))
        invariant NumberState(input, start, state, numberType, tokenBuffer, Here())
        decreases |Here()|
      {
        NumberGoto(input, start, state, numberType, tokenBuffer, Here());
        state := step.next;
        numberType := N.KindIn(state, numberType);
        Add(current);
        Get();
        step := N.NumberStep(state, current);
      }
      NumberStop(input, start, state, numberType, tokenBuffer, Here());
      ok := step.Done?;
      if ok {
        Unget();
      }
    }

    method ScanNumber() returns (kind: TokenKind)
      requires JustRead() && StartsNumber(current)
      modifies this
      ensures Valid() && kind in {KUnsigned, KInteger, KFloat, KParseError}
      ensures var s := input[old(cursor) - 1..];
              match N.ScanNumber(s)
              case Invalid => kind == KParseError
              case Lexeme(k, n) =>
                && cursor == old(cursor) - 1 + n
                && kind != KParseError && Value(kind) == NumberValueToken(k, s[..n], reader)
    {
      var ok, numberType := RunAutomaton();
      hide N.ScanNumber, N.Read;
      if !ok {
        return KParseError;
      }
      var x := N.Read(N.NOTHING_READ, tokenBuffer).mantissa;
      if numberType.UnsignedKind? && x < TWO_64 {
        valueUnsigned := x;
        return KUnsigned;
      }
      if numberType.IntegerKind? && x <= TWO_63 {
        valueInteger := 0 - x;
        return KInteger;
      }
      valueFloat := reader(tokenBuffer);
      return KFloat;
    }

    /** The current token, from its kind and the fields that hold its value. */
    ghost function Value(kind: TokenKind): Token
      reads this
    {
      match kind
      case KEndOfInput => EndOfInput
      case KParseError => ParseError
      case KBeginArray => BeginArray
      case KEndArray => EndArray
      case KBeginObject => BeginObject
      case KEndObject => EndObject
      case KNameSeparator => NameSeparator
      case KValueSeparator => ValueSeparator
      case KTrue => LiteralTrue
      case KFalse => LiteralFalse
      case KNull => LiteralNull
      case KString => StringToken(tokenBuffer)
      case KUnsigned => UnsignedToken(valueUnsigned)
      case KInteger => IntegerToken(valueInteger)
      case KFloat => FloatToken(valueFloat)
    }

    /** The rest of a literal whose first byte has been read. */
    method ScanLiteral(text: bytes, kind: TokenKind) returns (k: TokenKind)
      requires JustRead() && text != [] && current == text[0]
      modifies this`cursor, this`current, this`charsRead
      ensures Valid()
      ensures k == if text <= input[old(cursor) - 1..] then kind else KParseError
      ensures text <= input[old(cursor) - 1..] ==> cursor == old(cursor) - 1 + |text|
    {
      ghost var s := input[cursor - 1..];
      for i := 1 to |text|
        invariant Valid() && cursor == old(cursor) - 1 + i && text[..i] <= s
      {
        Get();
        if current != text[i] {
          return KParseError;
        }
        assert text[..i + 1] == text[..i] + [text[i]];
      }
      assert text[..|text|] == text;
      return kind;
    }

    /** The next byte that is no white space. */
    method SkipWhitespace()
      requires Valid()
      modifies this`cursor, this`current, this`charsRead
      ensures JustRead() && Here() == SkipSpace(old(Rest()))
    {
      Get();
      while IsSpace(current)
        invariant JustRead() && SkipSpace(Here()) == SkipSpace(old(Rest()))
        decreases |Here()|
      {
        Get();
      }
    }

    method Scan() returns (kind: TokenKind)
      requires Valid()
      modifies this
      ensures Valid()
      ensures var (token, rest) := NextToken(old(Rest()), reader);
              Value(kind) == token && (token != ParseError ==> Rest() == rest)
    {
      SkipWhitespace();
      if current == EOF {
        return KEndOfInput;
      }
      kind := ScanToken();
    }

    /** The switch over the first byte of a token. */
    method ScanToken() returns (kind: TokenKind)
      requires JustRead() && current != EOF
      modifies this
      ensures Valid()
      ensures var (token, rest) := TokenAt(input[old(cursor) - 1..], reader);
              Value(kind) == token && (token != ParseError ==> Rest() == rest)
    {
      ghost var s := input[cursor - 1..];
      hide ScanText, N.ScanNumber, NumberValueToken;
      if current == '[' as int {
        return KBeginArray;
      } else if current == ']' as int {
        return KEndArray;
      } else if current == '{' as int {
        return KBeginObject;
      } else if current == '}' as int {
        return KEndObject;
      } else if current == ':' as int {
        return KNameSeparator;
      } else if current == ',' as int {
        return KValueSeparator;
      } else if current == 't' as int {
        kind := ScanLiteral(TRUE_TEXT, KTrue);
      } else if current == 'f' as int {
        kind := ScanLiteral(FALSE_TEXT, KFalse);
      } else if current == 'n' as int {
        kind := ScanLiteral(NULL_TEXT, KNull);
      } else if current == QUOTE {
        kind := ScanString();
      } else if StartsNumber(current) {
        kind := ScanNumber();
      } else if current == 0 {
        kind := KEndOfInput;
      } else {
        kind := KParseError;
      }
    }
  }

  /** A hexadecimal digit, shifted to its place among four. */
  function Shifted(d: int, i: nat): int {
    match i
    case 0 => 0x1000 * d
    case 1 => 0x100 * d
    case 2 => 0x10 * d
    case _ => d
  }

  /** The value of the first i of four hexadecimal digits. */
  function HexPrefix(s: bytes, i: nat): int
    requires i <= 4 && i <= |s|
  {
    (if i > 0 then 0x1000 * HexValue(s[0]) else 0) + (if i > 1 then 0x100 * HexValue(s[1]) else 0) +
    (if i > 2 then 0x10 * HexValue(s[2]) else 0) + (if i > 3 then HexValue(s[3]) else 0)
  }

  ghost predicate HexState(s: bytes, i: nat, c: int) {
    i <= 4 && i <= |s| && c == HexPrefix(s, i) && forall j | 0 <= j < i :: HexValue(s[j]) >= 0
  }

  lemma {:induction false} HexStart(s: bytes)
    ensures HexState(s, 0, 0)
  {}

  lemma {:induction false} HexStep(s: bytes, i: nat, c: int)
    requires HexState(s, i, c) && i < 4
    ensures i < |s| && HexValue(s[i]) >= 0 ==> HexState(s, i + 1, c + Shifted(HexValue(s[i]), i))
    ensures i < |s| && HexValue(s[i]) < 0 ==> HexCodePoint(s) == NO_CODEPOINT
    ensures i == |s| ==> HexCodePoint(s) == NO_CODEPOINT
  {
    hide HexValue;
  }

  lemma {:induction false} HexEnd(s: bytes, c: int)
    requires HexState(s, 4, c)
    ensures c == HexCodePoint(s)
  {
    hide HexValue;
  }

  predicate InRanges(s: bytes, ranges: seq<(byte, byte)>) {
    |s| >= |ranges| && forall i | 0 <= i < |ranges| :: ranges[i].0 <= s[i] <= ranges[i].1
  }

  predicate UnitScanned(u: Unit, before: nat, text: bytes, after: nat, text': bytes, done: bool, ok: bool) {
    match u
    case Bad => !ok
    case Closing => ok && done && after == before + 1 && text' == text
    case Piece(n, p) => ok && !done && after == before + n && text' == text + p
  }

  /** What has been scanned of a literal, in front of what is still to come. */
  ghost function Prepend(t: bytes, n: nat, r: Scanned): Scanned {
    match r
    case BadText => BadText
    case Text(v, m) => Text(t + v, n + m)
  }

  ghost predicate StringState(input: bytes, start: nat, cursor: nat, text: bytes, done: bool, ok: bool) {
    && start <= |input| && cursor <= |input|
    && var r := ScanText(input[start..]);
    if !ok then r == BadText
    else
      && start <= cursor
      && r == if done then Text(text, cursor - start) else Prepend(text, cursor - start, ScanText(input[cursor..]))
  }

  lemma {:induction false} StringStart(input: bytes, start: nat)
    requires start <= |input|
    ensures StringState(input, start, start, [], false, true)
  {
    var r := ScanText(input[start..]);
    if r.Text? {
      assert [] + r.value == r.value;
    }
  }

  lemma {:induction false} StringStep(input: bytes, start: nat, cursor: nat, text: bytes, cursor': nat, text': bytes, done: bool, ok: bool)
    requires StringState(input, start, cursor, text, false, true) && cursor' <= |input|
    requires UnitScanned(NextUnit(input[cursor..]), cursor, text, cursor', text', done, ok)
    ensures StringState(input, start, cursor', text', done, ok)
    ensures ok && !done ==> cursor' > cursor
  {
    var s := input[cursor..];
    hide NextUnit;
    match NextUnit(s)
    case Bad =>
    case Closing => assert text + [] == text;
    case Piece(m, p) =>
      assert s[m..] == input[cursor'..];
      PrependTwice(text, cursor - start, p, m, ScanText(s[m..]));
  }

  lemma {:induction false} PrependTwice(t: bytes, n: nat, p: bytes, m: nat, r: Scanned)
    ensures Prepend(t, n, Prepend(p, m, r)) == Prepend(t + p, n + m, r)
  {
    if r.Text? {
      assert t + (p + r.value) == (t + p) + r.value;
    }
  }

  lemma {:induction false} StringEnd(input: bytes, start: nat, cursor: nat, text: bytes, done: bool, ok: bool)
    requires StringState(input, start, cursor, text, done, ok) && (done || !ok)
    ensures var r := ScanText(input[start..]);
            (ok <==> r.Text?) && (r.Text? ==> text == r.value && cursor == start + r.length)
  {}

  lemma {:induction false} Slices(input: bytes, cursor: nat)
    requires 2 <= cursor <= |input|
    ensures input[cursor - 2..][2..] == input[cursor..]
  {}

  // ---- the invariant of the number scanner

  ghost predicate NumberState(input: bytes, start: nat, state: N.NumberState, kind: N.NumberKind, text: bytes, here: bytes)
  {
    && start <= |input| && |text| <= |input| - start
    && text == input[start..start + |text|] && here == input[start + |text|..]
    && N.ScanNumber(input[start..]) == Longer(|text|, N.ScanFrom(state, kind, here))
  }

  function Longer(n: nat, r: N.NumberScan): N.NumberScan {
    match r
    case Invalid => N.Invalid
    case Lexeme(k, m) => N.Lexeme(k, n + m)
  }

  lemma {:induction false} NumberStart(input: bytes, start: nat)
    requires start <= |input|
    ensures NumberState(input, start, N.Init, N.UnsignedKind, [], input[start..])
  {}

  lemma {:induction false} NumberGoto(input: bytes, start: nat, state: N.NumberState, kind: N.NumberKind, text: bytes, here: bytes)
    requires NumberState(input, start, state, kind, text, here) && N.NumberStep(state, N.First(here)).Goto?
    ensures here != []
    ensures var t := N.NumberStep(state, N.First(here)).next;
            NumberState(input, start, t, N.KindIn(t, kind), text + [here[0]], here[1..])
  {
    EndOfNumber(state);
    assert here[1..] == input[start + |text| + 1..];
    assert text + [here[0]] == input[start..start + |text| + 1];
  }

  /** The end of the input ends every number. */
  lemma {:induction false} EndOfNumber(state: N.NumberState)
    ensures !N.NumberStep(state, EOF).Goto?
  {}

  lemma {:induction false} NumberStop(input: bytes, start: nat, state: N.NumberState, kind: N.NumberKind, text: bytes, here: bytes)
    requires NumberState(input, start, state, kind, text, here) && !N.NumberStep(state, N.First(here)).Goto?
    ensures N.ScanNumber(input[start..]) ==
            if N.NumberStep(state, N.First(here)).Fail? then N.Invalid else N.Lexeme(kind, |text|)
    ensures text == input[start..][..|text|]
  {}
}
