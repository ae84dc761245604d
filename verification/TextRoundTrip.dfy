/**
  Parsing undoes dumping: the text of every dumpable value is read back as that value, up to the kind of
  its non-negative integers and with null for infinities and NaN.
 */
module TextRoundTrip {
  import opened Arith
  import opened Decimal
  import opened Utf8
  import opened Strings
  import opened J = Json
  import opened L = Lexer
  import opened P = Parser
  import S = Serializer
  import N = NumberToken
  import F = FloatText
  import G = GrisuDouble
  import Doubles

  // ---- a reader for floats

  /** The reader turns every shortest text of a finite double back into the double. */
  ghost predicate CorrectReader(reader: Reader) {
    forall text, bits: uint64 :: Doubles.Finite(bits) && F.TextOf(text, bits) ==> reader(text) == bits
  }

  lemma {:induction false} MagnitudeUnique(body: bytes, m: uint64, n: uint64)
    requires m < Doubles.INFINITY && n < Doubles.INFINITY
    requires F.MagnitudeText(body, m) && F.MagnitudeText(body, n)
    ensures m == n
  {
    hide F.FloatToken, N.NumberValue;
    if m != n {
      if m == 0 {
        ZeroRoundsToNothing(n);
      } else if n == 0 {
        ZeroRoundsToNothing(m);
      } else {
        G.ReadsBack(N.NumberValue(body), m, n);
        G.ReadsBack(N.NumberValue(body), n, m);
      }
    }
  }

  lemma {:induction false} ZeroValue()
    ensures N.NumberValue([DIGIT_0, N.POINT, DIGIT_0]) == 0.0
  {
    var zero := [DIGIT_0];
    assert zero + [N.POINT] + zero == [DIGIT_0, N.POINT, DIGIT_0] && zero + zero == [DIGIT_0, DIGIT_0];
    F.TwoDigits(DIGIT_0, DIGIT_0);
    hide N.NumberValue, DigitsValue, R10;
    F.WrittenValue([DIGIT_0, N.POINT, DIGIT_0], zero, zero, 0);
  }

  lemma {:induction false} ZeroRoundsToNothing(m: uint64)
    requires 0 < m < Doubles.INFINITY
    ensures !G.RoundsTo(N.NumberValue([DIGIT_0, N.POINT, DIGIT_0]), m)
  {
    hide N.NumberValue;
    ZeroValue();
    assert Doubles.Value(0) == 0.0;
    if m > 1 {
      Doubles.ValueIncreasing(0, m - 1);
    }
    Doubles.ValueIncreasing(0, m);
    hide Doubles.Value;
  }

  /** A text belongs to one double only, */
  lemma {:induction false} TextUnique(text: bytes, a: uint64, b: uint64)
    requires Doubles.Finite(a) && Doubles.Finite(b) && F.TextOf(text, a) && F.TextOf(text, b)
    ensures a == b
  {
    hide F.MagnitudeText;
    var m, n := a % Doubles.SIGN_BIT, b % Doubles.SIGN_BIT;
    SignOfText(text, a);
    SignOfText(text, b);
    MagnitudeUnique(if a >= Doubles.SIGN_BIT then text[1..] else text, m, n);
  }

  lemma {:induction false} SignOfText(text: bytes, a: uint64)
    requires Doubles.Finite(a) && F.TextOf(text, a)
    ensures text != [] && (a >= Doubles.SIGN_BIT <==> text[0] == N.MINUS)
  {}

  ghost function ReadBack(text: bytes): uint64 {
    if exists b: uint64 :: Doubles.Finite(b) && F.TextOf(text, b) then
      var b: uint64 :| Doubles.Finite(b) && F.TextOf(text, b);
      b
    else 0
  }

  /** so there are correct readers. */
  lemma {:induction false} CorrectReaderExists()
    ensures exists reader: Reader :: CorrectReader(reader)
  {
    ghost var reader: Reader := text => ReadBack(text);
    forall text, bits: uint64 | Doubles.Finite(bits) && F.TextOf(text, bits) ensures reader(text) == bits {
      TextUnique(text, bits, ReadBack(text));
    }
    assert CorrectReader(reader);
  }

  // ---- tokens of a dump

  /** What may follow a value. */
  predicate Delimited(rest: bytes) {
    rest == [] || rest[0] == S.COMMA || rest[0] == S.END_ARRAY || rest[0] == S.END_OBJECT
  }

  lemma {:induction false} PunctuationToken(c: byte, rest: bytes, reader: Reader)
    requires Punctuation(c) != ParseError
    ensures NextToken([c] + rest, reader) == (Punctuation(c), rest)
  {
    var s := [c] + rest;
    assert s[0] == c && s[1..] == rest;
  }

  lemma {:induction false} LiteralToken(text: bytes, t: L.Token, rest: bytes, reader: Reader)
    requires (text, t) in {(TRUE_TEXT, LiteralTrue), (FALSE_TEXT, LiteralFalse), (NULL_TEXT, LiteralNull)}
    ensures NextToken(text + rest, reader) == (t, rest)
  {
    var s := text + rest;
    assert s[0] == text[0] && text <= s && s[|text|..] == rest;
  }

  lemma {:induction false} QuotedToken(v: bytes, ensureAscii: bool, rest: bytes, reader: Reader)
    requires WellFormed(v)
    ensures NextToken(S.Quoted(v, ensureAscii) + rest, reader) == (StringToken(v), rest)
  {
    hide Escaped, ScanText, WellFormed;
    ScanEscaped(v, ensureAscii, rest);
    QuotedSlices(Escaped(v, ensureAscii), rest);
  }

  lemma {:induction false} QuotedSlices(e: bytes, rest: bytes)
    ensures var s := [QUOTE] + e + [QUOTE] + rest;
            s[0] == QUOTE && s[1..] == e + [QUOTE] + rest && s[1 + (|e| + 1)..] == rest
  {}

  /** A text that takes the number automaton to an accepting state, in front of a delimiter. */
  lemma {:induction false} NumberToken(text: bytes, final: N.NumberState, kind: N.NumberKind, rest: bytes, reader: Reader)
    requires text != [] && StartsNumber(text[0]) && Delimited(rest)
    requires final in {N.Zero, N.Any1, N.Decimal2, N.Any2} && N.Reaches(N.Init, N.UnsignedKind, text, final, kind)
    ensures NextToken(text + rest, reader) == (NumberValueToken(kind, text, reader), rest)
  {
    var s := text + rest;
    assert s[0] == text[0] && s[..|text|] == text && s[|text|..] == rest;
    assert N.NumberStep(final, N.First(rest)).Done?;
    N.ReachesScans(N.Init, N.UnsignedKind, text, final, kind, rest);
    hide N.Reaches, N.ScanFrom, NumberValueToken;
  }

  lemma {:induction false} DigitsReach(state: N.NumberState, kind: N.NumberKind, digits: bytes) returns (final: N.NumberState)
    requires state in {N.Init, N.AfterMinus} && kind != N.FloatKind
    requires AllDigits(digits) && digits != [] && (digits[0] != DIGIT_0 || |digits| == 1)
    ensures final in {N.Zero, N.Any1} && N.Reaches(state, kind, digits, final, kind)
  {
    if digits[0] == DIGIT_0 {
      final := N.Zero;
      assert digits[1..] == [];
    } else {
      final := N.Any1;
      N.DigitsLoop(N.Any1, kind, digits[1..]);
    }
  }

  lemma {:induction false} NaturalToken(n: nat, rest: bytes, reader: Reader)
    requires n < TWO_64 && Delimited(rest)
    ensures NextToken(ToDecimal(n) + rest, reader) == (UnsignedToken(n), rest)
  {
    var digits := ToDecimal(n);
    var final := DigitsReach(N.Init, N.UnsignedKind, digits);
    NumberToken(digits, final, N.UnsignedKind, rest, reader);
    N.ReadDigits(N.NOTHING_READ, digits);
    hide N.Reaches, N.Read, NextToken;
  }

  lemma {:induction false} NegativeToken(n: nat, rest: bytes, reader: Reader)
    requires 0 < n <= TWO_63 && Delimited(rest)
    ensures NextToken([N.MINUS] + ToDecimal(n) + rest, reader) == (IntegerToken(0 - n), rest)
  {
    var digits := ToDecimal(n);
    var text := [N.MINUS] + digits;
    var final := DigitsReach(N.AfterMinus, N.IntegerKind, digits);
    assert text[0] == N.MINUS && text[1..] == digits;
    NumberToken(text, final, N.IntegerKind, rest, reader);
    N.ReadDigits(N.NOTHING_READ.(negative := true), digits);
    hide N.Reaches, NextToken;
    assert N.Read(N.NOTHING_READ, text) == N.Read(N.NOTHING_READ.(negative := true), digits);
  }

  /** A run that ends as a float does so from every earlier kind. */
  lemma {:induction false} FloatAnyway(s: N.NumberState, k: N.NumberKind, l: N.NumberKind, text: bytes, t: N.NumberState)
    requires k != N.FloatKind && N.Reaches(s, k, text, t, N.FloatKind)
    ensures N.Reaches(s, l, text, t, N.FloatKind)
    decreases |text|
  {
    if text != [] {
      var next := N.NumberStep(s, text[0]).next;
      if N.KindIn(next, k) != N.FloatKind {
        FloatAnyway(next, N.KindIn(next, k), N.KindIn(next, l), text[1..], t);
      }
    }
  }

  lemma {:induction false} FloatTextToken(text: bytes, bits: uint64, rest: bytes, reader: Reader)
    requires Doubles.Finite(bits) && F.TextOf(text, bits) && CorrectReader(reader) && Delimited(rest)
    ensures NextToken(text + rest, reader) == (FloatToken(bits), rest)
  {
    hide NextToken, F.TextOf, N.Reaches, N.Read, Delimited;
    var final := FloatReaches(text, bits);
    NumberToken(text, final, N.FloatKind, rest, reader);
    assert reader(text) == bits;
  }

  lemma {:induction false} FloatReaches(text: bytes, bits: uint64) returns (final: N.NumberState)
    requires Doubles.Finite(bits) && F.TextOf(text, bits)
    ensures final in {N.Decimal2, N.Any2} && N.Reaches(N.Init, N.UnsignedKind, text, final, N.FloatKind)
    ensures text != [] && StartsNumber(text[0])
  {
    var body := if bits >= Doubles.SIGN_BIT then text[1..] else text;
    assert F.FloatToken(body);
    var f :| f in {N.Decimal2, N.Any2} && N.Reaches(N.Init, N.UnsignedKind, body, f, N.FloatKind);
    final := f;
    if bits >= Doubles.SIGN_BIT {
      assert N.NumberStep(N.Init, body[0]) == N.NumberStep(N.AfterMinus, body[0]);
      assert N.Reaches(N.AfterMinus, N.UnsignedKind, body, final, N.FloatKind);
      FloatAnyway(N.AfterMinus, N.UnsignedKind, N.IntegerKind, body, final);
    }
  }

  // ---- parsing a dump

  /** What parsing a dump gives: non-negative integers as unsigned ones, infinities and NaN as null. */
  function Norm(v: Json): Json {
    match v
    case Integer(i) => if i >= 0 then Unsigned(i) else v
    case Float(bits) => if Doubles.Finite(bits) then v else Null
    case Array(a) => Array(seq(|a|, i requires 0 <= i < |a| => Norm(a[i])))
    case Object(o) => Object(map k | k in o :: Norm(o[k]))
    case _ => v
  }

  /** Parsing, from the first token on. */
  function ParseFrom(input: bytes, reader: Reader): Parsed {
    var (t, more) := NextToken(input, reader);
    ParseValue(t, more, reader)
  }

  lemma {:induction false} JoinedCons(texts: seq<bytes>)
    requires |texts| > 1
    ensures S.Joined(texts) == texts[0] + [S.COMMA] + S.Joined(texts[1..])
  {
    assert texts[..|texts| - 1][1..] == texts[1..][..|texts| - 2];
    assert texts[0] + [S.COMMA] + (S.Closed(texts[1..][..|texts| - 2]) + texts[|texts| - 1]) ==
           (texts[0] + [S.COMMA] + S.Closed(texts[1..][..|texts| - 2])) + texts[|texts| - 1];
  }

  lemma {:induction false} ParsePrimitive(v: Json, ensureAscii: bool, out: bytes, rest: bytes, reader: Reader)
    requires !v.Array? && !v.Object? && S.Dumps(v, ensureAscii, out) && Delimited(rest) && CorrectReader(reader)
    ensures ParseFrom(out + rest, reader) == Parsed(Norm(v), rest)
  {
    hide NextToken, S.Quoted, ToDecimal, F.TextOf, WellFormed, CorrectReader;
    match v
    case Null => LiteralToken(NULL_TEXT, LiteralNull, rest, reader);
    case Bool(b) =>
      if b {
        LiteralToken(TRUE_TEXT, LiteralTrue, rest, reader);
      } else {
        LiteralToken(FALSE_TEXT, LiteralFalse, rest, reader);
      }
    case Integer(i) =>
      if i < 0 {
        NegativeToken(0 - i, rest, reader);
      } else {
        NaturalToken(i, rest, reader);
      }
    case Unsigned(u) => NaturalToken(u, rest, reader);
    case Float(bits) =>
      if Doubles.Finite(bits) {
        FloatTextToken(out, bits, rest, reader);
      } else {
        LiteralToken(NULL_TEXT, LiteralNull, rest, reader);
      }
    case String(s) => QuotedToken(s, ensureAscii, rest, reader);
  }

  lemma {:induction false} ParseDumped(v: Json, ensureAscii: bool, out: bytes, rest: bytes, reader: Reader)
    requires S.Dumps(v, ensureAscii, out) && Delimited(rest) && CorrectReader(reader)
    ensures ParseFrom(out + rest, reader) == Parsed(Norm(v), rest)
    decreases v, 1
  {
    hide S.Dumps, Norm, ParseFrom, CorrectReader;
    match v
    case Array(_) => ParseDumpedArray(v, ensureAscii, out, rest, reader);
    case Object(_) => ParseDumpedObject(v, ensureAscii, out, rest, reader);
    case _ => ParsePrimitive(v, ensureAscii, out, rest, reader);
  }

  // ---- arrays

  /** The elements from i on. */
  function NormFrom(a: seq<Json>, i: nat): (r: seq<Json>)
    requires i <= |a|
    ensures |r| == |a| - i && forall j | i <= j < |a| :: r[j - i] == Norm(a[j])
    decreases |a| - i
  {
    if i == |a| then [] else [Norm(a[i])] + NormFrom(a, i + 1)
  }

  lemma {:induction false} NormArray(v: Json)
    requires v.Array?
    ensures Norm(v) == Array(NormFrom(v.a, 0))
  {
    assert Norm(v).a == NormFrom(v.a, 0);
  }

  lemma {:induction false} ElementTexts(v: Json, ensureAscii: bool, out: bytes) returns (texts: seq<bytes>)
    requires v.Array? && v.a != [] && S.Dumps(v, ensureAscii, out)
    ensures S.InBrackets(texts, |v.a|, out)
    ensures forall i | 0 <= i < |v.a| :: S.Dumps(v.a[i], ensureAscii, texts[i])
  {
    texts :| S.InBrackets(texts, |v.a|, out) && forall i | 0 <= i < |v.a| :: S.Dumps(v.a[i], ensureAscii, texts[i]);
  }

  lemma {:induction false} Bracketed(open: byte, inner: bytes, close: bytes, rest: bytes)
    ensures ([open] + inner + close) + rest == [open] + (inner + close + rest)
  {}

  lemma {:induction false} ParseEmptyArray(rest: bytes, reader: Reader)
    ensures ParseFrom([S.BEGIN_ARRAY, S.END_ARRAY] + rest, reader) == Parsed(Array([]), rest)
  {
    assert [S.BEGIN_ARRAY, S.END_ARRAY] + rest == [S.BEGIN_ARRAY] + ([S.END_ARRAY] + rest);
    PunctuationToken(S.BEGIN_ARRAY, [S.END_ARRAY] + rest, reader);
    PunctuationToken(S.END_ARRAY, rest, reader);
    hide NextToken;
  }

  lemma {:induction false} ParseBracket(inner: bytes, reader: Reader)
    requires NextToken(inner, reader).0 != EndArray
    ensures var (t, more) := NextToken(inner, reader);
            ParseFrom([S.BEGIN_ARRAY] + inner, reader) == ParseElements(t, more, [], reader)
  {
    PunctuationToken(S.BEGIN_ARRAY, inner, reader);
    hide NextToken, ParseElements;
  }

  lemma {:induction false} ParseDumpedArray(v: Json, ensureAscii: bool, out: bytes, rest: bytes, reader: Reader)
    requires v.Array? && S.Dumps(v, ensureAscii, out) && Delimited(rest) && CorrectReader(reader)
    ensures ParseFrom(out + rest, reader) == Parsed(Norm(v), rest)
    decreases v, 0, |v.a| + 1
  {
    NormArray(v);
    if v.a == [] {
      ParseEmptyArray(rest, reader);
      hide ParseFrom, Norm;
    } else {
      var texts := ElementTexts(v, ensureAscii, out);
      hide S.Dumps, S.Joined, NextToken, Norm, NormFrom, CorrectReader, ParseFrom, ParseElements;
      var inner := S.Joined(texts) + [S.END_ARRAY] + rest;
      Bracketed(S.BEGIN_ARRAY, S.Joined(texts), [S.END_ARRAY], rest);
      ParseDumpedElements(v, 0, texts, ensureAscii, rest, [], reader);
      ParseBracket(inner, reader);
      assert [] + NormFrom(v.a, 0) == NormFrom(v.a, 0);
    }
  }

  /** The elements from i on; in particular, the first token does not close the array. */
  lemma {:induction false} ParseDumpedElements(v: Json, i: nat, texts: seq<bytes>, ensureAscii: bool, rest: bytes, done: seq<Json>, reader: Reader)
    requires v.Array? && i < |v.a| && |texts| == |v.a| - i && Delimited(rest) && CorrectReader(reader)
    requires forall j | 0 <= j < |texts| :: S.Dumps(v.a[i + j], ensureAscii, texts[j])
    ensures var (t, more) := NextToken(S.Joined(texts) + [S.END_ARRAY] + rest, reader);
            && t != EndArray
            && ParseElements(t, more, done, reader) == Parsed(Array(done + NormFrom(v.a, i)), rest)
    decreases v, 0, |v.a| - i
  {
    hide NextToken, S.Dumps, Norm, CorrectReader;
    var last := [S.END_ARRAY] + rest;
    var x := v.a[i];
    if |texts| == 1 {
      assert S.Joined(texts) + [S.END_ARRAY] + rest == texts[0] + last by {
        assert texts[..0] == [];
        assert S.Closed([]) + texts[0] == texts[0];
      }
      ParseDumped(x, ensureAscii, texts[0], last, reader);
      PunctuationToken(S.END_ARRAY, rest, reader);
      assert NormFrom(v.a, i) == [Norm(x)];
    } else {
      var next := S.Joined(texts[1..]) + [S.END_ARRAY] + rest;
      JoinedCons(texts);
      hide S.Joined;
      assert S.Joined(texts) + [S.END_ARRAY] + rest == texts[0] + ([S.COMMA] + next);
      ParseDumped(x, ensureAscii, texts[0], [S.COMMA] + next, reader);
      PunctuationToken(S.COMMA, next, reader);
      ParseDumpedElements(v, i + 1, texts[1..], ensureAscii, rest, done + [Norm(x)], reader);
      assert (done + [Norm(x)]) + NormFrom(v.a, i + 1) == done + NormFrom(v.a, i);
    }
  }

  // ---- objects

  /** The members for the keys from i on. */
  function NormMembers(o: map<bytes, Json>, keys: seq<bytes>, done: map<bytes, Json>): map<bytes, Json>
    requires forall k | k in keys :: k in o
    decreases |keys|
  {
    if keys == [] then done else NormMembers(o, keys[1..], Emplace(done, keys[0], Norm(o[keys[0]])))
  }

  lemma {:induction false} NormMembersAt(o: map<bytes, Json>, keys: seq<bytes>, done: map<bytes, Json>, k: bytes)
    requires (forall l | l in keys :: l in o) && Distinct(keys) && forall l | l in keys :: l !in done
    ensures var r := NormMembers(o, keys, done);
            if k in keys then k in r && r[k] == Norm(o[k])
            else (k in r <==> k in done) && (k in r ==> r[k] == done[k])
    decreases |keys|
  {
    hide Norm;
    if keys != [] {
      assert keys[0] !in keys[1..];
      NormMembersAt(o, keys[1..], Emplace(done, keys[0], Norm(o[keys[0]])), k);
      assert k in keys <==> k == keys[0] || k in keys[1..];
    }
  }

  lemma {:induction false} NormMember(v: Json, k: bytes)
    requires v.Object?
    ensures Norm(v).Object? && (k in Norm(v).o <==> k in v.o) && (k in v.o ==> Norm(v).o[k] == Norm(v.o[k]))
  {}

  lemma {:induction false} NormObject(v: Json)
    requires v.Object?
    ensures Norm(v) == Object(NormMembers(v.o, Sorted(v.o.Keys), map[]))
  {
    var keys := Sorted(v.o.Keys);
    SortedDistinct(v.o.Keys);
    hide Sorted, NormMembers, Norm;
    var m := NormMembers(v.o, keys, map[]);
    NormMember(v, []);
    forall k ensures (k in m <==> k in Norm(v).o) && (k in m ==> m[k] == Norm(v).o[k]) {
      NormMembersAt(v.o, keys, map[], k);
      NormMember(v, k);
    }
    assert Norm(v).o == m;
  }

  lemma {:induction false} MemberTexts(v: Json, ensureAscii: bool, out: bytes) returns (texts: seq<bytes>)
    requires v.Object? && Sorted(v.o.Keys) != [] && S.Dumps(v, ensureAscii, out)
    ensures S.InBraces(Sorted(v.o.Keys), texts, ensureAscii, out)
    ensures forall i | 0 <= i < |texts| :: S.Dumps(v.o[Sorted(v.o.Keys)[i]], ensureAscii, texts[i])
  {
    hide Sorted, S.Joined, S.MemberTexts, WellFormed;
    var keys := Sorted(v.o.Keys);
    texts :| S.InBraces(keys, texts, ensureAscii, out) && forall i | 0 <= i < |keys| :: S.Dumps(v.o[keys[i]], ensureAscii, texts[i]);
  }

  lemma {:induction false} ParseEmptyObject(rest: bytes, reader: Reader)
    ensures ParseFrom([S.BEGIN_OBJECT, S.END_OBJECT] + rest, reader) == Parsed(Object(map[]), rest)
  {
    assert [S.BEGIN_OBJECT, S.END_OBJECT] + rest == [S.BEGIN_OBJECT] + ([S.END_OBJECT] + rest);
    PunctuationToken(S.BEGIN_OBJECT, [S.END_OBJECT] + rest, reader);
    PunctuationToken(S.END_OBJECT, rest, reader);
    hide NextToken;
  }

  lemma {:induction false} ParseBrace(inner: bytes, reader: Reader)
    requires NextToken(inner, reader).0 != EndObject
    ensures var (t, more) := NextToken(inner, reader);
            ParseFrom([S.BEGIN_OBJECT] + inner, reader) == ParseMembers(t, more, map[], reader)
  {
    PunctuationToken(S.BEGIN_OBJECT, inner, reader);
    hide NextToken, ParseMembers;
  }

  lemma {:induction false} ParseDumpedObject(v: Json, ensureAscii: bool, out: bytes, rest: bytes, reader: Reader)
    requires v.Object? && S.Dumps(v, ensureAscii, out) && Delimited(rest) && CorrectReader(reader)
    ensures ParseFrom(out + rest, reader) == Parsed(Norm(v), rest)
    decreases v, 0, |v.o| + 1
  {
    NormObject(v);
    var keys := Sorted(v.o.Keys);
    if keys == [] {
      ParseEmptyObject(rest, reader);
      hide ParseFrom, Norm;
    } else {
      var texts := MemberTexts(v, ensureAscii, out);
      hide S.Dumps, S.Joined, NextToken, Norm, NormMembers, CorrectReader, WellFormed, S.MemberTexts, Sorted, ParseFrom, ParseMembers;
      var inner := S.Joined(S.MemberTexts(keys, texts, ensureAscii)) + [S.END_OBJECT] + rest;
      Bracketed(S.BEGIN_OBJECT, S.Joined(S.MemberTexts(keys, texts, ensureAscii)), [S.END_OBJECT], rest);
      ParseDumpedMembers(v, keys, texts, ensureAscii, rest, map[], reader);
      ParseBrace(inner, reader);
    }
  }

  lemma {:induction false} ParseDumpedMember(v: Json, k: bytes, text: bytes, ensureAscii: bool, rest: bytes, reader: Reader)
    requires v.Object? && k in v.o && WellFormed(k) && Delimited(rest) && CorrectReader(reader)
    requires S.Dumps(v.o[k], ensureAscii, text)
    ensures var (t, more) := NextToken(S.MemberText(k, text, ensureAscii) + rest, reader);
            ParseMember(t, more, reader) == ParsedMember(k, Norm(v.o[k]), rest)
    decreases v, 0, 0
  {
    hide NextToken, S.Dumps, Norm, CorrectReader, S.Quoted, WellFormed;
    var after := [S.COLON] + (text + rest);
    assert S.MemberText(k, text, ensureAscii) + rest == S.Quoted(k, ensureAscii) + after;
    QuotedToken(k, ensureAscii, after, reader);
    PunctuationToken(S.COLON, text + rest, reader);
    ParseDumped(v.o[k], ensureAscii, text, rest, reader);
  }

  lemma {:induction false} MemberTextsCons(keys: seq<bytes>, texts: seq<bytes>, ensureAscii: bool)
    requires |keys| == |texts| > 0 && forall k | k in keys :: WellFormed(k)
    ensures var r := S.MemberTexts(keys, texts, ensureAscii);
            && r[0] == S.MemberText(keys[0], texts[0], ensureAscii)
            && r[1..] == S.MemberTexts(keys[1..], texts[1..], ensureAscii)
  {
    hide WellFormed, S.MemberText;
  }

  lemma {:induction false} ParseDumpedMembers(v: Json, keys: seq<bytes>, texts: seq<bytes>, ensureAscii: bool, rest: bytes,
                                              done: map<bytes, Json>, reader: Reader)
    requires v.Object? && |texts| == |keys| > 0 && Delimited(rest) && CorrectReader(reader)
    requires forall k | k in keys :: k in v.o && WellFormed(k)
    requires forall i | 0 <= i < |keys| :: S.Dumps(v.o[keys[i]], ensureAscii, texts[i])
    ensures var (t, more) := NextToken(S.Joined(S.MemberTexts(keys, texts, ensureAscii)) + [S.END_OBJECT] + rest, reader);
            && t != EndObject
            && ParseMembers(t, more, done, reader) == Parsed(Object(NormMembers(v.o, keys, done)), rest)
    decreases v, 0, |keys|
  {
    hide NextToken, S.Dumps, Norm, CorrectReader, WellFormed, S.MemberText, S.MemberTexts, Emplace;
    var last := [S.END_OBJECT] + rest;
    var members := S.MemberTexts(keys, texts, ensureAscii);
    MemberTextsCons(keys, texts, ensureAscii);
    if |keys| == 1 {
      assert S.Joined(members) + [S.END_OBJECT] + rest == members[0] + last by {
        assert members[..0] == [];
        assert S.Closed([]) + members[0] == members[0];
      }
      ParseDumpedMember(v, keys[0], texts[0], ensureAscii, last, reader);
      PunctuationToken(S.END_OBJECT, rest, reader);
      assert keys[1..] == [];
    } else {
      var next := S.Joined(members[1..]) + [S.END_OBJECT] + rest;
      JoinedCons(members);
      hide S.Joined;
      assert S.Joined(members) + [S.END_OBJECT] + rest == members[0] + ([S.COMMA] + next);
      ParseDumpedMember(v, keys[0], texts[0], ensureAscii, [S.COMMA] + next, reader);
      PunctuationToken(S.COMMA, next, reader);
      ParseDumpedMembers(v, keys[1..], texts[1..], ensureAscii, rest, Emplace(done, keys[0], Norm(v.o[keys[0]])), reader);
    }
  }

  // ---- the round trip

  /** Parsing a dump, strictly, gives the normal form of the value. */
  lemma {:induction false} ParseOfDump(v: Json, ensureAscii: bool, out: bytes, reader: Reader)
    requires S.Dumps(v, ensureAscii, out) && CorrectReader(reader)
    ensures Parse(out, true, reader) == Ok(Norm(v))
  {
    hide S.Dumps, CorrectReader, Norm, ParseValue, NextToken;
    ParseDumped(v, ensureAscii, out, [], reader);
    assert out + [] == out;
    EndOfText(reader);
  }

  lemma {:induction false} EndOfText(reader: Reader)
    ensures NextToken([], reader).0 == EndOfInput
  {}

  predicate AllFinite(v: Json) {
    match v
    case Float(bits) => Doubles.Finite(bits)
    case Array(a) => forall i | 0 <= i < |a| :: AllFinite(a[i])
    case Object(o) => forall k | k in o :: AllFinite(o[k])
    case _ => true
  }

  lemma {:induction false} NormIsEqual(v: Json)
    ensures Eq(Norm(v), v) <==> AllFinite(v)
  {
    match v
    case Array(a) =>
      forall i | 0 <= i < |a| ensures Eq(Norm(a[i]), a[i]) <==> AllFinite(a[i]) {
        NormIsEqual(a[i]);
      }
      EqArrays(Norm(v), v);
    case Object(o) =>
      forall k | k in o ensures Eq(Norm(o[k]), o[k]) <==> AllFinite(o[k]) {
        NormIsEqual(o[k]);
      }
      EqObjects(Norm(v), v);
    case _ =>
  }

  /** The parsed value is equal to the dumped one exactly when all its floats are finite. */
  lemma {:induction false} RoundTrip(v: Json, ensureAscii: bool, out: bytes, reader: Reader)
    requires S.Dumps(v, ensureAscii, out) && CorrectReader(reader)
    ensures var r := Parse(out, true, reader);
            r.Ok? && (Eq(r.value, v) <==> AllFinite(v))
  {
    hide S.Dumps, CorrectReader, Parse;
    ParseOfDump(v, ensureAscii, out, reader);
    NormIsEqual(v);
  }

  /** A dump never starts with a byte order mark, so none of it is skipped. */
  lemma {:induction false} NoMark(v: Json, ensureAscii: bool, out: bytes, reader: Reader)
    requires S.Dumps(v, ensureAscii, out) && CorrectReader(reader)
    ensures WithoutMark(out) == out
  {
    hide S.Dumps, CorrectReader;
    ParseDumped(v, ensureAscii, out, [], reader);
    assert out + [] == out;
    MarkIsNoValue(out, reader);
  }

  lemma {:induction false} MarkIsNoValue(text: bytes, reader: Reader)
    ensures text != [] && text[0] == 0xEF ==> ParseFrom(text, reader).Failed?
  {
    if text != [] && text[0] == 0xEF {
      assert NextToken(text, reader) == (ParseError, []);
    }
  }

  /** The serializer, then the parser, run one after the other. */
  method DumpAndParse(v: Json, ensureAscii: bool, reader: Reader) returns (text: Option<bytes>, r: Result<Json>)
    requires CorrectReader(reader)
    ensures text.Some? <==> S.Dumpable(v)
    ensures text.Some? ==> r == Ok(Norm(v)) && S.Dumps(v, ensureAscii, text.value)
  {
    hide S.Dumpable, S.Dumps, CorrectReader, Norm, Parse;
    var serializer := new S.Serializer();
    var ok, dumped := serializer.Dump(v, ensureAscii);
    if !ok {
      return None, Err(0);
    }
    assert serializer.output == [] + dumped == dumped;
    ParseOfDump(v, ensureAscii, serializer.output, reader);
    NoMark(v, ensureAscii, serializer.output, reader);
    var parser := new Parser(serializer.output, reader);
    r := parser.ParseText(true);
    text := Some(serializer.output);
  }

  // ---- what the parser returns can be dumped

  lemma {:induction false} ParsedIsDumpable(tok: L.Token, rest: bytes, reader: Reader)
    requires tok.StringToken? ==> WellFormed(tok.s)
    ensures var p := ParseValue(tok, rest, reader); p.Parsed? ==> S.Dumpable(p.v)
    decreases Left(tok, rest), 0
  {
    hide WellFormed, NextToken;
      var (t, more) := NextToken(rest, reader);
    TokenIsWellFormed(rest, reader);
    if tok == BeginObject && t != EndObject {
      ParsedMembersDumpable(t, more, map[], reader);
    } else if tok == BeginArray && t != EndArray {
      ParsedElementsDumpable(t, more, [], reader);
    }
  }

  lemma {:induction false} TokenIsWellFormed(s: bytes, reader: Reader)
    ensures var t := NextToken(s, reader).0; t.StringToken? ==> WellFormed(t.s)
  {
    var text := SkipSpace(s);
    if text != [] && ScanText(text[1..]).Text? {
      ScannedIsWellFormed(text[1..]);
    }
    hide WellFormed, ScanText, N.ScanNumber;
  }

  lemma {:induction false} ParsedElementsDumpable(tok: L.Token, rest: bytes, done: seq<Json>, reader: Reader)
    requires tok.StringToken? ==> WellFormed(tok.s)
    requires forall x | x in done :: S.Dumpable(x)
    ensures var p := ParseElements(tok, rest, done, reader); p.Parsed? ==> S.Dumpable(p.v)
    decreases Left(tok, rest), 1
  {
    hide WellFormed, NextToken, ParseValue;
    ParsedIsDumpable(tok, rest, reader);
    var p := ParseValue(tok, rest, reader);
    if p.Parsed? {
      var (t, rest2) := NextToken(p.rest, reader);
      if t == ValueSeparator {
        var (u, rest3) := NextToken(rest2, reader);
        TokenIsWellFormed(rest2, reader);
        ParsedElementsDumpable(u, rest3, done + [p.v], reader);
      }
    }
  }

  lemma {:induction false} ParsedMembersDumpable(tok: L.Token, rest: bytes, done: map<bytes, Json>, reader: Reader)
    requires tok.StringToken? ==> WellFormed(tok.s)
    requires forall k | k in done :: WellFormed(k) && S.Dumpable(done[k])
    ensures var p := ParseMembers(tok, rest, done, reader); p.Parsed? ==> S.Dumpable(p.v)
    decreases Left(tok, rest), 2
  {
    hide WellFormed, NextToken, ParseMember;
    ParsedMemberDumpable(tok, rest, reader);
    var p := ParseMember(tok, rest, reader);
    if p.ParsedMember? {
      var (t, rest2) := NextToken(p.rest, reader);
      if t == ValueSeparator {
        var (u, rest3) := NextToken(rest2, reader);
        TokenIsWellFormed(rest2, reader);
        ParsedMembersDumpable(u, rest3, Emplace(done, p.k, p.v), reader);
      }
    }
  }

  lemma {:induction false} ParsedMemberDumpable(tok: L.Token, rest: bytes, reader: Reader)
    requires tok.StringToken? ==> WellFormed(tok.s)
    ensures var p := ParseMember(tok, rest, reader); p.ParsedMember? ==> WellFormed(p.k) && S.Dumpable(p.v)
    decreases Left(tok, rest), 1
  {
    hide WellFormed, NextToken, ParseValue, S.Dumpable;
    if tok.StringToken? {
      var (t, rest1) := NextToken(rest, reader);
      if t == NameSeparator {
        var (u, rest2) := NextToken(rest1, reader);
        TokenIsWellFormed(rest1, reader);
        ParsedIsDumpable(u, rest2, reader);
      }
    }
  }

  /** Whatever parse accepts, dump does not reject. */
  lemma {:induction false} ParsedCanBeDumped(input: bytes, strict: bool, reader: Reader)
    ensures var r := Parse(input, strict, reader); r.Ok? ==> S.Dumpable(r.value)
  {
    hide NextToken, ParseValue;
      var (tok, rest) := NextToken(input, reader);
    TokenIsWellFormed(input, reader);
    ParsedIsDumpable(tok, rest, reader);
  }

  // ---- ensure_ascii

  lemma {:induction false} ReachesPrintable(s: N.NumberState, k: N.NumberKind, text: bytes, t: N.NumberState, l: N.NumberKind)
    requires N.Reaches(s, k, text, t, l)
    ensures Printable(text)
    decreases |text|
  {
    if text != [] {
      var next := N.NumberStep(s, text[0]).next;
      ReachesPrintable(next, N.KindIn(next, k), text[1..], t, l);
    }
  }

  lemma {:induction false} ClosedPrintable(texts: seq<bytes>)
    requires forall t | t in texts :: Printable(t)
    ensures Printable(S.Closed(texts))
  {
    if texts != [] {
      assert texts[0] in texts;
      ClosedPrintable(texts[1..]);
    }
  }

  lemma {:induction false} JoinedPrintable(texts: seq<bytes>)
    requires texts != [] && forall i | 0 <= i < |texts| :: Printable(texts[i])
    ensures Printable(S.Joined(texts))
  {
    forall t | t in texts[..|texts| - 1] ensures Printable(t) {
      var i :| 0 <= i < |texts| - 1 && texts[i] == t;
    }
    ClosedPrintable(texts[..|texts| - 1]);
  }

  lemma {:induction false} QuotedPrintable(s: bytes)
    requires WellFormed(s)
    ensures Printable(S.Quoted(s, true))
  {
    EscapedPrintable(s);
    hide Escaped, WellFormed;
  }

  /** With ensure_ascii the whole text is printable ASCII. */
  lemma {:induction false} DumpPrintable(v: Json, out: bytes)
    requires S.Dumps(v, true, out)
    ensures Printable(out)
    decreases v
  {
    hide S.Quoted, F.TextOf, WellFormed, Sorted, Printable, S.IntegerText;
    match v
    case Null => WordsPrintable();
    case Bool(b) => WordsPrintable();
    case Integer(i) => IntegerPrintable(i);
    case Unsigned(u) => IntegerPrintable(u);
    case Float(bits) =>
      WordsPrintable();
      if Doubles.Finite(bits) {
        var final := FloatReaches(out, bits);
        ReachesPrintable(N.Init, N.UnsignedKind, out, final, N.FloatKind);
      }
    case String(s) => QuotedPrintable(s);
    case Array(a) =>
      WordsPrintable();
      if a != [] {
        var texts := ElementTexts(v, true, out);
        forall i | 0 <= i < |texts| ensures Printable(texts[i]) {
          DumpPrintable(a[i], texts[i]);
        }
        JoinedPrintable(texts);
        WrappedPrintable(S.BEGIN_ARRAY, S.Joined(texts), S.END_ARRAY);
      }
    case Object(o) =>
      WordsPrintable();
      var keys := Sorted(o.Keys);
      if keys != [] {
        var texts := MemberTexts(v, true, out);
        var members := S.MemberTexts(keys, texts, true);
        forall i | 0 <= i < |members| ensures Printable(members[i]) {
          assert keys[i] in keys;
          DumpPrintable(o[keys[i]], texts[i]);
          QuotedPrintable(keys[i]);
          MemberPrintable(keys[i], texts[i]);
        }
        JoinedPrintable(members);
        WrappedPrintable(S.BEGIN_OBJECT, S.Joined(members), S.END_OBJECT);
      }
  }

  lemma {:induction false} WordsPrintable()
    ensures Printable(NULL_TEXT) && Printable(TRUE_TEXT) && Printable(FALSE_TEXT)
    ensures Printable([S.BEGIN_ARRAY, S.END_ARRAY]) && Printable([S.BEGIN_OBJECT, S.END_OBJECT])
  {}

  lemma {:induction false} IntegerPrintable(x: int)
    ensures Printable(S.IntegerText(x))
  {
    hide ToDecimal;
  }

  lemma {:induction false} MemberPrintable(k: bytes, text: bytes)
    requires WellFormed(k) && Printable(S.Quoted(k, true)) && Printable(text)
    ensures Printable(S.MemberText(k, text, true))
  {
    hide S.Quoted, WellFormed;
  }

  lemma {:induction false} WrappedPrintable(open: byte, inner: bytes, close: byte)
    requires 0x20 <= open <= 0x7E && 0x20 <= close <= 0x7E && Printable(inner)
    ensures Printable([open] + inner + [close])
  {}
}
