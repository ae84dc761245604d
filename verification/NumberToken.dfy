/**
  The number scanner of the lexer, a deterministic automaton over the grammar of section 6 of RFC 7159,
  and the number that a scanned text denotes.
 */
module NumberToken {
  import opened Arith
  import opened Decimal

  const EOF := -1

  const PLUS: byte := '+' as int
  const MINUS: byte := '-' as int
  const POINT: byte := '.' as int
  const EXP_LOWER: byte := 'e' as int
  const EXP_UPPER: byte := 'E' as int

  datatype NumberState =
    | Init | AfterMinus | Zero | Any1 | Decimal1 | Decimal2 | Exponent | Sign | Any2

  datatype NumberKind = UnsignedKind | IntegerKind | FloatKind

  datatype Step = Goto(next: NumberState) | Done | Fail

  /** One transition; c is the next byte or EOF. */
  function NumberStep(s: NumberState, c: int): Step {
    var digit := DIGIT_0 <= c <= DIGIT_0 + 9;
    var exp := c == EXP_LOWER || c == EXP_UPPER;
    match s
    case Init => if c == MINUS then Goto(AfterMinus) else if c == DIGIT_0 then Goto(Zero) else if digit then Goto(Any1) else Fail
    case AfterMinus => if c == DIGIT_0 then Goto(Zero) else if digit then Goto(Any1) else Fail
    case Zero => if c == POINT then Goto(Decimal1) else if exp then Goto(Exponent) else Done
    case Any1 => if digit then Goto(Any1) else if c == POINT then Goto(Decimal1) else if exp then Goto(Exponent) else Done
    case Decimal1 => if digit then Goto(Decimal2) else Fail
    case Decimal2 => if digit then Goto(Decimal2) else if exp then Goto(Exponent) else Done
    case Exponent => if c == PLUS || c == MINUS then Goto(Sign) else if digit then Goto(Any2) else Fail
    case Sign => if digit then Goto(Any2) else Fail
    case Any2 => if digit then Goto(Any2) else Done
  }

  /** Entering a state may fix the type of the number. */
  function KindIn(s: NumberState, k: NumberKind): NumberKind {
    match s
    case AfterMinus => IntegerKind
    case Decimal1 => FloatKind
    case Exponent => FloatKind
    case _ => k
  }

  function First(input: bytes): int {
    if input == [] then EOF else input[0]
  }

  datatype NumberScan = Lexeme(kind: NumberKind, length: nat) | Invalid

  /** The automaton run on the input as far as it goes. */
  function ScanFrom(s: NumberState, k: NumberKind, input: bytes): (r: NumberScan)
    ensures r.Lexeme? ==> r.length <= |input|
    decreases |input|
  {
    match NumberStep(s, First(input))
    case Fail => Invalid
    case Done => Lexeme(k, 0)
    case Goto(t) =>
      match ScanFrom(t, KindIn(t, k), input[1..])
      case Invalid => Invalid
      case Lexeme(kind, n) => Lexeme(kind, n + 1)
  }

  function ScanNumber(input: bytes): NumberScan {
    ScanFrom(Init, UnsignedKind, input)
  }

  lemma {:induction false} LexemeNotEmpty(input: bytes)
    ensures ScanNumber(input).Lexeme? ==> ScanNumber(input).length > 0
  {}

  // ---- runs that consume a whole text

  ghost predicate Reaches(s: NumberState, k: NumberKind, text: bytes, t: NumberState, l: NumberKind)
    decreases |text|
  {
    if text == [] then s == t && k == l
    else
      var step := NumberStep(s, text[0]);
      step.Goto? && Reaches(step.next, KindIn(step.next, k), text[1..], t, l)
  }

  lemma {:induction false} ReachesConcat(s: NumberState, k: NumberKind, a: bytes, t: NumberState, l: NumberKind, b: bytes,
                                         u: NumberState, m: NumberKind)
    requires Reaches(s, k, a, t, l) && Reaches(t, l, b, u, m)
    ensures Reaches(s, k, a + b, u, m)
    decreases |a|
  {
    if a == [] {
      assert a + b == b;
    } else {
      var step := NumberStep(s, a[0]);
      ReachesConcat(step.next, KindIn(step.next, k), a[1..], t, l, b, u, m);
      assert (a + b)[1..] == a[1..] + b;
    }
  }

  lemma {:induction false} DigitsLoop(s: NumberState, k: NumberKind, digits: bytes)
    requires AllDigits(digits) && s in {Any1, Decimal2, Any2}
    ensures Reaches(s, k, digits, s, k)
  {
    if digits != [] {
      DigitsLoop(s, k, digits[1..]);
    }
  }

  /** A text that ends in an accepting state, followed by a byte that ends the number, is one lexeme. */
  lemma {:induction false} ReachesScans(s: NumberState, k: NumberKind, text: bytes, t: NumberState, l: NumberKind, rest: bytes)
    requires Reaches(s, k, text, t, l) && NumberStep(t, First(rest)).Done?
    ensures ScanFrom(s, k, text + rest) == Lexeme(l, |text|)
    decreases |text|
  {
    if text == [] {
      assert text + rest == rest;
    } else {
      var step := NumberStep(s, text[0]);
      ReachesScans(step.next, KindIn(step.next, k), text[1..], t, l, rest);
      assert (text + rest)[1..] == text[1..] + rest;
    }
  }

  // ---- the number a text denotes

  datatype Phase = IntegerPart | FractionPart | ExponentPart

  /** Sign, digits before the exponent as one integer, how many of them follow the point, and the exponent. */
  datatype Reading = Reading(phase: Phase, negative: bool, mantissa: nat, scale: nat, negativeExp: bool, exp: nat)

  function ReadByte(r: Reading, c: byte): Reading {
    if IsDigit(c) then
      var d: nat := c - DIGIT_0;
      match r.phase
      case IntegerPart => r.(mantissa := 10 * r.mantissa + d)
      case FractionPart => r.(mantissa := 10 * r.mantissa + d, scale := r.scale + 1)
      case ExponentPart => r.(exp := 10 * r.exp + d)
    else if c == POINT then r.(phase := FractionPart)
    else if c == EXP_LOWER || c == EXP_UPPER then r.(phase := ExponentPart)
    else if c == MINUS then (if r.phase.ExponentPart? then r.(negativeExp := true) else r.(negative := true))
    else r
  }

  function Read(r: Reading, text: bytes): Reading
    decreases |text|
  {
    if text == [] then r else Read(ReadByte(r, text[0]), text[1..])
  }

  const NOTHING_READ := Reading(IntegerPart, false, 0, 0, false, 0)

  ghost function ReadingValue(r: Reading): real {
    var e: int := r.exp;
    var magnitude := r.mantissa as real * R10((if r.negativeExp then -e else e) - r.scale);
    if r.negative then -magnitude else magnitude
  }

  /** The number written in a text. */
  ghost function NumberValue(text: bytes): real {
    ReadingValue(Read(NOTHING_READ, text))
  }

  lemma {:induction false} ReadConcat(r: Reading, a: bytes, b: bytes)
    ensures Read(r, a + b) == Read(Read(r, a), b)
    decreases |a|
  {
    if a == [] {
      assert a + b == b;
    } else {
      ReadConcat(ReadByte(r, a[0]), a[1..], b);
      assert (a + b)[1..] == a[1..] + b;
    }
  }

  lemma {:induction false} ReadDigits(r: Reading, digits: bytes)
    requires AllDigits(digits)
    ensures var n, v := |digits|, DigitsValue(digits);
            Read(r, digits) ==
            match r.phase
            case IntegerPart => r.(mantissa := r.mantissa * Pow10(n) + v)
            case FractionPart => r.(mantissa := r.mantissa * Pow10(n) + v, scale := r.scale + n)
            case ExponentPart => r.(exp := r.exp * Pow10(n) + v)
    decreases |digits|
  {
    if digits != [] {
      var init, last := digits[..|digits| - 1], digits[|digits| - 1];
      assert digits == init + [last];
      ReadDigits(r, init);
      ReadConcat(r, init, [last]);
      assert Read(Read(r, init), [last]) == ReadByte(Read(r, init), last);
      DigitsSnoc(init, last);
      hide Read;
      var m := if r.phase.ExponentPart? then r.exp else r.mantissa;
      ShiftedSum(m, Pow10(|init|), DigitsValue(init), last - DIGIT_0);
    }
  }
}
