/**
  The grammar of numbers in section 6 of RFC 7159, stated without states, and the scanner's automaton
  held against it: the scanner takes the longest beginning of the input that some number starts with,
  and fails exactly if that is no number itself.
 */
module NumberGrammar {
  import opened Arith
  import opened Decimal
  import opened NumberToken

  // ---- the grammar

  /** number = [ minus ] int [ frac ] [ exp ] */
  datatype Parts = Parts(minus: bytes, whole: bytes, frac: bytes, exp: bytes)

  predicate IsSign(c: byte) {
    c == PLUS || c == MINUS
  }

  predicate IsExponentMark(c: byte) {
    c == EXP_LOWER || c == EXP_UPPER
  }

  predicate IsInt(s: bytes) {
    s != [] && AllDigits(s) && (s[0] == DIGIT_0 ==> |s| == 1)
  }

  predicate IsFrac(s: bytes) {
    |s| > 1 && s[0] == POINT && AllDigits(s[1..])
  }

  predicate IsExp(s: bytes) {
    && |s| > 1 && IsExponentMark(s[0])
    && var digits := if IsSign(s[1]) then s[2..] else s[1..];
    digits != [] && AllDigits(digits)
  }

  predicate Number(p: Parts) {
    && (p.minus == [] || p.minus == [MINUS])
    && IsInt(p.whole)
    && (p.frac == [] || IsFrac(p.frac))
    && (p.exp == [] || IsExp(p.exp))
  }

  function Text(p: Parts): bytes {
    p.minus + p.whole + p.frac + p.exp
  }

  /** The parts that are present decide the type of the token. */
  function KindOf(p: Parts): NumberKind {
    if p.frac != [] || p.exp != [] then FloatKind
    else if p.minus != [] then IntegerKind
    else UnsignedKind
  }

  ghost predicate IsNumber(text: bytes) {
    exists p :: Number(p) && Text(p) == text
  }

  /** Some number starts with the text. */
  ghost predicate Begins(text: bytes) {
    exists more: bytes :: IsNumber(text + more)
  }

  /** The longest beginning of the input that some number starts with. */
  ghost predicate Longest(s: bytes, n: nat) {
    n <= |s| && Begins(s[..n]) && (n < |s| ==> !Begins(s[..n + 1]))
  }

  /** The bytes that can follow a number and belong to a longer one. */
  predicate Continues(p: Parts, c: byte) {
    || (IsDigit(c) && (p.whole == [DIGIT_0] ==> p.frac != [] || p.exp != []))
    || (c == POINT && p.frac == [] && p.exp == [])
    || (IsExponentMark(c) && p.exp == [])
  }

  // ---- beginnings of numbers, by the part that is being read

  predicate ExpBegun(s: bytes) {
    s != [] ==>
      && IsExponentMark(s[0])
      && (|s| > 1 ==> (IsSign(s[1]) && AllDigits(s[2..])) || AllDigits(s[1..]))
  }

  predicate Begun(p: Parts) {
    && (p.minus == [] || p.minus == [MINUS])
    && (p.whole == [] || IsInt(p.whole))
    && (p.frac == [] || (p.frac[0] == POINT && AllDigits(p.frac[1..])))
    && ExpBegun(p.exp)
    && (p.whole == [] ==> p.frac == [] && p.exp == [])
    && (p.exp != [] ==> |p.frac| != 1)
  }

  /** The state in which the automaton is behind the text. */
  function StateOf(p: Parts): NumberState {
    if |p.exp| == 1 then Exponent
    else if |p.exp| == 2 && IsSign(p.exp[1]) then Sign
    else if p.exp != [] then Any2
    else if |p.frac| == 1 then Decimal1
    else if p.frac != [] then Decimal2
    else if p.whole == [DIGIT_0] then Zero
    else if p.whole != [] then Any1
    else if p.minus != [] then AfterMinus
    else Init
  }

  predicate Accepting(s: NumberState) {
    s in {Zero, Any1, Decimal2, Any2}
  }

  /** One more byte, put where it belongs. */
  function Extend(p: Parts, c: byte): Parts {
    if IsExponentMark(c) || p.exp != [] then p.(exp := p.exp + [c])
    else if c == POINT || p.frac != [] then p.(frac := p.frac + [c])
    else if IsSign(c) && p.whole == [] then p.(minus := p.minus + [c])
    else p.(whole := p.whole + [c])
  }

  lemma {:induction false} ExtendExp(p: Parts, c: byte)
    requires Begun(p) && p.exp != []
    ensures var step, q := NumberStep(StateOf(p), c), Extend(p, c);
            if step.Goto? then Begun(q) && StateOf(q) == step.next && KindIn(step.next, KindOf(p)) == KindOf(q)
            else !Begun(q)
  {
    hide IsInt, AllDigits;
    ExpGrows(p.exp, c);
  }

  /** One more byte behind an exponent mark. */
  lemma {:induction false} ExpGrows(s: bytes, c: byte)
    requires s != [] && ExpBegun(s)
    ensures ExpBegun(s + [c]) <==> IsDigit(c) || (|s| == 1 && IsSign(c))
    ensures |s| > 1 ==> (s + [c])[1] == s[1]
    ensures |s| == 1 ==> (s + [c])[1] == c
  {
    var t := s + [c];
    if |s| > 1 {
      assert t[2..] == s[2..] + [c] && t[1..] == s[1..] + [c];
      assert t[1..][|s| - 1] == c && t[2..][|s| - 2] == c;
    } else {
      assert t[1..] == [c] && t[2..] == [];
    }
  }

  lemma {:induction false} ExtendFrac(p: Parts, c: byte)
    requires Begun(p) && p.exp == [] && p.frac != []
    ensures var step, q := NumberStep(StateOf(p), c), Extend(p, c);
            if step.Goto? then Begun(q) && StateOf(q) == step.next && KindIn(step.next, KindOf(p)) == KindOf(q)
            else !Begun(q)
  {
    if !IsExponentMark(c) {
      var t := p.frac + [c];
      assert t[0] == p.frac[0] && t[1..] == p.frac[1..] + [c];
      assert t[1..][|p.frac| - 1] == c;
    }
  }

  lemma {:induction false} ExtendWhole(p: Parts, c: byte)
    requires Begun(p) && p.exp == [] && p.frac == []
    ensures var step, q := NumberStep(StateOf(p), c), Extend(p, c);
            if step.Goto? then Begun(q) && StateOf(q) == step.next && KindIn(step.next, KindOf(p)) == KindOf(q)
            else !Begun(q)
  {
    var t := p.whole + [c];
    assert p.whole != [] ==> t[0] == p.whole[0];
    assert t[|p.whole|] == c;
  }

  /** One step of the automaton is one more byte of a beginning. */
  lemma {:induction false} ExtendBegun(p: Parts, c: byte)
    requires Begun(p)
    ensures var step, q := NumberStep(StateOf(p), c), Extend(p, c);
            if step.Goto? then Begun(q) && StateOf(q) == step.next && KindIn(step.next, KindOf(p)) == KindOf(q)
            else !Begun(q)
  {
    if p.exp != [] {
      ExtendExp(p, c);
    } else if p.frac != [] {
      ExtendFrac(p, c);
    } else {
      ExtendWhole(p, c);
    }
  }

  lemma {:induction false} ExtendText(p: Parts, c: byte)
    requires Begun(p)
    ensures Text(Extend(p, c)) == Text(p) + [c]
  {
    var q := Extend(p, c);
    if p.exp != [] || IsExponentMark(c) {
      assert Text(q) == p.minus + p.whole + p.frac + (p.exp + [c]);
    } else if p.frac != [] || c == POINT {
      assert Text(q) == p.minus + p.whole + (p.frac + [c]);
    }
  }

  // ---- the automaton on a whole text

  datatype Run = Run(state: NumberState, kind: NumberKind) | Stuck

  function After(t: bytes): Run {
    if t == [] then Run(Init, UnsignedKind)
    else
      match After(t[..|t| - 1])
      case Stuck => Stuck
      case Run(s, k) =>
        var step := NumberStep(s, t[|t| - 1]);
        if step.Goto? then Run(step.next, KindIn(step.next, k)) else Stuck
  }

  /** Where the automaton is, the text has a decomposition that says so. */
  lemma {:induction false} AfterHasParts(t: bytes) returns (p: Parts)
    requires After(t).Run?
    ensures Begun(p) && Text(p) == t && After(t) == Run(StateOf(p), KindOf(p))
    decreases |t|
  {
    if t == [] {
      p := Parts([], [], [], []);
    } else {
      var init, c := t[..|t| - 1], t[|t| - 1];
      var q := AfterHasParts(init);
      hide Begun, StateOf, KindOf, Extend, Text, NumberStep;
      ExtendBegun(q, c);
      ExtendText(q, c);
      p := Extend(q, c);
      assert init + [c] == t;
    }
  }

  lemma {:induction false} ShrinkExp(p: Parts) returns (q: Parts, c: byte)
    requires Begun(p) && p.exp != []
    ensures Begun(q) && Extend(q, c) == p
  {
    var s := p.exp[..|p.exp| - 1];
    q, c := p.(exp := s), p.exp[|p.exp| - 1];
    assert s + [c] == p.exp;
    if |p.exp| > 2 {
      assert s[1..] == p.exp[1..][..|p.exp| - 2] && s[2..] == p.exp[2..][..|p.exp| - 3];
    }
  }

  lemma {:induction false} ShrinkFrac(p: Parts) returns (q: Parts, c: byte)
    requires Begun(p) && p.exp == [] && p.frac != []
    ensures Begun(q) && Extend(q, c) == p
  {
    var s := p.frac[..|p.frac| - 1];
    q, c := p.(frac := s), p.frac[|p.frac| - 1];
    assert s + [c] == p.frac;
    if s != [] {
      assert p.frac[1..][|p.frac| - 2] == c && s[1..] == p.frac[1..][..|p.frac| - 2];
    }
  }

  /** The last byte of a beginning taken away. */
  lemma {:induction false} Shrink(p: Parts) returns (q: Parts, c: byte)
    requires Begun(p) && Text(p) != []
    ensures Begun(q) && Extend(q, c) == p
  {
    if p.exp != [] {
      q, c := ShrinkExp(p);
    } else if p.frac != [] {
      q, c := ShrinkFrac(p);
    } else if p.whole != [] {
      var s := p.whole[..|p.whole| - 1];
      q, c := p.(whole := s), p.whole[|p.whole| - 1];
      assert s + [c] == p.whole;
    } else {
      q, c := p.(minus := []), MINUS;
      assert [] + [MINUS] == p.minus;
    }
  }

  /** And every decomposition of a text gives the state and the kind. */
  lemma {:induction false} PartsGiveAfter(p: Parts)
    requires Begun(p)
    ensures After(Text(p)) == Run(StateOf(p), KindOf(p))
    decreases |Text(p)|
  {
    if Text(p) == [] {
      assert p == Parts([], [], [], []);
    } else {
      var q, c := Shrink(p);
      ExtendText(q, c);
      ExtendBegun(q, c);
      hide Begun, StateOf, KindOf, Extend, Text, NumberStep;
      assert (Text(q) + [c])[..|Text(q)|] == Text(q);
      PartsGiveAfter(q);
    }
  }

  lemma {:induction false} NumberIsBegun(p: Parts)
    ensures Number(p) <==> Begun(p) && Accepting(StateOf(p))
  {
  }

  /** A text is a number exactly if the automaton accepts it. */
  lemma {:induction false} NumberIsAccepted(t: bytes)
    ensures IsNumber(t) <==> After(t).Run? && Accepting(After(t).state)
    ensures forall p | Number(p) && Text(p) == t :: After(t) == Run(StateOf(p), KindOf(p))
  {
    hide Number, Begun, StateOf, KindOf, Text, After;
    forall p | Number(p) && Text(p) == t ensures After(t) == Run(StateOf(p), KindOf(p)) && Accepting(StateOf(p)) {
      NumberIsBegun(p);
      PartsGiveAfter(p);
    }
    if After(t).Run? && Accepting(After(t).state) {
      var p := AfterHasParts(t);
      NumberIsBegun(p);
    }
  }

  // ---- beginnings of numbers are the texts on which the automaton is not stuck

  lemma {:induction false} StuckStays(t: bytes, more: bytes)
    requires After(t + more).Run?
    ensures After(t).Run?
    decreases |more|
  {
    if more == [] {
      assert t + more == t;
    } else {
      var init := more[..|more| - 1];
      assert (t + more)[..|t + more| - 1] == t + init;
      StuckStays(t, init);
    }
  }

  /** Every beginning can be completed, by a zero at most. */
  lemma {:induction false} Completed(p: Parts)
    requires Begun(p)
    ensures Begins(Text(p))
  {
    hide Begun, StateOf, KindOf, Extend, Text, Number;
    NumberIsBegun(p);
    if Accepting(StateOf(p)) {
      assert Text(p) + [] == Text(p);
      assert IsNumber(Text(p) + []);
    } else {
      var q := Extend(p, DIGIT_0);
      ExtendBegun(p, DIGIT_0);
      ExtendText(p, DIGIT_0);
      NumberIsBegun(q);
      assert IsNumber(Text(p) + [DIGIT_0]);
    }
  }

  lemma {:induction false} BeginsExactly(t: bytes)
    ensures Begins(t) <==> After(t).Run?
  {
    hide After, IsNumber, Text, Begun;
    if Begins(t) {
      var more: bytes :| IsNumber(t + more);
      NumberIsAccepted(t + more);
      StuckStays(t, more);
    }
    if After(t).Run? {
      var p := AfterHasParts(t);
      Completed(p);
    }
  }

  /** Which byte behind a number belongs to a longer one. */
  lemma {:induction false} ContinuesExactly(p: Parts, c: byte)
    requires Number(p)
    ensures Begins(Text(p) + [c]) <==> Continues(p, c)
    ensures NumberStep(StateOf(p), c).Goto? <==> Continues(p, c)
  {
    NumberIsBegun(p);
    ContinuesStep(p, c);
    hide Begins, Text, StateOf, KindOf, Begun, NumberStep, Continues, Number;
    PartsGiveAfter(p);
    BeginsExactly(Text(p) + [c]);
    assert (Text(p) + [c])[..|Text(p)|] == Text(p);
  }

  lemma {:induction false} ContinuesStep(p: Parts, c: byte)
    requires Number(p)
    ensures NumberStep(StateOf(p), c).Goto? <==> Continues(p, c)
  {
  }

  // ---- the scanner

  lemma {:induction false} ScanAfter(s: bytes, i: nat)
    requires i <= |s| && After(s[..i]).Run?
    ensures var a := After(s[..i]);
            ScanNumber(s) ==
            match ScanFrom(a.state, a.kind, s[i..])
            case Invalid => Invalid
            case Lexeme(kind, n) => Lexeme(kind, i + n)
    decreases i
  {
    if i == 0 {
      assert s[0..] == s;
    } else {
      assert s[..i][..i - 1] == s[..i - 1];
      ScanAfter(s, i - 1);
      hide NumberStep, KindIn;
      assert s[i - 1..][1..] == s[i..];
    }
  }

  lemma {:induction false} StepEnds(st: NumberState, c: int)
    requires !NumberStep(st, c).Goto?
    ensures NumberStep(st, c) == if Accepting(st) then Done else Fail
  {
  }

  /** Where no step is possible the scanner stops, and it has a lexeme if the state accepts. */
  lemma {:induction false} ScanStops(s: bytes, i: nat)
    requires i <= |s| && After(s[..i]).Run? && !NumberStep(After(s[..i]).state, First(s[i..])).Goto?
    ensures var a := After(s[..i]);
            ScanNumber(s) == if Accepting(a.state) then Lexeme(a.kind, i) else Invalid
  {
    hide After, NumberStep, Accepting;
    ScanAfter(s, i);
    StepEnds(After(s[..i]).state, First(s[i..]));
  }

  lemma {:induction false} LongestExists(s: bytes, i: nat) returns (n: nat)
    requires i <= |s| && After(s[..i]).Run?
    ensures n <= |s| && After(s[..n]).Run? && (n < |s| ==> !After(s[..n + 1]).Run?)
    decreases |s| - i
  {
    hide After;
    if i < |s| && After(s[..i + 1]).Run? {
      n := LongestExists(s, i + 1);
    } else {
      n := i;
    }
  }

  lemma {:induction false} LongestStops(s: bytes, n: nat)
    requires Longest(s, n)
    ensures After(s[..n]).Run? && !NumberStep(After(s[..n]).state, First(s[n..])).Goto?
  {
    hide Begins;
    BeginsExactly(s[..n]);
    if n < |s| {
      BeginsExactly(s[..n + 1]);
      assert s[..n + 1][..n] == s[..n];
      hide NumberStep;
    }
  }

  /** The scanner takes the longest beginning of a number if that is a number, and fails otherwise. */
  lemma {:induction false} ScanIsLongest(s: bytes, n: nat)
    requires Longest(s, n)
    ensures if IsNumber(s[..n]) then ScanNumber(s).Lexeme? && ScanNumber(s).length == n else ScanNumber(s) == Invalid
    ensures forall p | Number(p) && Text(p) == s[..n] :: ScanNumber(s) == Lexeme(KindOf(p), n)
  {
    LongestStops(s, n);
    hide Longest, After, NumberStep, Accepting, IsNumber, Number, Text, KindOf, ScanNumber;
    ScanStops(s, n);
    NumberIsAccepted(s[..n]);
    forall p | Number(p) && Text(p) == s[..n] ensures ScanNumber(s) == Lexeme(KindOf(p), n) {
      assert IsNumber(s[..n]);
    }
  }

  lemma {:induction false} SomeLongest(s: bytes) returns (n: nat)
    ensures Longest(s, n)
  {
    assert s[..0] == [];
    n := LongestExists(s, 0);
    hide Begins, After;
    BeginsExactly(s[..n]);
    if n < |s| {
      BeginsExactly(s[..n + 1]);
    }
  }

  /** What the scanner takes is a number of the grammar; its parts decide the kind, and no byte that could continue it follows. */
  lemma {:induction false} LexemeIsNumber(s: bytes) returns (p: Parts)
    requires ScanNumber(s).Lexeme?
    ensures var r := ScanNumber(s);
            && Number(p) && Text(p) == s[..r.length] && r.kind == KindOf(p)
            && (r.length < |s| ==> !Continues(p, s[r.length]))
  {
    hide ScanNumber, Number, Text, KindOf, Begins, Continues;
    var n := SomeLongest(s);
    ScanIsLongest(s, n);
    p :| Number(p) && Text(p) == s[..n];
    if n < |s| {
      ContinuesExactly(p, s[n]);
      assert s[..n] + [s[n]] == s[..n + 1];
    }
  }

  /** Every number is taken as a whole, with the kind by its parts, unless the next byte continues it. */
  lemma {:induction false} NumberIsLexeme(p: Parts, rest: bytes)
    requires Number(p) && (rest == [] || !Continues(p, rest[0]))
    ensures ScanNumber(Text(p) + rest) == Lexeme(KindOf(p), |Text(p)|)
  {
    hide ScanNumber, Number, Text, KindOf, Begins, Continues;
    var s, n := Text(p) + rest, |Text(p)|;
    assert s[..n] == Text(p);
    assert Begins(s[..n]) by {
      NumberIsBegun(p);
      hide Begun;
      Completed(p);
    }
    if rest != [] {
      ContinuesExactly(p, rest[0]);
      assert s[..n + 1] == Text(p) + [rest[0]];
    }
    ScanIsLongest(s, n);
  }

  /** The scanner fails exactly if the longest beginning of a number is not one itself. */
  lemma {:induction false} InvalidExactly(s: bytes)
    ensures ScanNumber(s) == Invalid <==> exists n: nat :: n <= |s| && Longest(s, n) && !IsNumber(s[..n])
  {
    hide ScanNumber, Begins, IsNumber;
    var m := SomeLongest(s);
    ScanIsLongest(s, m);
    forall n: nat | n <= |s| && Longest(s, n) ensures IsNumber(s[..n]) <==> ScanNumber(s).Lexeme? {
      ScanIsLongest(s, n);
    }
  }
}
