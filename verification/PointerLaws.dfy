/** When a pointer is malformed, and which tokens are array indices for the code. */
module PointerLaws {
  import opened Arith
  import opened Decimal
  import opened Json
  import opened Pointer

  // ---- malformed pointers

  /** A tilde that starts no escape sequence. */
  predicate LooseTilde(s: bytes) {
    exists i :: 0 <= i < |s| && s[i] == '~' as int && !(i + 1 < |s| && s[i + 1] in {'0' as int, '1' as int})
  }

  lemma {:induction false} LooseIsImproper(s: bytes)
    ensures LooseTilde(s) <==> !ProperlyEscaped(s)
  {
  }

  /** A slash ends no escape sequence, so the parts can be looked at one by one. */
  lemma {:induction false} ImproperParts(s: bytes, i: nat)
    requires i < |s| && s[i] == SLASH
    ensures ProperlyEscaped(s) <==> ProperlyEscaped(s[..i]) && ProperlyEscaped(s[i + 1..])
  {
    var a, b := s[..i], s[i + 1..];
    if ProperlyEscaped(a) && ProperlyEscaped(b) {
      forall j | 0 <= j < |s| && s[j] == TILDE ensures j + 1 < |s| && (s[j + 1] == ZERO || s[j + 1] == ONE) {
        if j < i {
          assert a[j] == s[j];
          assert j + 1 < i && a[j + 1] == s[j + 1];
        } else {
          assert b[j - i - 1] == s[j];
          assert b[j - i - 1 + 1] == s[j + 1];
        }
      }
    }
    if ProperlyEscaped(s) {
      forall j | 0 <= j < |a| && a[j] == TILDE ensures j + 1 < |a| && (a[j + 1] == ZERO || a[j + 1] == ONE) {
        assert s[j] == a[j];
      }
      forall j | 0 <= j < |b| && b[j] == TILDE ensures j + 1 < |b| && (b[j + 1] == ZERO || b[j + 1] == ONE) {
        assert s[i + 1 + j] == b[j];
      }
    }
  }

  lemma {:induction false} DecodeFails(s: bytes)
    ensures DecodeTokens(RawTokens(s)) == Err(PARSE_ERROR_108) <==> !ProperlyEscaped(s)
    ensures DecodeTokens(RawTokens(s)).Err? ==> DecodeTokens(RawTokens(s)) == Err(PARSE_ERROR_108)
    decreases |s|
  {
    hide IndexOf, ProperlyEscaped, Unescape, RawTokens, DecodeTokens;
    var i := IndexOf(s, [SLASH]);
    IndexOfByte(s, SLASH);
    SplitOnce(s);
    if i != NPOS {
      DecodeFails(s[i + 1..]);
      ImproperParts(s, i);
    }
  }

  /** The first part decides, or else the others. */
  lemma {:induction false} SplitOnce(s: bytes)
    ensures var i, r := IndexOf(s, [SLASH]), DecodeTokens(RawTokens(s));
            if !ProperlyEscaped(if i == NPOS then s else s[..i]) then r == Err(PARSE_ERROR_108)
            else if i == NPOS then r.Ok?
            else
              var more := DecodeTokens(RawTokens(s[i + 1..]));
              if more.Err? then r == more else r.Ok?
  {
    hide IndexOf, ProperlyEscaped, Unescape;
    var i := IndexOf(s, [SLASH]);
    if i == NPOS {
      assert RawTokens(s)[1..] == [];
    } else {
      assert RawTokens(s)[1..] == RawTokens(s[i + 1..]);
    }
  }

  /** A pointer is rejected exactly if it starts with something else than a slash or has a loose tilde. */
  lemma {:induction false} SplitFails(s: bytes)
    ensures Split(s) == Err(PARSE_ERROR_107) <==> s != [] && s[0] != '/' as int
    ensures Split(s) == Err(PARSE_ERROR_108) <==> s != [] && s[0] == '/' as int && LooseTilde(s)
    ensures Split(s).Ok? <==> s == [] || (s[0] == '/' as int && !LooseTilde(s))
  {
    hide DecodeTokens, RawTokens, ProperlyEscaped;
    LooseIsImproper(s);
    if s != [] && s[0] == SLASH {
      DecodeFails(s[1..]);
      ImproperParts(s, 0);
      EmptyIsProper();
      assert s[..0] == [];
    }
  }

  lemma {:induction false} EmptyIsProper()
    ensures ProperlyEscaped([])
  {
  }

  /** The two escape sequences; every other byte stays. */
  lemma {:induction false} EscapedBytes(c: byte)
    ensures Escape([c]) ==
            if c == '~' as int then ['~' as int, '0' as int]
            else if c == '/' as int then ['~' as int, '1' as int]
            else [c]
  {
    hide Escape;
    EscapeCons(c, []);
    assert [c] + [] == [c] && EscapeByte(c) + [] == EscapeByte(c);
  }

  // ---- array indices

  predicate Blanks(s: bytes) {
    forall c | c in s :: c in {0x20, 0x09, 0x0A, 0x0B, 0x0C, 0x0D}
  }

  /** The parts of a decimal number as the conversion to int takes it. */
  predicate IndexText(s: bytes, blanks: bytes, sign: bytes, digits: bytes, v: int) {
    && s == blanks + sign + digits && Blanks(blanks)
    && (sign == [] || sign == ['+' as int] || sign == ['-' as int])
    && digits != [] && AllDigits(digits)
    && v == if sign == ['-' as int] then 0 - DigitsValue(digits) else DigitsValue(digits)
  }

  lemma {:induction false} SkipBlanks(s: bytes) returns (blanks: bytes)
    ensures Blanks(blanks) && s == blanks + SkipSpace(s)
    ensures SkipSpace(s) != [] ==> !IsSpace(SkipSpace(s)[0])
    decreases |s|
  {
    if s != [] && IsSpace(s[0]) {
      var more := SkipBlanks(s[1..]);
      blanks := [s[0]] + more;
      assert s == [s[0]] + s[1..];
    } else {
      blanks := [];
      assert s == [] + s;
    }
  }

  lemma {:induction false} BlanksSkipped(blanks: bytes, t: bytes)
    requires Blanks(blanks) && (t != [] ==> !IsSpace(t[0]))
    ensures SkipSpace(blanks + t) == t
    decreases |blanks|
  {
    if blanks == [] {
      assert blanks + t == t;
    } else {
      assert blanks[0] in blanks && (blanks + t)[1..] == blanks[1..] + t;
      forall c | c in blanks[1..] ensures c in blanks {}
      BlanksSkipped(blanks[1..], t);
    }
  }

  lemma {:induction false} WholePrefix(s: bytes)
    ensures |DigitPrefix(s)| == |s| <==> AllDigits(s)
    ensures AllDigits(s) ==> DigitPrefix(s) == s
    decreases |s|
  {
    if s != [] {
      WholePrefix(s[1..]);
      assert s == [s[0]] + s[1..];
    }
  }

  /** A token is an index exactly if it is blanks, an optional sign and digits, within int. */
  lemma {:induction false} IndexExactly(s: bytes, v: int)
    ensures ArrayIndex(s) == Ok(v) <==>
            -0x8000_0000 <= v <= 0x7FFF_FFFF && exists blanks, sign, digits :: IndexText(s, blanks, sign, digits, v)
  {
    if ArrayIndex(s) == Ok(v) {
      IndexHasText(s, v);
    }
    if -0x8000_0000 <= v <= 0x7FFF_FFFF && exists blanks, sign, digits :: IndexText(s, blanks, sign, digits, v) {
      var blanks, sign, digits :| IndexText(s, blanks, sign, digits, v);
      IndexOutcome(s, blanks, sign, digits, [], v);
    }
  }

  lemma {:induction false} IndexHasText(s: bytes, v: int)
    requires ArrayIndex(s) == Ok(v)
    ensures -0x8000_0000 <= v <= 0x7FFF_FFFF && exists blanks, sign, digits :: IndexText(s, blanks, sign, digits, v)
  {
    hide SkipSpace, DigitPrefix, DigitsValue, Blanks;
    var blanks := SkipBlanks(s);
    var sign, u := SignedDigits(SkipSpace(s), v, s);
    assert blanks + (sign + u) == blanks + sign + u;
    assert IndexText(s, blanks, sign, u, v);
  }

  lemma {:induction false} SignedDigits(t: bytes, v: int, s: bytes) returns (sign: bytes, u: bytes)
    requires ArrayIndex(s) == Ok(v) && t == SkipSpace(s)
    ensures t == sign + u && (sign == [] || sign == ['+' as int] || sign == ['-' as int])
    ensures u != [] && AllDigits(u) && v == if sign == ['-' as int] then 0 - DigitsValue(u) else DigitsValue(u)
  {
    hide SkipSpace, DigitPrefix, DigitsValue;
    if t != [] && (t[0] == ('-' as int) || t[0] == ('+' as int)) {
      sign, u := [t[0]], t[1..];
    } else {
      sign, u := [], t;
    }
    WholePrefix(u);
    assert t == sign + u;
  }

  /** A text that starts with a number, and what is behind its last digit. */
  ghost predicate NumberStart(s: bytes, blanks: bytes, sign: bytes, digits: bytes, junk: bytes, v: int) {
    && s == blanks + sign + digits + junk
    && IndexText(blanks + sign + digits, blanks, sign, digits, v)
    && (junk != [] ==> !('0' as int <= junk[0] <= '9' as int))
  }

  lemma {:induction false} LeadingDigits(digits: bytes, junk: bytes)
    requires AllDigits(digits) && (junk != [] ==> !IsDigit(junk[0]))
    ensures DigitPrefix(digits + junk) == digits
    decreases |digits|
  {
    var s := digits + junk;
    if digits == [] {
      assert s == junk;
    } else {
      LeadingDigits(digits[1..], junk);
      assert s[1..] == digits[1..] + junk;
    }
  }

  /** A number beyond int is out of range, and a rest behind it cannot be resolved. */
  lemma {:induction false} IndexOutcome(s: bytes, blanks: bytes, sign: bytes, digits: bytes, junk: bytes, v: int)
    requires NumberStart(s, blanks, sign, digits, junk, v)
    ensures ArrayIndex(s) ==
            if v < -0x8000_0000 || v > 0x7FFF_FFFF then Err(STD_OUT_OF_RANGE)
            else if junk != [] then Err(404)
            else Ok(v)
  {
    var u := digits + junk;
    var t := sign + u;
    assert s == blanks + t;
    hide SkipSpace, DigitPrefix, DigitsValue;
    BlanksSkipped(blanks, t);
    LeadingDigits(digits, junk);
    if sign == [] {
      assert t == u;
    } else {
      assert t[1..] == u;
    }
  }

  lemma {:induction false} DigitsTaken(s: bytes) returns (junk: bytes)
    ensures s == DigitPrefix(s) + junk && (junk != [] ==> !IsDigit(junk[0]))
    decreases |s|
  {
    if s != [] && IsDigit(s[0]) {
      junk := DigitsTaken(s[1..]);
      assert s == [s[0]] + s[1..];
    } else {
      junk := s;
      assert s == [] + s;
    }
  }

  /** Every other text is no number. */
  lemma {:induction false} NoIndex(s: bytes)
    ensures ArrayIndex(s) == Err(INVALID_ARGUMENT) <==>
            !exists blanks, sign, digits, junk, v :: NumberStart(s, blanks, sign, digits, junk, v)
  {
    forall blanks, sign, digits, junk, v | NumberStart(s, blanks, sign, digits, junk, v)
      ensures ArrayIndex(s) != Err(INVALID_ARGUMENT)
    {
      IndexOutcome(s, blanks, sign, digits, junk, v);
    }
    hide NumberStart;
    if ArrayIndex(s) != Err(INVALID_ARGUMENT) {
      SomeNumber(s);
    }
  }

  lemma {:induction false} SomeNumber(s: bytes)
    requires ArrayIndex(s) != Err(INVALID_ARGUMENT)
    ensures exists blanks, sign, digits, junk, v :: NumberStart(s, blanks, sign, digits, junk, v)
  {
    hide SkipSpace, DigitPrefix, DigitsValue, Blanks;
    var blanks := SkipBlanks(s);
    var t := SkipSpace(s);
    var signed := t != [] && (t[0] == ('-' as int) || t[0] == ('+' as int));
    var sign, u := if signed then [t[0]] else [], if signed then t[1..] else t;
    var junk := DigitsTaken(u);
    var digits := DigitPrefix(u);
    assert t == sign + u;
    assert blanks + (sign + (digits + junk)) == blanks + sign + digits + junk;
    var v := if sign == ['-' as int] then 0 - DigitsValue(digits) else DigitsValue(digits);
    assert NumberStart(s, blanks, sign, digits, junk, v);
  }
}
