/** Decimal digit strings and the integers they denote. */
module Decimal {
  import opened Arith

  type bytes = seq<byte>

  const DIGIT_0: byte := '0' as int

  predicate IsDigit(b: byte) {
    DIGIT_0 <= b <= DIGIT_0 + 9
  }

  predicate AllDigits(s: bytes) {
    forall i | 0 <= i < |s| :: IsDigit(s[i])
  }

  function DigitsValue(s: bytes): (v: nat)
    requires AllDigits(s)
  {
    if s == [] then 0 else 10 * DigitsValue(s[..|s| - 1]) + (s[|s| - 1] - DIGIT_0)
  }

  /** Adding one digit at the end. */
  lemma {:induction false} DigitsSnoc(s: bytes, d: byte)
    requires AllDigits(s) && IsDigit(d)
    ensures AllDigits(s + [d]) && DigitsValue(s + [d]) == 10 * DigitsValue(s) + (d - DIGIT_0)
  {
    assert (s + [d])[..|s|] == s;
  }

  lemma {:induction false} DigitsConcat(s: bytes, t: bytes)
    requires AllDigits(s) && AllDigits(t)
    ensures AllDigits(s + t) && DigitsValue(s + t) == DigitsValue(s) * Pow10(|t|) + DigitsValue(t)
    decreases |t|
  {
    if t == [] {
      assert s + t == s;
    } else {
      var t0, d := t[..|t| - 1], t[|t| - 1];
      DigitsConcat(s, t0);
      assert s + t == (s + t0) + [d];
      DigitsSnoc(s + t0, d);
      hide DigitsValue;
      assert DigitsValue(t) == 10 * DigitsValue(t0) + (d - DIGIT_0) by {
        DigitsSnoc(t0, d);
        assert t == t0 + [d];
      }
      assert Pow10(|t|) == 10 * Pow10(|t0|);
      ShiftedSum(DigitsValue(s), Pow10(|t0|), DigitsValue(t0), d - DIGIT_0);
    }
  }

  lemma {:induction false} ShiftedSum(a: int, p: int, b: int, d: int)
    ensures 10 * (a * p + b) + d == a * (10 * p) + (10 * b + d)
  {}

  lemma {:induction false} DigitsBound(s: bytes)
    requires AllDigits(s)
    ensures DigitsValue(s) < Pow10(|s|)
    ensures s != [] && s[0] != DIGIT_0 ==> DigitsValue(s) >= Pow10(|s| - 1)
  {
    if |s| > 0 {
      DigitsBound(s[..|s| - 1]);
    }
  }

  /** The digits of n, without leading zeros. */
  function ToDecimal(n: nat): (s: bytes)
    ensures AllDigits(s) && s != [] && DigitsValue(s) == n
    ensures s[0] == DIGIT_0 <==> n == 0
    ensures |s| == 1 || s[0] != DIGIT_0
  {
    if n < 10 then
      DigitsSnoc([], DIGIT_0 + n);
      assert [] + [DIGIT_0 + n] == [DIGIT_0 + n];
      [DIGIT_0 + n]
    else
      DigitsSnoc(ToDecimal(n / 10), DIGIT_0 + n % 10);
      ToDecimal(n / 10) + [DIGIT_0 + n % 10]
  }

  lemma {:induction false} ToDecimalInjective(m: nat, n: nat)
    requires ToDecimal(m) == ToDecimal(n)
    ensures m == n
  {
    assert DigitsValue(ToDecimal(m)) == DigitsValue(ToDecimal(n));
  }
}
