/**
  Grisu2: shortest decimal digits of a double inside its rounding interval.

  Digit generation works on significands that share one exponent e, so its contracts are integer
  statements: with n decimal digits cut off, one unit of the last digit is `unit` significand steps, and
  for n < 0 the significands are scaled by 10^-n.
 */
module Grisu {
  import opened Arith
  import opened Decimal
  import opened DiyFp
  import opened CachedPowers

  /** A name for t * u that the quantifiers below can be instantiated by. */
  function Multiple(t: int, u: int): int {
    t * u
  }

  ghost predicate NoMultiple(lo: int, hi: int, u: int) {
    forall t: int :: !(lo <= Multiple(t, u) <= hi)
  }

  /** v is a multiple of u in [lo, hi], and none of the others is closer to w. */
  ghost predicate Nearest(v: int, w: int, lo: int, hi: int, u: int) {
    && lo <= v <= hi
    && (exists t :: v == Multiple(t, u))
    && (forall t: int :: lo <= Multiple(t, u) <= hi ==> Abs(v - w) <= Abs(Multiple(t, u) - w))
  }

  /** Between b * u and (b + 1) * u there is no multiple of u, so none in the last `delta` steps. */
  lemma {:induction false} StoppedTooEarly(b: int, u: int, rest: int, hi: int, delta: int)
    requires hi == b * u + rest && 0 <= delta < rest < u
    ensures NoMultiple(hi - delta, hi, u)
  {
    forall t: int ensures !(hi - delta <= Multiple(t, u) <= hi) {
      if t <= b {
        MulMono(t, b, u);
      } else {
        MulMono(b + 1, t, u);
      }
    }
  }

  // ---- the states of digit generation

  const MAX_DIGITS10 := 17

  /** Digits with a leading digit other than 0 and what they leave of hi, less than one unit u. */
  ghost predicate Prefix(digits: bytes, u: int, rest: int, hi: int) {
    && AllDigits(digits)
    && (digits == [] || digits[0] != DIGIT_0)
    && hi == DigitsValue(digits) * u + rest
    && 0 <= rest < u
  }

  /** More digits are needed: what is left is wider than the interval. */
  ghost predicate Pending(digits: bytes, u: int, rest: int, delta: int, hi: int) {
    Prefix(digits, u, rest, hi) && 0 <= delta < rest
  }

  /** A digit has just been added, and one digit less would not have been enough. */
  ghost predicate Extended(digits: bytes, u: int, rest: int, delta: int, hi: int) {
    && digits != [] && Prefix(digits, u, rest, hi)
    && NoMultiple(hi - delta, hi, 10 * u)
  }

  /**
    The digits denote a multiple of u in [lo, hi]; no multiple of 10 * u lies there; and no other multiple
    of u there is closer to w.
   */
  ghost predicate Rounded(digits: bytes, u: int, w: int, lo: int, hi: int) {
    && AllDigits(digits) && digits != [] && digits[0] != DIGIT_0
    && Nearest(DigitsValue(digits) * u, w, lo, hi, u)
    && NoMultiple(lo, hi, 10 * u)
  }

  // ---- rounding

  /**
    Moves the last digit down while that brings the value closer to w = hi - dist and keeps it above
    hi - delta.  The value is hi - rest and one unit of the last digit is tenK.
   */
  method Grisu2Round(buf: array<byte>, first: nat, len: nat, dist: uint64, delta: uint64,
                     rest0: uint64, tenK: uint64, ghost hi: int)
    requires 1 <= len && first + len <= buf.Length
    requires dist <= delta && rest0 <= delta < hi
    requires Extended(buf[first..first + len], tenK, rest0, delta, hi)
    modifies buf
    ensures forall j | 0 <= j < buf.Length && j != first + len - 1 :: buf[j] == old(buf[j])
    ensures Rounded(buf[first..first + len], tenK, hi - dist, hi - delta, hi)
  {
    var last := first + len - 1;
    var rest := rest0;
    ghost var digits := buf[first..first + len];
    ghost var prefix := buf[first..last];
    ghost var b0 := DigitsValue(digits);
    ghost var b := b0;
    while
      rest < dist && delta - rest >= tenK && (rest + tenK < dist || dist - rest > rest + tenK - dist)
      invariant forall j | 0 <= j < buf.Length && j != last :: buf[j] == old(buf[j])
      invariant buf[first..first + len] == prefix + [buf[last]]
      invariant IsDigit(buf[last]) && b == 10 * DigitsValue(prefix) + (buf[last] - DIGIT_0)
      invariant b <= b0 && hi == b * tenK + rest && rest <= delta
      invariant forall t | b < t <= b0 :: Abs(b * tenK - (hi - dist)) <= Abs(Multiple(t, tenK) - (hi - dist))
      decreases delta - rest
    {
      LastDigitPositive(DigitsValue(prefix), buf[last] - DIGIT_0, rest, tenK, delta, hi);
      assert buf[last] != DIGIT_0;
      StepCloser(b, b0, rest, tenK, dist, delta, hi);
      buf[last] := buf[last] - 1;
      rest := rest + tenK;
      b := b - 1;
    }
    NothingCloser(b, b0, rest, tenK, dist, delta, hi);
    assert b * tenK == Multiple(b, tenK);
    DigitsSnoc(prefix, buf[last]);
    RoundedDigits(digits, buf[first..first + len], tenK, hi - delta);
  }

  /** A value inside the interval that ends in the digit 0 would be a multiple of ten units. */
  lemma {:induction false} LastDigitPositive(q: int, d: int, rest: int, u: int, delta: int, hi: int)
    requires hi == (10 * q + d) * u + rest && 0 <= rest <= delta
    requires NoMultiple(hi - delta, hi, 10 * u)
    ensures d != 0
  {
    assert Multiple(q, 10 * u) == (10 * q) * u;
  }

  /** One step of the rounding loop keeps the value at least as close to w as every value passed. */
  lemma {:induction false} StepCloser(b: int, b0: int, rest: int, u: int, dist: int, delta: int, hi: int)
    requires u > 0 && 0 <= rest <= delta && b <= b0 && hi == b * u + rest
    requires rest < dist && (rest + u < dist || dist - rest > rest + u - dist)
    requires forall t | b < t <= b0 :: Abs(b * u - (hi - dist)) <= Abs(Multiple(t, u) - (hi - dist))
    ensures hi == (b - 1) * u + (rest + u)
    ensures forall t | b - 1 < t <= b0 :: Abs((b - 1) * u - (hi - dist)) <= Abs(Multiple(t, u) - (hi - dist))
  {
    assert (b - 1) * u == b * u - u;
    assert Multiple(b, u) == b * u;
  }

  /** Once the rounding loop stops, no multiple of the unit inside the interval is closer to w. */
  lemma {:induction false} NothingCloser(b: int, b0: int, rest: int, u: int, dist: int, delta: int, hi: int)
    requires u > 0 && 0 <= rest <= delta && 0 <= dist <= delta && b <= b0
    requires hi == b * u + rest && hi - b0 * u < u
    requires !(rest < dist && delta - rest >= u && (rest + u < dist || dist - rest > rest + u - dist))
    requires forall t | b < t <= b0 :: Abs(b * u - (hi - dist)) <= Abs(Multiple(t, u) - (hi - dist))
    ensures forall t: int :: hi - delta <= Multiple(t, u) <= hi ==> Abs(b * u - (hi - dist)) <= Abs(Multiple(t, u) - (hi - dist))
  {
    forall t: int | hi - delta <= Multiple(t, u) <= hi
      ensures Abs(b * u - (hi - dist)) <= Abs(Multiple(t, u) - (hi - dist))
    {
      if t < b {
        MulMono(t, b - 1, u);
        assert Multiple(t, u) <= b * u - u;
      } else if t > b0 {
        MulMono(b0 + 1, t, u);
        assert false;
      }
    }
  }

  /** Rounding moves only the last digit, and not below a positive value. */
  lemma {:induction false} RoundedDigits(before: bytes, after: bytes, u: int, lo: int)
    requires |before| == |after| > 0 && AllDigits(before) && AllDigits(after) && before[0] != DIGIT_0
    requires forall j | 0 <= j < |before| - 1 :: after[j] == before[j]
    requires 0 < lo <= DigitsValue(after) * u
    ensures after[0] != DIGIT_0
  {
    if |after| == 1 {
      assert after[..0] == [];
    }
  }

  // ---- digit generation

  /** Significand steps per unit of the last digit, and the scale of the significands, for n digits cut off. */
  ghost function UnitOf(n: int, one: int): int {
    if n >= 0 then Pow10(n) * one else one
  }

  ghost function ScaleOf(n: int): int {
    if n >= 0 then 1 else Pow10(-n)
  }

  /** The outcome for [lo, hi] and w: shortest, closest, and no longer than 17 digits. */
  ghost predicate Generated(digits: bytes, n: int, one: int, lo: int, w: int, hi: int) {
    |digits| <= MAX_DIGITS10 && Rounded(digits, UnitOf(n, one), w * ScaleOf(n), lo * ScaleOf(n), hi * ScaleOf(n))
  }

  /** For n != 0, k digits with pow10 = 10^(k-1) <= n < 10^k; for n = 0, one digit. */
  function FindLargestPow10(n: uint32): (r: (nat, uint32))
    ensures 1 <= r.0 <= 10 && r.1 == Pow10(r.0 - 1) && n < Pow10(r.0)
    ensures n != 0 ==> r.1 <= n
  {
    Pow10Values();
    if n >= 1000000000 then (10, 1000000000)
    else if n >= 100000000 then (9, 100000000)
    else if n >= 10000000 then (8, 10000000)
    else if n >= 1000000 then (7, 1000000)
    else if n >= 100000 then (6, 100000)
    else if n >= 10000 then (5, 10000)
    else if n >= 1000 then (4, 1000)
    else if n >= 100 then (3, 100)
    else if n >= 10 then (2, 10)
    else (1, 1)
  }

  /** Appending the digit d splits the unit u into ten units v. */
  lemma {:induction false} NextDigit(digits: bytes, u: int, rest: int, delta: int, hi: int, d: int, v: int, rest': int)
    requires Pending(digits, u, rest, delta, hi)
    requires u == 10 * v && rest == d * v + rest' && 0 <= rest' < v && 0 <= d
    requires digits == [] ==> d > 0
    ensures d <= 9 && Extended(digits + [DIGIT_0 + d], v, rest', delta, hi)
  {
    if d >= 10 {
      MulMono(10, d, v);
    }
    DigitsSnoc(digits, DIGIT_0 + d);
    StoppedTooEarly(DigitsValue(digits), u, rest, hi, delta);
    hide DigitsValue, NoMultiple;
    TenUnits(DigitsValue(digits), d, v);
  }

  lemma {:induction false} TenUnits(b: int, d: int, v: int)
    ensures b * (10 * v) + d * v == (10 * b + d) * v
  {}

  /** With 17 digits the remainder is below the width of the interval, whatever the scale. */
  lemma {:induction false} SeventeenSuffice(digits: bytes, u: int, rest: int, delta: int, hi: int)
    requires Pending(digits, u, rest, delta, hi)
    requires hi <= Pow10(16) * delta
    ensures |digits| < MAX_DIGITS10
  {
    if |digits| >= MAX_DIGITS10 {
      DigitsBound(digits);
      PowMonotone(10, 16, |digits| - 1);
      hide Pow, DigitsValue;
      TooLarge(DigitsValue(digits), Pow10(16), u, rest, delta);
      assert false;
    }
  }

  lemma {:induction false} TooLarge(b: int, p: int, u: int, rest: int, delta: int)
    requires b >= p > 0 && 0 <= delta < rest < u
    ensures b * u + rest > p * delta
  {
    MulMono(p, b, u);
    MulMono(delta, u, p);
  }

  lemma {:induction false} TenTimesFiner(digits: bytes, u: int, rest: int, delta: int, hi: int)
    requires Pending(digits, u, rest, delta, hi)
    ensures Pending(digits, 10 * u, 10 * rest, 10 * delta, 10 * hi)
  {
    hide DigitsValue;
    assert 10 * (DigitsValue(digits) * u) == DigitsValue(digits) * (10 * u);
  }

  lemma {:induction false} PendingRest(digits: bytes, u: int, rest: int, delta: int, hi: int)
    requires Pending(digits, u, rest, delta, hi)
    ensures 0 <= delta < rest < u
  {}

  lemma {:induction false} ExtendedRest(digits: bytes, u: int, rest: int, delta: int, hi: int)
    requires Extended(digits, u, rest, delta, hi)
    ensures 0 <= rest <= hi && rest < u
    ensures 0 <= delta < rest ==> Pending(digits, u, rest, delta, hi)
  {
    MulMono(0, DigitsValue(digits), u);
  }

  lemma {:induction false} OneFits(n: nat)
    requires 32 <= n <= 60
    ensures TWO_32 <= Pow2(n) <= 0x1000_0000_0000_0000
  {
    hide Pow;
    PowMonotone(2, 32, n);
    PowMonotone(2, n, 60);
    Pow2Values();
  }

  lemma {:induction false} IntegralPart(f: uint64, one: int)
    requires TWO_32 <= one <= f
    ensures 0 < Quotient(f, one) < TWO_32
    ensures Remainder(f, one) < one && f == Product(Quotient(f, one), one) + Remainder(f, one)
  {
    if f / one >= TWO_32 {
      MulMono(TWO_32, f / one, one);
    }
  }

  lemma {:induction false} FirstPending(p1: int, p2: int, one: int, p: int)
    requires 0 <= p1 < p && 0 <= p2 < one
    ensures p1 * one + p2 < p * one
  {
    MulMono(p1 + 1, p, one);
  }

  /** Before any digit is generated, all of M+ is left. */
  lemma {:induction false} NothingGenerated(p1: uint32, p2: nat, one: nat, delta: int, hi: int)
    requires 0 < p1 && p2 < one && hi == Product(p1, one) + p2 && 0 <= delta < hi
    ensures var (k, pow10) := FindLargestPow10(p1);
            && 1 <= k <= 10 && p1 < Pow10(k)
            && pow10 <= p1 && pow10 == Pow10(k - 1) && Product(pow10, one) <= hi
            && Pending([], Product(Pow10(k), one), hi, delta, hi)
  {
    var (k, pow10) := FindLargestPow10(p1);
    hide FindLargestPow10, Pow;
    FirstPending(p1, p2, one, Pow10(k));
    MulMono(pow10, p1, one);
  }

  /** The next digit of the integral part, with 10 * v units left to split. */
  lemma {:induction false} IntegralDigit(digits: bytes, v: nat, p1: nat, p2: nat, one: int, delta: int, hi: int)
    requires v > 0 && p2 < one && p1 < 10 * v
    requires Pending(digits, Product(10 * v, one), Product(p1, one) + p2, delta, hi)
    requires digits == [] ==> v <= p1
    ensures 0 <= Quotient(p1, v) <= 9 && 0 <= Remainder(p1, v) < v
    ensures Extended(digits + [DIGIT_0 + Quotient(p1, v)], Product(v, one), Product(Remainder(p1, v), one) + p2, delta, hi)
  {
    hide Pending, Extended;
    var d, r := p1 / v, p1 % v;
    FirstPending(r, p2, one, v);
    SplitProduct(d, v, r, one);
    NextDigit(digits, (10 * v) * one, p1 * one + p2, delta, hi, d, v * one, r * one + p2);
  }

  lemma {:induction false} SplitProduct(d: int, v: int, r: int, one: int)
    ensures (d * v + r) * one == d * (v * one) + r * one
    ensures (10 * v) * one == 10 * (v * one)
  {}

  /** The next digit of the fractional part, after scaling everything else up tenfold. */
  lemma {:induction false} FractionalDigit(digits: bytes, one: nat, p2: nat, delta: int, hi: int)
    requires digits != [] && one > 0
    requires Pending(digits, one, p2, delta, hi)
    ensures 0 <= Quotient(10 * p2, one) <= 9 && 0 <= Remainder(10 * p2, one) < one
    ensures Extended(digits + [DIGIT_0 + Quotient(10 * p2, one)], one, Remainder(10 * p2, one), 10 * delta, 10 * hi)
  {
    hide Pending, Extended;
    TenTimesFiner(digits, one, p2, delta, hi);
    QuotientRemainder(10 * p2, one);
    NextDigit(digits, 10 * one, 10 * p2, 10 * delta, 10 * hi, Quotient(10 * p2, one), one, Remainder(10 * p2, one));
  }

  lemma {:induction false} NextPow10(n: nat, p: nat, one: int, hi: int)
    requires p == Pow10(n) && one > 0 && Product(p, one) <= hi
    ensures 0 <= p / 10 <= p
    ensures n > 0 ==> p / 10 == Pow10(n - 1) && Product(p / 10, one) <= hi
  {
    if n > 0 {
      MulMono(p / 10, p, one);
    }
  }

  lemma {:induction false} FractionGenerated(digits: bytes, m: nat, one: int, lo: int, w: int, hi: int)
    requires m > 0 && |digits| <= MAX_DIGITS10
    requires Rounded(digits, one, w * Pow10(m), lo * Pow10(m), hi * Pow10(m))
    ensures Generated(digits, 0 - m, one, lo, w, hi)
  {
    hide Rounded, Pow;
    assert ScaleOf(0 - m) == Pow10(m) && UnitOf(0 - m, one) == one;
  }

  /**
    Writes to buf[first..] the digits of a decimal in [M-, M+], from left to right, stopping as soon
    as what is left of M+ is no wider than the interval, and then rounds the last digit towards w.
   */
  method Grisu2DigitGen(buf: array<byte>, first: nat, decimalExponent: int,
                        mMinus: Diyfp, w: Diyfp, mPlus: Diyfp)
    returns (length: nat, exponent: int)
    requires mMinus.e == w.e == mPlus.e && ALPHA <= mPlus.e <= GAMMA
    requires 0 < mMinus.f <= w.f <= mPlus.f && Pow2(-mPlus.e) <= mPlus.f
    requires mPlus.f <= Pow10(16) * (mPlus.f - mMinus.f)
    requires first + MAX_DIGITS10 <= buf.Length
    modifies buf
    ensures length <= MAX_DIGITS10 && -MAX_DIGITS10 <= exponent - decimalExponent <= 10
    ensures Generated(buf[first..first + length], exponent - decimalExponent, Pow2(-mPlus.e), mMinus.f, w.f, mPlus.f)
    ensures forall j | 0 <= j < first :: buf[j] == old(buf[j])
  {
    hide Generated, Rounded, FindLargestPow10, Pending, Pow, Quotient, Remainder, Product;
    OneFits(-mPlus.e);
    ghost var hi := mPlus.f;
    var delta: uint64 := Sub(mPlus, mMinus).f;
    var dist: uint64 := Sub(mPlus, w).f;
    var one: uint64 := Pow2(-mPlus.e);
    IntegralPart(mPlus.f, one);
    var p1: uint32 := Quotient(mPlus.f, one);
    var p2: uint64 := Remainder(mPlus.f, one);
    assert p1 > 0;
    var done, n;
    ghost var kept;
    done, n, kept := IntegralDigits(buf, first, p1, p2, delta, dist, one, hi);
    var (k, _) := FindLargestPow10(p1);
    if done {
      return k - n, decimalExponent + n;
    }
    var m;
    assert hi - dist == w.f && hi - delta == mMinus.f;
    length, m := FractionalDigits(buf, first, k, p2, delta, dist, one, hi);
    FractionGenerated(buf[first..first + length], m, one, mMinus.f, w.f, hi);
    return length, decimalExponent - m;
  }

  /** buffer[length] = '0' + d */
  method PutDigit(buf: array<byte>, first: nat, length: nat, d: nat)
    requires first + length < buf.Length && d <= 9
    modifies buf
    ensures buf[first..first + length + 1] == old(buf[first..first + length]) + [DIGIT_0 + d]
    ensures forall j | 0 <= j < buf.Length && j != first + length :: buf[j] == old(buf[j])
  {
    buf[first + length] := DIGIT_0 + d;
  }

  // ---- the commented loop invariant pow10 <= p1 < 10^n, where p1 is what is left of p

  /** The loop over the integral part p comes to the point where n digits are left. */
  ghost predicate LoopHead(p: nat, p2: int, one: int, delta: int, n: nat) {
    var k := |ToDecimal(p)|;
    0 < n <= k && (n == k || delta < Product(Remainder(p, Pow10(n)), one) + p2)
  }

  /** The first of the last n digits. */
  function DigitLeft(p: nat, n: nat): byte {
    var digits := ToDecimal(p);
    if 0 < n <= |digits| then digits[|digits| - n] else DIGIT_0
  }

  /** The invariant holds where n digits are left exactly if the first of them is not '0'. */
  lemma {:induction false} InvariantExactly(p: nat, n: nat)
    requires 0 < n <= |ToDecimal(p)|
    ensures Remainder(p, Pow10(n)) < Pow10(n)
    ensures Pow10(n - 1) <= Remainder(p, Pow10(n)) <==> DigitLeft(p, n) != DIGIT_0
  {
    var digits := ToDecimal(p);
    var i := |digits| - n;
    var a, b := digits[..i], digits[i..];
    assert a + b == digits;
    hide ToDecimal, Pow;
    DigitsConcat(a, b);
    DigitsBound(b);
    DivModUnique(p, Pow10(n), DigitsValue(a), DigitsValue(b));
    if b[0] == DIGIT_0 {
      LeadingZero(b);
      DigitsBound(b[1..]);
    }
  }

  lemma {:induction false} LeadingZero(b: bytes)
    requires AllDigits(b) && b != [] && b[0] == DIGIT_0
    ensures DigitsValue(b) == DigitsValue(b[1..])
  {
    assert [b[0]] + b[1..] == b;
    DigitsConcat([b[0]], b[1..]);
    DigitsSnoc([], b[0]);
    assert [] + [b[0]] == [b[0]];
  }

  /** At all heads of the loop with more than n digits left. */
  ghost predicate Kept(p: nat, p2: int, one: int, delta: int, n: nat, kept: bool) {
    kept <==> forall m: nat | LoopHead(p, p2, one, delta, m) && m > n :: DigitLeft(p, m) != DIGIT_0
  }

  lemma {:induction false} DigitCount(p: nat, k: nat)
    requires k > 0 && Pow10(k - 1) <= p < Pow10(k)
    ensures |ToDecimal(p)| == k && Remainder(p, Pow10(k)) == p
  {
    var n := |ToDecimal(p)|;
    assert p > 0;
    assert ToDecimal(p)[0] != DIGIT_0;
    hide ToDecimal, Pow;
    DigitsBound(ToDecimal(p));
    hide DigitsValue;
    if n < k {
      PowMonotone(10, n, k - 1);
    } else if k < n {
      PowMonotone(10, k, n - 1);
    }
    DivModUnique(p, Pow10(k), 0, p);
  }

  lemma {:induction false} KeptStart(p: uint32, p2: int, one: int, delta: int, k: nat)
    requires p > 0 && k == FindLargestPow10(p).0
    ensures k == |ToDecimal(p)| && p == Remainder(p, Pow10(k))
    ensures LoopHead(p, p2, one, delta, k) && Kept(p, p2, one, delta, k, true)
  {
    hide ToDecimal, FindLargestPow10, Pow, Remainder, DigitLeft;
    DigitCount(p, k);
  }

  lemma {:induction false} KeptStep(p: nat, p2: int, one: int, delta: int, n: nat, was: bool)
    requires LoopHead(p, p2, one, delta, n) && Kept(p, p2, one, delta, n, was)
    ensures var left := Remainder(p, Pow10(n));
            && Kept(p, p2, one, delta, n - 1, was && Pow10(n - 1) <= left < Pow10(n))
            && Remainder(left, Pow10(n - 1)) == Remainder(p, Pow10(n - 1))
  {
    InvariantExactly(p, n);
    hide ToDecimal, DigitLeft, Pow;
    PowStep(10, n - 1);
    RemainderOfRemainder(p, Pow10(n - 1));
    hide LoopHead;
  }

  lemma {:induction false} RemainderOfRemainder(p: nat, d: nat)
    requires d > 0
    ensures Remainder(Remainder(p, 10 * d), d) == Remainder(p, d)
  {
    var q, r := p / (10 * d), p % (10 * d);
    var t, u := r / d, r % d;
    assert p == q * (10 * d) + r && r == t * d + u;
    assert p == (10 * q + t) * d + u;
    DivModUnique(p, d, 10 * q + t, u);
  }

  /** The loop goes on. */
  lemma {:induction false} NextHead(p: nat, p2: int, one: int, delta: int, n: nat)
    requires n <= |ToDecimal(p)| && delta < Product(Remainder(p, Pow10(n)), one) + p2
    ensures n > 0 ==> LoopHead(p, p2, one, delta, n)
  {
    hide ToDecimal, Pow;
  }

  /** The loop stops: nothing that is left later is larger. */
  lemma {:induction false} KeptStop(p: nat, p2: int, one: int, delta: int, n: nat, kept: bool)
    requires one > 0 && n < |ToDecimal(p)| && Product(Remainder(p, Pow10(n)), one) + p2 <= delta
    requires Kept(p, p2, one, delta, n, kept)
    ensures kept <==> forall m: nat | LoopHead(p, p2, one, delta, m) :: DigitLeft(p, m) != DIGIT_0
  {
    hide ToDecimal, DigitLeft, Pow;
    forall m: nat | LoopHead(p, p2, one, delta, m) ensures m > n {
      if m <= n {
        RemainderShrinks(p, m, n);
        MulMono(Remainder(p, Pow10(m)), Remainder(p, Pow10(n)), one);
        assert false;
      }
    }
  }

  lemma {:induction false} RemainderShrinks(p: nat, m: nat, n: nat)
    requires m <= n
    ensures Remainder(p, Pow10(m)) <= Remainder(p, Pow10(n))
    decreases n
  {
    if m < n {
      RemainderShrinks(p, m, n - 1);
      PowStep(10, n - 1);
      hide Pow;
      RemainderOfRemainder(p, Pow10(n - 1));
      RemainderBelow(Remainder(p, Pow10(n)), Pow10(n - 1));
    }
  }

  lemma {:induction false} RemainderBelow(x: nat, d: nat)
    requires d > 0
    ensures Remainder(x, d) <= x
  {
  }

  lemma {:induction false} KeptAll(p: nat, p2: int, one: int, delta: int, kept: bool)
    requires Kept(p, p2, one, delta, 0, kept)
    ensures kept <==> forall m: nat | LoopHead(p, p2, one, delta, m) :: DigitLeft(p, m) != DIGIT_0
  {
    hide ToDecimal, DigitLeft, Pow;
  }

  /**
    The digits of the integral part p1, k of them unless fewer are enough; n is the number of digits
    left out, and kept records whether the commented invariant held each time round the loop.
   */
  method IntegralDigits(buf: array<byte>, first: nat, p10: uint32, p2: uint64, delta: uint64, dist: uint64,
                        one: uint64, ghost hi: int)
    returns (done: bool, n: nat, ghost kept: bool)
    requires 0 < p10 && p2 < one && hi < TWO_64
    requires 0 < delta < hi && dist <= delta && hi == Product(p10, one) + p2
    requires first + MAX_DIGITS10 <= buf.Length
    modifies buf
    ensures var k := FindLargestPow10(p10).0;
            && n <= k
            && (if done then n < k && Generated(buf[first..first + (k - n)], n, one, hi - delta, hi - dist, hi)
                else n == 0 && Pending(buf[first..first + k], one, p2, delta, hi))
    ensures kept <==> forall m: nat | LoopHead(p10, p2, one, delta, m) :: DigitLeft(p10, m) != DIGIT_0
    ensures forall j | 0 <= j < first :: buf[j] == old(buf[j])
  {
    hide Pending, Extended, Rounded, Generated, Pow, Quotient, Remainder, Product, FindLargestPow10, Kept, LoopHead, DigitLeft, ToDecimal;
    var p1 := p10;
    var (k, pow10) := FindLargestPow10(p1);
    var length := 0;
    n := k;
    kept := true;
    KeptStart(p10, p2, one, delta, k);
    NothingGenerated(p1, p2, one, delta, hi);
    assert buf[first..first] == [];
    while n > 0
      invariant 0 <= n <= k && length == k - n
      invariant forall j | 0 <= j < first :: buf[j] == old(buf[j])
      invariant Pending(buf[first..first + length], Product(Pow10(n), one), Product(p1, one) + p2, delta, hi)
      invariant 0 <= p1 < Pow10(n) && 0 <= pow10 < TWO_32
      invariant length == 0 ==> pow10 <= p1
      invariant n > 0 ==> pow10 == Pow10(n - 1) && Product(pow10, one) <= hi
      invariant n > 0 ==> LoopHead(p10, p2, one, delta, n)
      invariant p1 == Remainder(p10, Pow10(n)) && Kept(p10, p2, one, delta, n, kept)
    {
      KeptStep(p10, p2, one, delta, n, kept);
      kept := kept && pow10 <= p1 < Pow10(n);
      ghost var digits := buf[first..first + length];
      var d, r := Quotient(p1, pow10), Remainder(p1, pow10);
      PowStep(10, n - 1);
      IntegralDigit(digits, pow10, p1, p2, one, delta, hi);
      assert d <= 9;
      PutDigit(buf, first, length, d);
      length := length + 1;
      p1 := r;
      n := n - 1;
      ExtendedRest(buf[first..first + length], Product(pow10, one), Product(p1, one) + p2, delta, hi);
      var rest: uint64 := Product(p1, one) + p2;
      if rest <= delta {
        var tenN: uint64 := Product(pow10, one);
        Grisu2Round(buf, first, length, dist, delta, rest, tenN, hi);
        IntegralOutcome(buf[first..first + length], n, one, hi - dist, hi - delta, hi);
        KeptStop(p10, p2, one, delta, n, kept);
        return true, n, kept;
      }
      NextPow10(n, pow10, one, hi);
      NextHead(p10, p2, one, delta, n);
      pow10 := pow10 / 10;
    }
    NoDigitsLeft(p1, one, p2);
    KeptAll(p10, p2, one, delta, kept);
    return false, 0, kept;
  }

  lemma {:induction false} IntegralOutcome(digits: bytes, n: nat, one: int, w: int, lo: int, hi: int)
    requires |digits| <= MAX_DIGITS10 && Rounded(digits, Product(Pow10(n), one), w, lo, hi)
    ensures Generated(digits, n, one, lo, w, hi)
  {}

  lemma {:induction false} NoDigitsLeft(p1: nat, one: int, p2: int)
    requires p1 < Pow10(0)
    ensures Product(Pow10(0), one) == one && Product(p1, one) + p2 == p2
  {}

  /**
    The digits of the fractional part p2 / one.  Instead of cutting M+ finer, everything else is
    scaled up tenfold for each digit.
   */
  method FractionalDigits(buf: array<byte>, first: nat, length0: nat, p20: uint64, delta0: uint64, dist0: uint64,
                          one: uint64, ghost hi: int)
    returns (length: nat, m: nat)
    requires one <= 0x1000_0000_0000_0000
    requires first + MAX_DIGITS10 <= buf.Length && 0 < length0 <= 10
    requires 0 < delta0 < hi && dist0 <= delta0 && hi <= Pow10(16) * delta0
    requires Pending(buf[first..first + length0], one, p20, delta0, hi)
    modifies buf
    ensures 0 < m == length - length0 && length <= MAX_DIGITS10
    ensures var s := Pow10(m);
            Rounded(buf[first..first + length], one, (hi - dist0) * s, (hi - delta0) * s, hi * s)
    ensures forall j | 0 <= j < first :: buf[j] == old(buf[j])
  {
    hide Pending, Extended, Rounded, Scaled, Quotient, Remainder, Pow;
    var p2, delta, dist := p20, delta0, dist0;
    PendingRest(buf[first..first + length0], one, p2, delta, hi);
    assert p2 > delta;
    length, m := length0, 0;
    ghost var h := hi;
    ScaledStart(hi, delta0, dist0);
    while true
      invariant 0 < length <= MAX_DIGITS10 && m == length - length0
      invariant forall j | 0 <= j < first :: buf[j] == old(buf[j])
      invariant Pending(buf[first..first + length], one, p2, delta, h)
      invariant Scaled(hi, delta0, dist0, m, h, delta, dist)
      decreases one - delta
    {
      ghost var digits := buf[first..first + length];
      PendingRest(digits, one, p2, delta, h);
      ScaledFacts(hi, delta0, dist0, m, h, delta, dist);
      SeventeenSuffice(digits, one, p2, delta, h);
      FractionalDigit(digits, one, p2, delta, h);
      assert p2 <= (TWO_64 - 1) / 10;
      p2 := 10 * p2;
      var d, r := Quotient(p2, one), Remainder(p2, one);
      assert d <= 9;
      PutDigit(buf, first, length, d);
      length := length + 1;
      ExtendedRest(buf[first..first + length], one, r, 10 * delta, 10 * h);
      p2 := r;
      m := m + 1;
      delta := 10 * delta;
      dist := 10 * dist;
      h := 10 * h;
      if p2 <= delta {
        break;
      }
    }
    ScaledFacts(hi, delta0, dist0, m, h, delta, dist);
    Grisu2Round(buf, first, length, dist, delta, p2, one, h);
    assert Rounded(buf[first..first + length], one, h - dist, h - delta, h);
  }

  /** hi, delta and dist have been scaled by 10^m. */
  ghost predicate Scaled(hi: int, delta0: int, dist0: int, m: nat, h: int, delta: int, dist: int) {
    h == hi * Pow10(m) && delta == delta0 * Pow10(m) && dist == dist0 * Pow10(m)
  }

  lemma {:induction false} ScaledStart(hi: int, delta0: int, dist0: int)
    ensures Scaled(hi, delta0, dist0, 0, hi, delta0, dist0)
  {}

  lemma {:induction false} ScaledFacts(hi: int, delta0: int, dist0: int, m: nat, h: int, delta: int, dist: int)
    requires Scaled(hi, delta0, dist0, m, h, delta, dist)
    requires 0 < delta0 < hi <= Pow10(16) * delta0 && 0 <= dist0 <= delta0
    ensures 0 < delta < h <= Pow10(16) * delta && 0 <= dist <= delta
    ensures h == hi * Pow10(m) && h - dist == (hi - dist0) * Pow10(m) && h - delta == (hi - delta0) * Pow10(m)
    ensures Scaled(hi, delta0, dist0, m + 1, 10 * h, 10 * delta, 10 * dist)
  {
    PowStep(10, m);
    hide Pow;
    ScaleUp(hi, delta0, dist0, Pow10(m), Pow10(16));
  }

  lemma {:induction false} ScaleUp(hi: int, delta: int, dist: int, s: int, p: int)
    requires s > 0 && 0 < delta < hi <= p * delta && 0 <= dist <= delta
    ensures 0 < delta * s < hi * s <= p * (delta * s) && 0 <= dist * s <= delta * s
    ensures hi * s - dist * s == (hi - dist) * s && hi * s - delta * s == (hi - delta) * s
    ensures hi * (10 * s) == 10 * (hi * s) && delta * (10 * s) == 10 * (delta * s) && dist * (10 * s) == 10 * (dist * s)
  {
    MulMono(hi, p * delta, s);
    MulAssoc(p, delta, s);
    MulMono(dist, delta, s);
    MulMono(0, dist, s);
    MulMono(delta + 1, hi, s);
    MulMono(1, delta, s);
  }
}
