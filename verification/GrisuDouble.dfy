/**
  Grisu2 for doubles: the boundaries of the double are scaled by a cached power of ten, tightened by one
  unit on each side, and handed to digit generation.  The decimal that comes out lies strictly between the
  midpoints to the neighbouring doubles, so that reading it gives the double back.
 */
module GrisuDouble {
  import opened Arith
  import opened Decimal
  import opened DiyFp
  import opened Doubles
  import opened CachedPowers
  import opened Grisu

  ghost function DecimalValue(digits: bytes, exponent: int): real
    requires AllDigits(digits)
  {
    DigitsValue(digits) as real * R10(exponent)
  }

  /** The product with a cached power, as a multiple of 2^64, is off by at most half of that. */
  lemma {:induction false} MulRounds(x: Diyfp, c: Diyfp)
    ensures x.f * c.f - TWO_63 <= Mul(x, c).f * TWO_64 <= x.f * c.f + TWO_63
  {}

  // ---- room inside the scaled interval

  lemma {:induction false} ScaledGap(x: Diyfp, y: Diyfp, c: Diyfp, d: nat)
    requires x.f + d <= y.f && TWO_63 <= c.f
    ensures (Mul(y, c).f - Mul(x, c).f) * TWO_64 >= d * TWO_63 - TWO_64
  {
    MulRounds(x, c);
    MulRounds(y, c);
    MulMono(d, y.f - x.f, c.f);
    MulMono(TWO_63, c.f, d);
    assert (y.f - x.f) * c.f == y.f * c.f - x.f * c.f;
  }

  lemma {:induction false} RelativeWidth(b: Boundaries, c: Diyfp)
    requires TWO_63 <= c.f && b.minus.f + 1536 <= b.plus.f
    requires b.plus.f < 2 * HIDDEN_BIT * (b.plus.f - b.minus.f)
    ensures Mul(b.plus, c).f - 1 <= 1_0000_0000_0000_0000 * (Mul(b.plus, c).f - Mul(b.minus, c).f - 2)
  {
    MulRounds(b.plus, c);
    MulRounds(b.minus, c);
    hide Mul;
    var width := b.plus.f - b.minus.f;
    MulMono(b.plus.f, 2 * HIDDEN_BIT * width, c.f);
    MulAssoc(2 * HIDDEN_BIT, width, c.f);
    MulMono(1536, width, c.f);
    assert width * c.f == b.plus.f * c.f - b.minus.f * c.f;
    WidthBound(b.plus.f * c.f, b.minus.f * c.f, Mul(b.plus, c).f, Mul(b.minus, c).f);
  }

  lemma {:induction false} WidthBound(p: int, q: int, hp: int, hq: int)
    requires hp * TWO_64 <= p + TWO_63 && p - TWO_63 <= hp * TWO_64 && hq * TWO_64 <= q + TWO_63
    requires 1536 * TWO_63 <= p - q && p <= 2 * HIDDEN_BIT * (p - q)
    ensures hp - 1 <= 1_0000_0000_0000_0000 * (hp - hq - 2)
  {}

  // ---- the scaled and tightened interval

  /** M-, w and M+ as handed to digit generation, and the cached power used. */
  datatype Scaled = Scaled(mMinus: Diyfp, w: Diyfp, mPlus: Diyfp, k: int)

  function ScaledInterval(b: Boundaries): (r: Scaled)
    requires b.minus.e == b.w.e == b.plus.e && -1137 <= b.plus.e <= 960
    requires TWO_63 <= b.plus.f
  {
    var cached := CachedPowerFor(b.plus.e);
    var c := Diyfp(cached.f, cached.e);
    var w, wMinus, wPlus := Mul(b.w, c), Mul(b.minus, c), Mul(b.plus, c);
    MulRounds(b.plus, c);
    ProductAtLeast(b.plus.f, c.f);
    Scaled(Diyfp(wMinus.f + 1, wMinus.e), w, Diyfp(wPlus.f - 1, wPlus.e), cached.k)
  }

  lemma {:induction false} ProductAtLeast(x: int, y: int)
    requires TWO_63 <= x && TWO_63 <= y
    ensures TWO_63 * TWO_63 <= x * y
  {
    MulMono(TWO_63, x, y);
  }

  /** Everything digit generation requires of the interval. */
  lemma {:induction false} ScaledIntervalFits(bits: uint64)
    requires FinitePositive(bits)
    ensures var b := BoundariesOf(bits);
            && b.minus.e == b.w.e == b.plus.e && -1137 <= b.plus.e <= 960 && TWO_63 <= b.plus.f
            && var s := ScaledInterval(b);
            && s.mMinus.e == s.w.e == s.mPlus.e && ALPHA <= s.mPlus.e <= GAMMA
            && 0 < s.mMinus.f <= s.w.f <= s.mPlus.f
            && Pow2(-s.mPlus.e) <= s.mPlus.f
            && s.mPlus.f <= Pow10(16) * (s.mPlus.f - s.mMinus.f)
  {
    BoundariesSpread(bits);
    var b := BoundariesOf(bits);
    var cached := CachedPowerFor(b.plus.e);
    var c := Diyfp(cached.f, cached.e);
    ScaledGap(b.minus, b.w, c, 512);
    ScaledGap(b.w, b.plus, c, 1024);
    RelativeWidth(b, c);
    MulRounds(b.plus, c);
    ProductAtLeast(b.plus.f, c.f);
    var s := ScaledInterval(b);
    OneFits(-s.mPlus.e);
    Pow10Values();
    hide BoundariesOf, Pow, CachedPowerFor;
  }

  // ---- the interval is safe

  /** One unit more than a rounded product with an almost exact factor is above the exact product, one less below. */
  lemma {:induction false} Tight(x: nat, c: nat, h: int, g: real, exact: real, unit: real)
    requires x < TWO_64 && g > 0.0 && unit == Times(TWO_64 as real, g)
    requires x * c - TWO_63 <= h * TWO_64 <= x * c + TWO_63
    requires 2.0 * RealAbs(c as real * g - exact) <= g
    ensures Times((h - 1) as real, unit) < Times(x as real, exact) < Times((h + 1) as real, unit)
  {
    var d := c as real * g - exact;
    var half := TWO_63 as real * g;
    SplitReal(x * c, TWO_63, g);
    SplitReal(x * c, -TWO_63, g);
    assert (x * c) as real * g == x as real * exact + x as real * d by {
      TimesReal(x, c, g);
    }
    ErrorBound(x as real, d, g, TWO_63 as real);
    StepOver(h - 1, TWO_64, g, unit, x * c - TWO_63);
    StepOver(h + 1, TWO_64, g, unit, x * c + TWO_63);
  }

  /** Comparing integers k * t and n in units of g. */
  lemma {:induction false} StepOver(k: int, t: int, g: real, unit: real, n: int)
    requires g > 0.0 && unit == t as real * g
    ensures k * t <= n ==> Times(k as real, unit) <= n as real * g
    ensures k * t >= n ==> Times(k as real, unit) >= n as real * g
  {
    TimesReal(k, t, g);
    Congruent(k as real, unit, t as real * g);
    if k * t <= n {
      RMulLe((k * t) as real, n as real, g);
    }
    if k * t >= n {
      RMulLe(n as real, (k * t) as real, g);
    }
  }

  lemma {:induction false} Congruent(a: real, b: real, c: real)
    requires b == c
    ensures a * b == a * c
  {}

  lemma {:induction false} SplitReal(a: int, b: int, g: real)
    ensures (a - b) as real * g == a as real * g - b as real * g
  {
    assert (a - b) as real == a as real - b as real;
  }

  lemma {:induction false} ErrorBound(y: real, d: real, g: real, t: real)
    requires 0.0 <= y < 2.0 * t && g > 0.0 && 2.0 * RealAbs(d) <= g
    ensures -(t * g) < y * d < t * g
  {
    var half := g / 2.0;
    assert -half <= d <= half;
    RMulLe(d, half, y);
    RMulLe(-half, d, y);
    RMulLt(y, 2.0 * t, half);
    assert (2.0 * t) * half == t * g;
    assert -half * y == -(y * half);
  }

  lemma {:induction false} TightBound(x: Diyfp, cached: CachedPower)
    requires Accurate(cached)
    ensures var m := Mul(x, Diyfp(cached.f, cached.e));
            Times((m.f - 1) as real, R2(m.e)) < Times(RealOf(x), R10(cached.k)) < Times((m.f + 1) as real, R2(m.e))
  {
    hide R2, R10, Times, RealOf, Mul;
    var m := Mul(x, Diyfp(cached.f, cached.e));
    MulRounds(x, Diyfp(cached.f, cached.e));
    var r, u, p := R2(x.e), R2(cached.e), R10(cached.k);
    ExponentOfProduct(x.e, cached.e);
    RealOfParts(x);
    hide Accurate;
    TightScaled(x.f, cached, m.f, r, u, p, R2(m.e));
    ProductOf(RealOf(x), x.f as real, r, p);
  }

  lemma {:induction false} TightScaled(x: nat, cached: CachedPower, h: int, r: real, u: real, p: real, unit: real)
    requires x < TWO_64 && r > 0.0 && u == R2(cached.e) && p == R10(cached.k) && unit == Times(TWO_64 as real, Times(r, u))
    requires x * cached.f - TWO_63 <= h * TWO_64 <= x * cached.f + TWO_63 && Accurate(cached)
    ensures Times((h - 1) as real, unit) < Times(x as real, Times(r, p)) < Times((h + 1) as real, unit)
  {
    hide R2, R10;
    ScaleError(cached.f, r, u, p);
    hide Times;
    Tight(x, cached.f, h, Times(r, u), Times(r, p), unit);
  }

  lemma {:induction false} ProductOf(v: real, f: real, r: real, p: real)
    requires v == Times(f, r)
    ensures Times(v, p) == Times(f, Times(r, p))
  {}

  lemma {:induction false} ExponentOfProduct(a: int, b: int)
    ensures R2(a + b + 64) == Times(TWO_64 as real, Times(R2(a), R2(b)))
  {
    hide R2, Pow;
    R2Add(a, b);
    R2Add(a + b, 64);
    R2OfNat(64);
    Pow2Values();
  }

  lemma {:induction false} ScaleError(f: int, r: real, u: real, p: real)
    requires r > 0.0 && u > 0.0 && 2.0 * RealAbs(f as real * u - p) <= u
    ensures Times(r, u) > 0.0 && 2.0 * RealAbs(f as real * Times(r, u) - Times(r, p)) <= Times(r, u)
  {
    var d := f as real * u - p;
    assert f as real * (r * u) - r * p == r * d;
    RMulLe(2.0 * d, u, r);
    RMulLe(-u, 2.0 * d, r);
  }

  // ---- from significand steps back to decimals

  /** A decimal generated for [lo, hi] at exponent e lies between lo * 2^e and hi * 2^e. */
  lemma {:induction false} GeneratedValue(digits: bytes, n: int, e: int, lo: int, w: int, hi: int)
    requires e <= 0 && Generated(digits, n, Pow2(-e), lo, w, hi)
    ensures Times(lo as real, R2(e)) <= DecimalValue(digits, n) <= Times(hi as real, R2(e))
  {
    hide R2, R10, Pow, DigitsValue, UnitOf, ScaleOf, NoMultiple, Times, DecimalValue;
    var b, u, s := DigitsValue(digits), UnitOf(n, Pow2(-e)), ScaleOf(n);
    var t := ScaleFactor(n, e);
    DecimalTimes(digits, n);
    Compare(lo, s, b, u, t, R2(e), R10(n));
    Compare(b, u, hi, s, t, R10(n), R2(e));
  }

  lemma {:induction false} DecimalTimes(digits: bytes, n: int)
    requires AllDigits(digits)
    ensures DecimalValue(digits, n) == Times(DigitsValue(digits) as real, R10(n))
  {
    hide R10, DigitsValue;
  }

  /** Comparing k * s with m * u, in units of t. */
  lemma {:induction false} Compare(k: int, s: int, m: int, u: int, t: real, x: real, y: real)
    requires t > 0.0 && s as real * t == x && u as real * t == y && k * s <= m * u
    ensures Times(k as real, x) <= Times(m as real, y)
  {
    TimesReal(k, s, t);
    TimesReal(m, u, t);
    RMulLe((k * s) as real, (m * u) as real, t);
  }

  lemma {:induction false} TimesReal(a: int, b: int, t: real)
    ensures (a * b) as real * t == a as real * (b as real * t)
  {
    RMulAssoc(a as real, b as real, t);
  }

  /** The factor from scaled significand steps to real numbers. */
  lemma {:induction false} ScaleFactor(n: int, e: int) returns (t: real)
    requires e <= 0
    ensures t > 0.0
    ensures UnitOf(n, Pow2(-e)) as real * t == R10(n)
    ensures ScaleOf(n) as real * t == R2(e)
  {
    R2OfNat(-e);
    R2Add(-e, e);
    var one := Pow2(-e);
    if n >= 0 {
      t := R2(e);
      R10OfNat(n);
      TimesReal(Pow10(n), one, t);
    } else {
      t := R2(e) * R10(n);
      R10OfNat(-n);
      R10Add(-n, n);
      RMulAssoc(one as real, R2(e), R10(n));
      RMulAssoc(Pow10(-n) as real, R10(n), R2(e));
    }
  }

  /** The decimal digits * 10^exponent lies strictly between the midpoints around the double. */
  ghost predicate RoundsTo(x: real, bits: uint64)
    requires FinitePositive(bits)
  {
    Value(bits - 1) + Value(bits) < 2.0 * x < Value(bits) + Value(bits + 1)
  }

  /** Digits generated for the scaled interval, with the scaling undone, round to the double. */
  lemma {:induction false} ShortestIsSafe(bits: uint64, digits: bytes, n: int)
    requires FinitePositive(bits)
    requires var b := BoundariesOf(bits);
             && b.minus.e == b.w.e == b.plus.e && -1137 <= b.plus.e <= 960 && TWO_63 <= b.plus.f
             && var s := ScaledInterval(b);
             s.mPlus.e <= 0 && Generated(digits, n, Pow2(-s.mPlus.e), s.mMinus.f, s.w.f, s.mPlus.f)
    ensures RoundsTo(DecimalValue(digits, n - ScaledInterval(BoundariesOf(bits)).k), bits)
  {
    hide R2, R10, BoundariesOf, RealOf, Generated, Pow, Value, Mul, Times, DecimalValue, ScaledInterval;
    var b := BoundariesOf(bits);
    var k := ScaledInterval(b).k;
    assert AllDigits(digits) by {
      GeneratedDigits(digits, n, Pow2(-ScaledInterval(b).mPlus.e), ScaledInterval(b));
    }
    ScaledBetween(b, digits, n);
    BoundariesAreMidpoints(bits);
    R10Inverse(k);
    Unscale(RealOf(b.minus), DecimalValue(digits, n), RealOf(b.plus), R10(k), R10(-k));
    ShiftExponent(digits, n, k);
  }

  lemma {:induction false} GeneratedDigits(digits: bytes, n: int, one: int, s: Scaled)
    requires Generated(digits, n, one, s.mMinus.f, s.w.f, s.mPlus.f)
    ensures AllDigits(digits) && 1 <= |digits| <= MAX_DIGITS10 && digits[0] != DIGIT_0
  {}

  lemma {:induction false} ShiftExponent(digits: bytes, n: int, k: int)
    requires AllDigits(digits)
    ensures DecimalValue(digits, n - k) == Times(DecimalValue(digits, n), R10(-k))
  {
    hide R10, DigitsValue;
    R10Add(n, -k);
    TimesAssoc(DigitsValue(digits) as real, R10(n), R10(-k), R10(n - k));
  }

  lemma {:induction false} TimesAssoc(a: real, b: real, c: real, bc: real)
    requires bc == b * c
    ensures a * bc == Times(a * b, c)
  {}

  lemma {:induction false} ScaledBetween(b: Boundaries, digits: bytes, n: int)
    requires b.minus.e == b.w.e == b.plus.e && -1137 <= b.plus.e <= 960 && TWO_63 <= b.plus.f
    requires var s := ScaledInterval(b);
             s.mPlus.e <= 0 && Generated(digits, n, Pow2(-s.mPlus.e), s.mMinus.f, s.w.f, s.mPlus.f)
    ensures var p := R10(ScaledInterval(b).k);
            Times(RealOf(b.minus), p) < DecimalValue(digits, n) < Times(RealOf(b.plus), p)
  {
    hide R2, R10, Times, RealOf, Generated, Pow, DecimalValue;
    var s := ScaledInterval(b);
    var cached := CachedPowerFor(b.plus.e);
    TightBound(b.minus, cached);
    TightBound(b.plus, cached);
    GeneratedValue(digits, n, s.mPlus.e, s.mMinus.f, s.w.f, s.mPlus.f);
    hide Mul, CachedPowerFor;
  }

  /** a and b are neighbours of x in units of u. */
  ghost predicate Encloses(a: int, x: real, b: int, u: real) {
    Times(a as real, u) < x < Times(b as real, u)
  }

  /**
    The interval is not narrower than the rounding calls for: its ends lie less than two units inside the
    scaled boundaries, and w is less than one unit off.
   */
  lemma {:induction false} IntervalIsTight(bits: uint64)
    requires FinitePositive(bits)
    ensures var b := BoundariesOf(bits);
            && b.minus.e == b.w.e == b.plus.e && -1137 <= b.plus.e <= 960 && TWO_63 <= b.plus.f
            && var s := ScaledInterval(b);
            && s.mMinus.e == s.w.e == s.mPlus.e
            && Encloses(s.mMinus.f - 2, Times(RealOf(b.minus), R10(s.k)), s.mMinus.f, R2(s.w.e))
            && Encloses(s.w.f - 1, Times(RealOf(b.w), R10(s.k)), s.w.f + 1, R2(s.w.e))
            && Encloses(s.mPlus.f, Times(RealOf(b.plus), R10(s.k)), s.mPlus.f + 2, R2(s.w.e))
  {
    hide R2, R10, Times, RealOf, BoundariesOf, CachedPowerFor;
    ScaledIntervalFits(bits);
    var b := BoundariesOf(bits);
    var cached := CachedPowerFor(b.plus.e);
    TightBound(b.minus, cached);
    TightBound(b.w, cached);
    TightBound(b.plus, cached);
    hide Mul;
  }

  lemma {:induction false} Unscale(lo: real, x: real, hi: real, p: real, q: real)
    requires p > 0.0 && q > 0.0 && p * q == 1.0 && Times(lo, p) < x < Times(hi, p)
    ensures lo < Times(x, q) < hi
  {
    RMulLt(lo * p, x, q);
    RMulLt(x, hi * p, q);
    RMulAssoc(lo, p, q);
    RMulAssoc(hi, p, q);
  }

  /** Shortest digits for a positive finite double: buf[first..first + length] * 10^exponent. */
  method Grisu2(buf: array<byte>, first: nat, bits: uint64) returns (length: nat, exponent: int)
    requires FinitePositive(bits)
    requires first + MAX_DIGITS10 <= buf.Length
    modifies buf
    ensures 1 <= length <= MAX_DIGITS10 && -341 <= exponent <= 310
    ensures AllDigits(buf[first..first + length]) && buf[first] != DIGIT_0
    ensures RoundsTo(DecimalValue(buf[first..first + length], exponent), bits)
    ensures ShortestFor(buf[first..first + length], exponent, bits)
    ensures forall j | 0 <= j < first :: buf[j] == old(buf[j])
  {
    hide Generated, BoundariesOf, RoundsTo, DecimalValue, CachedPowerFor, Mul, Decompose;
    ScaledIntervalFits(bits);
    var b := ComputeBoundaries(bits);
    var s := ScaledInterval(b);
    ScaledExponent(b);
    length, exponent := Grisu2DigitGen(buf, first, -s.k, s.mMinus, s.w, s.mPlus);
    ShortestIsSafe(bits, buf[first..first + length], exponent + s.k);
    GeneratedDigits(buf[first..first + length], exponent + s.k, Pow2(-s.mPlus.e), s);
  }

  lemma {:induction false} ScaledExponent(b: Boundaries)
    requires b.minus.e == b.w.e == b.plus.e && -1137 <= b.plus.e <= 960 && TWO_63 <= b.plus.f
    ensures MIN_DEC_EXP <= ScaledInterval(b).k <= MIN_DEC_EXP + DEC_STEP * (TABLE_SIZE - 1)
  {
    IndexFits(b.plus.e);
    TableShape(CachedIndex(b.plus.e));
    hide Cached, CachedIndex;
  }

  /**
    In units of the scaled interval [M-, M+]: no decimal with fewer digits lies in it, and none with as
    many digits lies closer to w.
   */
  ghost predicate ShortestFor(digits: bytes, exponent: int, bits: uint64)
    requires FinitePositive(bits)
  {
    ScaledIntervalFits(bits);
    var s := ScaledInterval(BoundariesOf(bits));
    Generated(digits, exponent + s.k, Pow2(-s.mPlus.e), s.mMinus.f, s.w.f, s.mPlus.f)
  }

  /** The shortest digits neither start nor end with a zero. */
  lemma {:induction false} LastDigit(digits: bytes, exponent: int, bits: uint64)
    requires FinitePositive(bits) && ShortestFor(digits, exponent, bits)
    ensures AllDigits(digits) && digits != [] && digits[0] != DIGIT_0 && digits[|digits| - 1] != DIGIT_0
  {
    hide ScaledInterval, BoundariesOf, Pow, DigitsValue, UnitOf, ScaleOf, Rounded, AllDigits;
    ScaledIntervalFits(bits);
    var s := ScaledInterval(BoundariesOf(bits));
    var n, one := exponent + s.k, Pow2(-s.mPlus.e);
    RoundedLastDigit(digits, UnitOf(n, one), s.w.f * ScaleOf(n), s.mMinus.f * ScaleOf(n), s.mPlus.f * ScaleOf(n));
  }

  lemma {:induction false} RoundedLastDigit(digits: bytes, u: int, w: int, lo: int, hi: int)
    requires Rounded(digits, u, w, lo, hi)
    ensures AllDigits(digits) && digits != [] && digits[0] != DIGIT_0 && digits[|digits| - 1] != DIGIT_0
  {
    var q, d := DigitsValue(digits[..|digits| - 1]), digits[|digits| - 1] - DIGIT_0;
    var b := DigitsValue(digits);
    assert b == 10 * q + d;
    hide DigitsValue;
    LastDigitPositive(q, d, hi - b * u, u, hi - lo, hi);
  }

  /**
    Why this matters: a number between the midpoints is closer to the double than to every other
    double, so a reader that rounds to nearest recovers it, however it breaks ties.
   */
  lemma {:induction false} ReadsBack(x: real, bits: uint64, other: nat)
    requires FinitePositive(bits) && RoundsTo(x, bits)
    requires other <= INFINITY && other != bits
    ensures RealAbs(x - Value(bits)) < RealAbs(x - Value(other))
  {
    hide Value;
    if other < bits {
      if other < bits - 1 {
        ValueIncreasing(other, bits - 1);
      }
      ValueIncreasing(bits - 1, bits);
    } else {
      if bits + 1 < other {
        ValueIncreasing(bits + 1, other);
      }
      ValueIncreasing(bits, bits + 1);
    }
  }

  // ---- a double for which the commented invariant of the integral digits fails

  /** The double nearest to 1.01. */
  const BITS_1_01: uint64 := 0x3FF0_28F5_C28F_5C29

  lemma {:induction false} Boundaries101()
    ensures FinitePositive(BITS_1_01)
    ensures BoundariesOf(BITS_1_01) == Boundaries(Diyfp(0x8147_AE14_7AE1_4800, -63), Diyfp(0x8147_AE14_7AE1_4400, -63),
                                                  Diyfp(0x8147_AE14_7AE1_4C00, -63))
  {
    assert Decompose(BITS_1_01) == Diyfp(0x10_28F5_C28F_5C29, -52);
    assert Pow2(10) == 1024;
    PowStep(2, 10);
    hide Pow, Normalized, NormalizeTo;
    NormalizedUnique(Diyfp(0x10_28F5_C28F_5C29, -52), 11);
    NormalizedUnique(Diyfp(0x20_51EB_851E_B853, -53), 10);
  }

  lemma {:induction false} Cached101()
    ensures var c := CachedPowerFor(-63); c.f == 0x9C40_0000_0000_0000 && c.e == -50
  {
  }

  lemma {:induction false} Scaled101()
    ensures FinitePositive(BITS_1_01)
    ensures var b := BoundariesOf(BITS_1_01);
            && b.minus.e == b.w.e == b.plus.e && -1137 <= b.plus.e <= 960 && TWO_63 <= b.plus.f
            && var s := ScaledInterval(b);
            s.mMinus == Diyfp(0x4EE7_FFFF_FFFF_FDC2, -49) && s.mPlus == Diyfp(0x4EE8_0000_0000_02A2, -49)
  {
    Boundaries101();
    Cached101();
    hide BoundariesOf, CachedPowerFor;
  }

  /** After the first digit of 1.01 the loop goes on with pow10 = 1000, but 100 is left. */
  lemma {:induction false} InvariantFails()
    ensures FinitePositive(BITS_1_01)
    ensures var b := BoundariesOf(BITS_1_01);
            && b.minus.e == b.w.e == b.plus.e && -1137 <= b.plus.e <= 960 && TWO_63 <= b.plus.f
            && var s := ScaledInterval(b);
            s.mPlus.e <= 0 &&
            var one := Pow2(-s.mPlus.e);
            var p1, p2 := Quotient(s.mPlus.f, one), Remainder(s.mPlus.f, one);
            LoopHead(p1, p2, one, s.mPlus.f - s.mMinus.f, 4) && Remainder(p1, Pow10(4)) < Pow10(3)
  {
    Scaled101();
    hide BoundariesOf, ScaledInterval;
    Split101();
  }

  lemma {:induction false} Split101()
    ensures var one, f := Pow2(49), 0x4EE8_0000_0000_02A2;
            && Quotient(f, one) == 10100 && Remainder(f, one) == 674
            && LoopHead(10100, 674, one, 1248, 4) && Remainder(10100, Pow10(4)) < Pow10(3)
  {
    Pow2Values();
    PowAdd(2, 32, 17);
    Pow10Values();
    hide Pow;
    assert Pow2(49) == 0x2_0000_0000_0000;
    DigitCount(10100, 5);
    hide ToDecimal;
  }
}
