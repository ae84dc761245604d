/**
  IEEE 754 double precision: the value of a bit pattern, its neighbours, and the exact midpoints to them.
 */
module Doubles {
  import opened Arith
  import opened DiyFp

  const HIDDEN_BIT := 0x10_0000_0000_0000
  const BIAS := 1075
  const MIN_EXP := 1 - BIAS
  const INFINITY := 0x7FF0_0000_0000_0000
  const SIGN_BIT := TWO_63

  predicate Finite(bits: nat) {
    bits % SIGN_BIT < INFINITY
  }

  ghost predicate FinitePositive(bits: int) {
    0 < bits < INFINITY
  }

  /** The significand and exponent a sign-free bit pattern stands for. */
  function Decompose(bits: nat): (v: Diyfp)
    requires bits <= INFINITY
    ensures v.f < 2 * HIDDEN_BIT && MIN_EXP <= v.e <= 2047 - BIAS
    ensures bits > 0 ==> v.f > 0
    ensures FinitePositive(bits) ==> v.e <= 2046 - BIAS
  {
    var E := bits / HIDDEN_BIT;
    var F := bits % HIDDEN_BIT;
    if E == 0 then Diyfp(F, MIN_EXP) else Diyfp(F + HIDDEN_BIT, E - BIAS)
  }

  ghost function RealOf(d: Diyfp): real {
    d.f as real * R2(d.e)
  }

  /** The real number a sign-free pattern stands for; the pattern of infinity counts as 2^1024. */
  ghost function Value(bits: nat): real
    requires bits <= INFINITY
  {
    RealOf(Decompose(bits))
  }

  lemma {:induction false} Successor(bits: nat)
    requires bits < INFINITY
    ensures var v := Decompose(bits);
            Decompose(bits + 1) ==
            if v.f < 2 * HIDDEN_BIT - 1 then Diyfp(v.f + 1, v.e) else Diyfp(HIDDEN_BIT, v.e + 1)
  {
    var E, F := bits / HIDDEN_BIT, bits % HIDDEN_BIT;
    if F + 1 < HIDDEN_BIT {
      DivModUnique(bits + 1, HIDDEN_BIT, E, F + 1);
    } else {
      DivModUnique(bits + 1, HIDDEN_BIT, E + 1, 0);
    }
  }

  lemma {:induction false} NextValue(bits: nat)
    requires bits < INFINITY
    ensures Value(bits + 1) == Value(bits) + R2(Decompose(bits).e)
  {
    Successor(bits);
    hide Decompose, RealOf, R2;
    var v := Decompose(bits);
    if v.f < 2 * HIDDEN_BIT - 1 {
      NextUnit(v);
    } else {
      BinadeCarry(v);
    }
  }

  lemma {:induction false} NextUnit(v: Diyfp)
    requires v.f + 1 < TWO_64
    ensures RealOf(Diyfp(v.f + 1, v.e)) == RealOf(v) + R2(v.e)
  {
    NextMultiple(v.f, R2(v.e));
  }

  /** One unit above the largest significand is the smallest one of the next exponent. */
  lemma {:induction false} BinadeCarry(v: Diyfp)
    requires v.f == 2 * HIDDEN_BIT - 1
    ensures RealOf(Diyfp(HIDDEN_BIT, v.e + 1)) == RealOf(v) + R2(v.e)
  {
    assert R2(v.e + 1) == 2.0 * R2(v.e);
    hide R2;
    NextMultiple(v.f, R2(v.e));
    RMulAssoc(HIDDEN_BIT as real, 2.0, R2(v.e));
  }

  lemma {:induction false} NormalParts(bits: nat, exp: int, f: nat)
    requires 0 < exp < 2047 && HIDDEN_BIT <= f < 2 * HIDDEN_BIT
    requires bits == (exp - 1) * HIDDEN_BIT + f
    ensures bits < INFINITY && Decompose(bits) == Diyfp(f, exp - BIAS)
  {
    DivModUnique(bits, HIDDEN_BIT, exp, f - HIDDEN_BIT);
  }

  /** The value of a normal pattern, and of the next one, by its exponent and significand. */
  lemma {:induction false} NormalPattern(bits: nat, exp: int, f: nat)
    requires 0 < exp < 2047 && HIDDEN_BIT <= f < 2 * HIDDEN_BIT
    requires bits == (exp - 1) * HIDDEN_BIT + f
    ensures bits < INFINITY && Value(bits) == Times(f as real, R2(exp - BIAS))
    ensures Value(bits + 1) == Value(bits) + R2(exp - BIAS)
  {
    hide Decompose, R2, Times, RealOf;
    NormalParts(bits, exp, f);
    RealOfParts(Diyfp(f, exp - BIAS));
    NextValue(bits);
  }

  lemma {:induction false} RealOfParts(v: Diyfp)
    ensures RealOf(v) == Times(v.f as real, R2(v.e))
  {
    hide R2;
  }

  lemma {:induction false} ValueIncreasing(a: nat, b: nat)
    requires a < b <= INFINITY
    ensures Value(a) < Value(b)
    decreases b
  {
    NextValue(b - 1);
    if a < b - 1 {
      ValueIncreasing(a, b - 1);
    }
  }

  /** No other double is nearer, and of two that are equally near the even one is taken. */
  ghost predicate Nearest(x: real, bits: nat)
    requires bits <= INFINITY
  {
    forall other: nat | other <= INFINITY && other != bits ::
      var d, e := RealAbs(x - Value(bits)), RealAbs(x - Value(other));
      d < e || (d == e && bits % 2 == 0)
  }

  /** It is enough to look at the two doubles around a number. */
  lemma {:induction false} NearestOfTwo(x: real, bits: nat, up: bool)
    requires bits < INFINITY && Value(bits) <= x < Value(bits + 1)
    requires var below, above := x - Value(bits), Value(bits + 1) - x;
             if up then above < below || (above == below && bits % 2 == 1)
             else below < above || (above == below && bits % 2 == 0)
    ensures Nearest(x, if up then bits + 1 else bits)
  {
    hide Value;
    forall other: nat | other <= INFINITY && other != bits && other != bits + 1
      ensures Value(other) < Value(bits) || Value(bits + 1) < Value(other)
    {
      if other < bits {
        ValueIncreasing(other, bits);
      } else {
        ValueIncreasing(bits + 1, other);
      }
    }
  }

  // ---- the midpoints between a double and its neighbours

  datatype Boundaries = Boundaries(w: Diyfp, minus: Diyfp, plus: Diyfp)

  function MPlus(v: Diyfp): Diyfp
    requires v.f < 2 * HIDDEN_BIT
  {
    Diyfp(2 * v.f + 1, v.e - 1)
  }

  function MMinus(bits: nat, v: Diyfp): (m: Diyfp)
    requires FinitePositive(bits) && v == Decompose(bits)
    ensures v.e - 2 <= m.e
  {
    if bits % HIDDEN_BIT == 0 && bits / HIDDEN_BIT > 1 then Diyfp(4 * v.f - 1, v.e - 2)
    else Diyfp(2 * v.f - 1, v.e - 1)
  }

  method ComputeBoundaries(bits: uint64) returns (b: Boundaries)
    requires FinitePositive(bits)
    ensures b == BoundariesOf(bits)
  {
    var v := Decompose(bits);
    var mPlus := MPlus(v);
    var mMinus := MMinus(bits, v);
    var wPlus := Normalize(mPlus);
    MidpointsFit(bits);
    var wMinus := NormalizeTo(mMinus, wPlus.e);
    var w := Normalize(v);
    b := Boundaries(w, wMinus, wPlus);
  }

  ghost function BoundariesOf(bits: uint64): Boundaries
    requires FinitePositive(bits)
  {
    var v := Decompose(bits);
    var wPlus := Normalized(MPlus(v));
    MidpointsFit(bits);
    Boundaries(Normalized(v), NormalizeTo(MMinus(bits, v), wPlus.e), wPlus)
  }

  lemma {:induction false} NormalizedUnique(x: Diyfp, i: nat)
    requires TWO_63 <= x.f * Pow2(i) < TWO_64
    ensures Normalized(x) == Diyfp(x.f * Pow2(i), x.e - i)
    decreases i
  {
    assert x.f != 0;
    if i > 0 {
      var p := Pow2(i - 1);
      assert x.f * Pow2(i) == 2 * x.f * p;
      MulMono(1, p, 2 * x.f);
      NormalizedUnique(Diyfp(2 * x.f, x.e - 1), i - 1);
    }
  }

  /** The shape of a normalized significand: the shift is between 11 and 63. */
  lemma {:induction false} NormalizeShift(f: nat, k: nat)
    requires 0 < f < 2 * HIDDEN_BIT && TWO_63 <= f * Pow2(k) < TWO_64
    ensures 11 <= k <= 63
    ensures Pow2(k) == 2 * Pow2(k - 1) == 4 * Pow2(k - 2) && Pow2(k - 2) >= 512
  {
    Pow2Values();
    if k <= 10 {
      PowMonotone(2, k, 10);
      ProductLess(f, Pow2(k), 2 * HIDDEN_BIT, 1024);
    }
    if k >= 64 {
      PowMonotone(2, 64, k);
      MulMono(1, f, Pow2(k));
    }
    PowMonotone(2, 9, k - 2);
  }

  lemma {:induction false} ProductLess(a: nat, b: nat, c: nat, d: nat)
    requires a < c && b <= d && d > 0
    ensures a * b < c * d
  {
    MulMono(b, d, a);
    assert a * d < c * d;
  }

  /** A normalized significand and the midpoints around it, all shifted to its exponent. */
  lemma {:induction false} ShiftedNeighbours(f: nat, k: nat)
    requires 0 < f < 2 * HIDDEN_BIT && TWO_63 <= f * Pow2(k) < TWO_64
    ensures 11 <= k <= 63 && (k == 63 ==> f == 1)
    ensures Pow2(k) == 2 * Pow2(k - 1) == 4 * Pow2(k - 2) && Pow2(k - 2) >= 512
    ensures TWO_63 <= (2 * f + 1) * Pow2(k - 1) == f * Pow2(k) + Pow2(k - 1) < TWO_64
    ensures (2 * f - 1) * Pow2(k - 1) == f * Pow2(k) - Pow2(k - 1)
    ensures (4 * f - 1) * Pow2(k - 2) == f * Pow2(k) - Pow2(k - 2)
  {
    NormalizeShift(f, k);
    MultipleBelow(f, Pow2(k), k);
    var h := Pow2(k - 2);
    assert f * (4 * h) == 4 * (f * h);
    assert (2 * f + 1) * (2 * h) == 4 * (f * h) + 2 * h;
    assert (2 * f - 1) * (2 * h) == 4 * (f * h) - 2 * h;
    assert (4 * f - 1) * h == 4 * (f * h) - h;
    if k == 63 {
      Pow2Values();
    }
  }

  /** Both midpoints, brought to the exponent of the normalized upper one, fit in 64 bits. */
  lemma {:induction false} MidpointsFit(bits: uint64)
    requires FinitePositive(bits)
    ensures var v := Decompose(bits);
            var w, p, m := Normalized(v), Normalized(MPlus(v)), MMinus(bits, v);
            var k := v.e - w.e;
            && 11 <= k <= 63
            && p.e == w.e && p.f == w.f + Pow2(k - 1)
            && m.e >= p.e
            && m.f * Pow2(m.e - p.e) == w.f - (if m.e == v.e - 1 then Pow2(k - 1) else Pow2(k - 2))
            && -1137 <= p.e <= 960
  {
    var v := Decompose(bits);
    var w := Normalized(v);
    var k := v.e - w.e;
    ShiftedNeighbours(v.f, k);
    NormalizedUnique(MPlus(v), k - 1);
  }

  /** A multiple of 2^k below 2^64 leaves room for another 2^k. */
  lemma {:induction false} MultipleBelow(f: nat, p: nat, k: nat)
    requires p == Pow2(k) && k <= 64 && f * p < TWO_64
    ensures f * p + p <= TWO_64
  {
    hide Pow;
    PowAdd(2, k, 64 - k);
    Pow2Values();
    RoomForOneMore(f, p, Pow2(64 - k), TWO_64);
  }

  lemma {:induction false} RoomForOneMore(f: int, p: int, q: int, n: int)
    requires p > 0 && p * q == n && f * p < n
    ensures f * p + p <= n
  {
    MulCancel(f, q, p);
    MulMono(f + 1, q, p);
  }

  // ---- what the boundaries mean

  lemma {:induction false} Rescale(x: Diyfp, k: nat)
    requires x.f * Pow2(k) < TWO_64
    ensures x.f * Pow2(k) >= 0 && RealOf(Diyfp(x.f * Pow2(k), x.e - k)) == RealOf(x)
  {
    R2OfNat(k);
    R2Add(k, x.e - k);
    var p := Pow2(k);
    hide R2, Pow2;
    assert (x.f * p) as real == x.f as real * p as real;
    RMulAssoc(x.f as real, p as real, R2(x.e - k));
  }

  lemma {:induction false} UpperMidpoint(v: Diyfp)
    requires v.f < 2 * HIDDEN_BIT
    ensures 2.0 * RealOf(MPlus(v)) == RealOf(v) + (RealOf(v) + R2(v.e))
  {
    assert R2(v.e) == 2.0 * R2(v.e - 1);
    hide R2;
    assert (2 * v.f + 1) as real == 2.0 * v.f as real + 1.0;
    LinearProduct(2.0, v.f as real, 1.0, R2(v.e - 1));
  }

  lemma {:induction false} LowerMidpoint(v: Diyfp)
    requires 0 < v.f < 2 * HIDDEN_BIT
    ensures 2.0 * RealOf(Diyfp(2 * v.f - 1, v.e - 1)) == (RealOf(v) - R2(v.e)) + RealOf(v)
    ensures 2.0 * RealOf(Diyfp(4 * v.f - 1, v.e - 2)) == (RealOf(v) - R2(v.e - 1)) + RealOf(v)
  {
    assert R2(v.e) == 2.0 * R2(v.e - 1);
    assert R2(v.e - 1) == 2.0 * R2(v.e - 2);
    hide R2;
    assert (2 * v.f - 1) as real == 2.0 * v.f as real - 1.0;
    assert (4 * v.f - 1) as real == 4.0 * v.f as real - 1.0;
    LinearProduct(2.0, v.f as real, -1.0, R2(v.e - 1));
    LinearProduct(4.0, v.f as real, -1.0, R2(v.e - 2));
    LinearProduct(4.0, v.f as real, 0.0, R2(v.e - 2));
    LinearProduct(2.0, v.f as real, 0.0, R2(v.e - 1));
  }

  lemma {:induction false} LinearProduct(a: real, x: real, b: real, u: real)
    ensures (a * x + b) * u == a * (x * u) + b * u
    ensures x * (a * u) == a * (x * u)
  {}

  lemma {:induction false} Predecessor(bits: nat)
    requires FinitePositive(bits)
    ensures Decompose(bits - 1).e == Decompose(bits).e - (if MMinus(bits, Decompose(bits)).e == Decompose(bits).e - 1 then 0 else 1)
  {
    Successor(bits - 1);
  }

  /** The boundaries are exactly the midpoints between the double and its two neighbours. */
  lemma {:induction false} BoundariesAreMidpoints(bits: uint64)
    requires FinitePositive(bits)
    ensures var b := BoundariesOf(bits);
            && RealOf(b.w) == Value(bits)
            && 2.0 * RealOf(b.minus) == Value(bits - 1) + Value(bits)
            && 2.0 * RealOf(b.plus) == Value(bits) + Value(bits + 1)
  {
    hide RealOf, R2, Pow, BoundariesOf, Normalized, NormalizeTo;
    var v := Decompose(bits);
    var b := BoundariesOf(bits);
    var m := MMinus(bits, v);
    BoundaryForms(bits);
    SameReal(v, b.w);
    SameReal(MPlus(v), b.plus);
    SameReal(m, b.minus);
    NextValue(bits);
    NextValue(bits - 1);
    Predecessor(bits);
    UpperMidpoint(v);
    LowerMidpoint(v);
  }

  /** Each boundary is its unscaled form, shifted. */
  lemma {:induction false} BoundaryForms(bits: uint64)
    requires FinitePositive(bits)
    ensures var v, b := Decompose(bits), BoundariesOf(bits);
            && Shifted(v, b.w) && Shifted(MPlus(v), b.plus) && Shifted(MMinus(bits, v), b.minus)
  {
    MidpointsFit(bits);
    var v := Decompose(bits);
    var k := v.e - Normalized(v).e;
    ShiftedNeighbours(v.f, k);
    hide Pow;
  }

  ghost predicate Shifted(x: Diyfp, y: Diyfp) {
    y.e <= x.e && y.f == x.f * Pow2(x.e - y.e)
  }

  lemma {:induction false} SameReal(x: Diyfp, y: Diyfp)
    requires Shifted(x, y)
    ensures RealOf(y) == RealOf(x)
  {
    hide Pow;
    Rescale(x, x.e - y.e);
  }

  /** What digit generation relies on: one exponent, normalized significands, room around w. */
  lemma {:induction false} BoundariesSpread(bits: uint64)
    requires FinitePositive(bits)
    ensures var b := BoundariesOf(bits);
            && b.minus.e == b.w.e == b.plus.e && -1137 <= b.plus.e <= 960
            && TWO_63 <= b.w.f
            && b.minus.f + 512 <= b.w.f && b.w.f + 1024 <= b.plus.f
            && b.plus.f < 2 * HIDDEN_BIT * (b.plus.f - b.minus.f)
  {
    MidpointsFit(bits);
    var v := Decompose(bits);
    var b := BoundariesOf(bits);
    var k := v.e - b.w.e;
    ShiftedNeighbours(v.f, k);
    WidthRatio(v.f, Pow2(k - 2));
    assert b.w.f == v.f * (4 * Pow2(k - 2));
  }

  lemma {:induction false} WidthRatio(f: nat, h: nat)
    requires 0 < f < 2 * HIDDEN_BIT && h > 0
    ensures f * (4 * h) + 2 * h < 2 * HIDDEN_BIT * (4 * h)
    ensures f == HIDDEN_BIT ==> f * (4 * h) + 2 * h < 2 * HIDDEN_BIT * (3 * h)
  {
    MulMono(f + 1, 2 * HIDDEN_BIT, 4 * h);
    assert (f + 1) * (4 * h) == f * (4 * h) + 4 * h;
  }
}
