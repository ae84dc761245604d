/**
  The "do it yourself" floating-point numbers f * 2^e with a 64-bit significand.
  Shifts by n are written as multiplication or division by 2^n and masks by 2^n - 1 as `%`.
 */
module DiyFp {
  import opened Arith

  datatype Diyfp = Diyfp(f: uint64, e: int)

  /** x - y for operands of one exponent. */
  function Sub(x: Diyfp, y: Diyfp): (r: Diyfp)
    requires x.e == y.e && x.f >= y.f
    ensures r.f + y.f == x.f && r.e == x.e
  {
    Diyfp(x.f - y.f, x.e)
  }

  /**
    The 64-by-64-bit product from four 32-bit ones.  Every intermediate is a `uint64`, so no partial
    sum wraps; the contract says the result is the exact product divided by 2^64, rounded to the
    nearest integer with ties up.
   */
  function Mul(x: Diyfp, y: Diyfp): (r: Diyfp)
    ensures r.f == (x.f * y.f + TWO_63) / TWO_64
    ensures r.e == x.e + y.e + 64
    ensures r.f <= TWO_64 - 2
  {
    var uLo: uint64 := x.f % TWO_32;
    var uHi: uint64 := x.f / TWO_32;
    var vLo: uint64 := y.f % TWO_32;
    var vHi: uint64 := y.f / TWO_32;
    ProductFits(uLo, vLo, TWO_32 - 1);
    ProductFits(uLo, vHi, TWO_32 - 1);
    ProductFits(uHi, vLo, TWO_32 - 1);
    ProductFits(uHi, vHi, TWO_32 - 1);
    var p0: uint64 := uLo * vLo;
    var p1: uint64 := uLo * vHi;
    var p2: uint64 := uHi * vLo;
    var p3: uint64 := uHi * vHi;
    var p0Hi: uint64 := p0 / TWO_32;
    var p1Lo: uint64 := p1 % TWO_32;
    var p1Hi: uint64 := p1 / TWO_32;
    var p2Lo: uint64 := p2 % TWO_32;
    var p2Hi: uint64 := p2 / TWO_32;
    var q: uint64 := p0Hi + p1Lo + p2Lo;
    var q': uint64 := q + 0x8000_0000;
    assert p3 + p2Hi + p1Hi + q' / TWO_32 == (x.f * y.f + TWO_63) / TWO_64
           && p3 + p2Hi + p1Hi + q' / TWO_32 <= TWO_64 - 2 by {
      SchoolProduct(uLo, uHi, vLo, vHi);
      ProductFits(x.f, y.f, TWO_64 - 1);
      var rest := p0 % TWO_32 + TWO_32 * (q' % TWO_32);
      var h := p3 + p2Hi + p1Hi + q' / TWO_32;
      assert x.f * y.f == (uLo + TWO_32 * uHi) * (vLo + TWO_32 * vHi);
      assert x.f * y.f + TWO_63 == h * TWO_64 + rest;
      DivModUnique(x.f * y.f + TWO_63, TWO_64, h, rest);
    }
    var h: uint64 := p3 + p2Hi + p1Hi + q' / TWO_32;
    Diyfp(h, x.e + y.e + 64)
  }

  lemma {:induction false} ProductFits(a: int, b: int, m: int)
    requires 0 <= a <= m && 0 <= b <= m
    ensures 0 <= a * b <= m * m
  {
    MulMono(a, m, b);
    MulMono(b, m, m);
  }

  lemma {:induction false} SchoolProduct(a: int, b: int, c: int, d: int)
    ensures (a + TWO_32 * b) * (c + TWO_32 * d) == a * c + TWO_32 * (a * d + b * c) + TWO_64 * (b * d)
  {
    assert (a + TWO_32 * b) * (c + TWO_32 * d) == a * (c + TWO_32 * d) + TWO_32 * b * (c + TWO_32 * d);
    assert a * (c + TWO_32 * d) == a * c + TWO_32 * (a * d);
    assert b * (c + TWO_32 * d) == b * c + TWO_32 * (b * d);
  }

  /** Shifts x left until its top bit is set; the value is unchanged. */
  method Normalize(x: Diyfp) returns (r: Diyfp)
    requires x.f != 0
    ensures r == Normalized(x)
  {
    r := x;
    while r.f / TWO_63 == 0
      invariant r.f != 0 && Normalized(r) == Normalized(x)
      decreases TWO_64 - r.f
    {
      r := Diyfp(r.f * 2, r.e - 1);
    }
  }

  /** The one representation of x's value with a significand of exactly 64 bits. */
  function Normalized(x: Diyfp): (r: Diyfp)
    requires x.f != 0
    ensures TWO_63 <= r.f && r.e <= x.e && r.f == x.f * Pow2(x.e - r.e)
    decreases TWO_64 - x.f
  {
    if x.f >= TWO_63 then x
    else
      var r := Normalized(Diyfp(x.f * 2, x.e - 1));
      assert x.f * Pow2(x.e - r.e) == x.f * 2 * Pow2(x.e - 1 - r.e);
      r
  }

  /** x with the smaller exponent `target`; the bits shifted out at the top are zero. */
  function NormalizeTo(x: Diyfp, target: int): (r: Diyfp)
    requires x.e >= target && x.f * Pow2(x.e - target) < TWO_64
    ensures r.e == target && r.f == x.f * Pow2(x.e - target)
  {
    assert x.f * Pow2(x.e - target) >= 0;
    Diyfp(x.f * Pow2(x.e - target), target)
  }
}
