/**
  Machine integers and exact powers.  A `uint64` is an unbounded integer confined to 64 bits: every
  assignment to one is an obligation that the source's unsigned arithmetic does not wrap.
 */
module Arith {

  const TWO_32 := 0x1_0000_0000
  const TWO_63 := 0x8000_0000_0000_0000
  const TWO_64 := 0x1_0000_0000_0000_0000

  type byte = x: int | 0 <= x < 256
  type uint32 = x: int | 0 <= x < TWO_32
  type uint64 = x: int | 0 <= x < TWO_64
  type int64 = x: int | -TWO_63 <= x < TWO_63

  function Abs(x: int): nat {
    if x < 0 then -x else x
  }

  function RealAbs(x: real): real {
    if x < 0.0 then -x else x
  }

  function Pow(b: nat, n: nat): (r: nat)
    ensures b > 0 ==> r > 0
  {
    if n == 0 then 1 else b * Pow(b, n - 1)
  }

  function Pow2(n: nat): (r: nat)
    ensures r > 0
  {
    Pow(2, n)
  }

  function Pow10(n: nat): (r: nat)
    ensures r > 0
  {
    Pow(10, n)
  }

  lemma {:induction false} PowAdd(b: nat, m: nat, n: nat)
    ensures Pow(b, m + n) == Pow(b, m) * Pow(b, n)
  {
    if m == 0 {
    } else {
      PowAdd(b, m - 1, n);
      assert Pow(b, m + n) == b * (Pow(b, m - 1) * Pow(b, n));
      MulAssoc(b, Pow(b, m - 1), Pow(b, n));
    }
  }

  lemma {:induction false} PowMonotone(b: nat, m: nat, n: nat)
    requires b >= 1 && m <= n
    ensures Pow(b, m) <= Pow(b, n)
    decreases n
  {
    if m < n {
      PowMonotone(b, m, n - 1);
      MulMono(1, b, Pow(b, n - 1));
    }
  }

  lemma {:induction false} Pow2Values()
    ensures Pow2(9) == 512 && Pow2(10) == 1024 && Pow2(32) == TWO_32 && Pow2(60) == 0x1000_0000_0000_0000
    ensures Pow2(63) == TWO_63 && Pow2(64) == TWO_64
  {
    assert Pow2(2) == 4;
    assert Pow2(9) == 512;
    assert Pow2(10) == 1024;
    PowAdd(2, 10, 10);
    PowAdd(2, 20, 10);
    hide Pow;
    PowAdd(2, 30, 2);
    PowAdd(2, 30, 30);
    PowAdd(2, 60, 2);
    PowAdd(2, 62, 2);
    PowAdd(2, 32, 32);
    assert 2 * Pow2(63) == Pow2(64) by {
      PowStep(2, 63);
    }
  }

  lemma {:induction false} PowStep(b: nat, n: nat)
    ensures Pow(b, n + 1) == b * Pow(b, n)
  {}

  lemma {:induction false} Pow10Values()
    ensures Pow10(0) == 1 && Pow10(1) == 10 && Pow10(2) == 100 && Pow10(3) == 1000 && Pow10(4) == 10000
    ensures Pow10(5) == 100000 && Pow10(6) == 1000000 && Pow10(7) == 10000000 && Pow10(8) == 100000000
    ensures Pow10(9) == 1000000000 && Pow10(10) == 10000000000 && Pow10(16) == 1_0000_0000_0000_0000
  {
    PowAdd(10, 8, 8);
    assert Pow10(5) == 100000;
    assert Pow10(8) == 100000000;
    PowAdd(10, 5, 5);
  }

  lemma {:induction false} MulAssoc(a: int, b: int, c: int)
    ensures a * (b * c) == (a * b) * c
  {}

  // ---- names for the nonlinear operations, so that they can be hidden where only their laws matter

  function Product(a: int, b: int): int {
    a * b
  }

  function Quotient(x: nat, d: nat): nat
    requires d > 0
  {
    x / d
  }

  function Remainder(x: nat, d: nat): nat
    requires d > 0
  {
    x % d
  }

  lemma {:induction false} QuotientRemainder(x: nat, d: nat)
    requires d > 0
    ensures Remainder(x, d) < d && x == Product(Quotient(x, d), d) + Remainder(x, d)
  {}

  lemma {:induction false} MulMono(a: int, b: int, c: int)
    requires a <= b && c >= 0
    ensures a * c <= b * c
  {}

  lemma {:induction false} MulCancel(a: int, b: int, c: int)
    requires a * c < b * c && c > 0
    ensures a < b
  {
    if b <= a {
      MulMono(b, a, c);
    }
  }

  /** Quotient and remainder are determined by the defining equation. */
  lemma {:induction false} DivModUnique(x: int, d: int, q: int, r: int)
    requires 0 <= r < d && x == q * d + r
    ensures x / d == q && x % d == r
  {
    var q1, r1 := x / d, x % d;
    assert x == q1 * d + r1;
    if q1 < q {
      MulMono(q1 + 1, q, d);
    } else if q < q1 {
      MulMono(q + 1, q1, d);
    }
  }

  // ---- powers with a signed exponent, as reals

  /** A name for the product, to keep it out of sight where only its laws matter. */
  function Times(a: real, b: real): real {
    a * b
  }

  lemma {:induction false} ScaleTimes(q: real, a: real, c: real, p: real, qa: real, qp: real)
    requires q > 0.0 && qa == q * a && qp == q * p
    ensures p == Times(a, c) <==> qp == Times(qa, c)
  {
    assert qa * c == q * (a * c);
    if qp == qa * c {
      RMulCancelEq(p, a * c, q);
    }
  }

  /** Two to a signed power. */
  function R2(z: int): (r: real)
    ensures r > 0.0
    decreases Abs(z)
  {
    if z == 0 then 1.0
    else if z > 0 then 2.0 * R2(z - 1)
    else R2(z + 1) / 2.0
  }

  lemma {:induction false} R2OfNat(n: nat)
    ensures R2(n) == Pow2(n) as real
  {
    if n > 0 {
      R2OfNat(n - 1);
    }
  }

  lemma {:induction false} R2Add(y: int, z: int)
    ensures R2(y + z) == R2(y) * R2(z)
  {
    R2AddTimes(y, z);
  }

  lemma {:induction false} R2AddTimes(y: int, z: int)
    ensures R2(y + z) == Times(R2(y), R2(z))
    decreases Abs(y)
  {
    if y == 0 {
      assert R2(0) == 1.0;
    } else {
      var d := if y > 0 then y - 1 else y;
      R2AddTimes(if y > 0 then y - 1 else y + 1, z);
      assert R2(d + 1) == 2.0 * R2(d);
      assert R2(d + z + 1) == 2.0 * R2(d + z);
      assert d + z + 1 == d + 1 + z;
      hide Times;
      ScaleTimes(2.0, R2(d), R2(z), R2(d + z), R2(d + 1), R2(d + 1 + z));
    }
  }

  /** Ten to a signed power. */
  function R10(z: int): (r: real)
    ensures r > 0.0
    decreases Abs(z)
  {
    if z == 0 then 1.0
    else if z > 0 then 10.0 * R10(z - 1)
    else R10(z + 1) / 10.0
  }

  lemma {:induction false} R10OfNat(n: nat)
    ensures R10(n) == Pow10(n) as real
  {
    if n > 0 {
      R10OfNat(n - 1);
    }
  }

  lemma {:induction false} R10Add(y: int, z: int)
    ensures R10(y + z) == R10(y) * R10(z)
  {
    R10AddTimes(y, z);
  }

  lemma {:induction false} R10AddTimes(y: int, z: int)
    ensures R10(y + z) == Times(R10(y), R10(z))
    decreases Abs(y)
  {
    if y == 0 {
      assert R10(0) == 1.0;
    } else {
      var d := if y > 0 then y - 1 else y;
      R10AddTimes(if y > 0 then y - 1 else y + 1, z);
      assert R10(d + 1) == 10.0 * R10(d);
      assert R10(d + z + 1) == 10.0 * R10(d + z);
      assert d + z + 1 == d + 1 + z;
      hide Times;
      ScaleTimes(10.0, R10(d), R10(z), R10(d + z), R10(d + 1), R10(d + 1 + z));
    }
  }

  lemma {:induction false} R10Inverse(k: int)
    ensures R10(k) * R10(-k) == 1.0
  {
    R10Add(k, -k);
  }

  lemma {:induction false} NextMultiple(n: int, r: real)
    ensures (n + 1) as real * r == n as real * r + r
  {}

  lemma {:induction false} RMulAssoc(a: real, b: real, c: real)
    ensures a * (b * c) == (a * b) * c
  {}

  lemma {:induction false} RMulCancelEq(a: real, b: real, c: real)
    requires c * a == c * b && c > 0.0
    ensures a == b
  {
    if a < b {
      RMulLt(a, b, c);
    } else if b < a {
      RMulLt(b, a, c);
    }
  }

  lemma {:induction false} RMulLt(a: real, b: real, c: real)
    requires a < b && c > 0.0
    ensures a * c < b * c
  {}

  lemma {:induction false} RMulLe(a: real, b: real, c: real)
    requires a <= b && c >= 0.0
    ensures a * c <= b * c
  {}
}
