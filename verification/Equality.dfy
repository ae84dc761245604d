/**
  operator== characterized without its cases: what it is on values without numbers, between integers,
  between floats, across the two, and on containers.
 */
module Equality {
  import opened Arith
  import opened Decimal
  import opened Json
  import opened Doubles

  /** The comparison is symmetric. */
  lemma {:induction false} Symmetric(x: Json, y: Json)
    ensures Eq(x, y) <==> Eq(y, x)
    decreases x
  {
    hide ToDouble;
    match (x, y)
    case (Array(a), Array(b)) =>
      forall i | 0 <= i < |a| && i < |b| ensures Eq(a[i], b[i]) <==> Eq(b[i], a[i]) {
        Symmetric(a[i], b[i]);
      }
    case (Object(o), Object(p)) =>
      forall k | k in o && k in p ensures Eq(o[k], p[k]) <==> Eq(p[k], o[k]) {
        Symmetric(o[k], p[k]);
      }
    case _ =>
  }

  // ---- values without numbers

  predicate NumberFree(x: Json) {
    match x
    case Integer(_) => false
    case Unsigned(_) => false
    case Float(_) => false
    case Array(a) => forall i | 0 <= i < |a| :: NumberFree(a[i])
    case Object(o) => forall k | k in o :: NumberFree(o[k])
    case _ => true
  }

  /** A value without numbers is equal to itself only. */
  lemma {:induction false} Identity(x: Json, y: Json)
    requires NumberFree(x)
    ensures Eq(x, y) <==> x == y
    decreases x
  {
    hide ToDouble;
    match (x, y)
    case (Array(a), Array(b)) =>
      forall i | 0 <= i < |a| && i < |b| ensures Eq(a[i], b[i]) <==> a[i] == b[i] {
        Identity(a[i], b[i]);
      }
      if Eq(x, y) {
        assert a == b;
      }
    case (Object(o), Object(p)) =>
      forall k | k in o && k in p ensures Eq(o[k], p[k]) <==> o[k] == p[k] {
        Identity(o[k], p[k]);
      }
      if Eq(x, y) {
        assert o == p;
      }
    case _ =>
  }

  // ---- numbers

  predicate IsInteger(x: Json) {
    x.Integer? || x.Unsigned?
  }

  predicate IsNumber(x: Json) {
    IsInteger(x) || x.Float?
  }

  function NumberOf(x: Json): int
    requires IsInteger(x)
  {
    if x.Integer? then x.i else x.u
  }

  /** Values of different types are different, where all numbers are of one type. */
  lemma {:induction false} SameType(x: Json, y: Json)
    requires Eq(x, y)
    ensures (x.Null? <==> y.Null?) && (x.Bool? <==> y.Bool?) && (IsNumber(x) <==> IsNumber(y))
    ensures (x.String? <==> y.String?) && (x.Array? <==> y.Array?) && (x.Object? <==> y.Object?)
  {
  }

  /** Integers of both kinds are compared modulo 2^64. */
  lemma {:induction false} Integers(x: Json, y: Json)
    requires IsInteger(x) && IsInteger(y)
    ensures Eq(x, y) <==> NumberOf(x) % TWO_64 == NumberOf(y) % TWO_64
  {
    ModuloWord(NumberOf(x), NumberOf(y));
  }

  lemma {:induction false} ModuloWord(m: int, n: int)
    requires -TWO_63 <= m < TWO_64 && -TWO_63 <= n < TWO_64
    ensures m % TWO_64 == n % TWO_64 <==> m == n || m == n + TWO_64 || n == m + TWO_64
  {
  }

  /** The real number of a finite double. */
  ghost function FloatValue(bits: uint64): real
    requires Finite(bits)
  {
    var v := Value(bits % SIGN_BIT);
    if bits >= SIGN_BIT then -v else v
  }

  lemma {:induction false} MagnitudesDiffer(m: nat, n: nat)
    requires m < INFINITY && n < INFINITY
    ensures Value(m) == Value(n) <==> m == n
    ensures Value(m) >= 0.0 && (Value(m) == 0.0 <==> m == 0)
  {
    assert Value(0) == 0.0;
    if m < n {
      ValueIncreasing(m, n);
    } else if n < m {
      ValueIncreasing(n, m);
    }
    if m > 0 {
      ValueIncreasing(0, m);
    }
    hide Value;
  }

  lemma {:induction false} FiniteFloats(a: uint64, b: uint64)
    requires Finite(a) && Finite(b)
    ensures FloatEq(a, b) <==> FloatValue(a) == FloatValue(b)
  {
    hide Value;
    MagnitudesDiffer(a % SIGN_BIT, b % SIGN_BIT);
    MagnitudesDiffer(b % SIGN_BIT, a % SIGN_BIT);
  }

  /** Floats: NaN equals nothing, an infinity itself only, and finite ones are equal by value. */
  lemma {:induction false} Floats(a: uint64, b: uint64)
    ensures Eq(Float(a), Float(b)) <==>
            if Finite(a) && Finite(b) then FloatValue(a) == FloatValue(b)
            else a == b && a % SIGN_BIT == INFINITY
  {
    if Finite(a) && Finite(b) {
      FiniteFloats(a, b);
    }
  }

  /** There is one nearest double. */
  lemma {:induction false} OneNearest(x: real, m: nat, n: nat)
    requires m < INFINITY && n < INFINITY && Nearest(x, m) && Nearest(x, n)
    ensures m == n
  {
    if m < n {
      NotBothNearest(x, m, n);
    } else if n < m {
      NotBothNearest(x, n, m);
    }
  }

  lemma {:induction false} NotBothNearest(x: real, m: nat, n: nat)
    requires m < n < INFINITY
    ensures !(Nearest(x, m) && Nearest(x, n))
  {
    var between := m + 1;
    hide Value;
    if RealAbs(x - Value(m)) == RealAbs(x - Value(n)) && m % 2 == 0 && n % 2 == 0 {
      ValueIncreasing(m, between);
      ValueIncreasing(between, n);
      Middle(x, Value(m), Value(between), Value(n));
      assert !Nearest(x, m);
    }
  }

  lemma {:induction false} Middle(x: real, a: real, b: real, c: real)
    requires a < b < c && RealAbs(x - a) == RealAbs(x - c)
    ensures RealAbs(x - b) < RealAbs(x - a)
  {
  }

  /** A float and an integer: the float is finite and has the value of the double nearest to the integer. */
  lemma {:induction false} FloatAndInteger(bits: uint64, x: Json, nearest: nat)
    requires IsInteger(x) && nearest < INFINITY && Nearest(Abs(NumberOf(x)) as real, nearest)
    ensures Eq(Float(bits), x) <==>
            Finite(bits) && FloatValue(bits) == if NumberOf(x) < 0 then -Value(nearest) else Value(nearest)
  {
    var n := NumberOf(x);
    var r := ToDouble(n);
    ToDoubleIsNearest(n);
    hide ToDouble, Nearest, Value;
    OneNearest(Abs(n) as real, nearest, r % SIGN_BIT);
    assert Eq(Float(bits), x) <==> FloatEq(bits, r);
    assert FloatValue(r) == if n < 0 then -Value(nearest) else Value(nearest);
    if Finite(bits) {
      FiniteFloats(bits, r);
    }
  }
}
