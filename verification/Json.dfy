/**
  JSON values and their equality.  A double is its 64-bit pattern; an object is a map whose keys are
  visited in byte order.
 */
module Json {
  import opened Arith
  import opened Decimal
  import Doubles

  datatype Json =
    | Null
    | Bool(b: bool)
    | Integer(i: int64)
    | Unsigned(u: uint64)
    | Float(bits: uint64)
    | String(s: bytes)
    | Array(a: seq<Json>)
    | Object(o: map<bytes, Json>)

  datatype Option<T> = None | Some(value: T)

  /** A value, or the number of the exception thrown instead. */
  datatype Result<T> = Ok(value: T) | Err(id: int)

  // numbers of the library's exceptions, and of the two standard ones that pass through it
  const PARSE_ERROR_101 := 101
  const PARSE_ERROR_104 := 104
  const PARSE_ERROR_105 := 105
  const PARSE_ERROR_106 := 106
  const PARSE_ERROR_107 := 107
  const PARSE_ERROR_108 := 108
  const PARSE_ERROR_109 := 109
  const PARSE_ERROR_110 := 110
  const PARSE_ERROR_112 := 112
  const PARSE_ERROR_113 := 113
  const TYPE_ERROR_302 := 302
  const TYPE_ERROR_313 := 313
  const TYPE_ERROR_314 := 314
  const TYPE_ERROR_315 := 315
  const OUT_OF_RANGE_401 := 401
  const OUT_OF_RANGE_402 := 402
  const OUT_OF_RANGE_403 := 403
  const OUT_OF_RANGE_404 := 404
  const OUT_OF_RANGE_405 := 405
  const OUT_OF_RANGE_406 := 406
  const OUT_OF_RANGE_408 := 408
  const OTHER_ERROR_501 := 501
  const INVALID_ARGUMENT := -1
  const STD_OUT_OF_RANGE := -2
  const LENGTH_ERROR := -3

  // ---- comparing numbers

  predicate IsNaN(bits: uint64) {
    bits % Doubles.SIGN_BIT > Doubles.INFINITY
  }

  predicate FloatEq(x: uint64, y: uint64) {
    !IsNaN(x) && !IsNaN(y) && (x == y || (x % Doubles.SIGN_BIT == 0 && y % Doubles.SIGN_BIT == 0))
  }

  /** Conversion of a 64-bit unsigned number to a signed one wraps around. */
  function ToSigned(u: uint64): int64 {
    if u < TWO_63 then u else u - TWO_64
  }

  function BitLength(m: nat): (n: nat)
    ensures m > 0 ==> n > 0 && Pow2(n - 1) <= m < Pow2(n)
  {
    if m == 0 then 0 else BitLength(m / 2) + 1
  }

  /** The double nearest to an integer of up to 64 bits, ties to even. */
  function ToDouble(x: int): (bits: uint64)
    requires -TWO_63 <= x < TWO_64
  {
    var m := Abs(x);
    var sign := if x < 0 then Doubles.SIGN_BIT else 0;
    if m == 0 then 0
    else
      var e := BitLength(m) - 1;
      assert e < 64 by {
        hide Pow;
        Pow2Values();
        BitLengthAtMost(m, 64);
      }
      var significand := RoundToPrecision(m, e);
      sign + (e + 1022) * Doubles.HIDDEN_BIT + significand
  }

  /** m scaled to 53 bits, where 2^e <= m < 2^(e+1); a carry gives 2^53. */
  function RoundToPrecision(m: nat, e: nat): (r: nat)
    requires Pow2(e) <= m < Pow2(e + 1)
    ensures r <= 2 * Doubles.HIDDEN_BIT
  {
    if e <= 52 then
      ShiftedFits(m, e);
      Product(m, Pow2(52 - e))
    else
      var p := Pow2(e - 52);
      QuotientFits(m, e);
      var q, r := Quotient(m, p), Remainder(m, p);
      if 2 * r > p || (2 * r == p && q % 2 == 1) then q + 1 else q
  }

  lemma {:induction false} ShiftedFits(m: nat, e: nat)
    requires m < Pow2(e + 1) && e <= 52
    ensures 0 <= Product(m, Pow2(52 - e)) <= 2 * Doubles.HIDDEN_BIT
  {
    PowAdd(2, e + 1, 52 - e);
    Pow2Values();
    PowAdd(2, 53, 10);
    hide Pow;
    MulMono(m, Pow2(e + 1), Pow2(52 - e));
  }

  lemma {:induction false} QuotientFits(m: nat, e: nat)
    requires m < Pow2(e + 1) && e > 52
    ensures 0 <= Quotient(m, Pow2(e - 52)) < 2 * Doubles.HIDDEN_BIT && 0 <= Remainder(m, Pow2(e - 52))
  {
    PowAdd(2, e - 52, 53);
    Pow2Values();
    PowAdd(2, 53, 10);
    hide Pow;
    QuotientBelow(m, Pow2(e - 52), 2 * Doubles.HIDDEN_BIT);
  }

  lemma {:induction false} QuotientBelow(m: nat, p: nat, q: nat)
    requires p > 0 && m < p * q
    ensures Quotient(m, p) < q
  {
    if Quotient(m, p) >= q {
      MulMono(q, Quotient(m, p), p);
    }
  }

  lemma {:induction false} BitLengthAtMost(m: nat, n: nat)
    requires 0 < m < Pow2(n)
    ensures BitLength(m) <= n
  {
    if BitLength(m) > n {
      PowMonotone(2, n, BitLength(m) - 1);
    }
  }

  lemma {:induction false} ZeroIsNearest()
    ensures Doubles.Value(0) == 0.0 && Doubles.Nearest(0.0, 0)
  {
    assert Doubles.Value(0) == 0.0;
    forall other: nat | 0 < other <= Doubles.INFINITY ensures Doubles.Value(other) > 0.0 {
      Doubles.ValueIncreasing(0, other);
    }
    hide Doubles.Value;
  }

  /** The doubles with exponent e, from the integer q units of 2^(e - 52) on. */
  lemma {:induction false} NearestInBinade(x: real, q: nat, e: nat, up: bool)
    requires Doubles.HIDDEN_BIT <= q < 2 * Doubles.HIDDEN_BIT && e < 64
    requires var u := R2(e - 52);
             var below, above := x - Times(q as real, u), Times(q as real, u) + u - x;
             && below >= 0.0 && above > 0.0
             && if up then above < below || (above == below && q % 2 == 1)
                else below < above || (above == below && q % 2 == 0)
    ensures var bits := (e + 1022) * Doubles.HIDDEN_BIT + q;
            && bits < Doubles.INFINITY - 1 && Doubles.Value(bits) == Times(q as real, R2(e - 52))
            && Doubles.Nearest(x, if up then bits + 1 else bits)
  {
    var bits := (e + 1022) * Doubles.HIDDEN_BIT + q;
    hide R2, Times, Doubles.Value, Doubles.Nearest;
    Doubles.NormalPattern(bits, e + 1023, q);
    assert bits % 2 == q % 2;
    Doubles.NearestOfTwo(x, bits, up);
  }

  /** Up to 53 bits: a shift, which is exact. */
  lemma {:induction false} ShiftedIsNearest(m: nat, e: nat)
    requires Pow2(e) <= m < Pow2(e + 1) && e <= 52
    ensures var bits := (e + 1022) * Doubles.HIDDEN_BIT + RoundToPrecision(m, e);
            bits < Doubles.INFINITY && Doubles.Value(bits) == m as real && Doubles.Nearest(m as real, bits)
  {
    hide Pow, R2, Product, Times, Doubles.Value, Doubles.Nearest;
    ShiftedNormal(m, e);
    ShiftedExact(m, e);
    NearestInBinade(m as real, Product(m, Pow2(52 - e)), e, false);
  }

  lemma {:induction false} ShiftedExact(m: nat, e: nat)
    requires e <= 52
    ensures Times(Product(m, Pow2(52 - e)) as real, R2(e - 52)) == m as real && R2(e - 52) > 0.0
  {
    R2OfNat(52 - e);
    R2Add(52 - e, e - 52);
    assert R2(0) == 1.0;
    var p := Pow2(52 - e);
    hide Pow, R2;
    assert Product(m, p) as real == m as real * p as real;
    RMulAssoc(m as real, p as real, R2(e - 52));
  }

  lemma {:induction false} ShiftedNormal(m: nat, e: nat)
    requires Pow2(e) <= m < Pow2(e + 1) && e <= 52
    ensures Doubles.HIDDEN_BIT <= Product(m, Pow2(52 - e)) < 2 * Doubles.HIDDEN_BIT
  {
    PowAdd(2, e + 1, 52 - e);
    PowAdd(2, e, 52 - e);
    HiddenBits();
    hide Pow;
    ShiftBounds(m, Pow2(e), Pow2(e + 1), Pow2(52 - e));
  }

  lemma {:induction false} HiddenBits()
    ensures Pow2(52) == Doubles.HIDDEN_BIT && Pow2(53) == 2 * Doubles.HIDDEN_BIT
  {
    Pow2Values();
    PowAdd(2, 53, 10);
    PowStep(2, 52);
    hide Pow;
  }

  lemma {:induction false} ShiftBounds(m: int, a: int, b: int, s: int)
    requires a <= m < b && s > 0
    ensures a * s <= Product(m, s) < b * s
  {
    MulMono(a, m, s);
    MulMono(m + 1, b, s);
  }

  lemma {:induction false} QuotientNormal(m: nat, e: nat)
    requires Pow2(e) <= m < Pow2(e + 1) && e > 52
    ensures Doubles.HIDDEN_BIT <= Quotient(m, Pow2(e - 52)) < 2 * Doubles.HIDDEN_BIT
  {
    QuotientFits(m, e);
    PowAdd(2, e - 52, 52);
    HiddenBits();
    hide Pow;
    QuotientAtLeast(m, Pow2(e - 52), Doubles.HIDDEN_BIT);
  }

  lemma {:induction false} QuotientAtLeast(m: nat, p: nat, q: nat)
    requires p > 0 && p * q <= m
    ensures q <= Quotient(m, p)
  {
    if Quotient(m, p) < q {
      MulMono(Quotient(m, p) + 1, q, p);
    }
  }

  /** Beyond: the doubles around are the quotient and the next significand. */
  lemma {:induction false} QuotientIsNearest(m: nat, e: nat)
    requires Pow2(e) <= m < Pow2(e + 1) && 52 < e < 64
    ensures var bits := (e + 1022) * Doubles.HIDDEN_BIT + RoundToPrecision(m, e);
            bits < Doubles.INFINITY && Doubles.Nearest(m as real, bits)
  {
    var p := Pow2(e - 52);
    var q, r := Quotient(m, p), Remainder(m, p);
    hide Pow, R2, Product, Quotient, Remainder, Times, Doubles.Value, Doubles.Nearest;
    QuotientNormal(m, e);
    QuotientRemainder(m, p);
    R2OfNat(e - 52);
    RealProduct(q, p);
    NearestInBinade(m as real, q, e, 2 * r > p || (2 * r == p && q % 2 == 1));
  }

  lemma {:induction false} RealProduct(q: int, p: int)
    ensures Times(q as real, p as real) == Product(q, p) as real
  {
  }

  lemma {:induction false} RoundedIsNearest(m: nat, e: nat)
    requires Pow2(e) <= m < Pow2(e + 1) && e < 64
    ensures var bits := (e + 1022) * Doubles.HIDDEN_BIT + RoundToPrecision(m, e);
            && bits < Doubles.INFINITY && Doubles.Nearest(m as real, bits)
            && (m < 2 * Doubles.HIDDEN_BIT ==> Doubles.Value(bits) == m as real)
  {
    hide Pow, RoundToPrecision, Doubles.Value, Doubles.Nearest;
    if e <= 52 {
      ShiftedIsNearest(m, e);
    } else {
      QuotientIsNearest(m, e);
      HiddenBits();
      PowMonotone(2, 53, e);
    }
  }

  /** The conversion is the nearest double, ties to even; integers of up to 53 bits are converted exactly. */
  lemma {:induction false} ToDoubleIsNearest(x: int)
    requires -TWO_63 <= x < TWO_64
    ensures var r := ToDouble(x);
            && (r >= Doubles.SIGN_BIT <==> x < 0) && r % Doubles.SIGN_BIT < Doubles.INFINITY
            && Doubles.Nearest(Abs(x) as real, r % Doubles.SIGN_BIT)
            && (Abs(x) < 2 * Doubles.HIDDEN_BIT ==> Doubles.Value(r % Doubles.SIGN_BIT) == Abs(x) as real)
  {
    hide RoundToPrecision, BitLength, Pow, Doubles.Value, Doubles.Nearest;
    var m := Abs(x);
    if m == 0 {
      ZeroIsNearest();
    } else {
      Pow2Values();
      BitLengthAtMost(m, 64);
      RoundedIsNearest(m, BitLength(m) - 1);
    }
  }

  // ---- operator==

  /** Equality of values; the two integer kinds and floats are compared across kinds. */
  predicate Eq(x: Json, y: Json) {
    match (x, y)
    case (Null, Null) => true
    case (Bool(a), Bool(b)) => a == b
    case (Integer(a), Integer(b)) => a == b
    case (Unsigned(a), Unsigned(b)) => a == b
    case (Float(a), Float(b)) => FloatEq(a, b)
    case (String(a), String(b)) => a == b
    case (Array(a), Array(b)) => |a| == |b| && forall i | 0 <= i < |a| :: Eq(a[i], b[i])
    case (Object(a), Object(b)) => a.Keys == b.Keys && forall k | k in a :: Eq(a[k], b[k])
    case (Integer(a), Float(b)) => FloatEq(ToDouble(a), b)
    case (Float(a), Integer(b)) => FloatEq(a, ToDouble(b))
    case (Unsigned(a), Float(b)) => FloatEq(ToDouble(a), b)
    case (Float(a), Unsigned(b)) => FloatEq(a, ToDouble(b))
    case (Unsigned(a), Integer(b)) => ToSigned(a) == b
    case (Integer(a), Unsigned(b)) => a == ToSigned(b)
    case _ => false
  }

  /** No NaN anywhere inside. */
  predicate NoNaN(x: Json) {
    match x
    case Float(bits) => !IsNaN(bits)
    case Array(a) => forall i | 0 <= i < |a| :: NoNaN(a[i])
    case Object(o) => forall k | k in o :: NoNaN(o[k])
    case _ => true
  }

  lemma {:induction false} EqReflexive(x: Json)
    requires NoNaN(x)
    ensures Eq(x, x)
  {
    match x
    case Array(a) =>
      forall i | 0 <= i < |a| ensures Eq(a[i], a[i]) {
        EqReflexive(a[i]);
      }
    case Object(o) =>
      forall k | k in o ensures Eq(o[k], o[k]) {
        EqReflexive(o[k]);
      }
    case _ =>
  }

  /** A NaN is equal to nothing, wherever it sits. */
  lemma {:induction false} EqNoNaN(x: Json, y: Json)
    requires Eq(x, y)
    ensures NoNaN(y)
  {
    match (x, y)
    case (Array(a), Array(b)) =>
      forall i | 0 <= i < |b| ensures NoNaN(b[i]) {
        EqNoNaN(a[i], b[i]);
      }
    case (Object(a), Object(b)) =>
      forall k | k in b ensures NoNaN(b[k]) {
        EqNoNaN(a[k], b[k]);
      }
    case _ =>
  }

  lemma {:induction false} EqArrays(x: Json, y: Json)
    requires x.Array? && y.Array?
    ensures Eq(x, y) <==> |x.a| == |y.a| && forall i | 0 <= i < |x.a| :: Eq(x.a[i], y.a[i])
  {}

  lemma {:induction false} EqObjects(x: Json, y: Json)
    requires x.Object? && y.Object?
    ensures Eq(x, y) <==> x.o.Keys == y.o.Keys && forall k | k in x.o :: Eq(x.o[k], y.o[k])
  {}

  // ---- byte order and the iteration order of objects

  predicate Less(a: bytes, b: bytes) {
    if b == [] then false
    else if a == [] then true
    else a[0] < b[0] || (a[0] == b[0] && Less(a[1..], b[1..]))
  }

  lemma {:induction false} LessTotal(a: bytes, b: bytes)
    ensures a == b || Less(a, b) || Less(b, a)
    ensures !(Less(a, b) && Less(b, a)) && !Less(a, a)
    decreases |a|
  {
    if a != [] && b != [] {
      LessTotal(a[1..], b[1..]);
      if a[0] == b[0] && a[1..] == b[1..] {
        assert a == [a[0]] + a[1..] == b;
      }
    }
    if a != [] {
      LessTotal(a[1..], a[1..]);
    }
  }

  lemma {:induction false} LessTransitive(a: bytes, b: bytes, c: bytes)
    requires Less(a, b) && Less(b, c)
    ensures Less(a, c)
    decreases |a|
  {
    if a != [] && a[0] == b[0] == c[0] {
      LessTransitive(a[1..], b[1..], c[1..]);
    }
  }

  /** The texts agree up to a position where the first one ends or has the smaller byte. */
  ghost predicate Before(a: bytes, b: bytes) {
    exists n: nat :: BeforeAt(a, b, n)
  }

  predicate BeforeAt(a: bytes, b: bytes, n: nat) {
    n <= |a| && n < |b| && a[..n] == b[..n] && (n < |a| ==> a[n] < b[n])
  }

  lemma {:induction false} LessExactly(a: bytes, b: bytes)
    ensures Less(a, b) <==> Before(a, b)
    decreases |a|
  {
    if b == [] {
      assert !Before(a, b);
    } else if a == [] || a[0] != b[0] {
      assert BeforeAt(a, b, 0) <==> (a == [] || a[0] < b[0]);
      forall n: nat | n > 0 ensures !BeforeAt(a, b, n) {
        FirstDiffers(a, b, n);
      }
    } else {
      LessExactly(a[1..], b[1..]);
      forall n: nat ensures BeforeAt(a, b, n + 1) <==> BeforeAt(a[1..], b[1..], n) {
        OneByteMore(a, b, n);
      }
      forall n: nat | BeforeAt(a, b, n) ensures n > 0 && BeforeAt(a[1..], b[1..], n - 1) {
        assert n > 0 ==> BeforeAt(a, b, n - 1 + 1);
      }
    }
  }

  lemma {:induction false} FirstDiffers(a: bytes, b: bytes, n: nat)
    requires b != [] && (a == [] || a[0] != b[0]) && n > 0
    ensures !BeforeAt(a, b, n)
  {
    if n <= |a| && n < |b| {
      assert a[..n][0] != b[..n][0];
    }
  }

  lemma {:induction false} OneByteMore(a: bytes, b: bytes, n: nat)
    requires a != [] && b != [] && a[0] == b[0]
    ensures BeforeAt(a, b, n + 1) <==> BeforeAt(a[1..], b[1..], n)
  {
    if n < |a| && n < |b| {
      assert a[..n + 1] == [a[0]] + a[1..][..n] && b[..n + 1] == [b[0]] + b[1..][..n];
      assert a[..n + 1][1..] == a[1..][..n] && b[..n + 1][1..] == b[1..][..n];
    }
  }

  /** A common prefix does not matter. */
  lemma {:induction false} LessPrefix(p: bytes, a: bytes, b: bytes)
    ensures Less(p + a, p + b) == Less(a, b)
    decreases |p|
  {
    if p == [] {
      assert p + a == a && p + b == b;
    } else {
      assert (p + a)[1..] == p[1..] + a && (p + b)[1..] == p[1..] + b;
      LessPrefix(p[1..], a, b);
    }
  }

  predicate Least(k: bytes, keys: set<bytes>) {
    k in keys && forall l | l in keys :: l == k || Less(k, l)
  }

  lemma {:induction false} LeastExists(keys: set<bytes>)
    requires keys != {}
    ensures exists k :: Least(k, keys)
  {
    var l :| l in keys;
    if keys == {l} {
      assert Least(l, keys);
    } else {
      LeastExists(keys - {l});
      var k :| Least(k, keys - {l});
      LessTotal(k, l);
      if Less(k, l) {
        assert Least(k, keys);
      } else {
        forall m | m in keys ensures m == l || Less(l, m) {
          if m != l && m != k {
            LessTransitive(l, k, m);
          }
        }
        assert Least(l, keys);
      }
    }
  }

  function First(keys: set<bytes>): (k: bytes)
    requires keys != {}
    ensures Least(k, keys)
  {
    LeastExists(keys);
    assert forall k, l | Least(k, keys) && Least(l, keys) :: k == l by {
      forall k, l | Least(k, keys) && Least(l, keys) ensures k == l {
        LessTotal(k, l);
      }
    }
    var k :| Least(k, keys);
    k
  }

  /** The keys in byte order, each once. */
  function Sorted(keys: set<bytes>): (r: seq<bytes>)
    ensures |r| == |keys| && forall k: bytes :: k in r <==> k in keys
    ensures forall i, j | 0 <= i < j < |r| :: Less(r[i], r[j])
  {
    if keys == {} then []
    else
      var k := First(keys);
      var rest := Sorted(keys - {k});
      ConsSorted(k, rest, keys);
      [k] + rest
  }

  lemma {:induction false} ConsSorted(k: bytes, rest: seq<bytes>, keys: set<bytes>)
    requires Least(k, keys) && |rest| == |keys - {k}| && forall x: bytes :: x in rest <==> x in keys - {k}
    requires forall i, j | 0 <= i < j < |rest| :: Less(rest[i], rest[j])
    ensures var r := [k] + rest;
            && |r| == |keys| && (forall x: bytes :: x in r <==> x in keys)
            && forall i, j | 0 <= i < j < |r| :: Less(r[i], r[j])
  {
    hide Less;
    var r := [k] + rest;
    forall i, j | 0 <= i < j < |r| ensures Less(r[i], r[j]) {
      assert r[j] == rest[j - 1] && rest[j - 1] in rest;
      if i > 0 {
        assert r[i] == rest[i - 1];
      }
    }
  }

  predicate Distinct(keys: seq<bytes>) {
    forall i, j | 0 <= i < j < |keys| :: keys[i] != keys[j]
  }

  lemma {:induction false} SortedDistinct(keys: set<bytes>)
    ensures Distinct(Sorted(keys))
  {
    var r := Sorted(keys);
    forall i, j | 0 <= i < j < |r| ensures r[i] != r[j] {
      LessTotal(r[i], r[j]);
    }
  }

  /** Inserting into an object does not replace a member that is there already. */
  function Emplace(o: map<bytes, Json>, k: bytes, v: Json): map<bytes, Json> {
    if k in o then o else o[k := v]
  }

  // ---- members with keys that may occur again

  datatype Entry = Entry(k: bytes, v: Json)

  /** Of several members with one key the first one counts, */
  function FirstWins(members: seq<Entry>): map<bytes, Json> {
    if members == [] then map[] else FirstWins(members[1..]) + map[members[0].k := members[0].v]
  }

  /** or the last one. */
  function LastWins(members: seq<Entry>): map<bytes, Json> {
    if members == [] then map[] else map[members[0].k := members[0].v] + LastWins(members[1..])
  }

  lemma {:induction false} FirstWinsStep(members: seq<Entry>, done: map<bytes, Json>)
    requires members != []
    ensures var m := members[0];
            FirstWins(members) + done == FirstWins(members[1..]) + Emplace(done, m.k, m.v)
  {
  }

  lemma {:induction false} LastWinsStep(members: seq<Entry>, done: map<bytes, Json>)
    requires members != []
    ensures var m := members[0];
            done + LastWins(members) == done[m.k := m.v] + LastWins(members[1..])
  {
  }

  lemma {:induction false} NoneWins(done: map<bytes, Json>)
    ensures FirstWins([]) + done == done && done + LastWins([]) == done
  {
  }
}
