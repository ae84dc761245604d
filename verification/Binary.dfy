/**
  What the three binary formats share: big-endian numbers, the reader's cursor and the writer's output.
 */
module Binary {
  import opened Arith
  import opened Buffers
  import opened Decimal
  import opened J = Json
  import Doubles

  // ---- big-endian numbers

  /** The low w bytes of n, the highest first. */
  function BigEndian(n: nat, w: nat): (s: bytes)
    ensures |s| == w
    decreases w
  {
    if w == 0 then [] else BigEndian(n / 0x100, w - 1) + [n % 0x100]
  }

  lemma {:induction false} OneByte(b: byte)
    ensures BigEndian(b, 1) == [b]
  {
    assert BigEndian(b / 0x100, 0) + [b % 0x100] == [b];
  }

  function FromBigEndian(s: bytes): nat
    decreases |s|
  {
    if s == [] then 0 else 0x100 * FromBigEndian(s[..|s| - 1]) + s[|s| - 1]
  }

  /** How many numbers w bytes hold. */
  function Capacity(w: nat): (c: nat)
    ensures c > 0
  {
    if w == 0 then 1 else 0x100 * Capacity(w - 1)
  }

  lemma {:induction false} Capacities()
    ensures Capacity(1) == 0x100 && Capacity(2) == 0x10000 && Capacity(4) == TWO_32 && Capacity(8) == TWO_64
  {
    assert Capacity(3) == 0x100_0000;
    assert Capacity(5) == 0x100_0000_0000;
    assert Capacity(7) == 0x100_0000_0000_0000;
  }

  lemma {:induction false} NumberRoundTrip(n: nat, w: nat)
    requires n < Capacity(w)
    ensures FromBigEndian(BigEndian(n, w)) == n
    decreases w
  {
    if w > 0 {
      NumberRoundTrip(n / 0x100, w - 1);
      assert BigEndian(n, w)[..w - 1] == BigEndian(n / 0x100, w - 1);
    }
  }

  /** The i-th byte has weight 256^(w - 1 - i). */
  lemma {:induction false} BigEndianDigits(n: nat, w: nat, i: nat)
    requires i < w
    ensures |BigEndian(n, w)| == w && BigEndian(n, w)[i] == n / Pow(256, w - 1 - i) % 256
    decreases w
  {
    if i < w - 1 {
      BigEndianDigits(n / 256, w - 1, i);
      assert Pow(256, w - 1 - i) == 256 * Pow(256, w - 2 - i);
      hide Pow, BigEndian;
      DivideTwice(n, 256, Pow(256, w - 2 - i));
    }
  }

  lemma {:induction false} DivideTwice(n: nat, a: nat, b: nat)
    requires a > 0 && b > 0
    ensures a * b > 0 && n / a / b == n / (a * b)
  {
    var q, r := n / a, n % a;
    var t, u := q / b, q % b;
    MulMono(1, a, b);
    assert n == (t * b + u) * a + r;
    MulMono(u + 1, b, a);
    assert n == t * (a * b) + (u * a + r);
    DivModUnique(n, a * b, t, u * a + r);
  }

  lemma {:induction false} FromBigEndianBound(s: bytes)
    ensures FromBigEndian(s) < Capacity(|s|)
    decreases |s|
  {
    if s != [] {
      FromBigEndianBound(s[..|s| - 1]);
    }
  }

  /** The lowest byte first, as in the memory of a little-endian machine. */
  function LittleEndian(n: nat, w: nat): (s: bytes)
    ensures |s| == w
    decreases w
  {
    if w == 0 then [] else [n % 0x100] + LittleEndian(n / 0x100, w - 1)
  }

  lemma {:induction false} ReversedLittleEndian(n: nat, w: nat)
    ensures Reversed(LittleEndian(n, w)) == BigEndian(n, w)
    decreases w
  {
    if w > 0 {
      ReversedLittleEndian(n / 0x100, w - 1);
      ReversedCons(n % 0x100, LittleEndian(n / 0x100, w - 1));
    }
  }

  lemma {:induction false} ReversedCons(b: byte, s: bytes)
    ensures Reversed([b] + s) == Reversed(s) + [b]
    decreases |s|
  {
    if s == [] {
      assert [b] + s == [b];
      assert [b][..0] == [];
    } else {
      var t, c := s[..|s| - 1], s[|s| - 1];
      ReversedCons(b, t);
      assert ([b] + s)[..|s|] == [b] + t;
    }
  }

  lemma {:induction false} ByteStored(stored: bytes, s: bytes, i: nat)
    requires i < |s| && Reversed(stored) == s[..i]
    ensures Reversed([s[i]] + stored) == s[..i + 1]
  {
    ReversedCons(s[i], stored);
  }

  lemma {:induction false} NothingReversed(s: bytes)
    requires s == []
    ensures Reversed(s) == []
  {}

  function FromLittleEndian(s: bytes): nat {
    FromBigEndian(Reversed(s))
  }

  /** Two's complement in w bytes. */
  function TwosComplement(x: int, w: nat): int {
    if x < 0 then x + Capacity(w) else x
  }

  function Signed(n: nat, w: nat): int {
    if 2 * n < Capacity(w) then n else n - Capacity(w)
  }

  lemma {:induction false} SignedRoundTrip(x: int, w: nat)
    requires 0 - Capacity(w) <= 2 * x < Capacity(w)
    ensures 0 <= TwosComplement(x, w) < Capacity(w) && Signed(TwosComplement(x, w), w) == x
  {}

  // ---- reading, as functions of the input

  datatype Got<T> = Got(v: T, rest: bytes) | Broken(id: int)

  /** len bytes; the end of the input is an error. */
  function TakeBytes(s: bytes, len: nat): (r: Got<bytes>)
    ensures r.Got? ==> |r.rest| == |s| - len
  {
    if |s| < len then Broken(PARSE_ERROR_110) else Got(s[..len], s[len..])
  }

  function TakeNumber(s: bytes, w: nat): (r: Got<nat>)
    ensures r.Got? ==> |r.rest| == |s| - w && r.v < Capacity(w)
  {
    if |s| < w then Broken(PARSE_ERROR_110)
    else
      FromBigEndianBound(s[..w]);
      Got(FromBigEndian(s[..w]), s[w..])
  }

  lemma {:induction false} TakeWritten(n: nat, w: nat, rest: bytes)
    requires n < Capacity(w)
    ensures TakeNumber(BigEndian(n, w) + rest, w) == Got(n, rest)
  {
    NumberRoundTrip(n, w);
    var s := BigEndian(n, w) + rest;
    assert s[..w] == BigEndian(n, w) && s[w..] == rest;
  }

  lemma {:induction false} RegroupMember(out: bytes, a: bytes, b: bytes, c: bytes)
    ensures out + a + b + c == out + (a + b + c)
  {}

  lemma {:induction false} TakeText(t: bytes, rest: bytes)
    ensures TakeBytes(t + rest, |t|) == Got(t, rest)
  {
    assert (t + rest)[..|t|] == t && (t + rest)[|t|..] == rest;
  }

  // ---- values with the kinds of their integers changed

  /** The kind that a reader gives to an integer: unsigned exactly where the predicate says so. */
  function IntegerOf(n: int, unsigned: int -> bool): Json
    requires -TWO_63 <= n < TWO_64
  {
    if n >= TWO_63 || (n >= 0 && unsigned(n)) then Unsigned(n) else Integer(n)
  }

  function Renumber(v: Json, unsigned: int -> bool): Json {
    match v
    case Integer(i) => IntegerOf(i, unsigned)
    case Unsigned(u) => IntegerOf(u, unsigned)
    case Array(a) => Array(seq(|a|, i requires 0 <= i < |a| => Renumber(a[i], unsigned)))
    case Object(o) => Object(map k | k in o :: Renumber(o[k], unsigned))
    case _ => v
  }

  lemma {:induction false} RenumberIsEqual(v: Json, unsigned: int -> bool)
    ensures Eq(Renumber(v, unsigned), v) <==> NoNaN(v)
  {
    match v
    case Array(a) =>
      forall i | 0 <= i < |a| ensures Eq(Renumber(a[i], unsigned), a[i]) <==> NoNaN(a[i]) {
        RenumberIsEqual(a[i], unsigned);
      }
      EqArrays(Renumber(v, unsigned), v);
    case Object(o) =>
      forall k | k in o ensures Eq(Renumber(o[k], unsigned), o[k]) <==> NoNaN(o[k]) {
        RenumberIsEqual(o[k], unsigned);
      }
      EqObjects(Renumber(v, unsigned), v);
    case _ =>
  }

  /** The elements from i on. */
  function RenumberFrom(a: seq<Json>, i: nat, unsigned: int -> bool): (r: seq<Json>)
    requires i <= |a|
    ensures |r| == |a| - i && forall j | i <= j < |a| :: r[j - i] == Renumber(a[j], unsigned)
    decreases |a| - i
  {
    if i == |a| then [] else [Renumber(a[i], unsigned)] + RenumberFrom(a, i + 1, unsigned)
  }

  lemma {:induction false} RenumberArray(v: Json, unsigned: int -> bool)
    requires v.Array?
    ensures Renumber(v, unsigned) == Array([] + RenumberFrom(v.a, 0, unsigned))
  {
    assert [] + RenumberFrom(v.a, 0, unsigned) == RenumberFrom(v.a, 0, unsigned);
    assert Renumber(v, unsigned).a == RenumberFrom(v.a, 0, unsigned);
  }

  /** The members for the given keys, added to others. */
  function RenumberMembers(o: map<bytes, Json>, keys: seq<bytes>, done: map<bytes, Json>, unsigned: int -> bool): map<bytes, Json>
    requires forall k | k in keys :: k in o
    decreases |keys|
  {
    if keys == [] then done
    else RenumberMembers(o, keys[1..], Emplace(done, keys[0], Renumber(o[keys[0]], unsigned)), unsigned)
  }

  lemma {:induction false} RenumberMembersAt(o: map<bytes, Json>, keys: seq<bytes>, done: map<bytes, Json>, unsigned: int -> bool, k: bytes)
    requires (forall l | l in keys :: l in o) && Distinct(keys) && forall l | l in keys :: l !in done
    ensures var r := RenumberMembers(o, keys, done, unsigned);
            if k in keys then k in r && r[k] == Renumber(o[k], unsigned)
            else (k in r <==> k in done) && (k in r ==> r[k] == done[k])
    decreases |keys|
  {
    hide Renumber;
    if keys != [] {
      assert keys[0] !in keys[1..];
      RenumberMembersAt(o, keys[1..], Emplace(done, keys[0], Renumber(o[keys[0]], unsigned)), unsigned, k);
      assert k in keys <==> k == keys[0] || k in keys[1..];
    }
  }

  lemma {:induction false} RenumberMember(v: Json, unsigned: int -> bool, k: bytes)
    requires v.Object?
    ensures var r := Renumber(v, unsigned);
            r.Object? && (k in r.o <==> k in v.o) && (k in v.o ==> r.o[k] == Renumber(v.o[k], unsigned))
  {}

  lemma {:induction false} RenumberObject(v: Json, unsigned: int -> bool)
    requires v.Object?
    ensures Renumber(v, unsigned) == Object(RenumberMembers(v.o, Sorted(v.o.Keys), map[], unsigned))
  {
    var keys := Sorted(v.o.Keys);
    SortedDistinct(v.o.Keys);
    hide Sorted, RenumberMembers, Renumber;
    var m, r := RenumberMembers(v.o, keys, map[], unsigned), Renumber(v, unsigned);
    RenumberMember(v, unsigned, []);
    forall k ensures (k in m <==> k in r.o) && (k in m ==> m[k] == r.o[k]) {
      RenumberMembersAt(v.o, keys, map[], unsigned, k);
      RenumberMember(v, unsigned, k);
    }
    assert r.o == m;
  }

  /** The kinds that a reader gives which makes every non-negative integer unsigned. */
  function AllUnsigned(n: int): bool {
    true
  }

  /** What such a reader makes of a value. */
  function Unsigneds(v: Json): Json {
    Renumber(v, AllUnsigned)
  }

  lemma {:induction false} EqualUnsigneds(v: Json)
    ensures Eq(Unsigneds(v), v) <==> NoNaN(v)
  {
    hide Eq, NoNaN, Renumber;
    RenumberIsEqual(v, AllUnsigned);
  }

  // ---- reading with more input behind

  /** More input changes the outcome only if the input was too short, and is left over otherwise. */
  predicate Extends<T(==)>(g: Got<T>, h: Got<T>, x: bytes) {
    match g
    case Broken(id) => id == PARSE_ERROR_110 || h == Broken(id)
    case Got(v, rest) => h == Got(v, rest + x)
  }

  lemma {:induction false} TakeExtends(s: bytes, n: nat, x: bytes)
    ensures Extends(TakeNumber(s, n), TakeNumber(s + x, n), x)
    ensures Extends(TakeBytes(s, n), TakeBytes(s + x, n), x)
  {
    hide FromBigEndian;
    if n <= |s| {
      assert (s + x)[..n] == s[..n] && (s + x)[n..] == s[n..] + x;
    }
  }

  lemma {:induction false} TailExtends(s: bytes, x: bytes)
    ensures s != [] ==> (s + x)[0] == s[0] && (s + x)[1..] == s[1..] + x
  {
  }

  // ---- parts of a message

  function Joined(parts: seq<bytes>): bytes {
    if parts == [] then [] else parts[0] + Joined(parts[1..])
  }

  /** The keys of an object in the order of iteration. */
  ghost predicate InKeyOrder(keys: seq<bytes>, o: map<bytes, Json>) {
    && (forall k :: k in keys <==> k in o)
    && (forall i, j | 0 <= i < j < |keys| :: Less(keys[i], keys[j]))
  }

  lemma {:induction false} SortedInKeyOrder(o: map<bytes, Json>)
    ensures InKeyOrder(Sorted(o.Keys), o)
  {
    hide Sorted, Less;
  }

  // ---- short floats

  function ShiftLeft(m: nat, s: nat): nat {
    m * Pow2(s)
  }

  /** The double mant * 2^e, which is exact and normal in the given range. */
  function ExactDouble(mant: nat, e: int): (bits: uint64)
    requires mant < 0x100_0000 && -200 <= e <= 200
    ensures bits < Doubles.INFINITY
  {
    if mant == 0 then 0
    else
      var b := BitLength(mant) - 1;
      ShortFits(mant, b);
      (e + b + 1022) * Doubles.HIDDEN_BIT + ShiftLeft(mant, 52 - b)
  }

  lemma {:induction false} ShortFits(mant: nat, b: nat)
    requires 0 < mant < 0x100_0000 && b == BitLength(mant) - 1
    ensures b < 24 && Doubles.HIDDEN_BIT <= ShiftLeft(mant, 52 - b) < 2 * Doubles.HIDDEN_BIT
  {
    SmallPowers();
    hide Pow;
    BitLengthAtMost(mant, 24);
    hide BitLength;
    assert Pow2(b) <= mant < Pow2(b + 1);
    PowAdd(2, b, 52 - b);
    PowStep(2, b);
    Between(Pow2(b), Pow2(52 - b), mant);
  }

  lemma {:induction false} SmallPowers()
    ensures Pow2(24) == 0x100_0000 && Pow2(52) == Doubles.HIDDEN_BIT
  {
    assert Pow2(8) == 0x100;
    PowAdd(2, 8, 8);
    PowAdd(2, 16, 8);
    PowAdd(2, 24, 24);
    assert Pow2(4) == 0x10;
    PowAdd(2, 48, 4);
    hide Pow;
  }

  lemma {:induction false} Between(p: nat, q: nat, m: nat)
    requires p <= m < 2 * p
    ensures p * q <= m * q && (q > 0 ==> m * q < 2 * (p * q))
  {
    MulMono(p, m, q);
    MulMono(m + 1, 2 * p, q);
  }

  /** The real number m * 2^e. */
  ghost function Scaled(m: nat, e: int): real {
    m as real * R2(e)
  }

  lemma {:induction false} ExactDoubleValue(mant: nat, e: int)
    requires mant < 0x100_0000 && -200 <= e <= 200
    ensures Doubles.Value(ExactDouble(mant, e)) == Scaled(mant, e)
  {
    hide Doubles.Value, ExactDouble, R2, Scaled, Times;
    ScaledTimes(mant, e);
    if mant == 0 {
      ZeroValue(e);
    } else {
      ExactDoubleTimes(mant, e);
    }
  }

  lemma {:induction false} ScaledTimes(m: nat, e: int)
    ensures Scaled(m, e) == Times(m as real, R2(e))
  {}

  lemma {:induction false} ZeroValue(e: int)
    requires -200 <= e <= 200
    ensures Doubles.Value(ExactDouble(0, e)) == Scaled(0, e)
  {
    hide R2;
  }

  lemma {:induction false} ExactDoubleTimes(mant: nat, e: int)
    requires 0 < mant < 0x100_0000 && -200 <= e <= 200
    ensures Doubles.Value(ExactDouble(mant, e)) == Times(mant as real, R2(e))
  {
    hide ShiftLeft, Pow, R2, BitLength, Times, Doubles.Value;
    var b := BitLength(mant) - 1;
    ShortFits(mant, b);
    Doubles.NormalPattern(ExactDouble(mant, e), e + b + 1023, ShiftLeft(mant, 52 - b));
    ScaledReal(mant, 52 - b, e);
    assert e + b + 1023 - Doubles.BIAS == e - (52 - b);
  }

  lemma {:induction false} ScaledReal(m: nat, s: nat, e: int)
    ensures Times(ShiftLeft(m, s) as real, R2(e - s)) == Times(m as real, R2(e))
  {
    R2OfNat(s);
    R2Add(s, e - s);
    hide R2, Pow;
    assert ShiftLeft(m, s) as real == m as real * Pow2(s) as real;
    RMulAssoc(m as real, Pow2(s) as real, R2(e - s));
  }

  /** A single-precision number, from its three parts; a NaN becomes quiet and keeps its payload. */
  function FromSingle(negative: bool, exp: nat, mant: nat): uint64
    requires exp < 0x100 && mant < 0x80_0000
  {
    (if negative then TWO_63 else 0) +
    if exp == 0xFF then
      Doubles.INFINITY + (if mant == 0 then 0 else if mant < 0x40_0000 then mant + 0x40_0000 else mant) * 0x2000_0000
    else if exp == 0 then ExactDouble(mant, -149)
    else ExactDouble(mant + 0x80_0000, exp - 150)
  }

  function SingleToDouble(s: nat): uint64
    requires s < TWO_32
  {
    FromSingle(s >= 0x8000_0000, s / 0x80_0000 % 0x100, s % 0x80_0000)
  }

  /** A finite single-precision number is converted exactly. */
  lemma {:induction false} SingleIsExact(negative: bool, exp: nat, mant: nat)
    requires exp < 0xFF && mant < 0x80_0000
    ensures var r := FromSingle(negative, exp, mant);
            && (r >= TWO_63 <==> negative) && r % TWO_63 < Doubles.INFINITY
            && Doubles.Value(r % TWO_63) == if exp == 0 then Scaled(mant, -149) else Scaled(mant + 0x80_0000, exp - 150)
  {
    hide ExactDouble, Doubles.Value, Scaled;
    if exp == 0 {
      ExactDoubleValue(mant, -149);
      SignedPattern(negative, ExactDouble(mant, -149));
    } else {
      ExactDoubleValue(mant + 0x80_0000, exp - 150);
      SignedPattern(negative, ExactDouble(mant + 0x80_0000, exp - 150));
    }
  }

  /** A double that stands for a shorter float: the same sign, and infinity, a quiet NaN or the same value. */
  ghost predicate Widened(r: uint64, negative: bool, special: bool, mant: nat, value: real) {
    && (r >= TWO_63 <==> negative)
    && (special && mant == 0 ==> r % TWO_63 == Doubles.INFINITY)
    && (special && mant != 0 ==> r % TWO_63 >= Doubles.INFINITY + 0x8_0000_0000_0000)
    && (!special ==> r % TWO_63 < Doubles.INFINITY && Doubles.Value(r % TWO_63) == value)
  }

  /** The double for a single-precision pattern: 1 sign bit, 8 exponent bits, 23 bits of the significand. */
  ghost predicate IsSingle(n: nat, r: uint64) {
    var exp, mant := n / 0x80_0000 % 0x100, n % 0x80_0000;
    Widened(r, n >= 0x8000_0000, exp == 0xFF, mant,
            if exp == 0 then Scaled(mant, -149) else Scaled(mant + 0x80_0000, exp - 150))
  }

  /** The same for half precision: 5 exponent bits and 10 bits of the significand. */
  ghost predicate IsHalf(n: nat, r: uint64) {
    var exp, mant := n / 0x400 % 0x20, n % 0x400;
    Widened(r, n >= 0x8000, exp == 0x1F, mant, if exp == 0 then Scaled(mant, -24) else Scaled(mant + 0x400, exp - 25))
  }

  lemma {:induction false} SingleWidened(n: nat)
    requires n < TWO_32
    ensures IsSingle(n, SingleToDouble(n))
  {
    hide FromSingle, Scaled, Doubles.Value;
    var exp, mant := n / 0x80_0000 % 0x100, n % 0x80_0000;
    if exp != 0xFF {
      SingleIsExact(n >= 0x8000_0000, exp, mant);
    } else {
      SpecialSingle(n >= 0x8000_0000, mant);
    }
  }

  lemma {:induction false} SpecialSingle(negative: bool, mant: nat)
    requires mant < 0x80_0000
    ensures Widened(FromSingle(negative, 0xFF, mant), negative, true, mant, 0.0)
  {
    hide ExactDouble;
  }

  lemma {:induction false} SignedPattern(negative: bool, magnitude: nat)
    requires magnitude < Doubles.INFINITY
    ensures var r := (if negative then TWO_63 else 0) + magnitude;
            r % TWO_63 == magnitude && (r >= TWO_63 <==> negative)
  {}

  // ---- the reader's input and the writer's output

  const EOF := -1

  class Source {
    const input: bytes
    var cursor: nat
    var current: int
    var charsRead: nat

    ghost predicate Valid()
      reads this
    {
      cursor <= |input| && (current == EOF || 0 <= current < 256)
    }

    ghost function Rest(): bytes
      reads this
      requires Valid()
    {
      input[cursor..]
    }

    /** A byte order mark is skipped, in binary input as well. */
    constructor (message: bytes)
      ensures Valid() && Rest() == if [0xEF, 0xBB, 0xBF] <= message then message[3..] else message
    {
      input := message;
      cursor := if |message| >= 3 && message[0] == 0xEF && message[1] == 0xBB && message[2] == 0xBF then 3 else 0;
      current := EOF;
      charsRead := 0;
    }

    method Get()
      requires Valid()
      modifies this
      ensures Valid()
      ensures var s := old(Rest());
              if s == [] then current == EOF && Rest() == [] else current == s[0] && Rest() == s[1..]
      ensures Here() == old(Rest())
    {
      charsRead := charsRead + 1;
      if cursor < |input| {
        current := input[cursor];
        cursor := cursor + 1;
      } else {
        current := EOF;
      }
    }

    /** The input from the byte that was read last. */
    ghost function Here(): bytes
      reads this
      requires Valid()
    {
      if current == EOF then [] else [current] + Rest()
    }

    /** The outcome of a read, for a value and the input behind it. */
    ghost predicate Reached<T>(g: Got<T>, r: Result<T>)
      reads this
      requires Valid()
    {
      match g
      case Broken(id) => r == Err(id)
      case Got(v, rest) => r == Ok(v) && Rest() == rest
    }

    /** Bytes arrive highest first and are stored lowest first, as the machine wants them. */
    method GetNumber(w: nat) returns (r: Result<nat>)
      requires Valid()
      modifies this
      ensures Valid() && Reached(TakeNumber(old(Rest()), w), r)
    {
      ghost var s := Rest();
      var vec := new byte[w](_ => 0);
      hide Reversed, FromBigEndian;
      NothingReversed(vec[w..]);
      for i := 0 to w
        invariant Valid() && i <= |s| && Rest() == s[i..]
        invariant Reversed(vec[w - i..]) == s[..i]
      {
        Get();
        if current == EOF {
          return Err(PARSE_ERROR_110);
        }
        ghost var before := vec[w - i..];
        vec[w - i - 1] := current;
        assert vec[w - (i + 1)..] == [s[i]] + before;
        ByteStored(before, s, i);
      }
      assert vec[w - w..] == vec[..];
      return Ok(FromLittleEndian(vec[..]));
    }

    /** A length of zero or less reads nothing. */
    method GetString(len: int) returns (r: Result<bytes>)
      requires Valid()
      modifies this
      ensures Valid() && Reached(TakeBytes(old(Rest()), if len < 0 then 0 else len), r)
    {
      ghost var s := Rest();
      var result: bytes := [];
      var i := 0;
      while i < len
        invariant Valid() && 0 <= i <= |s| && Rest() == s[i..] && result == s[..i] && (i <= len || (len < 0 && i == 0))
      {
        Get();
        if current == EOF {
          return Err(PARSE_ERROR_110);
        }
        assert s[..i + 1] == s[..i] + [s[i]];
        result := result + [current];
        i := i + 1;
      }
      return Ok(result);
    }
  }

  class Sink {
    var output: bytes

    constructor ()
      ensures output == []
    {
      output := [];
    }

    method WriteCharacter(c: byte)
      modifies this
      ensures output == old(output) + [c]
    {
      output := output + [c];
    }

    method WriteCharacters(s: bytes)
      modifies this
      ensures output == old(output) + s
    {
      output := output + s;
    }

    /** The bytes of a number, lowest first, reversed and written. */
    method WriteNumber(n: nat, w: nat)
      modifies this
      ensures output == old(output) + BigEndian(n, w)
    {
      var vec := new byte[w];
      var m := n;
      for i := 0 to w
        invariant vec[..i] + LittleEndian(m, w - i) == LittleEndian(n, w)
        invariant output == old(output)
      {
        ghost var before := vec[..i];
        vec[i] := m % 0x100;
        assert vec[..i + 1] == before + [m % 0x100];
        m := m / 0x100;
      }
      assert vec[..w] == LittleEndian(n, w);
      ReverseBuffer(vec, w);
      ReversedLittleEndian(n, w);
      output := output + vec[..];
    }
  }
}
