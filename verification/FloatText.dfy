/**
  Printing a double: the digits that Grisu2 leaves in the buffer are laid out in place in one of five ways,
  and the text denotes exactly digits * 10^exponent and is one float token of the lexer.
 */
module FloatText {
  import opened Arith
  import opened Decimal
  import opened NumberToken
  import opened Doubles
  import opened Grisu
  import opened GrisuDouble

  // ---- the five layouts

  function Zeros(n: nat): (z: bytes)
    ensures |z| == n && AllDigits(z)
  {
    seq(n, _ => DIGIT_0)
  }

  /** At least two digits, as printf writes them. */
  function ExponentDigits(k: nat): (s: bytes)
    requires k < 1000
    ensures AllDigits(s) && 2 <= |s| <= 3
  {
    if k < 100 then [DIGIT_0 + k / 10, DIGIT_0 + k % 10]
    else [DIGIT_0 + k / 100, DIGIT_0 + k % 100 / 10, DIGIT_0 + k % 10]
  }

  function ExponentSuffix(e: int): bytes
    requires -1000 < e < 1000
  {
    [EXP_LOWER, if e < 0 then MINUS else PLUS] + ExponentDigits(Abs(e))
  }

  /** The mantissa of the scientific form. */
  function Scientific(digits: bytes): bytes
    requires digits != []
  {
    if |digits| == 1 then digits else digits[..1] + [POINT] + digits[1..]
  }

  function Layout(digits: bytes, exponent: int, minExp: int, maxExp: int): bytes
    requires digits != [] && minExp < 0 < maxExp
    requires -1000 < |digits| + exponent - 1 < 1000
  {
    var k := |digits|;
    var n := k + exponent;
    if k <= n <= maxExp then digits + Zeros(n - k) + [POINT, DIGIT_0]
    else if 0 < n <= maxExp then digits[..n] + [POINT] + digits[n..]
    else if minExp < n <= 0 then [DIGIT_0, POINT] + Zeros(-n) + digits
    else Scientific(digits) + ExponentSuffix(n - 1)
  }

  // ---- laying out in place

  lemma {:induction false} SameBytes(buf: array<byte>, first: nat, end: nat, text: bytes)
    requires first <= end <= buf.Length && |text| == end - first
    requires forall j | first <= j < end :: buf[j] == text[j - first]
    ensures buf[first..end] == text
  {}

  method MemSet(buf: array<byte>, dst: nat, c: byte, n: nat)
    requires dst + n <= buf.Length
    modifies buf
    ensures forall j | 0 <= j < buf.Length :: buf[j] == if dst <= j < dst + n then c else old(buf[j])
  {
    forall j | dst <= j < dst + n {
      buf[j] := c;
    }
  }

  method MemMove(buf: array<byte>, dst: nat, src: nat, n: nat)
    requires dst + n <= buf.Length && src + n <= buf.Length
    modifies buf
    ensures forall j | 0 <= j < buf.Length :: buf[j] == if dst <= j < dst + n then old(buf[src + j - dst]) else old(buf[j])
  {
    forall j | dst <= j < dst + n {
      buf[j] := buf[src + j - dst];
    }
  }

  method AppendExponent(buf: array<byte>, at: nat, e0: int) returns (end: nat)
    requires -1000 < e0 < 1000 && at + 4 <= buf.Length
    modifies buf
    ensures at <= end <= buf.Length && end <= at + 4
    ensures [EXP_LOWER] + buf[at..end] == ExponentSuffix(e0)
    ensures forall j | 0 <= j < at :: buf[j] == old(buf[j])
  {
    var e := e0;
    if e < 0 {
      e := -e;
      buf[at] := MINUS;
    } else {
      buf[at] := PLUS;
    }
    var sign := buf[at];
    end := AppendExponentDigits(buf, at + 1, e);
    assert buf[at..end] == [sign] + buf[at + 1..end];
  }

  lemma {:induction false} ExponentDigitsAre(e: nat)
    requires e < 1000
    ensures e < 10 ==> ExponentDigits(e) == [DIGIT_0, DIGIT_0 + e]
    ensures 10 <= e < 100 ==> ExponentDigits(e) == [DIGIT_0 + e / 10, DIGIT_0 + e % 10]
    ensures 100 <= e ==> ExponentDigits(e) == [DIGIT_0 + e / 100, DIGIT_0 + e % 100 / 10, DIGIT_0 + e % 100 % 10]
  {
    assert e % 100 % 10 == e % 10;
  }

  method AppendExponentDigits(buf: array<byte>, at: nat, e: nat) returns (end: nat)
    requires e < 1000 && at + 3 <= buf.Length
    modifies buf
    ensures at <= end <= buf.Length && end <= at + 3
    ensures buf[at..end] == ExponentDigits(e)
    ensures forall j | 0 <= j < at :: buf[j] == old(buf[j])
  {
    var k := e;
    hide ExponentDigits;
    ExponentDigitsAre(e);
    if k < 10 {
      buf[at] := DIGIT_0;
      buf[at + 1] := DIGIT_0 + k;
      end := at + 2;
      assert buf[at..end] == [DIGIT_0, DIGIT_0 + e];
    } else if k < 100 {
      buf[at] := DIGIT_0 + k / 10;
      k := k % 10;
      buf[at + 1] := DIGIT_0 + k;
      end := at + 2;
      assert buf[at..end] == [DIGIT_0 + e / 10, DIGIT_0 + e % 10];
    } else {
      buf[at] := DIGIT_0 + k / 100;
      k := k % 100;
      buf[at + 1] := DIGIT_0 + k / 10;
      k := k % 10;
      buf[at + 2] := DIGIT_0 + k;
      end := at + 3;
      assert buf[at..end] == [DIGIT_0 + e / 100, DIGIT_0 + e % 100 / 10, DIGIT_0 + e % 100 % 10];
    }
  }

  /** An integer: zeros up to the point, and one behind it. */
  method PadInteger(buf: array<byte>, first: nat, k: nat, n: nat) returns (end: nat)
    requires k <= n && first + n + 2 <= buf.Length
    modifies buf
    ensures end == first + n + 2
    ensures buf[first..end] == old(buf[first..first + k]) + Zeros(n - k) + [POINT, DIGIT_0]
    ensures forall j | 0 <= j < first :: buf[j] == old(buf[j])
  {
    ghost var digits := buf[first..first + k];
    MemSet(buf, first + k, DIGIT_0, n - k);
    buf[first + n] := POINT;
    buf[first + n + 1] := DIGIT_0;
    end := first + n + 2;
    SameBytes(buf, first, end, digits + Zeros(n - k) + [POINT, DIGIT_0]);
  }

  /** The point goes between two of the digits. */
  method InsertPoint(buf: array<byte>, first: nat, k: nat, n: nat) returns (end: nat)
    requires 0 < n <= k && first + k + 1 <= buf.Length
    modifies buf
    ensures end == first + k + 1
    ensures buf[first..end] == old(buf[first..first + n]) + [POINT] + old(buf[first + n..first + k])
    ensures forall j | 0 <= j < first :: buf[j] == old(buf[j])
  {
    ghost var head, tail := buf[first..first + n], buf[first + n..first + k];
    MemMove(buf, first + n + 1, first + n, k - n);
    buf[first + n] := POINT;
    end := first + k + 1;
    ghost var text := head + [POINT] + tail;
    forall j | first <= j < end ensures buf[j] == text[j - first] {
      if j < first + n {
        assert text[j - first] == head[j - first];
      } else if j > first + n {
        assert text[j - first] == tail[j - first - n - 1];
      }
    }
    SameBytes(buf, first, end, text);
  }

  lemma {:induction false} FractionText(before: bytes, after: bytes, first: nat, k: nat, z: nat)
    requires first + 2 + z + k <= |before| == |after|
    requires after[first] == DIGIT_0 && after[first + 1] == POINT
    requires forall j | first + 2 <= j < first + 2 + z :: after[j] == DIGIT_0
    requires forall j | first + 2 + z <= j < first + 2 + z + k :: after[j] == before[first + (j - (first + 2 + z))]
    ensures after[first..first + 2 + z + k] == [DIGIT_0, POINT] + Zeros(z) + before[first..first + k]
  {
  }

  /** A fraction: "0." and zeros go in front of the digits. */
  method PadFraction(buf: array<byte>, first: nat, k: nat, z: nat) returns (end: nat)
    requires first + 2 + z + k <= buf.Length
    modifies buf
    ensures end == first + 2 + z + k
    ensures buf[first..end] == [DIGIT_0, POINT] + Zeros(z) + old(buf[first..first + k])
    ensures forall j | 0 <= j < first :: buf[j] == old(buf[j])
  {
    ghost var before := buf[..];
    MemMove(buf, first + 2 + z, first, k);
    buf[first] := DIGIT_0;
    buf[first + 1] := POINT;
    MemSet(buf, first + 2, DIGIT_0, z);
    end := first + 2 + z + k;
    FractionText(before, buf[..], first, k, z);
    assert buf[..][first..end] == buf[first..end] && before[first..first + k] == old(buf[first..first + k]);
  }

  /** The point goes behind the first digit, and the exponent behind the last one. */
  method Exponential(buf: array<byte>, first: nat, k: nat, e: int) returns (end: nat)
    requires 0 < k && -1000 < e < 1000 && first + k + 6 <= buf.Length
    modifies buf
    ensures first <= end <= buf.Length
    ensures buf[first..end] == Scientific(old(buf[first..first + k])) + ExponentSuffix(e)
    ensures forall j | 0 <= j < first :: buf[j] == old(buf[j])
  {
    ghost var digits := buf[first..first + k];
    var at := first + 1;
    if k != 1 {
      assert digits[..1] == buf[first..first + 1] && digits[1..] == buf[first + 1..first + k];
      at := InsertPoint(buf, first, k, 1);
    }
    ghost var head := buf[first..at];
    assert head == Scientific(digits);
    hide Scientific, ExponentSuffix;
    buf[at] := EXP_LOWER;
    end := AppendExponent(buf, at + 1, e);
    assert buf[first..at] == head;
    assert buf[first..end] == head + ([EXP_LOWER] + buf[at + 1..end]);
  }

  /** Turns buf[first..first + len] into the layout of these digits; nothing before it changes. */
  method FormatBuffer(buf: array<byte>, first: nat, len: nat, decimalExponent: int, minExp: int, maxExp: int)
    returns (end: nat)
    requires minExp < 0 < maxExp && 1 <= len
    requires -1000 < len + decimalExponent - 1 < 1000
    requires first + len + 6 <= buf.Length && first + maxExp + 2 <= buf.Length && first + 1 - minExp + len <= buf.Length
    modifies buf
    ensures first <= end <= buf.Length
    ensures buf[first..end] == Layout(old(buf[first..first + len]), decimalExponent, minExp, maxExp)
    ensures forall j | 0 <= j < first :: buf[j] == old(buf[j])
  {
    hide Scientific, ExponentSuffix, Zeros;
    ghost var digits := buf[first..first + len];
    var k := len;
    var n := len + decimalExponent;
    if k <= n <= maxExp {
      end := PadInteger(buf, first, k, n);
      return;
    }
    if 0 < n <= maxExp {
      assert digits[..n] == buf[first..first + n] && digits[n..] == buf[first + n..first + k];
      end := InsertPoint(buf, first, k, n);
      return;
    }
    if minExp < n <= 0 {
      end := PadFraction(buf, first, k, -n);
      return;
    }
    end := Exponential(buf, first, k, n - 1);
  }

  // ---- what a layout denotes

  lemma {:induction false} ZerosValue(n: nat, digits: bytes)
    requires AllDigits(digits)
    ensures AllDigits(Zeros(n) + digits) && DigitsValue(Zeros(n) + digits) == DigitsValue(digits)
    ensures AllDigits(digits + Zeros(n)) && DigitsValue(digits + Zeros(n)) == DigitsValue(digits) * Pow10(n)
  {
    ZerosAreZero(n);
    DigitsConcat(Zeros(n), digits);
    DigitsConcat(digits, Zeros(n));
    hide DigitsValue, Pow, Zeros;
  }

  lemma {:induction false} ZerosAreZero(n: nat)
    ensures DigitsValue(Zeros(n)) == 0
  {
    if n > 0 {
      ZerosAreZero(n - 1);
      assert Zeros(n)[..n - 1] == Zeros(n - 1);
    }
  }

  /** The digits before and after the point, and the exponent (none when it is 0 and not written). */
  ghost predicate WrittenAs(text: bytes, ip: bytes, fp: bytes, e: int) {
    && AllDigits(ip) && ip != [] && (ip[0] != DIGIT_0 || |ip| == 1)
    && AllDigits(fp)
    && -1000 < e < 1000
    && (|| (fp != [] && e == 0 && text == ip + [POINT] + fp)
        || (fp != [] && text == ip + [POINT] + fp + ExponentSuffix(e))
        || (fp == [] && text == ip + ExponentSuffix(e)))
  }

  ghost predicate AfterPoint(r: Reading, ip: bytes, fp: bytes)
    requires AllDigits(ip) && AllDigits(fp)
  {
    && r == Reading(r.phase, false, DigitsValue(ip + fp), |fp|, false, 0)
    && (r.phase.IntegerPart? || r.phase.FractionPart?)
    && (fp == [] ==> r.phase.IntegerPart?)
  }

  lemma {:induction false} ReadMantissa(ip: bytes, fp: bytes)
    requires AllDigits(ip) && AllDigits(fp)
    ensures AllDigits(ip + fp)
    ensures AfterPoint(Read(NOTHING_READ, ip), ip, [])
    ensures fp != [] ==> AfterPoint(Read(NOTHING_READ, ip + [POINT] + fp), ip, fp)
  {
    ReadDigits(NOTHING_READ, ip);
    assert ip + [] == ip;
    var r := Read(NOTHING_READ, ip);
    ReadConcat(NOTHING_READ, ip, [POINT]);
    ReadConcat(NOTHING_READ, ip + [POINT], fp);
    assert Read(r, [POINT]) == ReadByte(r, POINT);
    ReadDigits(r.(phase := FractionPart), fp);
    DigitsConcat(ip, fp);
  }

  lemma {:induction false} ReadExponent(r: Reading, e: int)
    requires -1000 < e < 1000 && r.exp == 0 && !r.negativeExp && !r.phase.ExponentPart?
    ensures Read(r, ExponentSuffix(e)) == r.(phase := ExponentPart, negativeExp := e < 0, exp := Abs(e))
  {
    var digits := ExponentDigits(Abs(e));
    var sign := if e < 0 then MINUS else PLUS;
    var r1 := ReadByte(r, EXP_LOWER);
    var r2 := ReadByte(r1, sign);
    assert Read(r, [EXP_LOWER, sign]) == r2 by {
      assert [EXP_LOWER, sign][1..] == [sign];
      assert Read(r1, [sign]) == r2;
    }
    ReadConcat(r, [EXP_LOWER, sign], digits);
    ReadDigits(r2, digits);
    ExponentDigitsValue(Abs(e));
  }

  lemma {:induction false} ExponentDigitsValue(k: nat)
    requires k < 1000
    ensures DigitsValue(ExponentDigits(k)) == k
  {
    if k < 100 {
      TwoDigits(DIGIT_0 + k / 10, DIGIT_0 + k % 10);
    } else {
      ThreeDigits(DIGIT_0 + k / 100, DIGIT_0 + k % 100 / 10, DIGIT_0 + k % 10);
      hide DigitsValue;
      assert k % 10 == k % 100 % 10;
    }
  }

  lemma {:induction false} TwoDigits(a: byte, b: byte)
    requires IsDigit(a) && IsDigit(b)
    ensures DigitsValue([a, b]) == 10 * (a - DIGIT_0) + (b - DIGIT_0)
  {
    assert [a, b] == ([] + [a]) + [b];
    DigitsSnoc([], a);
    DigitsSnoc([] + [a], b);
  }

  lemma {:induction false} ThreeDigits(a: byte, b: byte, c: byte)
    requires IsDigit(a) && IsDigit(b) && IsDigit(c)
    ensures DigitsValue([a, b, c]) == 100 * (a - DIGIT_0) + 10 * (b - DIGIT_0) + (c - DIGIT_0)
  {
    TwoDigits(a, b);
    DigitsSnoc([a, b], c);
    assert [a, b, c] == [a, b] + [c];
  }

  lemma {:induction false} WrittenValue(text: bytes, ip: bytes, fp: bytes, e: int)
    requires WrittenAs(text, ip, fp, e)
    ensures AllDigits(ip + fp) && NumberValue(text) == DecimalValue(ip + fp, e - |fp|)
  {
    hide Read, DigitsValue, R10, ExponentSuffix;
    ReadMantissa(ip, fp);
    assert ip + [] == ip;
    var head := if fp == [] then ip else ip + [POINT] + fp;
    var r := Read(NOTHING_READ, head);
    if !(fp != [] && e == 0 && text == head) {
      assert text == head + ExponentSuffix(e);
      ReadConcat(NOTHING_READ, head, ExponentSuffix(e));
      ReadExponent(r, e);
    }
  }

  /** Such a text drives the number scanner through to an accepting state, as a float. */
  lemma {:induction false} WrittenScans(text: bytes, ip: bytes, fp: bytes, e: int) returns (final: NumberState)
    requires WrittenAs(text, ip, fp, e)
    ensures final in {Decimal2, Any2} && Reaches(Init, UnsignedKind, text, final, FloatKind)
  {
    IntegerPartScans(ip);
    var s, k := if ip == [DIGIT_0] then Zero else Any1, UnsignedKind;
    var head := ip;
    if fp != [] {
      FractionScans(s, fp);
      ReachesConcat(Init, UnsignedKind, ip, s, k, [POINT] + fp, Decimal2, FloatKind);
      head := ip + ([POINT] + fp);
      assert head == ip + [POINT] + fp;
      s, k := Decimal2, FloatKind;
    }
    if text == head {
      final := s;
    } else {
      ExponentScans(s, k, e);
      ReachesConcat(Init, UnsignedKind, head, s, k, ExponentSuffix(e), Any2, FloatKind);
      final := Any2;
    }
  }

  lemma {:induction false} IntegerPartScans(ip: bytes)
    requires AllDigits(ip) && ip != [] && (ip[0] != DIGIT_0 || |ip| == 1)
    ensures Reaches(Init, UnsignedKind, ip, if ip == [DIGIT_0] then Zero else Any1, UnsignedKind)
  {
    if ip[0] == DIGIT_0 {
      assert ip == [DIGIT_0];
    } else {
      DigitsLoop(Any1, UnsignedKind, ip[1..]);
    }
  }

  lemma {:induction false} FractionScans(s: NumberState, fp: bytes)
    requires AllDigits(fp) && fp != [] && s in {Zero, Any1}
    ensures Reaches(s, UnsignedKind, [POINT] + fp, Decimal2, FloatKind)
  {
    DigitsLoop(Decimal2, FloatKind, fp[1..]);
    assert ([POINT] + fp)[1..] == fp;
    assert Reaches(Decimal1, FloatKind, fp, Decimal2, FloatKind);
  }

  lemma {:induction false} ExponentScans(s: NumberState, k: NumberKind, e: int)
    requires -1000 < e < 1000 && s in {Zero, Any1, Decimal2}
    ensures Reaches(s, k, ExponentSuffix(e), Any2, FloatKind)
  {
    var digits := ExponentDigits(Abs(e));
    var suffix := ExponentSuffix(e);
    DigitsLoop(Any2, FloatKind, digits[1..]);
    assert suffix[1..][1..] == digits;
    assert Reaches(Sign, FloatKind, digits, Any2, FloatKind);
    assert Reaches(Exponent, FloatKind, suffix[1..], Any2, FloatKind);
  }

  lemma {:induction false} SplitDigits(digits: bytes, n: nat) returns (ip: bytes, fp: bytes)
    requires AllDigits(digits) && 0 < n <= |digits|
    ensures ip == digits[..n] && fp == digits[n..] && ip + fp == digits
    ensures AllDigits(ip) && AllDigits(fp) && ip != [] && ip[0] == digits[0]
  {
    ip, fp := digits[..n], digits[n..];
  }

  /** In all five layouts: the text, as written, has the value digits * 10^exponent. */
  lemma {:induction false} LayoutWritten(digits: bytes, exponent: int, minExp: int, maxExp: int)
    returns (ip: bytes, fp: bytes, e: int)
    requires AllDigits(digits) && digits != [] && digits[0] != DIGIT_0 && minExp < 0 < maxExp
    requires -1000 < |digits| + exponent - 1 < 1000
    ensures WrittenAs(Layout(digits, exponent, minExp, maxExp), ip, fp, e)
    ensures AllDigits(ip + fp) && DecimalValue(ip + fp, e - |fp|) == DecimalValue(digits, exponent)
  {
    hide DecimalValue, ExponentSuffix, Zeros, AllDigits;
    var k := |digits|;
    var n := k + exponent;
    if k <= n <= maxExp {
      ip, fp := PaddedInteger(digits, n - k);
      e := 0;
    } else if 0 < n <= maxExp {
      ip, fp := SplitDigits(digits, n);
      e := 0;
    } else if minExp < n <= 0 {
      ip, fp := PaddedFraction(digits, -n);
      e := 0;
    } else {
      ip, fp := SplitDigits(digits, 1);
      e := n - 1;
      assert fp == [] ==> ip == digits;
    }
  }

  lemma {:induction false} PaddedInteger(digits: bytes, z: nat) returns (ip: bytes, fp: bytes)
    requires AllDigits(digits) && digits != []
    ensures AllDigits(ip) && ip != [] && ip[0] == digits[0] && AllDigits(fp) && fp != []
    ensures ip + [POINT] + fp == digits + Zeros(z) + [POINT, DIGIT_0]
    ensures AllDigits(ip + fp) && DecimalValue(ip + fp, 0 - |fp|) == DecimalValue(digits, z)
  {
    ip, fp := digits + Zeros(z), [DIGIT_0];
    assert ip + fp == digits + Zeros(z + 1);
    ZerosValue(z + 1, digits);
    TrailingZeros(DigitsValue(digits), z + 1, z);
    hide DigitsValue, R10, Pow;
  }

  lemma {:induction false} PaddedFraction(digits: bytes, z: nat) returns (ip: bytes, fp: bytes)
    requires AllDigits(digits) && digits != []
    ensures AllDigits(ip) && |ip| == 1 && AllDigits(fp) && fp != []
    ensures ip + [POINT] + fp == [DIGIT_0, POINT] + Zeros(z) + digits
    ensures AllDigits(ip + fp) && DecimalValue(ip + fp, 0 - |fp|) == DecimalValue(digits, 0 - z - |digits|)
  {
    ip, fp := [DIGIT_0], Zeros(z) + digits;
    assert ip + fp == Zeros(z + 1) + digits;
    ZerosValue(z + 1, digits);
    hide DigitsValue, R10, Pow;
  }

  lemma {:induction false} TrailingZeros(v: nat, z: nat, exponent: int)
    ensures (v * Pow10(z)) as real * R10(exponent - z) == v as real * R10(exponent)
  {
    R10OfNat(z);
    R10Add(z, exponent - z);
    hide R10, Pow;
    assert (v * Pow10(z)) as real == v as real * Pow10(z) as real;
    RMulAssoc(v as real, Pow10(z) as real, R10(exponent - z));
  }

  // ---- which notation is written

  /** Plain decimal notation, without superfluous zeros on either side. */
  ghost predicate IsFixed(text: bytes) {
    exists ip: bytes, fp: bytes ::
      && ip != [] && AllDigits(ip) && (|ip| > 1 ==> ip[0] != '0' as int)
      && fp != [] && AllDigits(fp) && (|fp| > 1 ==> fp[|fp| - 1] != '0' as int)
      && text == ip + ['.' as int] + fp
  }

  /** A fraction that does not end in zero, or none. */
  predicate IsShortFraction(s: bytes) {
    s == [] || (|s| > 1 && s[0] == '.' as int && AllDigits(s[1..]) && s[|s| - 1] != '0' as int)
  }

  /** A sign, and two digits or more if they are needed. */
  predicate IsExponent(s: bytes) {
    && |s| >= 3 && (s[0] == '+' as int || s[0] == '-' as int) && AllDigits(s[1..])
    && (|s| > 3 ==> s[1] != '0' as int)
  }

  /** Scientific notation: one digit other than zero in front of the point. */
  ghost predicate IsScientific(text: bytes) {
    exists d: byte, fraction: bytes, exponent: bytes ::
      && IsDigit(d) && d != '0' as int && IsShortFraction(fraction) && IsExponent(exponent)
      && text == [d] + fraction + ['e' as int] + exponent
  }

  /** Plain notation from 0.0001 up to, but without, 10^15; scientific notation beyond. */
  ghost predicate Canonical(text: bytes) {
    var x := NumberValue(text);
    if 0.0001 <= x < 1000000000000000.0 then IsFixed(text) else IsScientific(text)
  }

  lemma {:induction false} R10Monotone(y: int, z: int)
    requires y <= z
    ensures R10(y) <= R10(z)
    decreases z - y
  {
    if y < z {
      R10Monotone(y, z - 1);
      assert R10(z) == 10.0 * R10(z - 1);
    }
  }

  lemma {:induction false} TimesBetween(x: real, y: real, z: real, r: real)
    requires x <= y < z && r > 0.0
    ensures Times(x, r) <= Times(y, r) < Times(z, r)
  {
    RMulLe(x, y, r);
    RMulLt(y, z, r);
  }

  /** The position of the point gives the magnitude. */
  lemma {:induction false} Magnitude(digits: bytes, exponent: int)
    requires AllDigits(digits) && digits != [] && digits[0] != DIGIT_0
    ensures var n := |digits| + exponent; R10(n - 1) <= DecimalValue(digits, exponent) < R10(n)
  {
    hide R10, Pow, DigitsValue, Times, DecimalValue;
    var k := |digits|;
    DigitsBound(digits);
    R10OfNat(k);
    R10OfNat(k - 1);
    R10AddTimes(k, exponent);
    R10AddTimes(k - 1, exponent);
    DecimalTimes(digits, exponent);
    TimesBetween(R10(k - 1), DigitsValue(digits) as real, R10(k), R10(exponent));
  }

  lemma {:induction false} Bounds()
    ensures R10(-4) == 0.0001 && R10(15) == 1000000000000000.0
  {
    R10OfNat(15);
    R10OfNat(4);
    R10Inverse(4);
    Pow10Values();
    hide R10, Pow;
  }

  lemma {:induction false} PlainRange(digits: bytes, exponent: int)
    requires AllDigits(digits) && digits != [] && digits[0] != DIGIT_0
    ensures var n, x := |digits| + exponent, DecimalValue(digits, exponent);
            0.0001 <= x < 1000000000000000.0 <==> -4 < n <= 15
  {
    var n := |digits| + exponent;
    hide R10, DecimalValue;
    Magnitude(digits, exponent);
    Bounds();
    if n > -4 {
      R10Monotone(-4, n - 1);
    } else {
      R10Monotone(n, -4);
    }
    if n <= 15 {
      R10Monotone(n, 15);
    } else {
      R10Monotone(15, n - 1);
    }
  }

  lemma {:induction false} FixedNotation(ip: bytes, fp: bytes, text: bytes)
    requires ip != [] && AllDigits(ip) && (|ip| > 1 ==> ip[0] != '0' as int)
    requires fp != [] && AllDigits(fp) && (|fp| > 1 ==> fp[|fp| - 1] != '0' as int)
    requires text == ip + ['.' as int] + fp
    ensures IsFixed(text)
  {}

  lemma {:induction false} LayoutNotation(digits: bytes, exponent: int)
    requires AllDigits(digits) && digits != [] && digits[0] != DIGIT_0 && digits[|digits| - 1] != DIGIT_0
    requires -1000 < |digits| + exponent - 1 < 1000
    ensures var text, n := Layout(digits, exponent, MIN_PRINT_EXP, MAX_PRINT_EXP), |digits| + exponent;
            if -4 < n <= 15 then IsFixed(text) else IsScientific(text)
  {
    hide IsFixed, IsScientific, Zeros, Scientific, ExponentSuffix;
    var k := |digits|;
    var n := k + exponent;
    var text := Layout(digits, exponent, MIN_PRINT_EXP, MAX_PRINT_EXP);
    if k <= n <= 15 {
      assert digits + Zeros(n - k) + [POINT, DIGIT_0] == digits + Zeros(n - k) + ['.' as int] + [DIGIT_0];
      FixedNotation(digits + Zeros(n - k), [DIGIT_0], text);
    } else if 0 < n <= 15 {
      FixedNotation(digits[..n], digits[n..], text);
    } else if -4 < n <= 0 {
      assert [DIGIT_0, POINT] + Zeros(-n) + digits == [DIGIT_0] + ['.' as int] + (Zeros(-n) + digits);
      FixedNotation([DIGIT_0], Zeros(-n) + digits, text);
    } else {
      ScientificNotation(digits, n - 1);
    }
  }

  lemma {:induction false} ScientificNotation(digits: bytes, e: int)
    requires AllDigits(digits) && digits != [] && digits[0] != DIGIT_0 && digits[|digits| - 1] != DIGIT_0
    requires -1000 < e < 1000
    ensures IsScientific(Scientific(digits) + ExponentSuffix(e))
  {
    var d := digits[0];
    var fraction := if |digits| == 1 then [] else ['.' as int] + digits[1..];
    var exponent := [if e < 0 then MINUS else PLUS] + ExponentDigits(Abs(e));
    assert IsExponent(exponent) by {
      assert exponent[1..] == ExponentDigits(Abs(e));
    }
    assert IsShortFraction(fraction) by {
      if |digits| > 1 {
        assert fraction[1..] == digits[1..];
      }
    }
    hide IsExponent, IsShortFraction, ExponentDigits;
    assert Scientific(digits) == [d] + fraction;
    assert ExponentSuffix(e) == ['e' as int] + exponent;
    assert Scientific(digits) + ExponentSuffix(e) == [d] + fraction + ['e' as int] + exponent;
  }

  /** Shortest digits are laid out in the notation that their value calls for. */
  lemma {:induction false} LayoutIsCanonical(digits: bytes, exponent: int, text: bytes)
    requires AllDigits(digits) && digits != [] && digits[0] != DIGIT_0 && digits[|digits| - 1] != DIGIT_0
    requires -1000 < |digits| + exponent - 1 < 1000
    requires text == Layout(digits, exponent, MIN_PRINT_EXP, MAX_PRINT_EXP)
    ensures Canonical(text)
  {
    hide Layout, IsFixed, IsScientific, NumberValue, DecimalValue, AllDigits, FloatToken;
    LayoutIsFaithful(digits, exponent, text);
    PlainRange(digits, exponent);
    LayoutNotation(digits, exponent);
  }

  // ---- to_chars

  const MIN_PRINT_EXP := -4
  const MAX_PRINT_EXP := 15

  /** An unsigned text that the number scanner takes as one float. */
  ghost predicate FloatToken(body: bytes) {
    body != [] && IsDigit(body[0]) &&
    exists final :: final in {Decimal2, Any2} && Reaches(Init, UnsignedKind, body, final, FloatKind)
  }

  /** The text denotes shortest digits of the double. */
  ghost predicate IsShortest(body: bytes, m: uint64)
    requires FinitePositive(m)
  {
    exists digits, exponent ::
      AllDigits(digits) && ShortestFor(digits, exponent, m) && NumberValue(body) == DecimalValue(digits, exponent)
  }

  /** A float token for a non-negative double: 0.0, or shortest digits that round to the double, in canonical notation. */
  ghost predicate MagnitudeText(body: bytes, m: uint64)
    requires m < INFINITY
  {
    && FloatToken(body)
    && if m == 0 then body == [DIGIT_0, POINT, DIGIT_0]
       else RoundsTo(NumberValue(body), m) && IsShortest(body, m) && Canonical(body)
  }

  /** A text for a finite double: a minus sign exactly when the sign bit is set, and the magnitude. */
  ghost predicate TextOf(text: bytes, bits: uint64)
    requires Finite(bits)
  {
    if bits >= SIGN_BIT then text != [] && text[0] == MINUS && MagnitudeText(text[1..], bits - SIGN_BIT)
    else MagnitudeText(text, bits)
  }

  method ToChars(buf: array<byte>, first: nat, bits: uint64) returns (end: nat)
    requires Finite(bits) && first + 25 <= buf.Length
    modifies buf
    ensures first <= end <= buf.Length
    ensures TextOf(buf[first..end], bits)
  {
    hide MagnitudeText;
    if bits >= SIGN_BIT {
      buf[first] := MINUS;
      end := PrintMagnitude(buf, first + 1, bits - SIGN_BIT);
      assert buf[first..end][1..] == buf[first + 1..end];
    } else {
      end := PrintMagnitude(buf, first, bits);
    }
  }

  method PrintMagnitude(buf: array<byte>, first: nat, value: uint64) returns (end: nat)
    requires value < INFINITY && first + 24 <= buf.Length
    modifies buf
    ensures first <= end <= buf.Length
    ensures MagnitudeText(buf[first..end], value)
    ensures forall j | 0 <= j < first :: buf[j] == old(buf[j])
  {
    hide FloatToken, NumberValue, RoundsTo, DecimalValue, Layout, ShortestFor, DigitsValue, Canonical;
    if value == 0 {
      buf[first] := DIGIT_0;
      buf[first + 1] := POINT;
      buf[first + 2] := DIGIT_0;
      end := first + 3;
      assert buf[first..end] == [DIGIT_0, POINT, DIGIT_0];
      ZeroIsFloat();
    } else {
      var len, decimalExponent := Grisu2(buf, first, value);
      assert len <= MAX_DIGITS10;
      ghost var digits := buf[first..first + len];
      end := FormatBuffer(buf, first, len, decimalExponent, MIN_PRINT_EXP, MAX_PRINT_EXP);
      LayoutIsFaithful(digits, decimalExponent, buf[first..end]);
      LastDigit(digits, decimalExponent, value);
      LayoutIsCanonical(digits, decimalExponent, buf[first..end]);
    }
  }

  lemma {:induction false} ZeroIsFloat()
    ensures FloatToken([DIGIT_0, POINT, DIGIT_0])
  {
    var zero := [DIGIT_0];
    assert zero + [POINT] + zero == [DIGIT_0, POINT, DIGIT_0];
    var final := WrittenScans([DIGIT_0, POINT, DIGIT_0], zero, zero, 0);
  }

  /** In every layout the text is one float token and denotes exactly digits * 10^exponent. */
  lemma {:induction false} LayoutIsFaithful(digits: bytes, exponent: int, text: bytes)
    requires AllDigits(digits) && digits != [] && digits[0] != DIGIT_0
    requires -1000 < |digits| + exponent - 1 < 1000
    requires text == Layout(digits, exponent, MIN_PRINT_EXP, MAX_PRINT_EXP)
    ensures FloatToken(text) && NumberValue(text) == DecimalValue(digits, exponent)
  {
    hide Layout, NumberValue, DecimalValue, Reaches;
    var ip, fp, e := LayoutWritten(digits, exponent, MIN_PRINT_EXP, MAX_PRINT_EXP);
    WrittenValue(text, ip, fp, e);
    var final := WrittenScans(text, ip, fp, e);
  }
}
