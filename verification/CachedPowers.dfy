/**
  The table of cached powers of ten.  Every entry is within half a unit in its last place of the power it
  stands for, and the index computation picks one that brings the product's exponent into [-60, -32].
 */
module CachedPowers {
  import opened Arith

  /** f * 2^e, standing for 10^k. */
  datatype CachedPower = CachedPower(f: uint64, e: int, k: int)

  const ALPHA := -60
  const GAMMA := -32
  const TABLE_SIZE := 79
  const MIN_DEC_EXP := -300
  const DEC_STEP := 8

  /** The table, eight rows at a time. */
  function Cached(i: nat): CachedPower
    requires i < TABLE_SIZE
  {
    if i < 8 then Rows0(i)
    else if i < 16 then Rows1(i)
    else if i < 24 then Rows2(i)
    else if i < 32 then Rows3(i)
    else if i < 40 then Rows4(i)
    else if i < 48 then Rows5(i)
    else if i < 56 then Rows6(i)
    else if i < 64 then Rows7(i)
    else if i < 72 then Rows8(i)
    else Rows9(i)
  }

  function Rows0(i: nat): CachedPower
    requires 0 <= i < 8
  {
    if i == 0 then CachedPower(0xAB70FE17C79AC6CA, -1060, -300)
    else if i == 1 then CachedPower(0xFF77B1FCBEBCDC4F, -1034, -292)
    else if i == 2 then CachedPower(0xBE5691EF416BD60C, -1007, -284)
    else if i == 3 then CachedPower(0x8DD01FAD907FFC3C, -980, -276)
    else if i == 4 then CachedPower(0xD3515C2831559A83, -954, -268)
    else if i == 5 then CachedPower(0x9D71AC8FADA6C9B5, -927, -260)
    else if i == 6 then CachedPower(0xEA9C227723EE8BCB, -901, -252)
    else CachedPower(0xAECC49914078536D, -874, -244)
  }

  function Rows1(i: nat): CachedPower
    requires 8 <= i < 16
  {
    if i == 8 then CachedPower(0x823C12795DB6CE57, -847, -236)
    else if i == 9 then CachedPower(0xC21094364DFB5637, -821, -228)
    else if i == 10 then CachedPower(0x9096EA6F3848984F, -794, -220)
    else if i == 11 then CachedPower(0xD77485CB25823AC7, -768, -212)
    else if i == 12 then CachedPower(0xA086CFCD97BF97F4, -741, -204)
    else if i == 13 then CachedPower(0xEF340A98172AACE5, -715, -196)
    else if i == 14 then CachedPower(0xB23867FB2A35B28E, -688, -188)
    else CachedPower(0x84C8D4DFD2C63F3B, -661, -180)
  }

  function Rows2(i: nat): CachedPower
    requires 16 <= i < 24
  {
    if i == 16 then CachedPower(0xC5DD44271AD3CDBA, -635, -172)
    else if i == 17 then CachedPower(0x936B9FCEBB25C996, -608, -164)
    else if i == 18 then CachedPower(0xDBAC6C247D62A584, -582, -156)
    else if i == 19 then CachedPower(0xA3AB66580D5FDAF6, -555, -148)
    else if i == 20 then CachedPower(0xF3E2F893DEC3F126, -529, -140)
    else if i == 21 then CachedPower(0xB5B5ADA8AAFF80B8, -502, -132)
    else if i == 22 then CachedPower(0x87625F056C7C4A8B, -475, -124)
    else CachedPower(0xC9BCFF6034C13053, -449, -116)
  }

  function Rows3(i: nat): CachedPower
    requires 24 <= i < 32
  {
    if i == 24 then CachedPower(0x964E858C91BA2655, -422, -108)
    else if i == 25 then CachedPower(0xDFF9772470297EBD, -396, -100)
    else if i == 26 then CachedPower(0xA6DFBD9FB8E5B88F, -369, -92)
    else if i == 27 then CachedPower(0xF8A95FCF88747D94, -343, -84)
    else if i == 28 then CachedPower(0xB94470938FA89BCF, -316, -76)
    else if i == 29 then CachedPower(0x8A08F0F8BF0F156B, -289, -68)
    else if i == 30 then CachedPower(0xCDB02555653131B6, -263, -60)
    else CachedPower(0x993FE2C6D07B7FAC, -236, -52)
  }

  function Rows4(i: nat): CachedPower
    requires 32 <= i < 40
  {
    if i == 32 then CachedPower(0xE45C10C42A2B3B06, -210, -44)
    else if i == 33 then CachedPower(0xAA242499697392D3, -183, -36)
    else if i == 34 then CachedPower(0xFD87B5F28300CA0E, -157, -28)
    else if i == 35 then CachedPower(0xBCE5086492111AEB, -130, -20)
    else if i == 36 then CachedPower(0x8CBCCC096F5088CC, -103, -12)
    else if i == 37 then CachedPower(0xD1B71758E219652C, -77, -4)
    else if i == 38 then CachedPower(0x9C40000000000000, -50, 4)
    else CachedPower(0xE8D4A51000000000, -24, 12)
  }

  function Rows5(i: nat): CachedPower
    requires 40 <= i < 48
  {
    if i == 40 then CachedPower(0xAD78EBC5AC620000, 3, 20)
    else if i == 41 then CachedPower(0x813F3978F8940984, 30, 28)
    else if i == 42 then CachedPower(0xC097CE7BC90715B3, 56, 36)
    else if i == 43 then CachedPower(0x8F7E32CE7BEA5C70, 83, 44)
    else if i == 44 then CachedPower(0xD5D238A4ABE98068, 109, 52)
    else if i == 45 then CachedPower(0x9F4F2726179A2245, 136, 60)
    else if i == 46 then CachedPower(0xED63A231D4C4FB27, 162, 68)
    else CachedPower(0xB0DE65388CC8ADA8, 189, 76)
  }

  function Rows6(i: nat): CachedPower
    requires 48 <= i < 56
  {
    if i == 48 then CachedPower(0x83C7088E1AAB65DB, 216, 84)
    else if i == 49 then CachedPower(0xC45D1DF942711D9A, 242, 92)
    else if i == 50 then CachedPower(0x924D692CA61BE758, 269, 100)
    else if i == 51 then CachedPower(0xDA01EE641A708DEA, 295, 108)
    else if i == 52 then CachedPower(0xA26DA3999AEF774A, 322, 116)
    else if i == 53 then CachedPower(0xF209787BB47D6B85, 348, 124)
    else if i == 54 then CachedPower(0xB454E4A179DD1877, 375, 132)
    else CachedPower(0x865B86925B9BC5C2, 402, 140)
  }

  function Rows7(i: nat): CachedPower
    requires 56 <= i < 64
  {
    if i == 56 then CachedPower(0xC83553C5C8965D3D, 428, 148)
    else if i == 57 then CachedPower(0x952AB45CFA97A0B3, 455, 156)
    else if i == 58 then CachedPower(0xDE469FBD99A05FE3, 481, 164)
    else if i == 59 then CachedPower(0xA59BC234DB398C25, 508, 172)
    else if i == 60 then CachedPower(0xF6C69A72A3989F5C, 534, 180)
    else if i == 61 then CachedPower(0xB7DCBF5354E9BECE, 561, 188)
    else if i == 62 then CachedPower(0x88FCF317F22241E2, 588, 196)
    else CachedPower(0xCC20CE9BD35C78A5, 614, 204)
  }

  function Rows8(i: nat): CachedPower
    requires 64 <= i < 72
  {
    if i == 64 then CachedPower(0x98165AF37B2153DF, 641, 212)
    else if i == 65 then CachedPower(0xE2A0B5DC971F303A, 667, 220)
    else if i == 66 then CachedPower(0xA8D9D1535CE3B396, 694, 228)
    else if i == 67 then CachedPower(0xFB9B7CD9A4A7443C, 720, 236)
    else if i == 68 then CachedPower(0xBB764C4CA7A44410, 747, 244)
    else if i == 69 then CachedPower(0x8BAB8EEFB6409C1A, 774, 252)
    else if i == 70 then CachedPower(0xD01FEF10A657842C, 800, 260)
    else CachedPower(0x9B10A4E5E9913129, 827, 268)
  }

  function Rows9(i: nat): CachedPower
    requires 72 <= i < 79
  {
    if i == 72 then CachedPower(0xE7109BFBA19C0C9D, 853, 276)
    else if i == 73 then CachedPower(0xAC2820D9623BF429, 880, 284)
    else if i == 74 then CachedPower(0x80444B5E7AA7CF85, 907, 292)
    else if i == 75 then CachedPower(0xBF21E44003ACDD2D, 933, 300)
    else if i == 76 then CachedPower(0x8E679C2F5E44FF8F, 960, 308)
    else if i == 77 then CachedPower(0xD433179D9C8CB841, 986, 316)
    else CachedPower(0x9E19DB92B4E31BA9, 1013, 324)
  }

  ghost predicate Accurate(c: CachedPower) {
    2.0 * RealAbs(c.f as real * R2(c.e) - R10(c.k)) <= R2(c.e)
  }

  // ---- accuracy, row by row: p and u run through the exact powers that belong to the entries

  /** From row 38 (10^4) upwards: p is 10^k, u is 2^(e + 50), and the rows so far are accurate. */
  ghost predicate Climbed(i: nat, p: int, u: int) {
    && 38 <= i < TABLE_SIZE
    && Cached(i).k > 0 && p == Pow10(Cached(i).k)
    && Cached(i).e >= -50 && u == Pow2(Cached(i).e + 50)
    && (forall j :: 38 <= j <= i ==> Accurate(Cached(j)))
  }

  /** From row 37 (10^-4) downwards: p is 10^-k and u is 2^-e. */
  ghost predicate Descended(i: nat, p: int, u: int) {
    && i < 38
    && Cached(i).k < 0 && p == Pow10(-Cached(i).k)
    && Cached(i).e < 0 && u == Pow2(-Cached(i).e)
    && (forall j :: i <= j < 38 ==> Accurate(Cached(j)))
  }

  /** With y, x and the integers d, n in the ratio t, half a unit is half a unit. */
  lemma {:induction false} HalfUnit(fx: real, y: real, x: real, d: int, n: int, t: real)
    requires -n <= 2 * d <= n && t > 0.0
    requires fx - y == d as real * t && x == n as real * t
    ensures 2.0 * RealAbs(fx - y) <= x
  {
    RMulLe((2 * d) as real, n as real, t);
    RMulLe((-n) as real, (2 * d) as real, t);
    assert (2 * d) as real * t == 2.0 * (d as real * t);
  }

  lemma {:induction false} AccurateUp(c: CachedPower, p: int, u: int, n: nat, w: int)
    requires c.k > 0 && c.e + n >= 0 && p == Pow10(c.k) && u == Pow2(c.e + n) && w == Pow2(n)
    requires 0 - u <= 2 * (c.f * u - p * w) <= u
    ensures Accurate(c)
  {
    hide R2, R10, Pow;
    var x, y, t := R2(c.e), R10(c.k), R2(0 - n);
    R2OfNat(c.e + n);
    R2Add(c.e + n, 0 - n);
    R10OfNat(c.k);
    R2Inverse(n);
    UpScale(c.f, u, p, w, x, y, t);
  }

  lemma {:induction false} R2Inverse(n: nat)
    ensures Pow2(n) as real * R2(0 - n) == 1.0
  {
    R2OfNat(n);
    R2Add(n, 0 - n);
  }

  lemma {:induction false} UpScale(f: int, u: int, p: int, w: int, x: real, y: real, t: real)
    requires w as real * t == 1.0 && t > 0.0
    requires x == u as real * t && y == p as real
    requires 0 - u <= 2 * (f * u - p * w) <= u
    ensures 2.0 * RealAbs(f as real * x - y) <= x
  {
    var d := f * u - p * w;
    assert d as real == f as real * u as real - p as real * w as real;
    RMulAssoc(f as real, u as real, t);
    RMulAssoc(p as real, w as real, t);
    HalfUnit(f as real * x, y, x, d, u, t);
  }

  lemma {:induction false} AccurateDown(c: CachedPower, p: int, u: int)
    requires c.k < 0 && c.e < 0 && p == Pow10(-c.k) && u == Pow2(-c.e)
    requires 0 - p <= 2 * (c.f * p - u) <= p
    ensures Accurate(c)
  {
    hide R2, R10, Pow;
    R2Inverse(-c.e);
    R10OfNat(-c.k);
    R10Inverse(-c.k);
    DownScale(c.f, u, p, R2(c.e), R10(c.k));
  }

  lemma {:induction false} DownScale(f: int, u: int, p: int, x: real, y: real)
    requires u as real * x == 1.0 && p as real * y == 1.0 && x > 0.0 && y > 0.0
    requires 0 - p <= 2 * (f * p - u) <= p
    ensures 2.0 * RealAbs(f as real * x - y) <= x
  {
    CrossScale(f, u, p, x, y);
    HalfUnit(f as real * x, y, x, f * p - u, p, x * y);
  }

  lemma {:induction false} CrossScale(f: int, u: int, p: int, x: real, y: real)
    requires u as real * x == 1.0 && p as real * y == 1.0
    ensures p as real * (x * y) == x
    ensures (f * p - u) as real * (x * y) == f as real * x - y
  {
    assert p as real * (x * y) == (p as real * y) * x;
    assert u as real * (x * y) == (u as real * x) * y;
    assert (f * p) as real * (x * y) == f as real * (p as real * (x * y));
    assert (f * p - u) as real == (f * p) as real - u as real;
  }

  lemma {:induction false} StepPowers()
    ensures Pow10(8) == 1_0000_0000
    ensures Pow2(26) == 0x400_0000 && Pow2(27) == 0x800_0000
    ensures Pow2(50) == 0x4_0000_0000_0000
  {
    assert Pow10(8) == 1_0000_0000;
    PowAdd(2, 10, 10);
    PowAdd(2, 20, 6);
    PowAdd(2, 26, 1);
    PowAdd(2, 26, 24);
    PowAdd(2, 20, 4);
    assert Pow2(10) == 1024;
  }

  /** The shape of the table, and the two margins that the choice of an index relies on. */
  lemma {:induction false} TableShape(i: nat)
    requires i < TABLE_SIZE
    ensures var c := Cached(i);
            && TWO_63 <= c.f
            && c.k == MIN_DEC_EXP + DEC_STEP * i
            && (if i < 38 then c.e < -50 else c.e >= -50)
            && c.k * 0x4_0000 < (c.e + 64) * 78913
            && (c.e + 36) * 78913 < (c.k - 8) * 0x4_0000
  {}

  lemma {:induction false} TableGap(i: nat)
    requires i < TABLE_SIZE - 1
    ensures 26 <= Cached(i + 1).e - Cached(i).e <= 27
  {}

  /** The factor between the powers of two of neighbouring entries, 2^26 or 2^27. */
  function Scale(i: nat): int
    requires i < TABLE_SIZE - 1
  {
    if Cached(i + 1).e - Cached(i).e == 26 then 0x400_0000 else 0x800_0000
  }

  lemma {:induction false} NextPowers(i: nat, k: nat, n: nat, m: nat)
    requires i < TABLE_SIZE - 1
    requires m - n == Cached(i + 1).e - Cached(i).e
    ensures Pow2(m) == Pow2(n) * Scale(i)
    ensures Pow10(k + 8) == Pow10(k) * 1_0000_0000
  {
    StepPowers();
    TableGap(i);
    hide Cached, Pow;
    PowAdd(2, n, m - n);
    PowAdd(10, k, 8);
  }

  lemma {:induction false} PowersUp(i: nat, p: int, u: int)
    requires 38 < i < TABLE_SIZE && p == Pow10(Abs(Cached(i - 1).k)) && u == Pow2(Abs(Cached(i - 1).e + 50))
    ensures Cached(i).k > 0 && p * 1_0000_0000 == Pow10(Cached(i).k)
    ensures Cached(i).e >= -50 && u * Scale(i - 1) == Pow2(Cached(i).e + 50)
  {
    hide Cached, Pow, Scale;
    var b, c := Cached(i - 1), Cached(i);
    TableShape(i - 1);
    TableShape(i);
    TableGap(i - 1);
    NextPowers(i - 1, b.k, b.e + 50, c.e + 50);
  }

  lemma {:induction false} PowersDown(i: nat, p: int, u: int)
    requires i < 37 && p == Pow10(Abs(Cached(i + 1).k)) && u == Pow2(Abs(Cached(i + 1).e))
    ensures Cached(i).k < 0 && p * 1_0000_0000 == Pow10(-Cached(i).k)
    ensures Cached(i).e < 0 && u * Scale(i) == Pow2(-Cached(i).e)
  {
    hide Cached, Pow, Scale;
    var b, c := Cached(i + 1), Cached(i);
    TableShape(i + 1);
    TableShape(i);
    TableGap(i);
    NextPowers(i, -b.k, -b.e, -c.e);
  }

  lemma {:induction false} Up(i: nat, f: int, s: int, p: int, u: int) returns (p': int, u': int)
    requires 0 < i < TABLE_SIZE && Climbed(i - 1, p, u)
    requires Cached(i).f == f && s == Scale(i - 1)
    requires 0 - u * s <= 2 * (f * (u * s) - p * 112589990684262400000000) <= u * s
    ensures p' == p * 1_0000_0000 && u' == u * s && Climbed(i, p', u')
  {
    hide Cached, Scale, Pow, Accurate;
    p', u' := p * 1_0000_0000, u * s;
    PowersUp(i, p, u);
    StepPowers();
    AccurateUp(Cached(i), p', u', 50, 0x4_0000_0000_0000);
  }

  lemma {:induction false} Down(i: nat, f: int, s: int, p: int, u: int) returns (p': int, u': int)
    requires i < TABLE_SIZE - 1 && Descended(i + 1, p, u)
    requires Cached(i).f == f && s == Scale(i)
    requires 0 - p * 1_0000_0000 <= 2 * (f * (p * 1_0000_0000) - u * s) <= p * 1_0000_0000
    ensures p' == p * 1_0000_0000 && u' == u * s && Descended(i, p', u')
  {
    hide Cached, Scale, Pow, Accurate;
    p', u' := p * 1_0000_0000, u * s;
    PowersDown(i, p, u);
    AccurateDown(Cached(i), p', u');
  }

  lemma {:induction false} FirstUp()
    ensures Climbed(38, 10000, 1)
  {
    StepPowers();
    assert Pow10(4) == 10000;
    AccurateUp(Cached(38), 10000, 1, 50, 0x4_0000_0000_0000);
  }

  lemma {:induction false} FirstDown()
    ensures Descended(37, 10000, 0x2000_0000_0000_0000_0000)
  {
    StepPowers();
    PowAdd(2, 50, 27);
    assert Pow10(4) == 10000;
    AccurateDown(Cached(37), 10000, 0x2000_0000_0000_0000_0000);
  }

  lemma {:induction false} From38To58() returns (p: int, u: int)
    ensures Climbed(58, p, u)
    ensures p == 1_0000_0000_0000_0000_0000_0000_0000_0000_0000_0000_0000_0000_0000_0000_0000_0000_0000_0000_0000_0000_0000_0000_0000_0000_0000_0000_0000_0000_0000_0000_0000_0000_0000_0000_0000_0000_0000_0000_0000_0000_0000
    ensures u == 0x8_0000_0000000000000000_0000000000000000_0000000000000000_0000000000000000_0000000000000000_0000000000000000_0000000000000000_0000000000000000
  {
    p, u := 10000, 0x1;
    FirstUp();
    hide Climbed, Accurate;
    p, u := Up(39, 0xE8D4A51000000000, 0x400_0000, p, u);
    p, u := Up(40, 0xAD78EBC5AC620000, 0x800_0000, p, u);
    p, u := Up(41, 0x813F3978F8940984, 0x800_0000, p, u);
    p, u := Up(42, 0xC097CE7BC90715B3, 0x400_0000, p, u);
    p, u := Up(43, 0x8F7E32CE7BEA5C70, 0x800_0000, p, u);
    p, u := Up(44, 0xD5D238A4ABE98068, 0x400_0000, p, u);
    p, u := Up(45, 0x9F4F2726179A2245, 0x800_0000, p, u);
    p, u := Up(46, 0xED63A231D4C4FB27, 0x400_0000, p, u);
    p, u := Up(47, 0xB0DE65388CC8ADA8, 0x800_0000, p, u);
    p, u := Up(48, 0x83C7088E1AAB65DB, 0x800_0000, p, u);
    p, u := Up(49, 0xC45D1DF942711D9A, 0x400_0000, p, u);
    p, u := Up(50, 0x924D692CA61BE758, 0x800_0000, p, u);
    p, u := Up(51, 0xDA01EE641A708DEA, 0x400_0000, p, u);
    p, u := Up(52, 0xA26DA3999AEF774A, 0x800_0000, p, u);
    p, u := Up(53, 0xF209787BB47D6B85, 0x400_0000, p, u);
    p, u := Up(54, 0xB454E4A179DD1877, 0x800_0000, p, u);
    p, u := Up(55, 0x865B86925B9BC5C2, 0x800_0000, p, u);
    p, u := Up(56, 0xC83553C5C8965D3D, 0x400_0000, p, u);
    p, u := Up(57, 0x952AB45CFA97A0B3, 0x800_0000, p, u);
    p, u := Up(58, 0xDE469FBD99A05FE3, 0x400_0000, p, u);
  }

  lemma {:induction false} From58To68(p0: int, u0: int) returns (p: int, u: int)
    requires p0 == 1_0000_0000_0000_0000_0000_0000_0000_0000_0000_0000_0000_0000_0000_0000_0000_0000_0000_0000_0000_0000_0000_0000_0000_0000_0000_0000_0000_0000_0000_0000_0000_0000_0000_0000_0000_0000_0000_0000_0000_0000_0000
    requires u0 == 0x8_0000_0000000000000000_0000000000000000_0000000000000000_0000000000000000_0000000000000000_0000000000000000_0000000000000000_0000000000000000
    requires Climbed(58, p0, u0)
    ensures Climbed(68, p, u)
    ensures p == 1_0000_0000_0000_0000_0000_0000_0000_0000_0000_0000_0000_0000_0000_0000_0000_0000_0000_0000_0000_0000_0000_0000_0000_0000_0000_0000_0000_0000_0000_0000_0000_0000_0000_0000_0000_0000_0000_0000_0000_0000_0000_0000_0000_0000_0000_0000_0000_0000_0000_0000_0000_0000_0000_0000_0000_0000_0000_0000_0000_0000_0000
    ensures u == 0x2_0000000_0000000000000000_0000000000000000_0000000000000000_0000000000000000_0000000000000000_0000000000000000_0000000000000000_0000000000000000_0000000000000000_0000000000000000_0000000000000000_0000000000000000
  {
    p, u := p0, u0;
    hide Climbed, Accurate;
    p, u := Up(59, 0xA59BC234DB398C25, 0x800_0000, p, u);
    p, u := Up(60, 0xF6C69A72A3989F5C, 0x400_0000, p, u);
    p, u := Up(61, 0xB7DCBF5354E9BECE, 0x800_0000, p, u);
    p, u := Up(62, 0x88FCF317F22241E2, 0x800_0000, p, u);
    p, u := Up(63, 0xCC20CE9BD35C78A5, 0x400_0000, p, u);
    p, u := Up(64, 0x98165AF37B2153DF, 0x800_0000, p, u);
    p, u := Up(65, 0xE2A0B5DC971F303A, 0x400_0000, p, u);
    p, u := Up(66, 0xA8D9D1535CE3B396, 0x800_0000, p, u);
    p, u := Up(67, 0xFB9B7CD9A4A7443C, 0x400_0000, p, u);
    p, u := Up(68, 0xBB764C4CA7A44410, 0x800_0000, p, u);
  }

  lemma {:induction false} From68To78(p0: int, u0: int) returns (p: int, u: int)
    requires p0 == 1_0000_0000_0000_0000_0000_0000_0000_0000_0000_0000_0000_0000_0000_0000_0000_0000_0000_0000_0000_0000_0000_0000_0000_0000_0000_0000_0000_0000_0000_0000_0000_0000_0000_0000_0000_0000_0000_0000_0000_0000_0000_0000_0000_0000_0000_0000_0000_0000_0000_0000_0000_0000_0000_0000_0000_0000_0000_0000_0000_0000_0000
    requires u0 == 0x2_0000000_0000000000000000_0000000000000000_0000000000000000_0000000000000000_0000000000000000_0000000000000000_0000000000000000_0000000000000000_0000000000000000_0000000000000000_0000000000000000_0000000000000000
    requires Climbed(68, p0, u0)
    ensures Climbed(78, p, u)
  {
    p, u := p0, u0;
    hide Climbed, Accurate;
    p, u := Up(69, 0x8BAB8EEFB6409C1A, 0x800_0000, p, u);
    p, u := Up(70, 0xD01FEF10A657842C, 0x400_0000, p, u);
    p, u := Up(71, 0x9B10A4E5E9913129, 0x800_0000, p, u);
    p, u := Up(72, 0xE7109BFBA19C0C9D, 0x400_0000, p, u);
    p, u := Up(73, 0xAC2820D9623BF429, 0x800_0000, p, u);
    p, u := Up(74, 0x80444B5E7AA7CF85, 0x800_0000, p, u);
    p, u := Up(75, 0xBF21E44003ACDD2D, 0x400_0000, p, u);
    p, u := Up(76, 0x8E679C2F5E44FF8F, 0x800_0000, p, u);
    p, u := Up(77, 0xD433179D9C8CB841, 0x400_0000, p, u);
    p, u := Up(78, 0x9E19DB92B4E31BA9, 0x800_0000, p, u);
  }

  lemma {:induction false} From37To28() returns (p: int, u: int)
    ensures Descended(28, p, u)
    ensures p == 1_0000_0000_0000_0000_0000_0000_0000_0000_0000_0000_0000_0000_0000_0000_0000_0000_0000_0000_0000
    ensures u == 0x1_000000000000000_0000000000000000_0000000000000000_0000000000000000_0000000000000000
  {
    p, u := 10000, 0x20000000000000000000;
    FirstDown();
    hide Descended, Accurate;
    p, u := Down(36, 0x8CBCCC096F5088CC, 0x400_0000, p, u);
    p, u := Down(35, 0xBCE5086492111AEB, 0x800_0000, p, u);
    p, u := Down(34, 0xFD87B5F28300CA0E, 0x800_0000, p, u);
    p, u := Down(33, 0xAA242499697392D3, 0x400_0000, p, u);
    p, u := Down(32, 0xE45C10C42A2B3B06, 0x800_0000, p, u);
    p, u := Down(31, 0x993FE2C6D07B7FAC, 0x400_0000, p, u);
    p, u := Down(30, 0xCDB02555653131B6, 0x800_0000, p, u);
    p, u := Down(29, 0x8A08F0F8BF0F156B, 0x400_0000, p, u);
    p, u := Down(28, 0xB94470938FA89BCF, 0x800_0000, p, u);
  }

  lemma {:induction false} From28To18(p0: int, u0: int) returns (p: int, u: int)
    requires p0 == 1_0000_0000_0000_0000_0000_0000_0000_0000_0000_0000_0000_0000_0000_0000_0000_0000_0000_0000_0000
    requires u0 == 0x1_000000000000000_0000000000000000_0000000000000000_0000000000000000_0000000000000000
    requires Descended(28, p0, u0)
    ensures Descended(18, p, u)
    ensures p == 1_0000_0000_0000_0000_0000_0000_0000_0000_0000_0000_0000_0000_0000_0000_0000_0000_0000_0000_0000_0000_0000_0000_0000_0000_0000_0000_0000_0000_0000_0000_0000_0000_0000_0000_0000_0000_0000_0000_0000
    ensures u == 0x4_0_0000000000000000_0000000000000000_0000000000000000_0000000000000000_0000000000000000_0000000000000000_0000000000000000_0000000000000000_0000000000000000
  {
    p, u := p0, u0;
    hide Descended, Accurate;
    p, u := Down(27, 0xF8A95FCF88747D94, 0x800_0000, p, u);
    p, u := Down(26, 0xA6DFBD9FB8E5B88F, 0x400_0000, p, u);
    p, u := Down(25, 0xDFF9772470297EBD, 0x800_0000, p, u);
    p, u := Down(24, 0x964E858C91BA2655, 0x400_0000, p, u);
    p, u := Down(23, 0xC9BCFF6034C13053, 0x800_0000, p, u);
    p, u := Down(22, 0x87625F056C7C4A8B, 0x400_0000, p, u);
    p, u := Down(21, 0xB5B5ADA8AAFF80B8, 0x800_0000, p, u);
    p, u := Down(20, 0xF3E2F893DEC3F126, 0x800_0000, p, u);
    p, u := Down(19, 0xA3AB66580D5FDAF6, 0x400_0000, p, u);
    p, u := Down(18, 0xDBAC6C247D62A584, 0x800_0000, p, u);
  }

  lemma {:induction false} From18To9(p0: int, u0: int) returns (p: int, u: int)
    requires p0 == 1_0000_0000_0000_0000_0000_0000_0000_0000_0000_0000_0000_0000_0000_0000_0000_0000_0000_0000_0000_0000_0000_0000_0000_0000_0000_0000_0000_0000_0000_0000_0000_0000_0000_0000_0000_0000_0000_0000_0000
    requires u0 == 0x4_0_0000000000000000_0000000000000000_0000000000000000_0000000000000000_0000000000000000_0000000000000000_0000000000000000_0000000000000000_0000000000000000
    requires Descended(18, p0, u0)
    ensures Descended(9, p, u)
    ensures p == 1_0000_0000_0000_0000_0000_0000_0000_0000_0000_0000_0000_0000_0000_0000_0000_0000_0000_0000_0000_0000_0000_0000_0000_0000_0000_0000_0000_0000_0000_0000_0000_0000_0000_0000_0000_0000_0000_0000_0000_0000_0000_0000_0000_0000_0000_0000_0000_0000_0000_0000_0000_0000_0000_0000_0000_0000_0000
    ensures u == 0x2_0000000000000_0000000000000000_0000000000000000_0000000000000000_0000000000000000_0000000000000000_0000000000000000_0000000000000000_0000000000000000_0000000000000000_0000000000000000_0000000000000000_0000000000000000
  {
    p, u := p0, u0;
    hide Descended, Accurate;
    p, u := Down(17, 0x936B9FCEBB25C996, 0x400_0000, p, u);
    p, u := Down(16, 0xC5DD44271AD3CDBA, 0x800_0000, p, u);
    p, u := Down(15, 0x84C8D4DFD2C63F3B, 0x400_0000, p, u);
    p, u := Down(14, 0xB23867FB2A35B28E, 0x800_0000, p, u);
    p, u := Down(13, 0xEF340A98172AACE5, 0x800_0000, p, u);
    p, u := Down(12, 0xA086CFCD97BF97F4, 0x400_0000, p, u);
    p, u := Down(11, 0xD77485CB25823AC7, 0x800_0000, p, u);
    p, u := Down(10, 0x9096EA6F3848984F, 0x400_0000, p, u);
    p, u := Down(9, 0xC21094364DFB5637, 0x800_0000, p, u);
  }

  lemma {:induction false} From9To0(p0: int, u0: int) returns (p: int, u: int)
    requires p0 == 1_0000_0000_0000_0000_0000_0000_0000_0000_0000_0000_0000_0000_0000_0000_0000_0000_0000_0000_0000_0000_0000_0000_0000_0000_0000_0000_0000_0000_0000_0000_0000_0000_0000_0000_0000_0000_0000_0000_0000_0000_0000_0000_0000_0000_0000_0000_0000_0000_0000_0000_0000_0000_0000_0000_0000_0000_0000
    requires u0 == 0x2_0000000000000_0000000000000000_0000000000000000_0000000000000000_0000000000000000_0000000000000000_0000000000000000_0000000000000000_0000000000000000_0000000000000000_0000000000000000_0000000000000000_0000000000000000
    requires Descended(9, p0, u0)
    ensures Descended(0, p, u)
  {
    p, u := p0, u0;
    hide Descended, Accurate;
    p, u := Down(8, 0x823C12795DB6CE57, 0x400_0000, p, u);
    p, u := Down(7, 0xAECC49914078536D, 0x800_0000, p, u);
    p, u := Down(6, 0xEA9C227723EE8BCB, 0x800_0000, p, u);
    p, u := Down(5, 0x9D71AC8FADA6C9B5, 0x400_0000, p, u);
    p, u := Down(4, 0xD3515C2831559A83, 0x800_0000, p, u);
    p, u := Down(3, 0x8DD01FAD907FFC3C, 0x400_0000, p, u);
    p, u := Down(2, 0xBE5691EF416BD60C, 0x800_0000, p, u);
    p, u := Down(1, 0xFF77B1FCBEBCDC4F, 0x800_0000, p, u);
    p, u := Down(0, 0xAB70FE17C79AC6CA, 0x400_0000, p, u);
  }

  /** Every entry of the table is within half a unit in its last place of its power of ten. */
  lemma {:induction false} TableAccurate(i: nat)
    requires i < TABLE_SIZE
    ensures Accurate(Cached(i))
  {
    var p, u := From38To58();
    p, u := From58To68(p, u);
    p, u := From68To78(p, u);
    var q, v := From37To28();
    q, v := From28To18(q, v);
    q, v := From18To9(q, v);
    q, v := From9To0(q, v);
  }

  // ---- choosing an entry

  /** C++ integer division, which truncates toward zero. */
  function TruncDiv(a: int, b: int): int
    requires b > 0
  {
    if a >= 0 then a / b else -(-a / b)
  }

  function CachedIndex(e: int): int {
    var f := ALPHA - e - 1;
    var k := TruncDiv(f * 78913, 0x4_0000) + (if f > 0 then 1 else 0);
    TruncDiv(-MIN_DEC_EXP + k + (DEC_STEP - 1), DEC_STEP)
  }

  /**
    For every exponent that a normalized double can have, the index lies in the table and the entry
    brings the exponent of the product into the range that digit generation needs.
   */
  lemma {:induction false} IndexFits(e: int)
    requires -1137 <= e <= 960
    ensures 0 <= CachedIndex(e) < TABLE_SIZE
    ensures ALPHA <= Cached(CachedIndex(e)).e + e + 64 <= -34
  {
    var i := CachedIndex(e);
    TableShape(i);
    hide Cached;
  }

  function CachedPowerFor(e: int): (c: CachedPower)
    requires -1137 <= e <= 960
    ensures ALPHA <= c.e + e + 64 <= GAMMA
    ensures TWO_63 <= c.f && Accurate(c)
  {
    IndexFits(e);
    TableShape(CachedIndex(e));
    TableAccurate(CachedIndex(e));
    Cached(CachedIndex(e))
  }
}
