/**
  UBJSON byte by byte: the documented markers, the three forms of containers, what the reader makes of
  messages that the writer never writes, and which messages it rejects.
 */
module UbjsonLaws {
  import opened Arith
  import opened Buffers
  import opened Decimal
  import opened J = Json
  import opened Binary
  import opened Ubjson
  import Doubles

  // ---- the table

  /** A number with its marker: the narrowest of int8, uint8, int16, int32 and int64, in two's complement. */
  predicate NumberForm(mark: byte, payload: bytes, n: int)
    requires -0x8000_0000_0000_0000 <= n < 0x8000_0000_0000_0000
  {
    if -128 <= n <= 127 then mark == 'i' as int && payload == BigEndian(n % 0x100, 1)
    else if 128 <= n <= 255 then mark == 'U' as int && payload == BigEndian(n, 1)
    else if -32768 <= n <= 32767 then mark == 'I' as int && payload == BigEndian(n % 0x1_0000, 2)
    else if -2147483648 <= n <= 2147483647 then mark == 'l' as int && payload == BigEndian(n % 0x1_0000_0000, 4)
    else mark == 'L' as int && payload == BigEndian(n % 0x1_0000_0000_0000_0000, 8)
  }

  lemma {:induction false} NumberIs(n: int)
    requires -TWO_63 <= n < TWO_63
    ensures NumberForm(NumberPrefix(n), NumberPayload(n), n)
  {
    Capacities();
    hide BigEndian, Capacity;
  }

  /** A size or the length of a string. */
  predicate CountForm(h: bytes, n: nat)
    requires n < 0x8000_0000_0000_0000
  {
    h != [] && NumberForm(h[0], h[1..], n)
  }

  lemma {:induction false} SizeIs(n: nat)
    requires n < TWO_63
    ensures CountForm(Size(n), n)
  {
    NumberIs(n);
    hide NumberForm, NumberPrefix, NumberPayload;
    assert Size(n)[1..] == NumberPayload(n);
  }

  predicate TextForm(e: bytes, s: bytes)
    requires |s| < 0x8000_0000_0000_0000
  {
    |s| <= |e| && CountForm(e[..|e| - |s|], |s|) && e[|e| - |s|..] == s
  }

  lemma {:induction false} TextIs(s: bytes)
    requires |s| < TWO_63
    ensures TextForm(Text(s), s)
  {
    SizeIs(|s|);
    hide Size, CountForm;
    var h := Size(|s|);
    assert (h + s)[..|h|] == h && (h + s)[|h|..] == s;
  }

  /** The marker and payload of a value that is no container, by the table. */
  predicate TableRow(v: Json, mark: byte, payload: bytes)
    requires Writable(v, Plain)
  {
    match v
    case Null => mark == 'Z' as int && payload == []
    case Bool(b) => mark == (if b then 'T' as int else 'F' as int) && payload == []
    case Integer(i) => NumberForm(mark, payload, i)
    case Unsigned(u) => NumberForm(mark, payload, u)
    case Float(bits) => mark == 'D' as int && payload == BigEndian(bits, 8)
    case String(s) => mark == 'S' as int && TextForm(payload, s)
    case _ => false
  }

  lemma {:induction false} Table(v: Json, mode: Mode)
    requires !v.Array? && !v.Object? && Writable(v, mode)
    ensures TableRow(v, Prefix(v), Payload(v, mode))
    ensures Encode(v, mode) == [Prefix(v)] + Payload(v, mode)
  {
    hide NumberForm, NumberPrefix, NumberPayload, TextForm, Text, BigEndian;
    match v
    case Integer(i) => NumberIs(i);
    case Unsigned(u) => NumberIs(u);
    case String(s) => TextIs(s);
    case _ =>
  }

  function ElementParts(a: seq<Json>, mode: Mode, marked: bool): seq<bytes> {
    seq(|a|, j requires 0 <= j < |a| => (if marked then [Prefix(a[j])] else []) + Payload(a[j], mode))
  }

  lemma {:induction false} ElementsJoined(v: Json, i: nat, mode: Mode, marked: bool)
    requires v.Array? && i <= |v.a|
    ensures Elements(v, i, mode, marked) == Joined(ElementParts(v.a[i..], mode, marked))
    decreases |v.a| - i
  {
    hide Prefix, Payload;
    if i < |v.a| {
      ElementsJoined(v, i + 1, mode, marked);
      assert v.a[i..][1..] == v.a[i + 1..];
      assert ElementParts(v.a[i..], mode, marked)[1..] == ElementParts(v.a[i + 1..], mode, marked);
    }
  }

  /** All values have the given marker. */
  predicate OneMark(values: seq<Json>, mark: byte) {
    forall j | 0 <= j < |values| :: Prefix(values[j]) == mark
  }

  /**
    What stands between '[' or '{' and the items: nothing in plain form, '#' and the size in counted form;
    in typed form '$' and the common marker in front of them, if there are items and they have one.
   */
  predicate FrontForm(front: bytes, values: seq<Json>, n: nat, mode: Mode, marked: bool)
    requires n < 0x8000_0000_0000_0000
  {
    match mode
    case Plain => front == [] && marked
    case Counted => front != [] && front[0] == '#' as int && CountForm(front[1..], n) && marked
    case Typed =>
      if values != [] && OneMark(values, Prefix(values[0])) then
        && !marked && |front| > 3 && front[0] == '$' as int && front[1] == Prefix(values[0])
        && front[2] == '#' as int && CountForm(front[3..], n)
      else front != [] && front[0] == '#' as int && CountForm(front[1..], n) && marked
  }

  lemma {:induction false} FrontIs(values: seq<Json>, n: nat, mode: Mode)
    requires n < TWO_63
    ensures var typed := CommonType(values, mode);
            FrontForm(ContainerHead(typed, n, mode), values, n, mode, typed.None?)
  {
    SizeIs(n);
    hide Size, CountForm, Prefix;
    var typed := CommonType(values, mode);
    var h := ContainerHead(typed, n, mode);
    if mode.Typed? && typed.Some? {
      assert h == [MARK_TYPE, typed.value] + ([MARK_COUNT] + Size(n));
      assert h[3..] == Size(n);
      assert CountForm(Size(n), n) ==> Size(n) != [] by {
        CountNotEmpty(Size(n), n);
      }
    } else if !mode.Plain? {
      assert h == [MARK_COUNT] + Size(n);
      assert h[1..] == Size(n);
    } else {
      assert h == [];
    }
  }

  lemma {:induction false} CountNotEmpty(h: bytes, n: nat)
    requires n < TWO_63
    ensures CountForm(h, n) ==> h != []
  {
    hide NumberForm;
  }

  /** An array: its front, its elements, and the closing marker in plain form. */
  lemma {:induction false} ArrayTable(v: Json, mode: Mode) returns (front: bytes, marked: bool)
    requires v.Array? && Writable(v, mode) && |v.a| < TWO_63
    ensures FrontForm(front, v.a, |v.a|, mode, marked)
    ensures Encode(v, mode) == ['[' as int] + (front + Joined(ElementParts(v.a, mode, marked)) + if mode.Plain? then [']' as int] else [])
  {
    var typed := CommonType(v.a, mode);
    front, marked := ContainerHead(typed, |v.a|, mode), typed.None?;
    hide FrontForm, CommonType, ContainerHead, Elements, ElementParts;
    FrontIs(v.a, |v.a|, mode);
    ElementsJoined(v, 0, mode, marked);
    assert v.a[0..] == v.a;
  }

  function MemberParts(o: map<bytes, Json>, keys: seq<bytes>, mode: Mode, marked: bool): seq<bytes>
    requires forall k | k in keys :: k in o
  {
    if keys == [] then []
    else
      var v := o[keys[0]];
      [Text(keys[0]) + ((if marked then [Prefix(v)] else []) + Payload(v, mode))] + MemberParts(o, keys[1..], mode, marked)
  }

  lemma {:induction false} MembersJoined(v: Json, keys: seq<bytes>, mode: Mode, marked: bool)
    requires v.Object? && forall k | k in keys :: k in v.o
    ensures Members(v, keys, mode, marked) == Joined(MemberParts(v.o, keys, mode, marked))
    decreases |keys|
  {
    hide Text, Prefix, Payload;
    if keys != [] {
      MembersJoined(v, keys[1..], mode, marked);
      assert MemberParts(v.o, keys, mode, marked)[1..] == MemberParts(v.o, keys[1..], mode, marked);
    }
  }

  /** An object: the same, with the members in key order, each a length, the key's bytes and a value. */
  lemma {:induction false} ObjectTable(v: Json, mode: Mode) returns (front: bytes, marked: bool, keys: seq<bytes>)
    requires v.Object? && Writable(v, mode) && |v.o| < TWO_63
    ensures InKeyOrder(keys, v.o) && FrontForm(front, Values(v.o, keys), |v.o|, mode, marked)
    ensures Encode(v, mode) ==
            ['{' as int] + (front + Joined(MemberParts(v.o, keys, mode, marked)) + if mode.Plain? then ['}' as int] else [])
  {
    keys := Sorted(v.o.Keys);
    var typed := CommonType(Values(v.o, keys), mode);
    front, marked := ContainerHead(typed, |v.o|, mode), typed.None?;
    hide FrontForm, CommonType, ContainerHead, Members, MemberParts, Values, Sorted, InKeyOrder, Less, Writable;
    SortedInKeyOrder(v.o);
    FrontIs(Values(v.o, keys), |v.o|, mode);
    MembersJoined(v, keys, mode, marked);
  }

  // ---- messages that are not written

  /** Single precision, by sign and value, infinity and NaN included. */
  lemma {:induction false} ShortFloats(n: nat, rest: bytes)
    requires n < 0x1_0000_0000
    ensures exists r: uint64 :: Decode(['d' as int] + (BigEndian(n, 4) + rest)) == Got(Float(r), rest) && IsSingle(n, r)
  {
    SingleRead(n, rest);
    DecodeMarked(MARK_FLOAT32, BigEndian(n, 4) + rest);
    SingleWidened(n);
    hide Decode, DecodeAt, IsSingle, SingleToDouble;
  }

  lemma {:induction false} SingleRead(n: nat, rest: bytes)
    requires n < 0x1_0000_0000
    ensures DecodeAt(MARK_FLOAT32, BigEndian(n, 4) + rest) == Got(Float(SingleToDouble(n)), rest)
  {
    hide ReadString, ReadInteger, FromBigEndian, BigEndian, ReadArray, ReadObject, SingleToDouble;
    Capacities();
    TakeWritten(n, 4, rest);
  }

  /** A character is a string of one byte, in ASCII only. */
  lemma {:induction false} Characters(c: byte, rest: bytes)
    ensures Decode(['C' as int] + ([c] + rest)) == if c < 0x80 then Got(String([c]), rest) else Broken(PARSE_ERROR_113)
    ensures Decode(['C' as int]) == Broken(PARSE_ERROR_110)
  {
    hide ReadString, ReadInteger, ReadArray, ReadObject, TakeNumber, SingleToDouble;
    DecodeMarked(MARK_CHAR, [c] + rest);
    DecodeMarked(MARK_CHAR, []);
    assert ([c] + rest)[1..] == rest && ['C' as int] + [] == ['C' as int];
  }

  /** No-ops in front of a value are skipped. */
  lemma {:induction false} NoOps(s: bytes)
    ensures Decode(['N' as int] + s) == Decode(s)
  {
    hide DecodeAt;
    assert (['N' as int] + s)[1..] == s;
  }

  /** No-ops between a type and its count are skipped as well. */
  lemma {:induction false} NoOpsInside(c: byte, s: bytes)
    ensures ReadSizeType(['$' as int, c, 'N' as int] + s) == ReadSizeType(['$' as int, c] + s)
  {
    hide ReadSize;
    var t, u := ['$' as int, c, 'N' as int] + s, ['$' as int, c] + s;
    assert t[2..] == [MARK_NOOP] + s && u[2..] == s && ([MARK_NOOP] + s)[1..] == s;
    assert SkipNoop(t) == t && SkipNoop(u) == u;
  }

  /** Integers under every marker that can hold them; only 'U' gives an unsigned one. */
  lemma {:induction false} WideIntegers(mark: byte, w: nat, n: int, s: bytes)
    requires (mark, w) in [('i' as int, 1), ('U' as int, 1), ('I' as int, 2), ('l' as int, 4), ('L' as int, 8)]
    requires if mark == 'U' as int then 0 <= n < 0x100 else 0 - Capacity(w) <= 2 * n < Capacity(w)
    ensures -TWO_63 <= n < TWO_63
    ensures Decode([mark] + (BigEndian(TwosComplement(n, w), w) + s))
         == Got(if mark == 'U' as int then Unsigned(n) else Integer(n), s)
  {
    hide FromBigEndian, BigEndian, ReadArray, ReadObject, ReadString, Decode;
    Capacities();
    TakeWritten(TwosComplement(n, w), w, s);
    DecodeMarked(mark, BigEndian(TwosComplement(n, w), w) + s);
  }

  /** Whatever number comes behind the count marker is the size. */
  lemma {:induction false} Sizes(s: bytes, size: Json, rest: bytes, typed: Option<byte>)
    requires Decode(s) == Got(size, rest)
    ensures size.Unsigned? ==> ReadSize(s, typed) == Got(Sized(size.u, typed), rest)
    ensures size.Integer? && size.i >= 0 ==> ReadSize(s, typed) == Got(Sized(size.i, typed), rest)
    ensures size.Float? ==> ReadSize(s, typed) == match FloatSize(size.bits) case Ok(n) => Got(Sized(n, typed), rest) case Err(id) => Broken(id)
  {
    hide Decode;
  }

  /** A negative length of a string counts as none. */
  lemma {:induction false} Lengths(mark: byte, s: bytes, n: int, rest: bytes)
    requires IsIntegerMark(mark) && ReadInteger(mark, s) == Got(n, rest)
    ensures var r := ReadString([mark] + s);
            && (n < 0 ==> r == Got([], rest))
            && (0 <= n <= |rest| ==> r == Got(rest[..n], rest[n..]))
            && (n > |rest| ==> r == Broken(PARSE_ERROR_110))
  {
    hide ReadInteger;
    assert ([mark] + s)[1..] == s;
  }

  /** An array of a given number of no-ops is empty; a type of zero is none. */
  lemma {:induction false} OddTypes(n: nat, body: bytes)
    requires n <= MAX_ARRAY
    ensures ReadArray(['$' as int, 'N' as int] + (['#' as int] + (Size(n) + body))) == Got(Array([]), body)
    ensures ReadArray(['$' as int, 0] + (['#' as int] + (Size(n) + body))) == ReadItems(n, None, body, [])
  {
    ReadTyped(MARK_NOOP, n, body);
    ReadZeroTyped(n, body);
    hide ReadSizeType, Size, ReadItems, ReadItemsToEnd;
  }

  lemma {:induction false} ReadZeroTyped(n: nat, body: bytes)
    requires n < TWO_63
    ensures ReadSizeType([MARK_TYPE, 0] + ([MARK_COUNT] + (Size(n) + body))) == Got(Sized(n, None), body)
  {
    ReadCount(n, None, body);
    hide ReadSize, Size;
    var counted := [MARK_COUNT] + (Size(n) + body);
    assert counted[1..] == Size(n) + body && SkipNoop(counted) == counted;
    var s := [MARK_TYPE, 0] + counted;
    assert s[2..] == counted && SkipNoop(s) == s;
  }

  /** A size that is no number, or a negative one. */
  lemma {:induction false} OddSizes(size: Json, s: bytes, rest: bytes)
    requires Decode(s) == Got(size, rest)
    ensures !size.Integer? && !size.Unsigned? && !size.Float? ==>
              ReadArray(['#' as int] + s) == Broken(TYPE_ERROR_302) && ReadObject(['#' as int] + s) == Broken(TYPE_ERROR_302)
    ensures size.Integer? && size.i < -1 ==>
              ReadArray(['#' as int] + s) == Broken(OUT_OF_RANGE_408) && ReadObject(['#' as int] + s) == Broken(OUT_OF_RANGE_408)
    ensures size == Integer(-1) ==>
              ReadArray(['#' as int] + s) == Broken(PARSE_ERROR_112) && ReadObject(['#' as int] + s) == Broken(PARSE_ERROR_113)
  {
    hide Decode, ReadItems, ReadItemsToEnd, ReadPairs, ReadPairsToEnd, FloatSize;
    var t := ['#' as int] + s;
    assert t[1..] == s && SkipNoop(t) == t;
    assert ReadSizeType(t) == ReadSize(s, None);
  }

  lemma {:induction false} FloorOfPower(m: nat, e: int)
    ensures Truncated(m, e) as real <= Scaled(m, e) < (Truncated(m, e) + 1) as real
  {
    hide R2, Pow;
    if e >= 0 {
      R2OfNat(e);
      WholeProduct(m, Pow2(e));
    } else {
      var p := Pow2(-e);
      R2OfNat(-e);
      R2Add(e, -e);
      assert R2(0) == 1.0 by {
        R2OfNat(0);
        OneIsPower();
      }
      Floor(m, p, R2(e));
    }
  }

  lemma {:induction false} OneIsPower()
    ensures Pow2(0) == 1
  {}

  lemma {:induction false} WholeProduct(m: nat, p: nat)
    ensures (m * p) as real == m as real * p as real
  {}

  lemma {:induction false} Floor(m: nat, p: nat, r: real)
    requires p > 0 && r > 0.0 && r * p as real == 1.0
    ensures (m / p) as real <= m as real * r < (m / p + 1) as real
  {
    Bracketed(m, m / p, p, (m / p) * p, r);
  }

  lemma {:induction false} Bracketed(m: nat, q: nat, p: nat, qp: nat, r: real)
    requires r > 0.0 && r * p as real == 1.0 && qp == q * p && qp <= m < qp + p
    ensures q as real <= m as real * r < (q + 1) as real
  {
    assert (q + 1) * p == qp + p;
    TakenOut(q, p, qp, r);
    TakenOut(q + 1, p, qp + p, r);
    RMulLe(qp as real, m as real, r);
    RMulLt(m as real, (qp + p) as real, r);
  }

  lemma {:induction false} TakenOut(q: nat, p: nat, qp: nat, r: real)
    requires r * p as real == 1.0 && qp == q * p
    ensures qp as real * r == q as real
  {
    assert qp as real == q as real * p as real;
    RMulAssoc(q as real, p as real, r);
  }

  /** A float as a size is cut to an integer, if that is a size. */
  lemma {:induction false} FloatSizes(bits: uint64, n: nat)
    ensures FloatSize(bits) == Ok(n) <==>
            && bits % TWO_63 < Doubles.INFINITY
            && n as real <= Doubles.Value(bits % TWO_63) < (n + 1) as real
            && n < if bits < TWO_63 then 0x1_0000_0000_0000_0000 else 1
  {
    hide Truncated, Scaled, Doubles.Value, Doubles.Decompose;
    var magnitude := bits % TWO_63;
    if magnitude < Doubles.INFINITY {
      var d := Doubles.Decompose(magnitude);
      FloorOfPower(d.f, d.e);
      ValueScaled(magnitude);
      SameFloor(Truncated(d.f, d.e), n, Doubles.Value(magnitude));
    }
  }

  lemma {:induction false} ValueScaled(magnitude: nat)
    requires magnitude <= Doubles.INFINITY
    ensures var d := Doubles.Decompose(magnitude); Doubles.Value(magnitude) == Scaled(d.f, d.e)
  {}

  lemma {:induction false} SameFloor(t: nat, n: nat, x: real)
    requires t as real <= x < (t + 1) as real
    ensures n as real <= x < (n + 1) as real <==> n == t
  {
    if n as real <= x < (n + 1) as real {
      assert n < t + 1 && t < n + 1;
    }
  }

  /** Markers that start a value. */
  predicate Supported(c: byte) {
    c in ['Z' as int, 'T' as int, 'F' as int, 'i' as int, 'U' as int, 'I' as int, 'l' as int, 'L' as int,
          'd' as int, 'D' as int, 'C' as int, 'S' as int, '[' as int, '{' as int]
  }

  lemma {:induction false} Rejected(s: bytes)
    ensures s == [] ==> Decode(s) == Broken(PARSE_ERROR_110) && ReadString(s) == Broken(PARSE_ERROR_110)
    ensures s != [] && !Supported(s[0]) && s[0] != 'N' as int ==> Decode(s) == Broken(PARSE_ERROR_112)
    ensures s != [] && s[0] !in ['i' as int, 'U' as int, 'I' as int, 'l' as int, 'L' as int] ==> ReadString(s) == Broken(PARSE_ERROR_113)
  {
    hide ReadInteger, ReadArray, ReadObject, TakeNumber, SingleToDouble;
  }

  // ---- keys that occur again

  function EntryBytes(e: Entry): bytes {
    Text(e.k) + Encode(e.v, Plain)
  }

  function EntriesBytes(members: seq<Entry>): bytes {
    if members == [] then [] else EntryBytes(members[0]) + EntriesBytes(members[1..])
  }

  predicate AllWritable(members: seq<Entry>) {
    forall e | e in members :: |e.k| < TWO_63 && Writable(e.v, Plain)
  }

  function Read(e: Entry): Entry {
    Entry(e.k, Norm(e.v))
  }

  function ReadAll(members: seq<Entry>): seq<Entry> {
    if members == [] then [] else [Read(members[0])] + ReadAll(members[1..])
  }

  lemma {:induction false} EntryRead(e: Entry, rest: bytes)
    requires |e.k| < TWO_63 && Writable(e.v, Plain)
    ensures ReadPair(None, EntryBytes(e) + rest) == Got(Pair(e.k, Norm(e.v)), rest)
    ensures EntryBytes(e) != [] && IsIntegerMark(EntryBytes(e)[0])
  {
    hide ReadString, Text, Decode, Encode, Norm, Writable;
    ReadText(e.k, Encode(e.v, Plain) + rest);
    DecodeEncode(e.v, Plain, rest);
    assert EntryBytes(e) + rest == Text(e.k) + (Encode(e.v, Plain) + rest);
    assert EntryBytes(e)[0] == Text(e.k)[0];
  }

  lemma {:induction false} SizedRead(members: seq<Entry>, done: map<bytes, Json>, rest: bytes)
    requires AllWritable(members)
    ensures ReadPairs(|members|, None, EntriesBytes(members) + rest, done) == Got(Object(FirstWins(ReadAll(members)) + done), rest)
    decreases |members|
  {
    hide ReadPair, Norm, EntryBytes, FirstWins, Writable;
    if members == [] {
      assert EntriesBytes(members) + rest == rest;
      NoneWins(done);
    } else {
      var e, more := members[0], EntriesBytes(members[1..]) + rest;
      EntryRead(e, more);
      assert EntriesBytes(members) + rest == EntryBytes(e) + more;
      SizedRead(members[1..], Emplace(done, e.k, Norm(e.v)), rest);
      assert ReadAll(members)[1..] == ReadAll(members[1..]);
      FirstWinsStep(ReadAll(members), done);
    }
  }

  /** With a size the first of several members with one key counts, */
  lemma {:induction false} SizedObject(members: seq<Entry>, rest: bytes)
    requires AllWritable(members) && |members| <= MAX_OBJECT
    ensures ReadObject(['#' as int] + (Size(|members|) + (EntriesBytes(members) + rest))) ==
            Got(Object(FirstWins(ReadAll(members))), rest)
  {
    hide Size, EntriesBytes, ReadSizeType, ReadPairs, ReadPairsToEnd, FirstWins, ReadAll, AllWritable;
    ReadCounted(|members|, EntriesBytes(members) + rest);
    SizedRead(members, map[], rest);
    assert FirstWins(ReadAll(members)) + map[] == FirstWins(ReadAll(members));
  }

  lemma {:induction false} PlainRead(members: seq<Entry>, done: map<bytes, Json>, rest: bytes)
    requires AllWritable(members)
    ensures ReadPairsToEnd(EntriesBytes(members) + (['}' as int] + rest), done) ==
            Got(Object(done + LastWins(ReadAll(members))), rest)
    decreases |members|
  {
    hide ReadPair, Norm, EntryBytes, LastWins, Writable;
    var end := [MARK_OBJECT_END] + rest;
    if members == [] {
      assert EntriesBytes(members) + end == end && end[1..] == rest && SkipNoop(end) == end;
      NoneWins(done);
    } else {
      var e, more := members[0], EntriesBytes(members[1..]) + end;
      EntryRead(e, more);
      var s := EntriesBytes(members) + end;
      assert s == EntryBytes(e) + more;
      assert s[0] == EntryBytes(e)[0] && SkipNoop(s) == s;
      PlainRead(members[1..], done[e.k := Norm(e.v)], rest);
      assert ReadAll(members)[1..] == ReadAll(members[1..]);
      LastWinsStep(ReadAll(members), done);
    }
  }

  /** and without one the last. */
  lemma {:induction false} PlainObjects(members: seq<Entry>, rest: bytes)
    requires AllWritable(members)
    ensures ReadObject(EntriesBytes(members) + (['}' as int] + rest)) == Got(Object(LastWins(ReadAll(members))), rest)
  {
    var s := EntriesBytes(members) + (['}' as int] + rest);
    PlainRead(members, map[], rest);
    assert map[] + LastWins(ReadAll(members)) == LastWins(ReadAll(members));
    if members != [] {
      EntryRead(members[0], []);
      assert s[0] == EntryBytes(members[0])[0];
    } else {
      assert s[0] == '}' as int;
    }
    hide ReadPairsToEnd, ReadSize, EntryBytes, EntriesBytes, LastWins, ReadAll, AllWritable;
    assert SkipNoop(s) == s;
  }

  // ---- messages that are cut off

  /** More input changes the outcome only if the input was too short, possibly behind a type. */
  predicate Grows<T(==)>(g: Got<T>, h: Got<T>, x: bytes) {
    match g
    case Broken(id) => id == PARSE_ERROR_110 || id == PARSE_ERROR_112 || h == Broken(id)
    case Got(v, rest) => h == Got(v, rest + x)
  }

  lemma {:induction false} SkipGrows(s: bytes, x: bytes)
    ensures SkipNoop(s) != [] ==> SkipNoop(s + x) == SkipNoop(s) + x
    decreases |s|
  {
    if s != [] {
      TailExtends(s, x);
      SkipGrows(s[1..], x);
    }
  }

  lemma {:induction false} IntegerGrows(mark: byte, s: bytes, x: bytes)
    requires IsIntegerMark(mark)
    ensures Extends(ReadInteger(mark, s), ReadInteger(mark, s + x), x)
  {
    hide TakeNumber;
    TakeExtends(s, Width(mark), x);
  }

  lemma {:induction false} StringGrows(s: bytes, x: bytes)
    ensures Extends(ReadString(s), ReadString(s + x), x)
  {
    hide ReadInteger, TakeBytes;
    TailExtends(s, x);
    if s != [] && IsIntegerMark(s[0]) {
      IntegerGrows(s[0], s[1..], x);
      var g := ReadInteger(s[0], s[1..]);
      if g.Got? {
        TakeExtends(g.rest, if g.v < 0 then 0 else g.v, x);
      }
    }
  }

  lemma {:induction false} SizeGrows(s: bytes, typed: Option<byte>, x: bytes)
    ensures Grows(ReadSize(s, typed), ReadSize(s + x, typed), x)
    decreases |s|, 1
  {
    hide Decode, ToSize;
    DecodeGrows(s, x);
  }

  lemma {:induction false} SizeTypeGrows(s: bytes, x: bytes)
    requires SkipNoop(s) != []
    ensures Grows(ReadSizeType(s), ReadSizeType(s + x), x)
    decreases |s|, 2
  {
    hide ReadSize;
    SkipGrows(s, x);
    var t := SkipNoop(s);
    TailExtends(t, x);
    if t[0] == MARK_TYPE {
      if |t| > 1 {
        assert (t + x)[1] == t[1] && (t + x)[2..] == t[2..] + x;
        SkipGrows(t[2..], x);
        var u := SkipNoop(t[2..]);
        TailExtends(u, x);
        if u != [] && u[0] == MARK_COUNT {
          SizeGrows(u[1..], TypeOf(t[1]), x);
        }
      }
    } else if t[0] == MARK_COUNT {
      SizeGrows(t[1..], None, x);
    }
  }

  lemma {:induction false} DecodeAtGrows(c: byte, s: bytes, x: bytes)
    ensures Grows(DecodeAt(c, s), DecodeAt(c, s + x), x)
    decreases |s|, 4
  {
    hide ReadString, ReadInteger, ReadArray, ReadObject, TakeNumber, SingleToDouble;
    if c == MARK_ARRAY {
      ArrayGrows(s, x);
    } else if c == MARK_OBJECT {
      ObjectGrows(s, x);
    } else if IsIntegerMark(c) {
      IntegerGrows(c, s, x);
    } else {
      TailExtends(s, x);
      StringGrows(s, x);
      TakeExtends(s, 4, x);
      TakeExtends(s, 8, x);
    }
  }

  /** More input changes nothing but an error for a short one. */
  lemma {:induction false} DecodeGrows(s: bytes, x: bytes)
    ensures Grows(Decode(s), Decode(s + x), x)
    decreases |s|, 0
  {
    hide DecodeAt;
    SkipGrows(s, x);
    var t := SkipNoop(s);
    if t != [] {
      TailExtends(t, x);
      DecodeAtGrows(t[0], t[1..], x);
    }
  }

  lemma {:induction false} NothingLeft(s: bytes)
    requires SkipNoop(s) == []
    ensures ReadArray(s) == Broken(PARSE_ERROR_110) && ReadObject(s) == Broken(PARSE_ERROR_110)
    ensures ReadItemsToEnd(s, []) == Broken(PARSE_ERROR_110)
  {
    hide DecodeAt;
  }

  lemma {:induction false} ArrayGrows(s: bytes, x: bytes)
    ensures Grows(ReadArray(s), ReadArray(s + x), x)
    decreases |s|, 3
  {
    if SkipNoop(s) == [] {
      NothingLeft(s);
    } else {
      hide ReadSizeType, ReadItems, ReadItemsToEnd, SkipNoop;
      SizeTypeGrows(s, x);
      var g := ReadSizeType(s);
      if g.Got? {
        match g.v
        case Unsized => ItemsToEndGrow(g.rest, [], x);
        case Sized(n, typed) => ItemsGrow(n, typed, g.rest, [], x);
      }
    }
  }

  lemma {:induction false} ItemGrows(typed: Option<byte>, s: bytes, x: bytes)
    ensures Grows(ReadItem(typed, s), ReadItem(typed, s + x), x)
    decreases |s|, 5
  {
    hide Decode, DecodeAt;
    match typed
    case None => DecodeGrows(s, x);
    case Some(c) => DecodeAtGrows(c, s, x);
  }

  lemma {:induction false} ItemsGrow(n: nat, typed: Option<byte>, s: bytes, done: seq<Json>, x: bytes)
    ensures Grows(ReadItems(n, typed, s, done), ReadItems(n, typed, s + x, done), x)
    decreases |s|, 6, n
  {
    hide ReadItem;
    if n != 0 {
      ItemGrows(typed, s, x);
      var g := ReadItem(typed, s);
      if g.Got? {
        ItemsGrow(n - 1, typed, g.rest, done + [g.v], x);
      }
    }
  }

  lemma {:induction false} ItemsToEndGrow(s: bytes, done: seq<Json>, x: bytes)
    ensures Grows(ReadItemsToEnd(s, done), ReadItemsToEnd(s + x, done), x)
    decreases |s|, 1
  {
    hide Decode;
    SkipGrows(s, x);
    var t := SkipNoop(s);
    TailExtends(t, x);
    if t == [] {
      Rejected(t);
    } else if t[0] != MARK_ARRAY_END {
      DecodeGrows(t, x);
      var g := Decode(t);
      if g.Got? {
        ItemsToEndGrow(g.rest, done + [g.v], x);
      }
    }
  }

  lemma {:induction false} ObjectGrows(s: bytes, x: bytes)
    ensures Grows(ReadObject(s), ReadObject(s + x), x)
    decreases |s|, 3
  {
    if SkipNoop(s) == [] {
      NothingLeft(s);
    } else {
      hide ReadSizeType, ReadPairs, ReadPairsToEnd, SkipNoop;
      SizeTypeGrows(s, x);
      var g := ReadSizeType(s);
      if g.Got? {
        match g.v
        case Unsized => PairsToEndGrow(g.rest, map[], x);
        case Sized(n, typed) => PairsGrow(n, typed, g.rest, map[], x);
      }
    }
  }

  lemma {:induction false} PairGrows(typed: Option<byte>, s: bytes, x: bytes)
    ensures Grows(ReadPair(typed, s), ReadPair(typed, s + x), x)
    decreases |s|, 1
  {
    hide ReadItem, ReadString;
    StringGrows(s, x);
    if ReadString(s).Got? {
      ItemGrows(typed, ReadString(s).rest, x);
    }
  }

  lemma {:induction false} PairsGrow(n: nat, typed: Option<byte>, s: bytes, done: map<bytes, Json>, x: bytes)
    ensures Grows(ReadPairs(n, typed, s, done), ReadPairs(n, typed, s + x, done), x)
    decreases |s|, 2
  {
    hide ReadPair, Emplace;
    if n != 0 {
      PairGrows(typed, s, x);
      var g := ReadPair(typed, s);
      if g.Got? {
        PairsGrow(n - 1, typed, g.rest, Emplace(done, g.v.k, g.v.v), x);
      }
    }
  }

  lemma {:induction false} PairsToEndGrow(s: bytes, done: map<bytes, Json>, x: bytes)
    ensures Grows(ReadPairsToEnd(s, done), ReadPairsToEnd(s + x, done), x)
    decreases |s|, 2
  {
    SkipGrows(s, x);
    var t := SkipNoop(s);
    TailExtends(t, x);
    if t == [] {
      NoPair();
    } else if t[0] != MARK_OBJECT_END {
      hide ReadPair, SkipNoop;
      PairGrows(None, t, x);
      var g := ReadPair(None, t);
      if g.Got? {
        PairsToEndGrow(g.rest, done[g.v.k := g.v.v], x);
      }
    }
  }

  lemma {:induction false} NoPair()
    ensures ReadPair(None, []) == Broken(PARSE_ERROR_110)
  {
    hide ReadItem;
  }

  /** Every message that is cut off is rejected. */
  lemma {:induction false} CutOff(v: Json, mode: Mode, n: nat)
    requires Writable(v, mode) && Restorable(v, mode) && n < |Encode(v, mode)|
    ensures Decode(Encode(v, mode)[..n]) in [Broken(PARSE_ERROR_110), Broken(PARSE_ERROR_112)]
  {
    var s := Encode(v, mode);
    hide Decode, Encode, Writable, Restorable, Norm;
    DecodeEncode(v, mode, []);
    assert s + [] == s && s[..n] + s[n..] == s;
    assert |s[n..]| > 0;
    DecodeGrows(s[..n], s[n..]);
  }

  /** Behind a type the end of the input is not told from a missing '#'. */
  lemma {:induction false} CutBehindType()
    ensures Decode(['[' as int, '$' as int, 'T' as int]) == Broken(PARSE_ERROR_112)
  {
    var s := ['[' as int, '$' as int, 'T' as int];
    assert s[1..] == ['$' as int, 'T' as int] && s[1..][2..] == [];
    hide ReadItems, ReadItemsToEnd, ReadSize;
    assert ReadSizeType(s[1..]) == Broken(PARSE_ERROR_112);
    assert ReadArray(s[1..]) == Broken(PARSE_ERROR_112);
    assert DecodeAt(MARK_ARRAY, s[1..]) == ReadArray(s[1..]);
  }

  /** In strict mode a message has to end where its value ends, but for no-ops; otherwise what follows does not matter. */
  lemma {:induction false} TrailingBytes(s: bytes, v: Json, x: bytes)
    requires Decode(s) == Got(v, []) && x != []
    ensures Parse(s, true) == Ok(v) && Parse(s + x, false) == Ok(v)
    ensures Parse(s + x, true) == if forall i | 0 <= i < |x| :: x[i] == 'N' as int then Ok(v) else Err(PARSE_ERROR_110)
  {
    DecodeGrows(s, x);
    OnlyNoOps(x);
    hide Decode;
    assert [] + x == x;
  }

  lemma {:induction false} OnlyNoOps(x: bytes)
    ensures SkipNoop(x) == [] <==> forall i | 0 <= i < |x| :: x[i] == 'N' as int
    decreases |x|
  {
    if x != [] {
      OnlyNoOps(x[1..]);
      assert forall i | 1 <= i < |x| :: x[i] == x[1..][i - 1];
    }
  }
}
