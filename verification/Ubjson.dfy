/**
  UBJSON: one writer with three forms of containers (plain, counted, counted and typed), one reader for
  all of them, and the round trip.
 */
module Ubjson {
  import opened Arith
  import opened Buffers
  import opened Decimal
  import opened J = Json
  import opened Binary
  import Doubles

  // ---- markers

  const MARK_NULL: byte := 'Z' as int
  const MARK_TRUE: byte := 'T' as int
  const MARK_FALSE: byte := 'F' as int
  const MARK_INT8: byte := 'i' as int
  const MARK_UINT8: byte := 'U' as int
  const MARK_INT16: byte := 'I' as int
  const MARK_INT32: byte := 'l' as int
  const MARK_INT64: byte := 'L' as int
  const MARK_FLOAT32: byte := 'd' as int
  const MARK_FLOAT64: byte := 'D' as int
  const MARK_CHAR: byte := 'C' as int
  const MARK_STRING: byte := 'S' as int
  const MARK_ARRAY: byte := '[' as int
  const MARK_ARRAY_END: byte := ']' as int
  const MARK_OBJECT: byte := '{' as int
  const MARK_OBJECT_END: byte := '}' as int
  const MARK_TYPE: byte := '$' as int
  const MARK_COUNT: byte := '#' as int
  const MARK_NOOP: byte := 'N' as int

  // ---- the writer, as a function

  /** use_count and use_type; the second without the first is not allowed. */
  datatype Mode = Plain | Counted | Typed

  /** The smallest of int8, uint8, int16, int32 and int64 that holds the number; int64 also for larger ones. */
  function NumberPrefix(n: int): byte {
    if -0x80 <= n <= 0x7F then MARK_INT8
    else if 0 <= n <= 0xFF then MARK_UINT8
    else if -0x8000 <= n <= 0x7FFF then MARK_INT16
    else if -0x8000_0000 <= n <= 0x7FFF_FFFF then MARK_INT32
    else MARK_INT64
  }

  function Width(mark: byte): nat {
    if mark == MARK_INT8 || mark == MARK_UINT8 then 1
    else if mark == MARK_INT16 then 2
    else if mark == MARK_INT32 then 4
    else 8
  }

  /** The number without its prefix. */
  function NumberPayload(n: int): bytes
    requires -TWO_63 <= n < TWO_64
  {
    Capacities();
    var w := Width(NumberPrefix(n));
    BigEndian(TwosComplement(n, w), w)
  }

  function Prefix(v: Json): byte {
    match v
    case Null => MARK_NULL
    case Bool(b) => if b then MARK_TRUE else MARK_FALSE
    case Integer(i) => NumberPrefix(i)
    case Unsigned(u) => NumberPrefix(u)
    case Float(_) => MARK_FLOAT64
    case String(_) => MARK_STRING
    case Array(_) => MARK_ARRAY
    case Object(_) => MARK_OBJECT
  }

  /** A size, with its prefix. */
  function Count(n: nat): bytes
    requires n < TWO_64
  {
    [NumberPrefix(n)] + NumberPayload(n)
  }

  /** Sizes beyond 64 bits do not occur. */
  function Size(n: nat): bytes {
    if n < TWO_64 then Count(n) else []
  }

  function Text(s: bytes): bytes {
    Size(|s|) + s
  }

  /** The common prefix of all elements, in typed mode. */
  predicate SamePrefix(a: seq<Json>) {
    forall i | 0 <= i < |a| :: Prefix(a[i]) == Prefix(a[0])
  }

  /** The values of an object, in key order. */
  function Values(o: map<bytes, Json>, keys: seq<bytes>): (r: seq<Json>)
    requires forall k | k in keys :: k in o
    ensures |r| == |keys|
  {
    seq(|keys|, i requires 0 <= i < |keys| => o[keys[i]])
  }

  /** The type marker shared by all the values, if it is used. */
  function CommonType(values: seq<Json>, mode: Mode): Option<byte> {
    if mode.Typed? && values != [] && SamePrefix(values) then Some(Prefix(values[0])) else None
  }

  function ContainerHead(typed: Option<byte>, n: nat, mode: Mode): bytes {
    (if typed.Some? then [MARK_TYPE, typed.value] else []) + (if mode.Plain? then [] else [MARK_COUNT] + Size(n))
  }

  function Payload(v: Json, mode: Mode): bytes
    decreases v, 1
  {
    match v
    case Null => []
    case Bool(_) => []
    case Integer(i) => NumberPayload(i)
    case Unsigned(u) => NumberPayload(u)
    case Float(bits) => BigEndian(bits, 8)
    case String(s) => Text(s)
    case Array(a) =>
      var typed := CommonType(a, mode);
      ContainerHead(typed, |a|, mode) + Elements(v, 0, mode, typed.None?) + (if mode.Plain? then [MARK_ARRAY_END] else [])
    case Object(o) =>
      var keys := Sorted(o.Keys);
      var typed := CommonType(Values(o, keys), mode);
      ContainerHead(typed, |o|, mode) + Members(v, keys, mode, typed.None?) + (if mode.Plain? then [MARK_OBJECT_END] else [])
  }

  function Encode(v: Json, mode: Mode, addPrefix: bool := true): bytes
    decreases v, 2
  {
    (if addPrefix then [Prefix(v)] else []) + Payload(v, mode)
  }

  /** The elements from i on. */
  function Elements(v: Json, i: nat, mode: Mode, addPrefix: bool): bytes
    requires v.Array? && i <= |v.a|
    decreases v, 0, |v.a| - i
  {
    if i == |v.a| then [] else Encode(v.a[i], mode, addPrefix) + Elements(v, i + 1, mode, addPrefix)
  }

  function Members(v: Json, keys: seq<bytes>, mode: Mode, addPrefix: bool): bytes
    requires v.Object? && forall k | k in keys :: k in v.o
    decreases v, 0, |keys|
  {
    if keys == [] then []
    else Text(keys[0]) + Encode(v.o[keys[0]], mode, addPrefix) + Members(v, keys[1..], mode, addPrefix)
  }

  /** What can be written without an exception: every integer and every size that is written fits int64. */
  predicate Writable(v: Json, mode: Mode) {
    match v
    case Unsigned(u) => u < TWO_63
    case String(s) => |s| < TWO_63
    case Array(a) => (mode.Plain? || |a| < TWO_63) && forall i | 0 <= i < |a| :: Writable(a[i], mode)
    case Object(o) => (mode.Plain? || |o| < TWO_63) && forall k | k in o :: |k| < TWO_63 && Writable(o[k], mode)
    case _ => true
  }

  // ---- the reader, as functions of the input

  function SkipNoop(s: bytes): (r: bytes)
    ensures |r| <= |s| && (r == [] || r[0] != MARK_NOOP)
  {
    if s != [] && s[0] == MARK_NOOP then SkipNoop(s[1..]) else s
  }

  predicate IsIntegerMark(c: byte) {
    c == MARK_UINT8 || c == MARK_INT8 || c == MARK_INT16 || c == MARK_INT32 || c == MARK_INT64
  }

  function ReadInteger(mark: byte, rest: bytes): (r: Got<int>)
    requires IsIntegerMark(mark)
    ensures r.Got? ==> |r.rest| < |rest| && -TWO_63 <= r.v < TWO_63 && (mark == MARK_UINT8 ==> r.v >= 0)
  {
    Capacities();
    match TakeNumber(rest, Width(mark))
    case Broken(id) => Broken(id)
    case Got(n, more) => Got(if mark == MARK_UINT8 then n else Signed(n, Width(mark)), more)
  }

  /** A string from its length marker on; a negative length reads nothing. */
  function ReadString(s: bytes): (r: Got<bytes>)
    ensures r.Got? ==> |r.rest| < |s|
  {
    if s == [] then Broken(PARSE_ERROR_110)
    else if !IsIntegerMark(s[0]) then Broken(PARSE_ERROR_113)
    else
      match ReadInteger(s[0], s[1..])
      case Broken(id) => Broken(id)
      case Got(n, rest) => TakeBytes(rest, if n < 0 then 0 else n)
  }

  /** Conversion of a double to an unsigned number; out of range it is undefined. */
  const UNDEFINED := -5

  function Truncated(m: nat, e: int): nat {
    if e >= 0 then ShiftLeft(m, e) else m / Pow2(-e)
  }

  function FloatSize(bits: uint64): Result<nat> {
    var magnitude := bits % TWO_63;
    if magnitude >= Doubles.INFINITY then Err(UNDEFINED)
    else
      var d := Doubles.Decompose(magnitude);
      var n := Truncated(d.f, d.e);
      if n < (if bits < TWO_63 then TWO_64 else 1) then Ok(n) else Err(UNDEFINED)
  }

  /** A value that is used as a size: negative integers wrap around. */
  function ToSize(v: Json): Result<nat> {
    match v
    case Unsigned(u) => Ok(u)
    case Integer(i) => Ok(if i < 0 then i + TWO_64 else i)
    case Float(bits) => FloatSize(bits)
    case _ => Err(TYPE_ERROR_302)
  }

  datatype SizeType = Sized(n: nat, typed: Option<byte>) | Unsized

  /** std::string::npos, which stands for an absent size. */
  const NPOS := TWO_64 - 1
  /** max_size() of arrays and of objects: what fits half the address space, at 16 and at 80 bytes for an item. */
  const MAX_ARRAY := 0x7FFF_FFFF_FFFF_FFFF / 16
  const MAX_OBJECT := 0x7FFF_FFFF_FFFF_FFFF / 80

  /** The size behind '#'. */
  function ReadSize(s: bytes, typed: Option<byte>): (r: Got<SizeType>)
    ensures r.Got? ==> r.v.Sized? && |r.rest| < |s|
    decreases |s|, 1
  {
    match Decode(s)
    case Broken(id) => Broken(id)
    case Got(v, rest) =>
      match ToSize(v)
      case Err(id) => Broken(id)
      case Ok(n) => Got(Sized(n, typed), rest)
  }

  /** The type byte of a container; zero stands for no type. */
  function TypeOf(c: byte): Option<byte> {
    if c == 0 then None else Some(c)
  }

  /** The optional type and size of a container; without them the input stays in front of the first item. */
  function ReadSizeType(s0: bytes): (r: Got<SizeType>)
    ensures r.Got? ==> |r.rest| <= |s0| && (r.v.Sized? ==> |r.rest| < |s0|)
    decreases |s0|, 2
  {
    var s := SkipNoop(s0);
    if s != [] && s[0] == MARK_TYPE then
      if |s| == 1 then Broken(PARSE_ERROR_110)
      else
        var t := SkipNoop(s[2..]);
        if t == [] || t[0] != MARK_COUNT then Broken(PARSE_ERROR_112) else ReadSize(t[1..], TypeOf(s[1]))
    else if s != [] && s[0] == MARK_COUNT then ReadSize(s[1..], None)
    else Got(Unsized, s)
  }

  /** A value whose marker is known. */
  function DecodeAt(c: byte, rest: bytes): (r: Got<Json>)
    ensures r.Got? ==> |r.rest| <= |rest|
    decreases |rest|, 4
  {
    Capacities();
    if c == MARK_TRUE then Got(Bool(true), rest)
    else if c == MARK_FALSE then Got(Bool(false), rest)
    else if c == MARK_NULL then Got(Null, rest)
    else if IsIntegerMark(c) then
      match ReadInteger(c, rest)
      case Broken(id) => Broken(id)
      case Got(n, more) => Got(if c == MARK_UINT8 then Unsigned(n) else Integer(n), more)
    else if c == MARK_FLOAT32 then
      match TakeNumber(rest, 4)
      case Broken(id) => Broken(id)
      case Got(n, more) => Got(Float(SingleToDouble(n)), more)
    else if c == MARK_FLOAT64 then
      match TakeNumber(rest, 8)
      case Broken(id) => Broken(id)
      case Got(n, more) => Got(Float(n), more)
    else if c == MARK_CHAR then
      if rest == [] then Broken(PARSE_ERROR_110)
      else if rest[0] > 127 then Broken(PARSE_ERROR_113)
      else Got(String([rest[0]]), rest[1..])
    else if c == MARK_STRING then
      match ReadString(rest)
      case Broken(id) => Broken(id)
      case Got(t, more) => Got(String(t), more)
    else if c == MARK_ARRAY then ReadArray(rest)
    else if c == MARK_OBJECT then ReadObject(rest)
    else Broken(PARSE_ERROR_112)
  }

  /** A value with its marker; no-ops in front of it are skipped. */
  function Decode(s: bytes): (r: Got<Json>)
    ensures r.Got? ==> |r.rest| < |s|
    decreases |s|, 0
  {
    var t := SkipNoop(s);
    if t == [] then Broken(PARSE_ERROR_110) else DecodeAt(t[0], t[1..])
  }

  function ReadArray(s: bytes): (r: Got<Json>)
    ensures r.Got? ==> |r.rest| <= |s|
    decreases |s|, 3
  {
    match ReadSizeType(s)
    case Broken(id) => Broken(id)
    case Got(Unsized, rest) => ReadItemsToEnd(rest, [])
    case Got(Sized(n, typed), rest) =>
      if n == NPOS then Broken(PARSE_ERROR_112)
      else if n > MAX_ARRAY then Broken(OUT_OF_RANGE_408)
      else if typed == Some(MARK_NOOP) then Got(Array([]), rest)
      else ReadItems(n, typed, rest, [])
  }

  /** An item: its marker is the common one, if there is one. */
  function ReadItem(typed: Option<byte>, s: bytes): (r: Got<Json>)
    ensures r.Got? ==> |r.rest| <= |s|
    decreases |s|, 5
  {
    match typed
    case None => Decode(s)
    case Some(c) => DecodeAt(c, s)
  }

  function ReadItems(n: nat, typed: Option<byte>, s: bytes, done: seq<Json>): (r: Got<Json>)
    ensures r.Got? ==> |r.rest| <= |s|
    decreases |s|, 6, n
  {
    if n == 0 then Got(Array(done), s)
    else
      match ReadItem(typed, s)
      case Broken(id) => Broken(id)
      case Got(v, rest) => ReadItems(n - 1, typed, rest, done + [v])
  }

  function ReadItemsToEnd(s: bytes, done: seq<Json>): (r: Got<Json>)
    ensures r.Got? ==> |r.rest| <= |s|
    decreases |s|, 1
  {
    var t := SkipNoop(s);
    if t != [] && t[0] == MARK_ARRAY_END then Got(Array(done), t[1..])
    else
      match Decode(t)
      case Broken(id) => Broken(id)
      case Got(v, rest) => ReadItemsToEnd(rest, done + [v])
  }

  function ReadObject(s: bytes): (r: Got<Json>)
    ensures r.Got? ==> |r.rest| <= |s|
    decreases |s|, 3
  {
    match ReadSizeType(s)
    case Broken(id) => Broken(id)
    case Got(Unsized, rest) => ReadPairsToEnd(rest, map[])
    case Got(Sized(n, typed), rest) =>
      if n == NPOS then Broken(PARSE_ERROR_113)
      else if n > MAX_OBJECT then Broken(OUT_OF_RANGE_408)
      else ReadPairs(n, typed, rest, map[])
  }

  datatype Pair = Pair(k: bytes, v: Json)

  function ReadPair(typed: Option<byte>, s: bytes): (r: Got<Pair>)
    ensures r.Got? ==> |r.rest| < |s|
    decreases |s|, 1
  {
    match ReadString(s)
    case Broken(id) => Broken(id)
    case Got(k, rest) =>
      match ReadItem(typed, rest)
      case Broken(id) => Broken(id)
      case Got(v, more) => Got(Pair(k, v), more)
  }

  /** With a size, a key that occurs again is ignored; */
  function ReadPairs(n: nat, typed: Option<byte>, s: bytes, done: map<bytes, Json>): (r: Got<Json>)
    ensures r.Got? ==> |r.rest| <= |s|
    decreases |s|, 2
  {
    if n == 0 then Got(Object(done), s)
    else
      match ReadPair(typed, s)
      case Broken(id) => Broken(id)
      case Got(p, rest) => ReadPairs(n - 1, typed, rest, Emplace(done, p.k, p.v))
  }

  /** without, it replaces the earlier one. */
  function ReadPairsToEnd(s: bytes, done: map<bytes, Json>): (r: Got<Json>)
    ensures r.Got? ==> |r.rest| <= |s|
    decreases |s|, 2
  {
    var t := SkipNoop(s);
    if t != [] && t[0] == MARK_OBJECT_END then Got(Object(done), t[1..])
    else
      match ReadPair(None, t)
      case Broken(id) => Broken(id)
      case Got(p, rest) => ReadPairsToEnd(rest, done[p.k := p.v])
  }

  // ---- numbers, sizes and strings

  lemma {:induction false} ReadNumberWritten(n: int, rest: bytes)
    requires -TWO_63 <= n < TWO_63
    ensures IsIntegerMark(NumberPrefix(n)) && ReadInteger(NumberPrefix(n), NumberPayload(n) + rest) == Got(n, rest)
  {
    Capacities();
    hide BigEndian, FromBigEndian, Capacity;
    var w := Width(NumberPrefix(n));
    if NumberPrefix(n) == MARK_UINT8 {
      TakeWritten(n, 1, rest);
    } else {
      SignedRoundTrip(n, w);
      TakeWritten(TwosComplement(n, w), w, rest);
    }
  }

  /** The kinds that the reader gives to integers. */
  function Kinds(n: int): bool {
    0x80 <= n <= 0xFF
  }

  function Norm(v: Json): Json {
    Renumber(v, Kinds)
  }

  lemma {:induction false} DecodeNumber(n: int, rest: bytes)
    requires -TWO_63 <= n < TWO_63
    ensures DecodeAt(NumberPrefix(n), NumberPayload(n) + rest) == Got(if Kinds(n) then Unsigned(n) else Integer(n), rest)
  {
    hide ReadInteger, NumberPayload, ReadArray, ReadObject, ReadString, SingleToDouble, Capacity;
    ReadNumberWritten(n, rest);
    UnsignedMark(n);
    hide NumberPrefix;
  }

  lemma {:induction false} UnsignedMark(n: int)
    ensures NumberPrefix(n) == MARK_UINT8 <==> Kinds(n)
  {}

  /** A marker in front of a value: no no-op, so nothing is skipped. */
  lemma {:induction false} DecodeMarked(c: byte, rest: bytes)
    requires c != MARK_NOOP
    ensures Decode([c] + rest) == DecodeAt(c, rest) && SkipNoop([c] + rest) == [c] + rest
  {
    hide DecodeAt;
    assert ([c] + rest)[1..] == rest;
  }

  lemma {:induction false} ReadCount(n: nat, typed: Option<byte>, rest: bytes)
    requires n < TWO_63
    ensures ReadSize(Size(n) + rest, typed) == Got(Sized(n, typed), rest)
  {
    DecodeNumber(n, rest);
    DecodeMarked(NumberPrefix(n), NumberPayload(n) + rest);
    hide Decode, DecodeAt, NumberPayload;
    Regroup([NumberPrefix(n)], NumberPayload(n), rest);
  }

  lemma {:induction false} ReadText(t: bytes, rest: bytes)
    requires |t| < TWO_63
    ensures Text(t) != [] && IsIntegerMark(Text(t)[0]) && ReadString(Text(t) + rest) == Got(t, rest)
  {
    ReadNumberWritten(|t|, t + rest);
    hide ReadInteger, NumberPayload, NumberPrefix;
    TextParts([NumberPrefix(|t|)], NumberPayload(|t|), t, rest);
    TakeText(t, rest);
  }

  lemma {:induction false} TextParts(p: bytes, n: bytes, t: bytes, rest: bytes)
    requires |p| == 1
    ensures var s := p + n + t + rest; s[0] == p[0] && s[1..] == n + (t + rest)
  {}

  lemma {:induction false} ReadCounted(n: nat, body: bytes)
    requires n < TWO_63
    ensures ReadSizeType([MARK_COUNT] + (Size(n) + body)) == Got(Sized(n, None), body)
  {
    ReadCount(n, None, body);
    hide ReadSize, Size;
    var counted := [MARK_COUNT] + (Size(n) + body);
    assert counted[1..] == Size(n) + body && SkipNoop(counted) == counted;
  }

  lemma {:induction false} ReadTyped(c: byte, n: nat, body: bytes)
    requires n < TWO_63 && c != 0
    ensures ReadSizeType([MARK_TYPE, c] + ([MARK_COUNT] + (Size(n) + body))) == Got(Sized(n, Some(c)), body)
  {
    ReadCount(n, Some(c), body);
    hide ReadSize, Size;
    var counted := [MARK_COUNT] + (Size(n) + body);
    assert counted[1..] == Size(n) + body && SkipNoop(counted) == counted;
    var s := [MARK_TYPE, c] + counted;
    assert s[2..] == counted && SkipNoop(s) == s;
  }

  lemma {:induction false} ReadHead(typed: Option<byte>, n: nat, mode: Mode, body: bytes)
    requires n < TWO_63 && !mode.Plain? && typed != Some(0)
    ensures ReadSizeType(ContainerHead(typed, n, mode) + body) == Got(Sized(n, typed), body)
  {
    hide ReadSizeType, Size;
    var counted := [MARK_COUNT] + (Size(n) + body);
    if typed.None? {
      ReadCounted(n, body);
      assert ContainerHead(typed, n, mode) + body == counted;
    } else {
      ReadTyped(typed.value, n, body);
      assert ContainerHead(typed, n, mode) + body == [MARK_TYPE, typed.value] + counted;
    }
  }

  // ---- the round trip

  /** No container is longer than max_size(). */
  predicate SizesFit(v: Json) {
    match v
    case Array(a) => |a| <= MAX_ARRAY && forall i | 0 <= i < |a| :: SizesFit(a[i])
    case Object(o) => |o| <= MAX_OBJECT && forall k | k in o :: SizesFit(o[k])
    case _ => true
  }

  /** The reader compares sizes with max_size() only where they are written. */
  predicate Restorable(v: Json, mode: Mode) {
    mode.Plain? || SizesFit(v)
  }

  /** What reading what was written gives: the value, or the exception for an excessive size. */
  function ReadBack(v: Json, mode: Mode, rest: bytes): Got<Json> {
    if Restorable(v, mode) then Got(Norm(v), rest) else Broken(OUT_OF_RANGE_408)
  }

  lemma {:induction false} PrefixIsMarker(v: Json)
    ensures Prefix(v) !in {0, MARK_NOOP, MARK_TYPE, MARK_COUNT, MARK_ARRAY_END, MARK_OBJECT_END}
  {}

  lemma {:induction false} DecodePayload(v: Json, mode: Mode, rest: bytes)
    requires Writable(v, mode)
    ensures DecodeAt(Prefix(v), Payload(v, mode) + rest) == ReadBack(v, mode, rest)
    decreases v, 1
  {
    hide DecodeAt, Payload, Norm, Writable;
    match v
    case Array(a) => ArrayRead(v, mode, rest);
    case Object(o) => ObjectRead(v, mode, rest);
    case _ => PrimitiveRead(v, mode, rest);
  }

  lemma {:induction false} PrimitiveRead(v: Json, mode: Mode, rest: bytes)
    requires Writable(v, mode) && !v.Array? && !v.Object?
    ensures DecodeAt(Prefix(v), Payload(v, mode) + rest) == Got(Norm(v), rest)
  {
    Capacities();
    hide NumberPayload, ReadString, Text, BigEndian, ReadInteger, NumberPrefix, Capacity;
    match v
    case Null => assert [] + rest == rest;
    case Bool(_) => assert [] + rest == rest;
    case Integer(i) =>
      DecodeNumber(i, rest);
      IntegerKinds(v, i);
    case Unsigned(u) =>
      DecodeNumber(u, rest);
      IntegerKinds(v, u);
    case Float(bits) => TakeWritten(bits, 8, rest);
    case String(s) => ReadText(s, rest);
  }

  lemma {:induction false} IntegerKinds(v: Json, n: int)
    requires ((v.Integer? && n == v.i) || (v.Unsigned? && n == v.u)) && n < TWO_63
    ensures Norm(v) == if Kinds(n) then Unsigned(n) else Integer(n)
  {}

  /** An item with its own marker, or with the common one. */
  lemma {:induction false} ItemRead(v: Json, mode: Mode, typed: Option<byte>, rest: bytes)
    requires Writable(v, mode) && (typed.Some? ==> typed.value == Prefix(v))
    ensures ReadItem(typed, Encode(v, mode, typed.None?) + rest) == ReadBack(v, mode, rest)
    ensures typed.None? ==> Encode(v, mode) == [Prefix(v)] + Payload(v, mode)
    decreases v, 2
  {
    DecodePayload(v, mode, rest);
    hide DecodeAt, Payload, ReadBack, Decode, Writable, Prefix;
    if typed.None? {
      PrefixIsMarker(v);
      DecodeMarked(Prefix(v), Payload(v, mode) + rest);
      Regroup([Prefix(v)], Payload(v, mode), rest);
    } else {
      assert [] + Payload(v, mode) == Payload(v, mode);
    }
  }

  /** Everything that is written without an exception is read back, or is rejected for its size. */
  lemma {:induction false} DecodeEncode(v: Json, mode: Mode, rest: bytes)
    requires Writable(v, mode)
    ensures Decode(Encode(v, mode) + rest) == ReadBack(v, mode, rest)
  {
    hide Decode, Encode, ReadBack, Writable;
    ItemRead(v, mode, None, rest);
  }

  // ---- arrays

  lemma {:induction false} ArrayRead(v: Json, mode: Mode, rest: bytes)
    requires v.Array? && Writable(v, mode)
    ensures DecodeAt(Prefix(v), Payload(v, mode) + rest) == ReadBack(v, mode, rest)
    decreases v, 0, |v.a| + 2
  {
    RenumberArray(v, Kinds);
    DecodeArray(Payload(v, mode) + rest);
    hide Renumber, RenumberFrom, Writable, Payload, DecodeAt, ReadArray, SizesFit;
    if mode.Plain? {
      PlainArrayRead(v, rest);
    } else {
      SizedArrayRead(v, mode, rest);
    }
  }

  lemma {:induction false} DecodeArray(s: bytes)
    ensures DecodeAt(MARK_ARRAY, s) == ReadArray(s)
  {
    hide ReadArray;
  }

  lemma {:induction false} PlainArrayRead(v: Json, rest: bytes)
    requires v.Array? && Writable(v, Plain)
    ensures ReadArray(Payload(v, Plain) + rest) == Got(Array([] + RenumberFrom(v.a, 0, Kinds)), rest)
    decreases v, 0, |v.a| + 1
  {
    hide Writable, Payload, ReadItemsToEnd, ReadSizeType, Elements, RenumberFrom;
    PlainArray(v, rest);
    FirstElement(v, rest);
    ElementsToEnd(v, 0, [], rest);
  }

  lemma {:induction false} SizedArrayRead(v: Json, mode: Mode, rest: bytes)
    requires v.Array? && Writable(v, mode) && !mode.Plain?
    ensures ReadArray(Payload(v, mode) + rest) ==
            if SizesFit(v) then Got(Array([] + RenumberFrom(v.a, 0, Kinds)), rest) else Broken(OUT_OF_RANGE_408)
    decreases v, 0, |v.a| + 1
  {
    var typed := CommonType(v.a, mode);
    SizedArrayParts(v, mode, rest);
    if |v.a| <= MAX_ARRAY {
      ElementsRead(v, 0, mode, typed, [], rest);
    }
    hide Writable, CommonType, Elements, ReadItems, ReadSizeType, ContainerHead, Payload, RenumberFrom, Prefix;
  }

  lemma {:induction false} SizedArrayParts(v: Json, mode: Mode, rest: bytes)
    requires v.Array? && Writable(v, mode) && !mode.Plain?
    ensures var typed := CommonType(v.a, mode);
            && ReadSizeType(Payload(v, mode) + rest) == Got(Sized(|v.a|, typed), Elements(v, 0, mode, typed.None?) + rest)
            && |v.a| < TWO_63 && typed != Some(MARK_NOOP)
            && (typed.Some? ==> forall i | 0 <= i < |v.a| :: Prefix(v.a[i]) == typed.value)
  {
    hide CommonType, Elements, ReadSizeType, ContainerHead, Payload, Prefix;
    var typed := CommonType(v.a, mode);
    TypedElements(v, mode);
    SizedArray(v, mode, rest);
    ReadHead(typed, |v.a|, mode, Elements(v, 0, mode, typed.None?) + rest);
  }

  lemma {:induction false} TypedElements(v: Json, mode: Mode)
    requires v.Array?
    ensures var typed := CommonType(v.a, mode);
            && (mode.Plain? ==> typed.None?)
            && (typed.Some? ==> typed.value !in {0, MARK_NOOP} && forall i | 0 <= i < |v.a| :: Prefix(v.a[i]) == typed.value)
  {
    hide Prefix;
    if v.a != [] {
      PrefixIsMarker(v.a[0]);
    }
  }

  lemma {:induction false} PlainArray(v: Json, rest: bytes)
    requires v.Array?
    ensures Payload(v, Plain) + rest == Elements(v, 0, Plain, true) + ([MARK_ARRAY_END] + rest)
  {
    hide Elements;
    assert Payload(v, Plain) == [] + [] + Elements(v, 0, Plain, true) + [MARK_ARRAY_END];
  }

  lemma {:induction false} SizedArray(v: Json, mode: Mode, rest: bytes)
    requires v.Array? && !mode.Plain?
    ensures var typed := CommonType(v.a, mode);
            Payload(v, mode) + rest == ContainerHead(typed, |v.a|, mode) + (Elements(v, 0, mode, typed.None?) + rest)
  {
    hide Elements, ContainerHead, CommonType;
    var typed := CommonType(v.a, mode);
    assert Payload(v, mode) == ContainerHead(typed, |v.a|, mode) + Elements(v, 0, mode, typed.None?) + [];
    Regroup(ContainerHead(typed, |v.a|, mode), Elements(v, 0, mode, typed.None?), rest);
  }

  predicate ElementsFit(a: seq<Json>, i: nat) {
    forall j | i <= j < |a| :: SizesFit(a[j])
  }

  lemma {:induction false} ElementsRead(v: Json, i: nat, mode: Mode, typed: Option<byte>, done: seq<Json>, rest: bytes)
    requires v.Array? && Writable(v, mode) && i <= |v.a| && !mode.Plain?
    requires typed.Some? ==> forall j | 0 <= j < |v.a| :: Prefix(v.a[j]) == typed.value
    ensures ReadItems(|v.a| - i, typed, Elements(v, i, mode, typed.None?) + rest, done) ==
            if ElementsFit(v.a, i) then Got(Array(done + RenumberFrom(v.a, i, Kinds)), rest) else Broken(OUT_OF_RANGE_408)
    decreases v, 0, |v.a| - i
  {
    hide ReadItem, Encode, Renumber, Prefix, SizesFit, ElementsFit;
    var items := Elements(v, i, mode, typed.None?);
    ElementsFitStep(v.a, i);
    if i == |v.a| {
      assert items + rest == rest && done + RenumberFrom(v.a, i, Kinds) == done;
    } else {
      var more := Elements(v, i + 1, mode, typed.None?);
      ItemRead(v.a[i], mode, typed, more + rest);
      Regroup(Encode(v.a[i], mode, typed.None?), more, rest);
      ElementsRead(v, i + 1, mode, typed, done + [Norm(v.a[i])], rest);
      assert (done + [Norm(v.a[i])]) + RenumberFrom(v.a, i + 1, Kinds) == done + RenumberFrom(v.a, i, Kinds);
    }
  }

  lemma {:induction false} ElementsFitStep(a: seq<Json>, i: nat)
    ensures i == |a| ==> ElementsFit(a, i)
    ensures i < |a| ==> (ElementsFit(a, i) <==> SizesFit(a[i]) && ElementsFit(a, i + 1))
  {
    hide SizesFit;
  }

  lemma {:induction false} FirstMark(v: Json, i: nat)
    requires v.Array? && i < |v.a|
    ensures Elements(v, i, Plain, true) != [] && Elements(v, i, Plain, true)[0] == Prefix(v.a[i])
  {
    hide Prefix, Payload;
    var more := Elements(v, i + 1, Plain, true);
    assert Encode(v.a[i], Plain) == [Prefix(v.a[i])] + Payload(v.a[i], Plain);
    assert Elements(v, i, Plain, true) == Encode(v.a[i], Plain) + more;
  }

  /** In plain form the first byte is that of a marker or of the end, so the reader sees no size or type. */
  lemma {:induction false} FirstElement(v: Json, rest: bytes)
    requires v.Array?
    ensures var s := Elements(v, 0, Plain, true) + ([MARK_ARRAY_END] + rest);
            SkipNoop(s) == s && ReadSizeType(s) == Got(Unsized, s)
  {
    hide ReadSize, Payload, Encode, Prefix;
    var s := Elements(v, 0, Plain, true) + ([MARK_ARRAY_END] + rest);
    if v.a == [] {
      assert s[0] == MARK_ARRAY_END;
    } else {
      PrefixIsMarker(v.a[0]);
      FirstMark(v, 0);
      hide Elements;
      assert s[0] == Prefix(v.a[0]);
    }
  }

  lemma {:induction false} ElementsToEnd(v: Json, i: nat, done: seq<Json>, rest: bytes)
    requires v.Array? && Writable(v, Plain) && i <= |v.a|
    ensures ReadItemsToEnd(Elements(v, i, Plain, true) + ([MARK_ARRAY_END] + rest), done) ==
            Got(Array(done + RenumberFrom(v.a, i, Kinds)), rest)
    decreases v, 0, |v.a| - i
  {
    hide Decode, Payload, Renumber, Prefix;
    var end := [MARK_ARRAY_END] + rest;
    if i == |v.a| {
      assert Elements(v, i, Plain, true) + end == end && done + RenumberFrom(v.a, i, Kinds) == done;
      assert end[1..] == rest;
    } else {
      var x, more := v.a[i], Elements(v, i + 1, Plain, true);
      var s := Elements(v, i, Plain, true) + end;
      ItemRead(x, Plain, None, more + end);
      Regroup(Encode(x, Plain), more, end);
      PrefixIsMarker(x);
      FirstMark(v, i);
      assert s[0] == Prefix(x) && SkipNoop(s) == s;
      hide Encode;
      ElementsToEnd(v, i + 1, done + [Norm(x)], rest);
      assert (done + [Norm(x)]) + RenumberFrom(v.a, i + 1, Kinds) == done + RenumberFrom(v.a, i, Kinds);
    }
  }

  // ---- objects

  lemma {:induction false} ObjectRead(v: Json, mode: Mode, rest: bytes)
    requires v.Object? && Writable(v, mode)
    ensures DecodeAt(Prefix(v), Payload(v, mode) + rest) == ReadBack(v, mode, rest)
    decreases v, 0, |v.o| + 2
  {
    RenumberObject(v, Kinds);
    DecodeObject(Payload(v, mode) + rest);
    hide Renumber, RenumberMembers, Writable, Payload, DecodeAt, ReadObject, Sorted, SizesFit;
    if mode.Plain? {
      PlainObjectRead(v, rest);
    } else {
      SizedObjectRead(v, mode, rest);
    }
  }

  lemma {:induction false} DecodeObject(s: bytes)
    ensures DecodeAt(MARK_OBJECT, s) == ReadObject(s)
  {
    hide ReadObject;
  }

  lemma {:induction false} PlainObjectRead(v: Json, rest: bytes)
    requires v.Object? && Writable(v, Plain)
    ensures ReadObject(Payload(v, Plain) + rest) == Got(Object(RenumberMembers(v.o, Sorted(v.o.Keys), map[], Kinds)), rest)
    decreases v, 0, |v.o| + 1
  {
    hide Writable, Payload, ReadPairsToEnd, ReadSizeType, Sorted, Members, RenumberMembers;
    PlainObject(v, rest);
    FirstMember(v, rest);
    SortedDistinct(v.o.Keys);
    MembersToEnd(v, Sorted(v.o.Keys), map[], rest);
  }

  lemma {:induction false} SizedObjectRead(v: Json, mode: Mode, rest: bytes)
    requires v.Object? && Writable(v, mode) && !mode.Plain?
    ensures ReadObject(Payload(v, mode) + rest) ==
            if SizesFit(v) then Got(Object(RenumberMembers(v.o, Sorted(v.o.Keys), map[], Kinds)), rest)
            else Broken(OUT_OF_RANGE_408)
    decreases v, 0, |v.o| + 1
  {
    var keys := Sorted(v.o.Keys);
    var typed := CommonType(Values(v.o, keys), mode);
    SizedObjectParts(v, mode, rest);
    if |v.o| <= MAX_OBJECT {
      MembersRead(v, keys, mode, typed, map[], rest);
    }
    ObjectFits(v);
    hide Writable, CommonType, Members, ReadPairs, ReadSizeType, Payload, Sorted, Values, RenumberMembers, Prefix, MembersFit, SizesFit;
  }

  lemma {:induction false} ObjectFits(v: Json)
    requires v.Object?
    ensures SizesFit(v) <==> |v.o| <= MAX_OBJECT && MembersFit(v.o, Sorted(v.o.Keys))
  {
    hide Sorted;
  }

  lemma {:induction false} SizedObjectParts(v: Json, mode: Mode, rest: bytes)
    requires v.Object? && Writable(v, mode) && !mode.Plain?
    ensures var keys := Sorted(v.o.Keys);
            var typed := CommonType(Values(v.o, keys), mode);
            && ReadSizeType(Payload(v, mode) + rest) == Got(Sized(|v.o|, typed), Members(v, keys, mode, typed.None?) + rest)
            && |keys| == |v.o| < TWO_63
            && (typed.Some? ==> forall k | k in keys :: Prefix(v.o[k]) == typed.value)
  {
    hide CommonType, Members, ReadSizeType, ContainerHead, Payload, Sorted, Values, Prefix;
    var keys := Sorted(v.o.Keys);
    var typed := CommonType(Values(v.o, keys), mode);
    TypedMembers(v, mode);
    SizedObject(v, mode, rest);
    ReadHead(typed, |v.o|, mode, Members(v, keys, mode, typed.None?) + rest);
  }

  lemma {:induction false} TypedMembers(v: Json, mode: Mode)
    requires v.Object?
    ensures var keys := Sorted(v.o.Keys);
            var typed := CommonType(Values(v.o, keys), mode);
            && (mode.Plain? ==> typed.None?)
            && (typed.Some? ==> typed.value != 0 && forall k | k in keys :: Prefix(v.o[k]) == typed.value)
  {
    hide Prefix, Sorted;
    var keys := Sorted(v.o.Keys);
    var values := Values(v.o, keys);
    if CommonType(values, mode).Some? {
      forall k | k in keys ensures Prefix(v.o[k]) == Prefix(values[0]) {
        var i :| 0 <= i < |keys| && keys[i] == k;
        assert values[i] == v.o[k];
      }
      PrefixIsMarker(values[0]);
    }
  }

  lemma {:induction false} PlainObject(v: Json, rest: bytes)
    requires v.Object?
    ensures Payload(v, Plain) + rest == Members(v, Sorted(v.o.Keys), Plain, true) + ([MARK_OBJECT_END] + rest)
  {
    hide Members, Sorted, Values;
    assert Payload(v, Plain) == [] + [] + Members(v, Sorted(v.o.Keys), Plain, true) + [MARK_OBJECT_END];
  }

  lemma {:induction false} SizedObject(v: Json, mode: Mode, rest: bytes)
    requires v.Object? && !mode.Plain?
    ensures var keys := Sorted(v.o.Keys);
            var typed := CommonType(Values(v.o, keys), mode);
            Payload(v, mode) + rest == ContainerHead(typed, |v.o|, mode) + (Members(v, keys, mode, typed.None?) + rest)
  {
    hide Members, ContainerHead, CommonType, Sorted, Values;
    var keys := Sorted(v.o.Keys);
    var typed := CommonType(Values(v.o, keys), mode);
    assert Payload(v, mode) == ContainerHead(typed, |v.o|, mode) + Members(v, keys, mode, typed.None?) + [];
    Regroup(ContainerHead(typed, |v.o|, mode), Members(v, keys, mode, typed.None?), rest);
  }

  lemma {:induction false} RegroupPair(a: bytes, b: bytes, c: bytes, d: bytes)
    ensures (a + b + c) + d == a + (b + (c + d))
  {}

  lemma {:induction false} MemberRead(v: Json, k: bytes, mode: Mode, typed: Option<byte>, rest: bytes)
    requires v.Object? && Writable(v, mode) && k in v.o && (typed.Some? ==> typed.value == Prefix(v.o[k]))
    ensures ReadPair(typed, Text(k) + (Encode(v.o[k], mode, typed.None?) + rest)) ==
            if Restorable(v.o[k], mode) then Got(Pair(k, Norm(v.o[k])), rest) else Broken(OUT_OF_RANGE_408)
    ensures Text(k) != [] && IsIntegerMark(Text(k)[0])
    decreases v, 0, 0
  {
    MemberWritable(v, mode, k);
    hide ReadItem, Encode, Renumber, ReadString, Text, Writable, Prefix, Restorable;
    ReadText(k, Encode(v.o[k], mode, typed.None?) + rest);
    ItemRead(v.o[k], mode, typed, rest);
  }

  predicate MembersFit(o: map<bytes, Json>, keys: seq<bytes>)
    requires forall k | k in keys :: k in o
  {
    forall k | k in keys :: SizesFit(o[k])
  }

  lemma {:induction false} MembersFitStep(o: map<bytes, Json>, keys: seq<bytes>)
    requires forall k | k in keys :: k in o
    ensures keys == [] ==> MembersFit(o, keys)
    ensures keys != [] ==> (MembersFit(o, keys) <==> SizesFit(o[keys[0]]) && MembersFit(o, keys[1..]))
  {
    hide SizesFit;
    if keys != [] {
      assert keys == [keys[0]] + keys[1..];
    }
  }

  lemma {:induction false} MembersRead(v: Json, keys: seq<bytes>, mode: Mode, typed: Option<byte>, done: map<bytes, Json>, rest: bytes)
    requires v.Object? && Writable(v, mode) && !mode.Plain? && forall k | k in keys :: k in v.o
    requires typed.Some? ==> forall k | k in keys :: Prefix(v.o[k]) == typed.value
    ensures ReadPairs(|keys|, typed, Members(v, keys, mode, typed.None?) + rest, done) ==
            if MembersFit(v.o, keys) then Got(Object(RenumberMembers(v.o, keys, done, Kinds)), rest)
            else Broken(OUT_OF_RANGE_408)
    decreases v, 0, |keys|
  {
    hide ReadPair, Encode, Renumber, Text, Writable, Prefix, SizesFit, MembersFit;
    MembersFitStep(v.o, keys);
    if keys == [] {
      assert Members(v, keys, mode, typed.None?) + rest == rest;
    } else {
      var k, more := keys[0], Members(v, keys[1..], mode, typed.None?);
      MemberRead(v, k, mode, typed, more + rest);
      RegroupPair(Text(k), Encode(v.o[k], mode, typed.None?), more, rest);
      MembersRead(v, keys[1..], mode, typed, Emplace(done, k, Norm(v.o[k])), rest);
    }
  }

  lemma {:induction false} FirstMember(v: Json, rest: bytes)
    requires v.Object? && Writable(v, Plain)
    ensures var s := Members(v, Sorted(v.o.Keys), Plain, true) + ([MARK_OBJECT_END] + rest);
            SkipNoop(s) == s && ReadSizeType(s) == Got(Unsized, s)
  {
    hide ReadSize, Encode, Sorted, Writable, Text, ReadString;
    var keys := Sorted(v.o.Keys);
    var s := Members(v, keys, Plain, true) + ([MARK_OBJECT_END] + rest);
    if keys == [] {
      assert s[0] == MARK_OBJECT_END;
    } else {
      assert keys[0] in keys;
      MemberWritable(v, Plain, keys[0]);
      ReadText(keys[0], []);
      assert s[0] == Text(keys[0])[0];
    }
  }

  lemma {:induction false} MemberWritable(v: Json, mode: Mode, k: bytes)
    requires v.Object? && Writable(v, mode) && k in v.o
    ensures |k| < TWO_63 && Writable(v.o[k], mode)
  {}

  lemma {:induction false} MembersToEnd(v: Json, keys: seq<bytes>, done: map<bytes, Json>, rest: bytes)
    requires v.Object? && Writable(v, Plain) && (forall k | k in keys :: k in v.o && k !in done) && Distinct(keys)
    ensures ReadPairsToEnd(Members(v, keys, Plain, true) + ([MARK_OBJECT_END] + rest), done) ==
            Got(Object(RenumberMembers(v.o, keys, done, Kinds)), rest)
    decreases v, 0, |keys|
  {
    hide ReadPair, Encode, Renumber, Text, Writable;
    var end := [MARK_OBJECT_END] + rest;
    if keys == [] {
      assert Members(v, keys, Plain, true) + end == end && end[1..] == rest;
    } else {
      var k, more := keys[0], Members(v, keys[1..], Plain, true);
      var s := Members(v, keys, Plain, true) + end;
      MemberRead(v, k, Plain, None, more + end);
      RegroupPair(Text(k), Encode(v.o[k], Plain), more, end);
      assert s[0] == Text(k)[0] && SkipNoop(s) == s;
      assert keys[0] !in keys[1..];
      MembersToEnd(v, keys[1..], done[k := Norm(v.o[k])], rest);
    }
  }

  // ---- whole messages

  /** A message, strictly: only no-ops may follow the value. */
  function Parse(s: bytes, strict: bool): Result<Json> {
    match Decode(s)
    case Broken(id) => Err(id)
    case Got(v, rest) => if strict && SkipNoop(rest) != [] then Err(PARSE_ERROR_110) else Ok(v)
  }

  /** A message is read back exactly if no written size exceeds max_size(). */
  lemma {:induction false} RoundTrip(v: Json, mode: Mode)
    requires Writable(v, mode)
    ensures Parse(Encode(v, mode), true) == if Restorable(v, mode) then Ok(Norm(v)) else Err(OUT_OF_RANGE_408)
    ensures Eq(Norm(v), v) <==> NoNaN(v)
  {
    hide Decode, Encode, Renumber, Writable;
    DecodeEncode(v, mode, []);
    assert Encode(v, mode) + [] == Encode(v, mode);
    RenumberIsEqual(v, Kinds);
  }

  /** Two forms of a value are equivalent for the reader exactly if both or none exceed its sizes. */
  lemma {:induction false} ModesAgree(v: Json, m: Mode, n: Mode, rest: bytes)
    requires Writable(v, m) && Writable(v, n)
    ensures Decode(Encode(v, m) + rest) == Decode(Encode(v, n) + rest) <==> (Restorable(v, m) <==> Restorable(v, n))
  {
    hide Decode, Encode, Writable;
    DecodeEncode(v, m, rest);
    DecodeEncode(v, n, rest);
  }

  lemma {:induction false} NoMark(v: Json, mode: Mode)
    ensures !([0xEF, 0xBB, 0xBF] <= Encode(v, mode))
  {
    hide Payload;
    assert Encode(v, mode)[0] == Prefix(v);
  }

  lemma {:induction false} MembersFrom(v: Json, keys: seq<bytes>, i: nat, mode: Mode, addPrefix: bool)
    requires v.Object? && (forall k | k in keys :: k in v.o) && i < |keys|
    ensures keys[i] in v.o && forall k | k in keys[i..] || k in keys[i + 1..] :: k in v.o
    ensures Members(v, keys[i..], mode, addPrefix) ==
            Text(keys[i]) + Encode(v.o[keys[i]], mode, addPrefix) + Members(v, keys[i + 1..], mode, addPrefix)
  {
    hide Encode, Text;
    assert keys[i] in keys && keys[i..][1..] == keys[i + 1..];
  }

  lemma {:induction false} NoMembers(v: Json, mode: Mode, addPrefix: bool)
    requires v.Object?
    ensures Members(v, [], mode, addPrefix) == []
  {
  }

  // ---- the writer

  class Writer {
    const sink: Sink

    constructor ()
      ensures fresh(sink) && sink.output == []
    {
      sink := new Sink();
    }

    /** false stands for the exception: the number does not fit int64. */
    method WriteNumberWithPrefix(n: int, addPrefix: bool) returns (ok: bool)
      requires -TWO_63 <= n < TWO_64
      modifies sink
      ensures ok == (n < TWO_63)
      ensures ok ==> sink.output == old(sink.output) + ((if addPrefix then [NumberPrefix(n)] else []) + NumberPayload(n))
    {
      Capacities();
      hide BigEndian, Capacity;
      var mark, w;
      if -0x80 <= n <= 0x7F {
        mark, w := MARK_INT8, 1;
      } else if 0 <= n <= 0xFF {
        mark, w := MARK_UINT8, 1;
      } else if -0x8000 <= n <= 0x7FFF {
        mark, w := MARK_INT16, 2;
      } else if -0x8000_0000 <= n <= 0x7FFF_FFFF {
        mark, w := MARK_INT32, 4;
      } else if n < TWO_63 {
        mark, w := MARK_INT64, 8;
      } else {
        return false;
      }
      if addPrefix {
        sink.WriteCharacter(mark);
      }
      sink.WriteNumber(TwosComplement(n, w), w);
      ok := true;
    }

    method WriteText(s: bytes) returns (ok: bool)
      modifies sink
      ensures ok == (|s| < TWO_63)
      ensures ok ==> sink.output == old(sink.output) + Text(s)
    {
      hide NumberPayload;
      ok := |s| < TWO_64;
      if ok {
        ok := WriteNumberWithPrefix(|s|, true);
        sink.WriteCharacters(s);
      }
    }

    method Write(v: Json, mode: Mode, addPrefix: bool := true) returns (ok: bool)
      modifies sink
      ensures ok == Writable(v, mode)
      ensures ok ==> sink.output == old(sink.output) + Encode(v, mode, addPrefix)
      decreases v, 3
    {
      if v.Integer? || v.Unsigned? {
        hide NumberPayload, NumberPrefix;
        ok := WriteNumberWithPrefix(if v.Integer? then v.i else v.u, addPrefix);
      } else {
        hide Payload, Writable;
        EncodeParts(v, mode, addPrefix, sink.output);
        if addPrefix {
          sink.WriteCharacter(Prefix(v));
        }
        ok := WritePayload(v, mode);
      }
    }

    method WritePayload(v: Json, mode: Mode) returns (ok: bool)
      requires !v.Integer? && !v.Unsigned?
      modifies sink
      ensures ok == Writable(v, mode)
      ensures ok ==> sink.output == old(sink.output) + Payload(v, mode)
      decreases v, 2
    {
      hide Text, BigEndian;
      ok := true;
      if v.Float? {
        sink.WriteNumber(v.bits, 8);
      } else if v.String? {
        ok := WriteText(v.s);
      } else if v.Array? {
        ok := WriteArray(v, mode);
      } else if v.Object? {
        ok := WriteObject(v, mode);
      }
    }

    method WriteHead(typed: Option<byte>, n: nat, mode: Mode) returns (ok: bool)
      modifies sink
      ensures ok == (mode.Plain? || n < TWO_63)
      ensures ok ==> sink.output == old(sink.output) + ContainerHead(typed, n, mode)
    {
      hide NumberPayload;
      if typed.Some? {
        sink.WriteCharacter(MARK_TYPE);
        sink.WriteCharacter(typed.value);
      }
      ok := true;
      if !mode.Plain? {
        sink.WriteCharacter(MARK_COUNT);
        ok := n < TWO_64;
        if ok {
          ok := WriteNumberWithPrefix(n, true);
        }
      }
    }

    method WriteArray(v: Json, mode: Mode) returns (ok: bool)
      requires v.Array?
      modifies sink
      ensures ok == Writable(v, mode)
      ensures ok ==> sink.output == old(sink.output) + Payload(v, mode)
      decreases v, 1
    {
      hide ContainerHead, CommonType, Payload, Writable, Elements;
      WritableArray(v, mode);
      var typed := CommonType(v.a, mode);
      ok := WriteHead(typed, |v.a|, mode);
      if !ok {
        return;
      }
      ok := WriteElements(v, mode, typed.None?);
      if !ok {
        return;
      }
      if mode.Plain? {
        sink.WriteCharacter(MARK_ARRAY_END);
      } else {
        assert sink.output + [] == sink.output;
      }
      ArrayParts(v, mode, old(sink.output));
    }

    method WriteElements(v: Json, mode: Mode, addPrefix: bool) returns (ok: bool)
      requires v.Array?
      modifies sink
      ensures ok == forall i | 0 <= i < |v.a| :: Writable(v.a[i], mode)
      ensures ok ==> sink.output == old(sink.output) + Elements(v, 0, mode, addPrefix)
      decreases v, 0, 1
    {
      hide Encode, Writable;
      ghost var start := sink.output;
      for i := 0 to |v.a|
        invariant forall j | 0 <= j < i :: Writable(v.a[j], mode)
        invariant sink.output + Elements(v, i, mode, addPrefix) == start + Elements(v, 0, mode, addPrefix)
      {
        Regroup(sink.output, Encode(v.a[i], mode, addPrefix), Elements(v, i + 1, mode, addPrefix));
        ok := Write(v.a[i], mode, addPrefix);
        if !ok {
          return;
        }
      }
      assert sink.output + [] == sink.output;
      ok := true;
    }

    method WriteMember(v: Json, k: bytes, mode: Mode, addPrefix: bool) returns (ok: bool)
      requires v.Object? && k in v.o
      modifies sink
      ensures ok == (|k| < TWO_63 && Writable(v.o[k], mode))
      ensures ok ==> sink.output == old(sink.output) + Text(k) + Encode(v.o[k], mode, addPrefix)
      decreases v, 0, 0
    {
      hide Text, Encode, Writable;
      ok := WriteText(k);
      if ok {
        ok := Write(v.o[k], mode, addPrefix);
      }
    }

    method WriteObject(v: Json, mode: Mode) returns (ok: bool)
      requires v.Object?
      modifies sink
      ensures ok == Writable(v, mode)
      ensures ok ==> sink.output == old(sink.output) + Payload(v, mode)
      decreases v, 1
    {
      hide ContainerHead, CommonType, Payload, Writable, Sorted, Values, Members;
      WritableObject(v, mode);
      var keys := Sorted(v.o.Keys);
      var typed := CommonType(Values(v.o, keys), mode);
      ok := WriteHead(typed, |v.o|, mode);
      if !ok {
        return;
      }
      ok := WriteMembers(v, keys, mode, typed.None?);
      if !ok {
        return;
      }
      if mode.Plain? {
        sink.WriteCharacter(MARK_OBJECT_END);
      } else {
        assert sink.output + [] == sink.output;
      }
      ObjectParts(v, mode, old(sink.output));
    }

    method WriteMembers(v: Json, keys: seq<bytes>, mode: Mode, addPrefix: bool) returns (ok: bool)
      requires v.Object? && forall k | k in keys :: k in v.o
      modifies sink
      ensures ok == forall k | k in keys :: |k| < TWO_63 && Writable(v.o[k], mode)
      ensures ok ==> sink.output == old(sink.output) + Members(v, keys, mode, addPrefix)
      decreases v, 0, 1
    {
      hide Encode, Writable, Text, Members;
      ghost var all := sink.output + Members(v, keys, mode, addPrefix);
      for i := 0 to |keys|
        invariant forall k | k in keys[..i] :: |k| < TWO_63 && Writable(v.o[k], mode)
        invariant sink.output + Members(v, keys[i..], mode, addPrefix) == all
      {
        var k := keys[i];
        MembersFrom(v, keys, i, mode, addPrefix);
        RegroupMember(sink.output, Text(k), Encode(v.o[k], mode, addPrefix), Members(v, keys[i + 1..], mode, addPrefix));
        ok := WriteMember(v, k, mode, addPrefix);
        if !ok {
          return;
        }
        assert keys[..i + 1] == keys[..i] + [k];
      }
      NoMembers(v, mode, addPrefix);
      assert sink.output + [] == sink.output && keys[..|keys|] == keys && keys[|keys|..] == [];
      ok := true;
    }
  }

  lemma {:induction false} EncodeParts(v: Json, mode: Mode, addPrefix: bool, out: bytes)
    ensures (if addPrefix then out + [Prefix(v)] else out) + Payload(v, mode) == out + Encode(v, mode, addPrefix)
  {
    hide Payload, Prefix;
  }

  lemma {:induction false} WritableArray(v: Json, mode: Mode)
    requires v.Array?
    ensures Writable(v, mode) <==> (mode.Plain? || |v.a| < TWO_63) && forall i | 0 <= i < |v.a| :: Writable(v.a[i], mode)
  {}

  lemma {:induction false} WritableMembers(v: Json, mode: Mode)
    requires v.Object?
    ensures Writable(v, mode) <==>
            (mode.Plain? || |v.o| < TWO_63) && forall k | k in v.o :: |k| < TWO_63 && Writable(v.o[k], mode)
  {}

  lemma {:induction false} WritableObject(v: Json, mode: Mode)
    requires v.Object?
    ensures Writable(v, mode) <==>
            (mode.Plain? || |v.o| < TWO_63) && forall k | k in Sorted(v.o.Keys) :: |k| < TWO_63 && Writable(v.o[k], mode)
  {
    WritableMembers(v, mode);
    hide Writable, Sorted;
  }

  lemma {:induction false} ArrayParts(v: Json, mode: Mode, out: bytes)
    requires v.Array?
    ensures var typed := CommonType(v.a, mode);
            out + ContainerHead(typed, |v.a|, mode) + Elements(v, 0, mode, typed.None?) +
            (if mode.Plain? then [MARK_ARRAY_END] else []) == out + Payload(v, mode)
  {
    hide ContainerHead, CommonType, Elements;
    var typed := CommonType(v.a, mode);
    RegroupMember(out, ContainerHead(typed, |v.a|, mode), Elements(v, 0, mode, typed.None?),
                  if mode.Plain? then [MARK_ARRAY_END] else []);
  }

  lemma {:induction false} ObjectParts(v: Json, mode: Mode, out: bytes)
    requires v.Object?
    ensures var keys := Sorted(v.o.Keys);
            var typed := CommonType(Values(v.o, keys), mode);
            out + ContainerHead(typed, |v.o|, mode) + Members(v, keys, mode, typed.None?) +
            (if mode.Plain? then [MARK_OBJECT_END] else []) == out + Payload(v, mode)
  {
    hide ContainerHead, CommonType, Members, Sorted, Values;
    var keys := Sorted(v.o.Keys);
    var typed := CommonType(Values(v.o, keys), mode);
    RegroupMember(out, ContainerHead(typed, |v.o|, mode), Members(v, keys, mode, typed.None?),
                  if mode.Plain? then [MARK_OBJECT_END] else []);
  }

  // ---- the reader

  class Reader {
    const source: Source

    ghost predicate Valid()
      reads this, source
    {
      source.Valid()
    }

    constructor (message: bytes)
      ensures Valid() && fresh(source)
      ensures source.Rest() == if [0xEF, 0xBB, 0xBF] <= message then message[3..] else message
    {
      source := new Source(message);
    }

    method GetIgnoreNoop()
      requires Valid()
      modifies source
      ensures Valid() && source.Here() == SkipNoop(old(source.Rest()))
    {
      source.Get();
      while source.current == MARK_NOOP
        invariant Valid() && SkipNoop(source.Here()) == SkipNoop(old(source.Rest()))
        decreases |source.Here()|
      {
        assert source.Here()[1..] == source.Rest();
        source.Get();
      }
    }

    method GetInteger(mark: byte) returns (r: Result<int>)
      requires Valid() && IsIntegerMark(mark)
      modifies source
      ensures Valid() && source.Reached(ReadInteger(mark, old(source.Rest())), r)
    {
      hide Capacity;
      var n := source.GetNumber(Width(mark));
      r := if n.Err? then Err(n.id) else Ok(if mark == MARK_UINT8 then n.value else Signed(n.value, Width(mark)));
    }

    /** A string; its length marker is the next byte or the current one. */
    method GetUbjsonString(getChar: bool := true) returns (r: Result<bytes>)
      requires Valid()
      modifies source
      ensures Valid() && source.Reached(ReadString(old(if getChar then source.Rest() else source.Here())), r)
    {
      hide ReadInteger;
      if getChar {
        source.Get();
      }
      if source.current == EOF {
        return Err(PARSE_ERROR_110);
      }
      assert source.Here()[1..] == source.Rest();
      if !IsIntegerMark(source.current) {
        return Err(PARSE_ERROR_113);
      }
      var n := GetInteger(source.current);
      if n.Err? {
        return Err(n.id);
      }
      r := source.GetString(n.value);
    }

    /** The marker is the next byte that is no no-op, or the current byte. */
    method ParseInternal(getChar: bool := true) returns (r: Result<Json>)
      requires Valid() && (getChar || source.current != MARK_NOOP)
      modifies source
      ensures Valid() && source.Reached(Decode(old(if getChar then source.Rest() else source.Here())), r)
      decreases |if getChar then source.Rest() else source.Here()| + 1, 0
    {
      hide DecodeAt;
      if getChar {
        GetIgnoreNoop();
      }
      assert source.current != EOF ==> source.Here()[1..] == source.Rest();
      r := GetUbjsonValue(source.current);
    }

    method GetUbjsonValue(prefix: int) returns (r: Result<Json>)
      requires Valid() && (prefix == EOF || 0 <= prefix < 256)
      modifies source
      ensures Valid()
      ensures source.Reached(if prefix == EOF then Broken(PARSE_ERROR_110) else DecodeAt(prefix, old(source.Rest())), r)
      decreases if prefix == EOF then 0 else |source.Rest()| + 1, 4
    {
      hide ReadString, ReadInteger, ReadArray, ReadObject, SingleToDouble, Capacity;
      if prefix == EOF {
        r := Err(PARSE_ERROR_110);
      } else if prefix == MARK_TRUE {
        r := Ok(Bool(true));
      } else if prefix == MARK_FALSE {
        r := Ok(Bool(false));
      } else if prefix == MARK_NULL {
        r := Ok(Null);
      } else if IsIntegerMark(prefix) {
        var n := GetInteger(prefix);
        r := if n.Err? then Err(n.id) else Ok(if prefix == MARK_UINT8 then Unsigned(n.value) else Integer(n.value));
      } else if prefix == MARK_STRING {
        var t := GetUbjsonString();
        r := if t.Err? then Err(t.id) else Ok(String(t.value));
      } else if prefix == MARK_ARRAY {
        r := GetUbjsonArray();
      } else if prefix == MARK_OBJECT {
        r := GetUbjsonObject();
      } else {
        r := GetOther(prefix);
      }
    }

    /** Floats and single characters. */
    method GetOther(prefix: byte) returns (r: Result<Json>)
      requires Valid() && !IsIntegerMark(prefix)
      requires prefix !in {MARK_TRUE, MARK_FALSE, MARK_NULL, MARK_STRING, MARK_ARRAY, MARK_OBJECT}
      modifies source
      ensures Valid() && source.Reached(DecodeAt(prefix, old(source.Rest())), r)
    {
      Capacities();
      hide ReadString, ReadInteger, ReadArray, ReadObject, SingleToDouble, Capacity;
      if prefix == MARK_FLOAT32 {
        var n := source.GetNumber(4);
        r := if n.Err? then Err(n.id) else Ok(Float(SingleToDouble(n.value)));
      } else if prefix == MARK_FLOAT64 {
        var n := source.GetNumber(8);
        r := if n.Err? then Err(n.id) else Ok(Float(n.value));
      } else if prefix == MARK_CHAR {
        source.Get();
        r := if source.current == EOF then Err(PARSE_ERROR_110)
        else if source.current > 127 then Err(PARSE_ERROR_113)
        else Ok(String([source.current]));
      } else {
        r := Err(PARSE_ERROR_112);
      }
    }

    /** The size value behind '#'. */
    method GetSize(typed: Option<byte>) returns (r: Result<SizeType>)
      requires Valid()
      modifies source
      ensures Valid() && source.Reached(ReadSize(old(source.Rest()), typed), r)
      decreases |source.Rest()| + 1, 1
    {
      hide Decode, ToSize;
      var v := ParseInternal();
      if v.Err? {
        return Err(v.id);
      }
      var n := ToSize(v.value);
      r := if n.Err? then Err(n.id) else Ok(Sized(n.value, typed));
    }

    /** Without a size the current byte is the first one of the contents. */
    method GetSizeType() returns (r: Result<SizeType>)
      requires Valid()
      modifies source
      ensures Valid()
      ensures match ReadSizeType(old(source.Rest()))
              case Broken(id) => r == Err(id)
              case Got(t, rest) => r == Ok(t) && rest == if t.Sized? then source.Rest() else source.Here()
      ensures r == Ok(Unsized) ==> source.current != MARK_NOOP
      decreases |source.Rest()| + 1, 2
    {
      hide ReadSize;
      GetIgnoreNoop();
      if source.current == MARK_TYPE {
        ghost var s := source.Here();
        assert s[1..] == source.Rest();
        source.Get();
        if source.current == EOF {
          return Err(PARSE_ERROR_110);
        }
        var typed := source.current;
        assert source.Rest() == s[2..];
        GetIgnoreNoop();
        if source.current != MARK_COUNT {
          return Err(PARSE_ERROR_112);
        }
        assert source.Here()[1..] == source.Rest();
        r := GetSize(TypeOf(typed));
      } else if source.current == MARK_COUNT {
        assert source.Here()[1..] == source.Rest();
        r := GetSize(None);
      } else {
        r := Ok(Unsized);
      }
    }

    /** A size of -1 counts as no size; the current byte is then 0xFF, which starts no value and no key. */
    method GetUbjsonArray() returns (r: Result<Json>)
      requires Valid()
      modifies source
      ensures Valid() && source.Reached(ReadArray(old(source.Rest())), r)
      decreases |source.Rest()| + 1, 3
    {
      hide ReadSizeType, ReadItems, ReadItemsToEnd;
      var st := GetSizeType();
      if st.Err? {
        return Err(st.id);
      }
      match st.value
      case Unsized => r := GetItemsToEnd();
      case Sized(n, typed) =>
        if n == NPOS {
          r := Err(PARSE_ERROR_112);
        } else if n > MAX_ARRAY {
          r := Err(OUT_OF_RANGE_408);
        } else if typed == Some(MARK_NOOP) {
          r := Ok(Array([]));
        } else {
          r := GetItems(n, typed);
        }
    }

    method GetItem(typed: Option<byte>) returns (r: Result<Json>)
      requires Valid()
      modifies source
      ensures Valid() && source.Reached(ReadItem(typed, old(source.Rest())), r)
      decreases |source.Rest()| + 1, 5
    {
      hide Decode, DecodeAt;
      match typed
      case None => r := ParseInternal();
      case Some(c) => r := GetUbjsonValue(c);
    }

    method GetItems(n: nat, typed: Option<byte>) returns (r: Result<Json>)
      requires Valid()
      modifies source
      ensures Valid() && source.Reached(ReadItems(n, typed, old(source.Rest()), []), r)
      decreases |source.Rest()| + 1, 6
    {
      hide ReadItem;
      ghost var p, left := ReadItems(n, typed, source.Rest(), []), |source.Rest()|;
      var result: seq<Json> := [];
      for i := 0 to n
        invariant Valid() && |source.Rest()| <= left
        invariant ReadItems(n - i, typed, source.Rest(), result) == p
      {
        var item := GetItem(typed);
        if item.Err? {
          return item;
        }
        result := result + [item.value];
      }
      return Ok(Array(result));
    }

    method GetItemsToEnd() returns (r: Result<Json>)
      requires Valid() && source.current != MARK_NOOP
      modifies source
      ensures Valid() && source.Reached(ReadItemsToEnd(old(source.Here()), []), r)
      decreases |source.Here()| + 1, 1
    {
      hide Decode;
      ghost var p, left := ReadItemsToEnd(source.Here(), []), |source.Here()|;
      var result: seq<Json> := [];
      while source.current != MARK_ARRAY_END
        invariant Valid() && source.current != MARK_NOOP && |source.Here()| <= left
        invariant ReadItemsToEnd(source.Here(), result) == p
        decreases |source.Here()|
      {
        var item := ParseInternal(false);
        if item.Err? {
          return item;
        }
        result := result + [item.value];
        SkipTwice(source.Rest(), result);
        GetIgnoreNoop();
      }
      assert source.Here()[1..] == source.Rest();
      return Ok(Array(result));
    }

    method GetUbjsonObject() returns (r: Result<Json>)
      requires Valid()
      modifies source
      ensures Valid() && source.Reached(ReadObject(old(source.Rest())), r)
      decreases |source.Rest()| + 1, 3
    {
      hide ReadSizeType, ReadPairs, ReadPairsToEnd;
      var st := GetSizeType();
      if st.Err? {
        return Err(st.id);
      }
      match st.value
      case Unsized => r := GetPairsToEnd();
      case Sized(n, typed) =>
        if n == NPOS {
          r := Err(PARSE_ERROR_113);
        } else if n > MAX_OBJECT {
          r := Err(OUT_OF_RANGE_408);
        } else {
          r := GetPairs(n, typed);
        }
    }

    method GetPair(typed: Option<byte>, getChar: bool := true) returns (r: Result<Pair>)
      requires Valid()
      modifies source
      ensures Valid() && source.Reached(ReadPair(typed, old(if getChar then source.Rest() else source.Here())), r)
      decreases |if getChar then source.Rest() else source.Here()| + 1, 1
    {
      hide ReadItem, ReadString;
      var key := GetUbjsonString(getChar);
      if key.Err? {
        return Err(key.id);
      }
      var val := GetItem(typed);
      r := if val.Err? then Err(val.id) else Ok(Pair(key.value, val.value));
    }

    method GetPairs(n: nat, typed: Option<byte>) returns (r: Result<Json>)
      requires Valid()
      modifies source
      ensures Valid() && source.Reached(ReadPairs(n, typed, old(source.Rest()), map[]), r)
      decreases |source.Rest()| + 1, 2
    {
      hide ReadPair, Emplace;
      ghost var p, left := ReadPairs(n, typed, source.Rest(), map[]), |source.Rest()|;
      var result: map<bytes, Json> := map[];
      for i := 0 to n
        invariant Valid() && |source.Rest()| <= left
        invariant ReadPairs(n - i, typed, source.Rest(), result) == p
      {
        var pair := GetPair(typed);
        if pair.Err? {
          return Err(pair.id);
        }
        result := Emplace(result, pair.value.k, pair.value.v);
      }
      return Ok(Object(result));
    }

    method GetPairsToEnd() returns (r: Result<Json>)
      requires Valid() && source.current != MARK_NOOP
      modifies source
      ensures Valid() && source.Reached(ReadPairsToEnd(old(source.Here()), map[]), r)
      decreases |source.Here()| + 1, 2
    {
      hide ReadPair;
      ghost var p, left := ReadPairsToEnd(source.Here(), map[]), |source.Here()|;
      var result: map<bytes, Json> := map[];
      while source.current != MARK_OBJECT_END
        invariant Valid() && source.current != MARK_NOOP && |source.Here()| <= left
        invariant ReadPairsToEnd(source.Here(), result) == p
        decreases |source.Here()|
      {
        var pair := GetPair(None, false);
        if pair.Err? {
          return Err(pair.id);
        }
        result := result[pair.value.k := pair.value.v];
        SkipTwicePairs(source.Rest(), result);
        GetIgnoreNoop();
      }
      assert source.Here()[1..] == source.Rest();
      return Ok(Object(result));
    }

    method ParseUbjson(strict: bool) returns (r: Result<Json>)
      requires Valid()
      modifies source
      ensures Valid() && r == Parse(old(source.Rest()), strict)
    {
      hide Decode;
      r := ParseInternal();
      if r.Ok? && strict {
        GetIgnoreNoop();
        if source.current != EOF {
          return Err(PARSE_ERROR_110);
        }
      }
    }
  }

  lemma {:induction false} SkipTwice(s: bytes, done: seq<Json>)
    ensures ReadItemsToEnd(SkipNoop(s), done) == ReadItemsToEnd(s, done)
  {
    hide Decode;
    assert SkipNoop(SkipNoop(s)) == SkipNoop(s);
  }

  lemma {:induction false} SkipTwicePairs(s: bytes, done: map<bytes, Json>)
    ensures ReadPairsToEnd(SkipNoop(s), done) == ReadPairsToEnd(s, done)
  {
    hide ReadPair;
    assert SkipNoop(SkipNoop(s)) == SkipNoop(s);
  }

  /** The writer in any mode, then the reader. */
  method WriteAndParse(v: Json, mode: Mode) returns (ok: bool, message: bytes, r: Result<Json>)
    ensures ok == Writable(v, mode)
    ensures ok ==> message == Encode(v, mode)
    ensures ok ==> r == if Restorable(v, mode) then Ok(Norm(v)) else Err(OUT_OF_RANGE_408)
  {
    hide Encode, Decode, Restorable, Writable;
    var writer := new Writer();
    ok := writer.Write(v, mode);
    message, r := writer.sink.output, Err(0);
    if ok {
      RoundTrip(v, mode);
      NoMark(v, mode);
      assert message == [] + Encode(v, mode) == Encode(v, mode);
      var reader := new Reader(message);
      r := reader.ParseUbjson(true);
    }
  }
}
