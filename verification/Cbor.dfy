/**
  CBOR (RFC 7049): the writer, the reader with its definite and indefinite forms, and their round trip.
 */
module Cbor {
  import opened Arith
  import opened Buffers
  import opened Decimal
  import opened J = Json
  import opened Binary
  import Doubles

  const BREAK: byte := 0xFF

  // ---- the writer, as a function

  const MAJOR_UNSIGNED := 0
  const MAJOR_NEGATIVE := 1
  const MAJOR_STRING := 3
  const MAJOR_ARRAY := 4
  const MAJOR_MAP := 5

  /** A major type and its argument; an argument of more than 64 bits cannot be written. */
  function Head(major: nat, n: nat): bytes
    requires major <= 5
  {
    var m := major * 0x20;
    if n <= 0x17 then [m + n]
    else if n <= 0xFF then [m + 0x18] + BigEndian(n, 1)
    else if n <= 0xFFFF then [m + 0x19] + BigEndian(n, 2)
    else if n < TWO_32 then [m + 0x1A] + BigEndian(n, 4)
    else if n < TWO_64 then [m + 0x1B] + BigEndian(n, 8)
    else []
  }

  function Text(s: bytes): bytes {
    Head(MAJOR_STRING, |s|) + s
  }

  function Encode(v: Json): bytes
    decreases v, 1
  {
    match v
    case Null => [0xF6]
    case Bool(b) => if b then [0xF5] else [0xF4]
    case Integer(i) => if i >= 0 then Head(MAJOR_UNSIGNED, i) else Head(MAJOR_NEGATIVE, -1 - i)
    case Unsigned(u) => Head(MAJOR_UNSIGNED, u)
    case Float(bits) => [0xFB] + BigEndian(bits, 8)
    case String(s) => Text(s)
    case Array(a) => Head(MAJOR_ARRAY, |a|) + Elements(v, 0)
    case Object(o) => Head(MAJOR_MAP, |o|) + Members(v, Sorted(o.Keys))
  }

  /** The elements from i on. */
  function Elements(v: Json, i: nat): bytes
    requires v.Array? && i <= |v.a|
    decreases v, 0, |v.a| - i
  {
    if i == |v.a| then [] else Encode(v.a[i]) + Elements(v, i + 1)
  }

  function Members(v: Json, keys: seq<bytes>): bytes
    requires v.Object? && forall k | k in keys :: k in v.o
    decreases v, 0, |keys|
  {
    if keys == [] then [] else Text(keys[0]) + Encode(v.o[keys[0]]) + Members(v, keys[1..])
  }

  // ---- the reader, as functions of the input from the current byte on

  /** The argument of a head, from its low five bits and the bytes behind it. */
  function Argument(low: nat, rest: bytes): (r: Got<nat>)
    requires low <= 0x1B
    ensures r.Got? ==> |r.rest| <= |rest| && r.v < TWO_64
  {
    Capacities();
    if low <= 0x17 then Got(low, rest)
    else if low == 0x18 then TakeNumber(rest, 1)
    else if low == 0x19 then TakeNumber(rest, 2)
    else if low == 0x1A then TakeNumber(rest, 4)
    else TakeNumber(rest, 8)
  }

  /** Half precision, by the algorithm of appendix D of the RFC. */
  function HalfToDouble(half: nat): uint64
    requires half < 0x10000
  {
    var exp, mant := half / 0x400 % 0x20, half % 0x400;
    (if half >= 0x8000 then TWO_63 else 0) +
    if exp == 0 then ExactDouble(mant, -24)
    else if exp != 31 then ExactDouble(mant + 0x400, exp - 25)
    else if mant == 0 then Doubles.INFINITY
    else Doubles.INFINITY + 0x8_0000_0000_0000
  }

  function ReadString(s: bytes): (r: Got<bytes>)
    ensures r.Got? ==> |r.rest| < |s|
    decreases |s|, 0
  {
    if s == [] then Broken(PARSE_ERROR_110)
    else if 0x60 <= s[0] <= 0x7B then
      match Argument(s[0] - 0x60, s[1..])
      case Broken(id) => Broken(id)
      case Got(n, rest) => TakeBytes(rest, n)
    else if s[0] == 0x7F then ReadChunks(s[1..], [])
    else Broken(PARSE_ERROR_113)
  }

  function ReadChunks(s: bytes, done: bytes): (r: Got<bytes>)
    ensures r.Got? ==> |r.rest| < |s|
    decreases |s|, 1
  {
    if s != [] && s[0] == BREAK then Got(done, s[1..])
    else
      match ReadString(s)
      case Broken(id) => Broken(id)
      case Got(t, rest) => ReadChunks(rest, done + t)
  }

  function WithNumber(g: Got<nat>, f: nat --> Json): Got<Json>
    requires g.Got? ==> f.requires(g.v)
  {
    match g
    case Broken(id) => Broken(id)
    case Got(n, rest) => Got(f(n), rest)
  }

  function Decode(s: bytes): (r: Got<Json>)
    ensures r.Got? ==> |r.rest| < |s|
    decreases |s|, 0
  {
    if s == [] then Broken(PARSE_ERROR_110)
    else
      Capacities();
      var c, rest := s[0], s[1..];
      if c <= 0x1B then WithNumber(Argument(c, rest), (n: nat) requires n < TWO_64 => Unsigned(n))
      else if 0x20 <= c <= 0x3B then WithNumber(Argument(c - 0x20, rest), (n: nat) requires n < TWO_64 => Integer(-1 - ToSigned(n)))
      else if 0x60 <= c <= 0x7B || c == 0x7F then
        match ReadString(s)
        case Broken(id) => Broken(id)
        case Got(t, more) => Got(String(t), more)
      else if 0x80 <= c <= 0x9B then
        match Argument(c - 0x80, rest)
        case Broken(id) => Broken(id)
        case Got(n, more) => ReadItems(n, more, [])
      else if c == 0x9F then ReadItemsToBreak(rest, [])
      else if 0xA0 <= c <= 0xBB then
        match Argument(c - 0xA0, rest)
        case Broken(id) => Broken(id)
        case Got(n, more) => ReadPairs(n, more, map[])
      else if c == 0xBF then ReadPairsToBreak(rest, map[])
      else if c == 0xF4 then Got(Bool(false), rest)
      else if c == 0xF5 then Got(Bool(true), rest)
      else if c == 0xF6 then Got(Null, rest)
      else if c == 0xF9 then WithNumber(TakeNumber(rest, 2), (n: nat) requires n < 0x10000 => Float(HalfToDouble(n)))
      else if c == 0xFA then WithNumber(TakeNumber(rest, 4), (n: nat) requires n < TWO_32 => Float(SingleToDouble(n)))
      else if c == 0xFB then WithNumber(TakeNumber(rest, 8), (n: nat) requires n < TWO_64 => Float(n))
      else Broken(PARSE_ERROR_112)
  }

  function ReadItems(n: nat, s: bytes, done: seq<Json>): (r: Got<Json>)
    ensures r.Got? ==> |r.rest| <= |s|
    decreases |s|, 1
  {
    if n == 0 then Got(Array(done), s)
    else
      match Decode(s)
      case Broken(id) => Broken(id)
      case Got(v, rest) => ReadItems(n - 1, rest, done + [v])
  }

  function ReadItemsToBreak(s: bytes, done: seq<Json>): (r: Got<Json>)
    ensures r.Got? ==> |r.rest| < |s|
    decreases |s|, 1
  {
    if s != [] && s[0] == BREAK then Got(Array(done), s[1..])
    else
      match Decode(s)
      case Broken(id) => Broken(id)
      case Got(v, rest) => ReadItemsToBreak(rest, done + [v])
  }

  datatype Pair = Pair(k: bytes, v: Json)

  function ReadPair(s: bytes): (r: Got<Pair>)
    ensures r.Got? ==> |r.rest| < |s|
    decreases |s|, 1
  {
    match ReadString(s)
    case Broken(id) => Broken(id)
    case Got(k, rest) =>
      match Decode(rest)
      case Broken(id) => Broken(id)
      case Got(v, more) => Got(Pair(k, v), more)
  }

  /** A key that occurs again is ignored here, */
  function ReadPairs(n: nat, s: bytes, done: map<bytes, Json>): (r: Got<Json>)
    ensures r.Got? ==> |r.rest| <= |s|
    decreases |s|, 2
  {
    if n == 0 then Got(Object(done), s)
    else
      match ReadPair(s)
      case Broken(id) => Broken(id)
      case Got(p, rest) => ReadPairs(n - 1, rest, Emplace(done, p.k, p.v))
  }

  /** but replaces the earlier one here. */
  function ReadPairsToBreak(s: bytes, done: map<bytes, Json>): (r: Got<Json>)
    ensures r.Got? ==> |r.rest| < |s|
    decreases |s|, 2
  {
    if s != [] && s[0] == BREAK then Got(Object(done), s[1..])
    else
      match ReadPair(s)
      case Broken(id) => Broken(id)
      case Got(p, rest) => ReadPairsToBreak(rest, done[p.k := p.v])
  }

  /** A finite half-precision number is converted exactly. */
  lemma {:induction false} HalfIsExact(half: nat)
    requires half < 0x10000 && half / 0x400 % 0x20 != 31
    ensures var exp, mant, r := half / 0x400 % 0x20, half % 0x400, HalfToDouble(half);
            && (r >= TWO_63 <==> half >= 0x8000) && r % TWO_63 < Doubles.INFINITY
            && Doubles.Value(r % TWO_63) ==
               if exp == 0 then Scaled(mant, -24) else Scaled(mant + 0x400, exp - 25)
  {
    var exp, mant := half / 0x400 % 0x20, half % 0x400;
    hide ExactDouble, Doubles.Value, Scaled;
    if exp == 0 {
      ExactDoubleValue(mant, -24);
      SignedPattern(half >= 0x8000, ExactDouble(mant, -24));
    } else {
      ExactDoubleValue(mant + 0x400, exp - 25);
      SignedPattern(half >= 0x8000, ExactDouble(mant + 0x400, exp - 25));
    }
  }

  lemma {:induction false} NextItem(n: nat, s: bytes, done: seq<Json>)
    ensures n == 0 ==> ReadItems(n, s, done) == Got(Array(done), s)
    ensures n != 0 && Decode(s).Broken? ==> ReadItems(n, s, done) == Broken(Decode(s).id)
    ensures n != 0 && Decode(s).Got? ==> ReadItems(n, s, done) == ReadItems(n - 1, Decode(s).rest, done + [Decode(s).v])
  {
    hide Decode;
  }

  lemma {:induction false} NextPair(n: nat, s: bytes, done: map<bytes, Json>)
    ensures n == 0 ==> ReadPairs(n, s, done) == Got(Object(done), s)
    ensures n != 0 && ReadPair(s).Broken? ==> ReadPairs(n, s, done) == Broken(ReadPair(s).id)
    ensures n != 0 && ReadPair(s).Got? ==>
              ReadPairs(n, s, done) == ReadPairs(n - 1, ReadPair(s).rest, Emplace(done, ReadPair(s).v.k, ReadPair(s).v.v))
  {
    hide ReadPair, Emplace;
  }

  // ---- heads

  lemma {:induction false} ArgumentOfHead(major: nat, n: nat, rest: bytes)
    requires major <= 5 && n < TWO_64
    ensures var h := Head(major, n);
            && h != [] && 0x20 * major <= h[0] <= 0x20 * major + 0x1B
            && (h + rest)[0] == h[0] && (h + rest)[1..] == h[1..] + rest
            && Argument(h[0] - 0x20 * major, h[1..] + rest) == Got(n, rest)
  {
    Capacities();
    hide FromBigEndian, BigEndian;
    if n <= 0x17 {
      assert [][..] + rest == rest;
    } else if n <= 0xFF {
      TakeWritten(n, 1, rest);
    } else if n <= 0xFFFF {
      TakeWritten(n, 2, rest);
    } else if n < TWO_32 {
      TakeWritten(n, 4, rest);
    } else {
      TakeWritten(n, 8, rest);
    }
  }

  /** No head for the same major type and argument is shorter (section 3.9 of the RFC). */
  lemma {:induction false} HeadIsShortest(major: nat, n: nat, h: bytes)
    requires major <= 5 && h != [] && 0x20 * major <= h[0] <= 0x20 * major + 0x1B
    requires Argument(h[0] - 0x20 * major, h[1..]) == Got(n, [])
    ensures |Head(major, n)| <= |h|
  {
    Capacities();
    hide FromBigEndian, BigEndian;
  }

  // ---- the round trip

  /** Every size and length fits 64 bits. */
  predicate SizesFit(v: Json) {
    match v
    case String(s) => |s| < TWO_64
    case Array(a) => |a| < TWO_64 && forall i | 0 <= i < |a| :: SizesFit(a[i])
    case Object(o) => |o| < TWO_64 && forall k | k in o :: |k| < TWO_64 && SizesFit(o[k])
    case _ => true
  }

  lemma {:induction false} ReadText(t: bytes, rest: bytes)
    requires |t| < TWO_64
    ensures ReadString(Text(t) + rest) == Got(t, rest)
    ensures (Text(t) + rest)[0] / 0x20 == MAJOR_STRING && 0x60 <= (Text(t) + rest)[0] <= 0x7B
  {
    ArgumentOfHead(MAJOR_STRING, |t|, t + rest);
    hide Head, Argument;
    assert Text(t) + rest == Head(MAJOR_STRING, |t|) + (t + rest);
    TakeText(t, rest);
  }

  lemma {:induction false} DecodeEncode(v: Json, rest: bytes)
    requires SizesFit(v)
    ensures Encode(v) != [] && Decode(Encode(v) + rest) == Got(Unsigneds(v), rest)
    decreases v, 1
  {
    hide Head, Argument, Unsigneds, Decode, Encode, ReadItems, ReadPairs;
    match v
    case Null => LiteralRead(v, rest);
    case Bool(_) => LiteralRead(v, rest);
    case Integer(i) => IntegerRead(v, rest);
    case Unsigned(u) => IntegerRead(v, rest);
    case Float(bits) => LiteralRead(v, rest);
    case String(s) => LiteralRead(v, rest);
    case Array(a) => ArrayRead(v, rest);
    case Object(o) => ObjectRead(v, rest);
  }

  lemma {:induction false} LiteralRead(v: Json, rest: bytes)
    requires (v.Null? || v.Bool? || v.Float? || v.String?) && SizesFit(v)
    ensures Encode(v) != [] && Decode(Encode(v) + rest) == Got(Unsigneds(v), rest)
  {
    hide ReadString, Head, Argument;
    match v
    case Null => assert ([0xF6] + rest)[1..] == rest;
    case Bool(b) => assert Encode(v) == [Encode(v)[0]] && (Encode(v) + rest)[1..] == rest;
    case Float(bits) => FloatRead(bits, rest);
    case String(s) => ReadText(s, rest);
  }

  lemma {:induction false} FloatRead(bits: uint64, rest: bytes)
    ensures Decode(Encode(Float(bits)) + rest) == Got(Float(bits), rest)
  {
    hide ReadString, Argument, FromBigEndian, BigEndian, ReadItems, ReadPairs;
    Capacities();
    TakeWritten(bits, 8, rest);
    assert ([0xFB] + BigEndian(bits, 8) + rest)[1..] == BigEndian(bits, 8) + rest;
  }

  lemma {:induction false} DecodeSized(s: bytes, low: nat, n: nat, body: bytes)
    requires s != [] && low <= 0x1B && n < TWO_64 && Argument(low, s[1..]) == Got(n, body)
    ensures s[0] == low ==> Decode(s) == Got(Unsigned(n), body)
    ensures s[0] == 0x20 + low && n < TWO_63 ==> Decode(s) == Got(Integer(-1 - n), body)
    ensures s[0] == 0x80 + low ==> Decode(s) == ReadItems(n, body, [])
    ensures s[0] == 0xA0 + low ==> Decode(s) == ReadPairs(n, body, map[])
  {
    hide Argument, ReadItems, ReadPairs, ReadString;
  }

  lemma {:induction false} DecodeHead(major: nat, n: nat, body: bytes)
    requires major <= 5 && n < TWO_64
    ensures var s := Head(major, n) + body;
            && (major == MAJOR_UNSIGNED ==> Decode(s) == Got(Unsigned(n), body))
            && (major == MAJOR_NEGATIVE && n < TWO_63 ==> Decode(s) == Got(Integer(-1 - n), body))
            && (major == MAJOR_ARRAY ==> Decode(s) == ReadItems(n, body, []))
            && (major == MAJOR_MAP ==> Decode(s) == ReadPairs(n, body, map[]))
  {
    hide Head, Argument, ReadItems, ReadPairs, Decode;
    ArgumentOfHead(major, n, body);
    var s := Head(major, n) + body;
    DecodeSized(s, s[0] - 0x20 * major, n, body);
  }

  lemma {:induction false} IntegerRead(v: Json, rest: bytes)
    requires v.Integer? || v.Unsigned?
    ensures Encode(v) != [] && Decode(Encode(v) + rest) == Got(Unsigneds(v), rest)
  {
    var n: int := if v.Integer? then v.i else v.u;
    IntegerKinds(v, n);
    hide Decode, Unsigneds, Head, Argument, Encode;
    if n >= 0 {
      DecodeHead(MAJOR_UNSIGNED, n, rest);
      HeadNotEmpty(MAJOR_UNSIGNED, n);
    } else {
      DecodeHead(MAJOR_NEGATIVE, -1 - n, rest);
      HeadNotEmpty(MAJOR_NEGATIVE, -1 - n);
    }
  }

  lemma {:induction false} HeadNotEmpty(major: nat, n: nat)
    requires major <= 5 && n < TWO_64
    ensures Head(major, n) != []
  {
    hide BigEndian;
  }

  lemma {:induction false} IntegerKinds(v: Json, n: int)
    requires (v.Integer? && n == v.i) || (v.Unsigned? && n == v.u)
    ensures Unsigneds(v) == if n >= 0 then Unsigned(n) else Integer(n)
    ensures Encode(v) == if n >= 0 then Head(MAJOR_UNSIGNED, n) else Head(MAJOR_NEGATIVE, -1 - n)
  {
    hide Head;
    assert AllUnsigned(n);
  }

  lemma {:induction false} ArrayRead(v: Json, rest: bytes)
    requires v.Array? && SizesFit(v)
    ensures Encode(v) != [] && Decode(Encode(v) + rest) == Got(Unsigneds(v), rest)
    decreases v, 0, |v.a| + 1
  {
    hide Head, ReadItems, Decode, Encode, Renumber, RenumberFrom, Elements;
    EncodedArray(v, rest);
    DecodeHead(MAJOR_ARRAY, |v.a|, Elements(v, 0) + rest);
    RenumberArray(v, AllUnsigned);
    ElementsRead(v, 0, [], rest);
  }

  lemma {:induction false} EncodedArray(v: Json, rest: bytes)
    requires v.Array? && |v.a| < TWO_64
    ensures Encode(v) != [] && Encode(v) + rest == Head(MAJOR_ARRAY, |v.a|) + (Elements(v, 0) + rest)
  {
    ArgumentOfHead(MAJOR_ARRAY, |v.a|, []);
    Regroup(Head(MAJOR_ARRAY, |v.a|), Elements(v, 0), rest);
    hide Head, Argument, Elements;
  }

  lemma {:induction false} ElementsRead(v: Json, i: nat, done: seq<Json>, rest: bytes)
    requires v.Array? && SizesFit(v) && i <= |v.a|
    ensures ReadItems(|v.a| - i, Elements(v, i) + rest, done) == Got(Array(done + RenumberFrom(v.a, i, AllUnsigned)), rest)
    decreases v, 0, |v.a| - i
  {
    hide Decode, Encode, Renumber;
    if i == |v.a| {
      assert Elements(v, i) + rest == rest && done + RenumberFrom(v.a, i, AllUnsigned) == done;
    } else {
      DecodeEncode(v.a[i], Elements(v, i + 1) + rest);
      assert Elements(v, i) + rest == Encode(v.a[i]) + (Elements(v, i + 1) + rest);
      ElementsRead(v, i + 1, done + [Unsigneds(v.a[i])], rest);
      assert (done + [Unsigneds(v.a[i])]) + RenumberFrom(v.a, i + 1, AllUnsigned) == done + RenumberFrom(v.a, i, AllUnsigned);
    }
  }

  lemma {:induction false} ObjectRead(v: Json, rest: bytes)
    requires v.Object? && SizesFit(v)
    ensures Encode(v) != [] && Decode(Encode(v) + rest) == Got(Unsigneds(v), rest)
    decreases v, 0, |v.o| + 1
  {
    var keys := Sorted(v.o.Keys);
    EncodedObject(v, rest);
    DecodeHead(MAJOR_MAP, |v.o|, Members(v, keys) + rest);
    RenumberObject(v, AllUnsigned);
    hide Head, ReadPairs, Decode, Encode, Renumber, RenumberMembers, Members, Sorted;
    MembersRead(v, keys, map[], rest);
  }

  lemma {:induction false} EncodedObject(v: Json, rest: bytes)
    requires v.Object? && |v.o| < TWO_64
    ensures Encode(v) != [] && Encode(v) + rest == Head(MAJOR_MAP, |v.o|) + (Members(v, Sorted(v.o.Keys)) + rest)
  {
    ArgumentOfHead(MAJOR_MAP, |v.o|, []);
    Regroup(Head(MAJOR_MAP, |v.o|), Members(v, Sorted(v.o.Keys)), rest);
    hide Head, Argument, Members, Sorted;
  }

  lemma {:induction false} MembersRead(v: Json, keys: seq<bytes>, done: map<bytes, Json>, rest: bytes)
    requires v.Object? && SizesFit(v) && forall k | k in keys :: k in v.o
    ensures ReadPairs(|keys|, Members(v, keys) + rest, done) == Got(Object(RenumberMembers(v.o, keys, done, AllUnsigned)), rest)
    decreases v, 0, |keys|
  {
    hide Decode, Encode, Renumber, ReadString, Text, SizesFit;
    if keys == [] {
      assert Members(v, keys) + rest == rest;
    } else {
      MemberRead(v, keys[0], Members(v, keys[1..]) + rest);
      assert Members(v, keys) + rest == Text(keys[0]) + (Encode(v.o[keys[0]]) + (Members(v, keys[1..]) + rest));
      var next := Emplace(done, keys[0], Unsigneds(v.o[keys[0]]));
      MembersRead(v, keys[1..], next, rest);
    }
  }

  lemma {:induction false} MemberRead(v: Json, k: bytes, rest: bytes)
    requires v.Object? && SizesFit(v) && k in v.o
    ensures ReadPair(Text(k) + (Encode(v.o[k]) + rest)) == Got(Pair(k, Unsigneds(v.o[k])), rest)
    decreases v, 0, 0
  {
    assert |k| < TWO_64 && SizesFit(v.o[k]);
    hide Decode, Encode, Renumber, ReadString, Text, SizesFit;
    ReadText(k, Encode(v.o[k]) + rest);
    DecodeEncode(v.o[k], rest);
  }

  // ---- whole messages

  /** A message, strictly: nothing may follow the value. */
  function Parse(s: bytes, strict: bool): Result<Json> {
    match Decode(s)
    case Broken(id) => Err(id)
    case Got(v, rest) => if strict && rest != [] then Err(PARSE_ERROR_110) else Ok(v)
  }

  lemma {:induction false} RoundTrip(v: Json)
    requires SizesFit(v)
    ensures Parse(Encode(v), true) == Ok(Unsigneds(v)) && (Eq(Unsigneds(v), v) <==> NoNaN(v))
  {
    hide Decode, Encode, Unsigneds, SizesFit;
    DecodeEncode(v, []);
    assert Encode(v) + [] == Encode(v);
    EqualUnsigneds(v);
  }

  // ---- indefinite lengths decode to the same values (section 2.2 of the RFC)

  lemma {:induction false} ItemsToBreak(n: nat, s: bytes, done: seq<Json>, v: Json, rest: bytes)
    requires ReadItems(n, s, done) == Got(v, [BREAK] + rest)
    ensures ReadItemsToBreak(s, done) == Got(v, rest)
    decreases n
  {
    if n == 0 {
      assert s[1..] == rest;
    } else {
      var g := Decode(s);
      hide Argument, ReadString;
      assert s != [] && s[0] != BREAK;
      hide Decode;
      ItemsToBreak(n - 1, g.rest, done + [g.v], v, rest);
    }
  }

  /** An array of indefinite length, for the same items in whatever encoding. */
  lemma {:induction false} IndefiniteArray(n: nat, items: bytes, v: Json, rest: bytes)
    requires n < TWO_64 && Decode(Head(MAJOR_ARRAY, n) + items) == Got(v, [BREAK] + rest)
    ensures Decode([0x9F] + items) == Got(v, rest)
  {
    DecodeHead(MAJOR_ARRAY, n, items);
    hide Head, Argument, ReadItems, ReadItemsToBreak, ReadString;
    ItemsToBreak(n, items, [], v, rest);
    assert ([0x9F] + items)[1..] == items;
  }

  lemma {:induction false} PairsToBreak(n: nat, s: bytes, done: map<bytes, Json>, v: Json, rest: bytes)
    requires ReadPairs(n, s, done) == Got(v, [BREAK] + rest)
    requires v.Object? && |v.o| == |done| + n
    ensures ReadPairsToBreak(s, done) == Got(v, rest)
    decreases n
  {
    if n == 0 {
      assert s[1..] == rest;
    } else {
      var g := ReadPair(s);
      PairsGrow(n - 1, g.rest, Emplace(done, g.v.k, g.v.v), v, [BREAK] + rest);
      KeyIsNoBreak(s);
      hide ReadPair;
      PairsToBreak(n - 1, g.rest, done[g.v.k := g.v.v], v, rest);
    }
  }

  lemma {:induction false} KeyIsNoBreak(s: bytes)
    ensures ReadPair(s).Got? ==> s != [] && s[0] != BREAK
  {
    hide Argument, Decode;
  }

  /** n pairs add at most n keys. */
  lemma {:induction false} PairsGrow(n: nat, s: bytes, done: map<bytes, Json>, v: Json, rest: bytes)
    requires ReadPairs(n, s, done) == Got(v, rest)
    ensures v.Object? && |v.o| <= |done| + n
    decreases n
  {
    hide ReadPair;
    if n > 0 {
      var g := ReadPair(s);
      PairsGrow(n - 1, g.rest, Emplace(done, g.v.k, g.v.v), v, rest);
    }
  }

  /** A map of indefinite length with distinct keys. */
  lemma {:induction false} IndefiniteMap(n: nat, pairs: bytes, v: Json, rest: bytes)
    requires n < TWO_64 && Decode(Head(MAJOR_MAP, n) + pairs) == Got(v, [BREAK] + rest)
    requires v.Object? && |v.o| == n
    ensures Decode([0xBF] + pairs) == Got(v, rest)
  {
    DecodeHead(MAJOR_MAP, n, pairs);
    hide Head, Argument, ReadPairs, ReadPairsToBreak, ReadString;
    PairsToBreak(n, pairs, map[], v, rest);
    assert ([0xBF] + pairs)[1..] == pairs;
  }

  function Texts(chunks: seq<bytes>): bytes {
    if chunks == [] then [] else Text(chunks[0]) + Texts(chunks[1..])
  }

  function Concat(chunks: seq<bytes>): bytes {
    if chunks == [] then [] else chunks[0] + Concat(chunks[1..])
  }

  lemma {:induction false} FirstText(chunks: seq<bytes>, rest: bytes)
    requires chunks != []
    ensures Texts(chunks) + [BREAK] + rest == Text(chunks[0]) + (Texts(chunks[1..]) + [BREAK] + rest)
  {
    hide Text;
  }

  lemma {:induction false} ChunksRead(chunks: seq<bytes>, done: bytes, rest: bytes)
    requires forall c | c in chunks :: |c| < TWO_64
    ensures ReadChunks(Texts(chunks) + [BREAK] + rest, done) == Got(done + Concat(chunks), rest)
    decreases |chunks|
  {
    if chunks == [] {
      assert Texts(chunks) + [BREAK] + rest == [BREAK] + rest;
      assert ([BREAK] + rest)[1..] == rest && done + [] == done;
    } else {
      var more := Texts(chunks[1..]) + [BREAK] + rest;
      ReadText(chunks[0], more);
      hide ReadString, Text;
      FirstText(chunks, rest);
      ChunksRead(chunks[1..], done + chunks[0], rest);
      assert (done + chunks[0]) + Concat(chunks[1..]) == done + Concat(chunks);
    }
  }

  /** A string in chunks is their concatenation. */
  lemma {:induction false} IndefiniteString(chunks: seq<bytes>, rest: bytes)
    requires (forall c | c in chunks :: |c| < TWO_64) && |Concat(chunks)| < TWO_64
    ensures Decode([0x7F] + Texts(chunks) + [BREAK] + rest) == Decode(Text(Concat(chunks)) + rest)
    ensures Decode(Text(Concat(chunks)) + rest) == Got(String(Concat(chunks)), rest)
  {
    hide ReadChunks, Text, Concat, Texts, Decode;
    ChunksRead(chunks, [], rest);
    DecodeText(Concat(chunks), rest);
    var body := Texts(chunks) + [BREAK] + rest;
    DecodeChunks(body);
    assert [0x7F] + body == [0x7F] + Texts(chunks) + [BREAK] + rest;
    assert [] + Concat(chunks) == Concat(chunks);
  }

  lemma {:induction false} DecodeText(t: bytes, rest: bytes)
    requires |t| < TWO_64
    ensures Decode(Text(t) + rest) == Got(String(t), rest)
  {
    ReadText(t, rest);
    hide ReadString, Text, Argument;
  }

  lemma {:induction false} DecodeChunks(body: bytes)
    ensures Decode([0x7F] + body) ==
            match ReadChunks(body, [])
            case Broken(id) => Broken(id)
            case Got(t, rest) => Got(String(t), rest)
  {
    hide ReadChunks, Argument;
    assert ([0x7F] + body)[1..] == body;
  }

  // ---- the writer

  class Writer {
    const sink: Sink

    constructor ()
      ensures fresh(sink) && sink.output == []
    {
      sink := new Sink();
    }

    method WriteHead(major: nat, n: nat)
      requires major <= 5
      modifies sink
      ensures sink.output == old(sink.output) + Head(major, n)
    {
      hide BigEndian;
      var m := major * 0x20;
      if n <= 0x17 {
        OneByte(m + n);
        sink.WriteNumber(m + n, 1);
      } else if n <= 0xFF {
        sink.WriteCharacter(m + 0x18);
        sink.WriteNumber(n, 1);
      } else if n <= 0xFFFF {
        sink.WriteCharacter(m + 0x19);
        sink.WriteNumber(n, 2);
      } else if n < TWO_32 {
        sink.WriteCharacter(m + 0x1A);
        sink.WriteNumber(n, 4);
      } else if n < TWO_64 {
        sink.WriteCharacter(m + 0x1B);
        sink.WriteNumber(n, 8);
      }
    }

    method Write(v: Json)
      modifies sink
      ensures sink.output == old(sink.output) + Encode(v)
      decreases v, 1
    {
      hide Head, BigEndian;
      match v
      case Null => sink.WriteCharacter(0xF6);
      case Bool(b) => sink.WriteCharacter(if b then 0xF5 else 0xF4);
      case Integer(i) =>
        if i >= 0 {
          WriteHead(MAJOR_UNSIGNED, i);
        } else {
          WriteHead(MAJOR_NEGATIVE, -1 - i);
        }
      case Unsigned(u) => WriteHead(MAJOR_UNSIGNED, u);
      case Float(bits) =>
        sink.WriteCharacter(0xFB);
        sink.WriteNumber(bits, 8);
      case String(s) => WriteText(s);
      case Array(_) => WriteArray(v);
      case Object(_) => WriteObject(v);
    }

    method WriteText(s: bytes)
      modifies sink
      ensures sink.output == old(sink.output) + Text(s)
    {
      hide Head;
      WriteHead(MAJOR_STRING, |s|);
      sink.WriteCharacters(s);
    }

    method WriteArray(v: Json)
      requires v.Array?
      modifies sink
      ensures sink.output == old(sink.output) + Encode(v)
      decreases v, 0
    {
      hide Head, Encode;
      WriteHead(MAJOR_ARRAY, |v.a|);
      ghost var start := sink.output;
      for i := 0 to |v.a|
        invariant sink.output + Elements(v, i) == start + Elements(v, 0)
      {
        Regroup(sink.output, Encode(v.a[i]), Elements(v, i + 1));
        Write(v.a[i]);
      }
      ArrayParts(v, old(sink.output));
      assert sink.output + [] == sink.output;
    }

    method WriteObject(v: Json)
      requires v.Object?
      modifies sink
      ensures sink.output == old(sink.output) + Encode(v)
      decreases v, 0
    {
      hide Head, Encode, Text, Sorted;
      var keys := Sorted(v.o.Keys);
      WriteHead(MAJOR_MAP, |v.o|);
      ghost var start := sink.output;
      for i := 0 to |keys|
        invariant sink.output + Members(v, keys[i..]) == start + Members(v, keys)
      {
        var k := keys[i];
        assert k in keys && keys[i..][1..] == keys[i + 1..];
        RegroupMember(sink.output, Text(k), Encode(v.o[k]), Members(v, keys[i + 1..]));
        WriteText(k);
        Write(v.o[k]);
      }
      ObjectParts(v, old(sink.output));
      assert sink.output + [] == sink.output;
    }
  }

  lemma {:induction false} ArrayParts(v: Json, out: bytes)
    requires v.Array?
    ensures out + Head(MAJOR_ARRAY, |v.a|) + Elements(v, 0) == out + Encode(v)
  {
    hide Head, Elements;
  }

  lemma {:induction false} ObjectParts(v: Json, out: bytes)
    requires v.Object?
    ensures out + Head(MAJOR_MAP, |v.o|) + Members(v, Sorted(v.o.Keys)) == out + Encode(v)
  {
    hide Head, Members, Sorted;
  }

  // ---- the reader

  class Reader {
    const source: Source

    ghost predicate Valid()
      reads this, source
    {
      source.Valid()
    }

    constructor (message: bytes)
      ensures Valid() && fresh(source)
      ensures source.Rest() == if [0xEF, 0xBB, 0xBF] <= message then message[3..] else message
    {
      source := new Source(message);
    }

    /** The argument of the head whose low bits are given. */
    method GetArgument(low: nat) returns (r: Result<nat>)
      requires Valid() && low <= 0x1B
      modifies source
      ensures Valid() && source.Reached(Argument(low, old(source.Rest())), r)
    {
      if low <= 0x17 {
        r := Ok(low);
      } else if low == 0x18 {
        r := source.GetNumber(1);
      } else if low == 0x19 {
        r := source.GetNumber(2);
      } else if low == 0x1A {
        r := source.GetNumber(4);
      } else {
        r := source.GetNumber(8);
      }
    }

    /** A string from the current byte on. */
    method GetCborString() returns (r: Result<bytes>)
      requires Valid()
      modifies source
      ensures Valid() && source.Reached(ReadString(old(source.Here())), r)
      decreases |source.Here()|, 0
    {
      hide Argument;
      if source.current == EOF {
        return Err(PARSE_ERROR_110);
      }
      assert source.Here()[1..] == source.Rest();
      if 0x60 <= source.current <= 0x7B {
        var n := GetArgument(source.current - 0x60);
        if n.Err? {
          return Err(n.id);
        }
        r := source.GetString(n.value);
      } else if source.current == 0x7F {
        r := GetChunks();
      } else {
        r := Err(PARSE_ERROR_113);
      }
    }

    method GetChunks() returns (r: Result<bytes>)
      requires Valid()
      modifies source
      ensures Valid() && source.Reached(ReadChunks(old(source.Rest()), []), r)
      decreases |source.Rest()|, 1
    {
      var result: bytes := [];
      ghost var s := source.Rest();
      hide ReadString;
      while true
        invariant Valid() && |source.Rest()| <= |s|
        invariant ReadChunks(source.Rest(), result) == ReadChunks(s, [])
        decreases |source.Rest()|
      {
        source.Get();
        if source.current == BREAK {
          return Ok(result);
        }
        var chunk := GetCborString();
        if chunk.Err? {
          return chunk;
        }
        result := result + chunk.value;
      }
    }

    /** A value, from the next byte or from the current one. */
    method ParseInternal(getChar: bool := true) returns (r: Result<Json>)
      requires Valid()
      modifies source
      ensures Valid() && source.Reached(Decode(old(if getChar then source.Rest() else source.Here())), r)
      decreases |if getChar then source.Rest() else source.Here()|, 1
    {
      hide Decode;
      if getChar {
        source.Get();
      }
      r := ParseCurrent();
    }

    method ParseCurrent() returns (r: Result<Json>)
      requires Valid()
      modifies source
      ensures Valid() && source.Reached(Decode(old(source.Here())), r)
      decreases |source.Here()|, 0
    {
      hide Argument, ReadString, ReadItems, ReadItemsToBreak, ReadPairs, ReadPairsToBreak;
      var c := source.current;
      if c == EOF {
        return Err(PARSE_ERROR_110);
      }
      assert source.Here()[1..] == source.Rest();
      if c <= 0x3B && c % 0x20 <= 0x1B {
        var n := GetArgument(c % 0x20);
        r := if n.Err? then Err(n.id) else if c <= 0x1B then Ok(Unsigned(n.value)) else Ok(Integer(-1 - ToSigned(n.value)));
      } else if 0x60 <= c <= 0x7B || c == 0x7F {
        var t := GetCborString();
        r := if t.Err? then Err(t.id) else Ok(String(t.value));
      } else if 0x80 <= c <= 0x9B {
        var n := GetArgument(c - 0x80);
        if n.Err? {
          return Err(n.id);
        }
        r := GetCborArray(n.value);
      } else if c == 0x9F {
        r := GetArrayToBreak();
      } else if 0xA0 <= c <= 0xBB {
        var n := GetArgument(c - 0xA0);
        if n.Err? {
          return Err(n.id);
        }
        r := GetCborObject(n.value);
      } else if c == 0xBF {
        r := GetObjectToBreak();
      } else if c == 0xF4 {
        r := Ok(Bool(false));
      } else if c == 0xF5 {
        r := Ok(Bool(true));
      } else if c == 0xF6 {
        r := Ok(Null);
      } else {
        r := ParseFloat();
      }
    }

    method ParseFloat() returns (r: Result<Json>)
      requires Valid() && source.current != EOF
      requires source.current > 0x3B || source.current % 0x20 > 0x1B
      requires !(0x60 <= source.current <= 0x7B) && source.current !in {0x7F, 0x9F, 0xBF, 0xF4, 0xF5, 0xF6}
      requires !(0x80 <= source.current <= 0x9B) && !(0xA0 <= source.current <= 0xBB)
      modifies source
      ensures Valid() && source.Reached(Decode(old(source.Here())), r)
    {
      assert source.Here()[1..] == source.Rest();
      hide Argument, ReadString, ReadItems, ReadItemsToBreak, ReadPairs, ReadPairsToBreak;
      hide HalfToDouble, SingleToDouble;
      Capacities();
      var c := source.current;
      if c == 0xF9 {
        var n := source.GetNumber(2);
        r := if n.Err? then Err(n.id) else Ok(Float(HalfToDouble(n.value)));
      } else if c == 0xFA {
        var n := source.GetNumber(4);
        r := if n.Err? then Err(n.id) else Ok(Float(SingleToDouble(n.value)));
      } else if c == 0xFB {
        var n := source.GetNumber(8);
        r := if n.Err? then Err(n.id) else Ok(Float(n.value));
      } else {
        r := Err(PARSE_ERROR_112);
      }
    }

    method GetCborArray(len: nat) returns (r: Result<Json>)
      requires Valid()
      modifies source
      ensures Valid() && source.Reached(ReadItems(len, old(source.Rest()), []), r)
      decreases |source.Rest()|, 2
    {
      hide Decode, ReadItems;
      ghost var p, left := ReadItems(len, source.Rest(), []), |source.Rest()|;
      var result: seq<Json> := [];
      for i := 0 to len
        invariant Valid() && |source.Rest()| <= left
        invariant ReadItems(len - i, source.Rest(), result) == p
      {
        NextItem(len - i, source.Rest(), result);
        var item := ParseInternal();
        if item.Err? {
          return item;
        }
        result := result + [item.value];
      }
      NextItem(0, source.Rest(), result);
      return Ok(Array(result));
    }

    method GetArrayToBreak() returns (r: Result<Json>)
      requires Valid()
      modifies source
      ensures Valid() && source.Reached(ReadItemsToBreak(old(source.Rest()), []), r)
      decreases |source.Rest()|, 2
    {
      hide Decode;
      ghost var p, left := ReadItemsToBreak(source.Rest(), []), |source.Rest()|;
      var result: seq<Json> := [];
      while true
        invariant Valid() && |source.Rest()| <= left
        invariant ReadItemsToBreak(source.Rest(), result) == p
        decreases |source.Rest()|
      {
        source.Get();
        if source.current == BREAK {
          return Ok(Array(result));
        }
        var item := ParseInternal(false);
        if item.Err? {
          return item;
        }
        result := result + [item.value];
      }
    }

    /** A key, from the current byte on, and its value. */
    method GetPair() returns (r: Result<Pair>)
      requires Valid()
      modifies source
      ensures Valid() && source.Reached(ReadPair(old(source.Here())), r)
      decreases |source.Here()|, 2
    {
      hide Decode, ReadString;
      var key := GetCborString();
      if key.Err? {
        return Err(key.id);
      }
      var val := ParseInternal();
      r := if val.Err? then Err(val.id) else Ok(Pair(key.value, val.value));
    }

    method GetCborObject(len: nat) returns (r: Result<Json>)
      requires Valid()
      modifies source
      ensures Valid() && source.Reached(ReadPairs(len, old(source.Rest()), map[]), r)
      decreases |source.Rest()|, 3
    {
      hide ReadPair, Emplace, ReadPairs;
      ghost var p, left := ReadPairs(len, source.Rest(), map[]), |source.Rest()|;
      var result: map<bytes, Json> := map[];
      for i := 0 to len
        invariant Valid() && |source.Rest()| <= left
        invariant ReadPairs(len - i, source.Rest(), result) == p
      {
        NextPair(len - i, source.Rest(), result);
        source.Get();
        var pair := GetPair();
        if pair.Err? {
          return Err(pair.id);
        }
        result := Emplace(result, pair.value.k, pair.value.v);
      }
      NextPair(0, source.Rest(), result);
      return Ok(Object(result));
    }

    method GetObjectToBreak() returns (r: Result<Json>)
      requires Valid()
      modifies source
      ensures Valid() && source.Reached(ReadPairsToBreak(old(source.Rest()), map[]), r)
      decreases |source.Rest()|, 3
    {
      hide ReadPair, Emplace;
      ghost var p, left := ReadPairsToBreak(source.Rest(), map[]), |source.Rest()|;
      var result: map<bytes, Json> := map[];
      while true
        invariant Valid() && |source.Rest()| <= left
        invariant ReadPairsToBreak(source.Rest(), result) == p
        decreases |source.Rest()|
      {
        source.Get();
        if source.current == BREAK {
          return Ok(Object(result));
        }
        var pair := GetPair();
        if pair.Err? {
          return Err(pair.id);
        }
        result := result[pair.value.k := pair.value.v];
      }
    }

    method ParseCbor(strict: bool) returns (r: Result<Json>)
      requires Valid()
      modifies source
      ensures Valid() && r == Parse(old(source.Rest()), strict)
    {
      hide Decode;
      r := ParseInternal();
      if r.Ok? && strict {
        source.Get();
        if source.current != EOF {
          return Err(PARSE_ERROR_110);
        }
      }
    }
  }

  /** No message starts with a byte order mark, so nothing of it is skipped. */
  lemma {:induction false} NoMark(v: Json)
    requires SizesFit(v)
    ensures !([0xEF, 0xBB, 0xBF] <= Encode(v))
  {
    DecodeEncode(v, []);
    assert Encode(v) + [] == Encode(v);
    MarkIsNoValue(Encode(v));
  }

  lemma {:induction false} MarkIsNoValue(s: bytes)
    ensures s != [] && s[0] == 0xEF ==> Decode(s).Broken?
  {
    hide Argument, ReadString, ReadItems, ReadItemsToBreak, ReadPairs, ReadPairsToBreak;
  }

  /** The writer, then the reader. */
  method WriteAndParse(v: Json) returns (message: bytes, r: Result<Json>)
    requires SizesFit(v)
    ensures message == Encode(v) && r == Ok(Unsigneds(v))
  {
    hide Encode, Decode, SizesFit;
    var writer := new Writer();
    writer.Write(v);
    message := writer.sink.output;
    assert message == [] + Encode(v) == Encode(v);
    RoundTrip(v);
    NoMark(v);
    var reader := new Reader(message);
    r := reader.ParseCbor(true);
  }
}
