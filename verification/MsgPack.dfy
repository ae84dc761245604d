/** MessagePack: the writer, the reader, and their round trip. */
module MsgPack {
  import opened Arith
  import opened Buffers
  import opened Decimal
  import opened J = Json
  import opened Binary

  // ---- the writer, as a function

  function UnsignedBytes(n: nat): bytes {
    if n < 0x80 then [n]
    else if n <= 0xFF then [0xCC] + BigEndian(n, 1)
    else if n <= 0xFFFF then [0xCD] + BigEndian(n, 2)
    else if n < TWO_32 then [0xCE] + BigEndian(n, 4)
    else [0xCF] + BigEndian(n, 8)
  }

  function NegativeBytes(i: int): bytes
    requires -TWO_63 <= i < 0
  {
    Capacities();
    if i >= -32 then [0x100 + i]
    else if i >= -0x80 then [0xD0] + BigEndian(TwosComplement(i, 1), 1)
    else if i >= -0x8000 then [0xD1] + BigEndian(TwosComplement(i, 2), 2)
    else if i >= -0x8000_0000 then [0xD2] + BigEndian(TwosComplement(i, 4), 4)
    else [0xD3] + BigEndian(TwosComplement(i, 8), 8)
  }

  /** Lengths of 2^32 and more have no head. */
  function TextHead(n: nat): bytes {
    if n <= 31 then [0xA0 + n]
    else if n <= 0xFF then [0xD9] + BigEndian(n, 1)
    else if n <= 0xFFFF then [0xDA] + BigEndian(n, 2)
    else if n < TWO_32 then [0xDB] + BigEndian(n, 4)
    else []
  }

  function ArrayHead(n: nat): bytes {
    if n <= 15 then [0x90 + n]
    else if n <= 0xFFFF then [0xDC] + BigEndian(n, 2)
    else if n < TWO_32 then [0xDD] + BigEndian(n, 4)
    else []
  }

  function MapHead(n: nat): bytes {
    if n <= 15 then [0x80 + n]
    else if n <= 0xFFFF then [0xDE] + BigEndian(n, 2)
    else if n < TWO_32 then [0xDF] + BigEndian(n, 4)
    else []
  }

  function Text(s: bytes): bytes {
    TextHead(|s|) + s
  }

  function Encode(v: Json): bytes
    decreases v, 1
  {
    match v
    case Null => [0xC0]
    case Bool(b) => if b then [0xC3] else [0xC2]
    case Integer(i) => if i >= 0 then UnsignedBytes(i) else NegativeBytes(i)
    case Unsigned(u) => UnsignedBytes(u)
    case Float(bits) => [0xCB] + BigEndian(bits, 8)
    case String(s) => Text(s)
    case Array(a) => ArrayHead(|a|) + Elements(v, 0)
    case Object(o) => MapHead(|o|) + Members(v, Sorted(o.Keys))
  }

  /** The elements from i on. */
  function Elements(v: Json, i: nat): bytes
    requires v.Array? && i <= |v.a|
    decreases v, 0, |v.a| - i
  {
    if i == |v.a| then [] else Encode(v.a[i]) + Elements(v, i + 1)
  }

  function Members(v: Json, keys: seq<bytes>): bytes
    requires v.Object? && forall k | k in keys :: k in v.o
    decreases v, 0, |keys|
  {
    if keys == [] then [] else Text(keys[0]) + Encode(v.o[keys[0]]) + Members(v, keys[1..])
  }

  // ---- the reader, as functions of the input from the current byte on

  function ReadString(s: bytes): (r: Got<bytes>)
    ensures r.Got? ==> |r.v| + |r.rest| < |s|
  {
    if s == [] then Broken(PARSE_ERROR_110)
    else if 0xA0 <= s[0] <= 0xBF then TakeBytes(s[1..], s[0] - 0xA0)
    else if 0xD9 <= s[0] <= 0xDB then
      match TakeNumber(s[1..], if s[0] == 0xD9 then 1 else if s[0] == 0xDA then 2 else 4)
      case Broken(id) => Broken(id)
      case Got(n, rest) => TakeBytes(rest, n)
    else Broken(PARSE_ERROR_113)
  }

  /** uint 8, 16, 32 and 64, by the last two bits of their prefix. */
  function Width(c: byte): nat {
    match c % 4
    case 0 => 1
    case 1 => 2
    case 2 => 4
    case _ => 8
  }

  lemma {:induction false} WidthCapacity(c: byte)
    ensures Capacity(Width(c)) <= TWO_64
  {
    Capacities();
  }

  function ReadNumber(c: byte, rest: bytes): (r: Got<Json>)
    requires 0xCA <= c <= 0xD3
    ensures r.Got? ==> |r.rest| <= |rest|
  {
    WidthCapacity(c);
    Capacities();
    if c == 0xCA then
      match TakeNumber(rest, 4)
      case Broken(id) => Broken(id)
      case Got(n, more) => Got(Float(SingleToDouble(n)), more)
    else if c == 0xCB then
      match TakeNumber(rest, 8)
      case Broken(id) => Broken(id)
      case Got(n, more) => Got(Float(n), more)
    else
      match TakeNumber(rest, Width(c))
      case Broken(id) => Broken(id)
      case Got(n, more) => Got(if c <= 0xCF then Unsigned(n) else Integer(Signed(n, Width(c))), more)
  }

  function Decode(s: bytes): (r: Got<Json>)
    ensures r.Got? ==> |r.rest| < |s|
    decreases |s|, 0
  {
    if s == [] then Broken(PARSE_ERROR_110)
    else
      Capacities();
      var c, rest := s[0], s[1..];
      if c <= 0x7F then Got(Unsigned(c), rest)
      else if c <= 0x8F then ReadPairs(c - 0x80, rest, map[])
      else if c <= 0x9F then ReadItems(c - 0x90, rest, [])
      else if c <= 0xBF || 0xD9 <= c <= 0xDB then
        match ReadString(s)
        case Broken(id) => Broken(id)
        case Got(t, more) => Got(String(t), more)
      else if c == 0xC0 then Got(Null, rest)
      else if c == 0xC2 then Got(Bool(false), rest)
      else if c == 0xC3 then Got(Bool(true), rest)
      else if 0xCA <= c <= 0xD3 then ReadNumber(c, rest)
      else if 0xDC <= c <= 0xDF then
        match TakeNumber(rest, if c % 2 == 0 then 2 else 4)
        case Broken(id) => Broken(id)
        case Got(n, more) => if c <= 0xDD then ReadItems(n, more, []) else ReadPairs(n, more, map[])
      else if c >= 0xE0 then Got(Integer(Signed(c, 1)), rest)
      else Broken(PARSE_ERROR_112)
  }

  function ReadItems(n: nat, s: bytes, done: seq<Json>): (r: Got<Json>)
    ensures r.Got? ==> |r.rest| <= |s| && r.v.Array?
    decreases |s|, 1
  {
    if n == 0 then Got(Array(done), s)
    else
      match Decode(s)
      case Broken(id) => Broken(id)
      case Got(v, rest) => ReadItems(n - 1, rest, done + [v])
  }

  datatype Pair = Pair(k: bytes, v: Json)

  function ReadPair(s: bytes): (r: Got<Pair>)
    ensures r.Got? ==> |r.rest| < |s|
    decreases |s|, 1
  {
    match ReadString(s)
    case Broken(id) => Broken(id)
    case Got(k, rest) =>
      match Decode(rest)
      case Broken(id) => Broken(id)
      case Got(v, more) => Got(Pair(k, v), more)
  }

  function ReadPairs(n: nat, s: bytes, done: map<bytes, Json>): (r: Got<Json>)
    ensures r.Got? ==> |r.rest| <= |s| && r.v.Object?
    decreases |s|, 2
  {
    if n == 0 then Got(Object(done), s)
    else
      match ReadPair(s)
      case Broken(id) => Broken(id)
      case Got(p, rest) => ReadPairs(n - 1, rest, Emplace(done, p.k, p.v))
  }

  // ---- heads

  lemma {:induction false} DecodeUnsigned(n: nat, rest: bytes)
    requires n < TWO_64
    ensures UnsignedBytes(n) != [] && Decode(UnsignedBytes(n) + rest) == Got(Unsigned(n), rest)
  {
    Capacities();
    hide FromBigEndian, BigEndian, ReadString, ReadItems, ReadPairs;
    var s := UnsignedBytes(n) + rest;
    assert s[1..] == UnsignedBytes(n)[1..] + rest;
    if n < 0x80 {
      assert s[1..] == rest;
    } else {
      var w := if n <= 0xFF then 1 else if n <= 0xFFFF then 2 else if n < TWO_32 then 4 else 8;
      assert UnsignedBytes(n)[1..] == BigEndian(n, w);
      TakeWritten(n, w, rest);
    }
  }

  lemma {:induction false} DecodeNegative(i: int, rest: bytes)
    requires -TWO_63 <= i < 0
    ensures NegativeBytes(i) != [] && Decode(NegativeBytes(i) + rest) == Got(Integer(i), rest)
  {
    Capacities();
    hide FromBigEndian, BigEndian, ReadString, ReadItems, ReadPairs;
    var s := NegativeBytes(i) + rest;
    if i >= -32 {
      assert s[1..] == rest;
    } else {
      var w := if i >= -0x80 then 1 else if i >= -0x8000 then 2 else if i >= -0x8000_0000 then 4 else 8;
      SignedRoundTrip(i, w);
      assert s[1..] == BigEndian(TwosComplement(i, w), w) + rest;
      TakeWritten(TwosComplement(i, w), w, rest);
    }
  }

  lemma {:induction false} ReadText(t: bytes, rest: bytes)
    requires |t| < TWO_32
    ensures Text(t) != [] && ReadString(Text(t) + rest) == Got(t, rest)
    ensures var c := (Text(t) + rest)[0]; 0xA0 <= c <= 0xBF || 0xD9 <= c <= 0xDB
  {
    Capacities();
    hide FromBigEndian, BigEndian;
    var n := |t|;
    var s := Text(t) + rest;
    TakeText(t, rest);
    if n <= 31 {
      assert s[1..] == t + rest;
    } else {
      var w := if n <= 0xFF then 1 else if n <= 0xFFFF then 2 else 4;
      assert s[1..] == BigEndian(n, w) + (t + rest);
      TakeWritten(n, w, t + rest);
    }
  }

  lemma {:induction false} DecodeArrayHead(n: nat, body: bytes)
    requires n < TWO_32
    ensures ArrayHead(n) != [] && Decode(ArrayHead(n) + body) == ReadItems(n, body, [])
  {
    Capacities();
    hide FromBigEndian, BigEndian, ReadString, ReadItems, ReadPairs;
    var s := ArrayHead(n) + body;
    if n <= 15 {
      assert s[1..] == body;
    } else {
      var w := if n <= 0xFFFF then 2 else 4;
      assert s[1..] == BigEndian(n, w) + body;
      TakeWritten(n, w, body);
    }
  }

  lemma {:induction false} DecodeMapHead(n: nat, body: bytes)
    requires n < TWO_32
    ensures MapHead(n) != [] && Decode(MapHead(n) + body) == ReadPairs(n, body, map[])
  {
    Capacities();
    hide FromBigEndian, BigEndian, ReadString, ReadItems, ReadPairs;
    var s := MapHead(n) + body;
    if n <= 15 {
      assert s[1..] == body;
    } else {
      var w := if n <= 0xFFFF then 2 else 4;
      assert s[1..] == BigEndian(n, w) + body;
      TakeWritten(n, w, body);
    }
  }

  // ---- the round trip

  /** The documented limits: sizes below 2^32. */
  predicate SizesFit(v: Json) {
    match v
    case String(s) => |s| < TWO_32
    case Array(a) => |a| < TWO_32 && forall i | 0 <= i < |a| :: SizesFit(a[i])
    case Object(o) => |o| < TWO_32 && forall k | k in o :: |k| < TWO_32 && SizesFit(o[k])
    case _ => true
  }

  lemma {:induction false} DecodeEncode(v: Json, rest: bytes)
    requires SizesFit(v)
    ensures Encode(v) != [] && Decode(Encode(v) + rest) == Got(Unsigneds(v), rest)
    decreases v, 1
  {
    hide Unsigneds, Decode, Encode;
    match v
    case Integer(i) => IntegerRead(v, rest);
    case Unsigned(u) => IntegerRead(v, rest);
    case Array(a) => ArrayRead(v, rest);
    case Object(o) => ObjectRead(v, rest);
    case _ => LiteralRead(v, rest);
  }

  lemma {:induction false} LiteralRead(v: Json, rest: bytes)
    requires (v.Null? || v.Bool? || v.Float? || v.String?) && SizesFit(v)
    ensures Encode(v) != [] && Decode(Encode(v) + rest) == Got(Unsigneds(v), rest)
  {
    hide ReadString, TextHead, ReadItems, ReadPairs, BigEndian, FromBigEndian;
    match v
    case Null => assert ([0xC0] + rest)[1..] == rest;
    case Bool(b) => assert Encode(v) == [Encode(v)[0]] && (Encode(v) + rest)[1..] == rest;
    case Float(bits) =>
      Capacities();
      TakeWritten(bits, 8, rest);
      assert (Encode(v) + rest)[1..] == BigEndian(bits, 8) + rest;
    case String(s) => ReadText(s, rest);
  }

  lemma {:induction false} IntegerRead(v: Json, rest: bytes)
    requires v.Integer? || v.Unsigned?
    ensures Encode(v) != [] && Decode(Encode(v) + rest) == Got(Unsigneds(v), rest)
  {
    var n: int := if v.Integer? then v.i else v.u;
    IntegerKinds(v, n);
    hide Decode, Renumber, UnsignedBytes, NegativeBytes;
    if n >= 0 {
      DecodeUnsigned(n, rest);
    } else {
      DecodeNegative(n, rest);
    }
  }

  lemma {:induction false} IntegerKinds(v: Json, n: int)
    requires (v.Integer? && n == v.i) || (v.Unsigned? && n == v.u)
    ensures Unsigneds(v) == if n >= 0 then Unsigned(n) else Integer(n)
  {
    assert AllUnsigned(n);
  }

  lemma {:induction false} ArrayRead(v: Json, rest: bytes)
    requires v.Array? && SizesFit(v)
    ensures Encode(v) != [] && Decode(Encode(v) + rest) == Got(Unsigneds(v), rest)
    decreases v, 0, |v.a| + 1
  {
    hide ArrayHead, ReadItems, Decode, Encode, Renumber, RenumberFrom, Elements;
    EncodedArray(v, rest);
    DecodeArrayHead(|v.a|, Elements(v, 0) + rest);
    RenumberArray(v, AllUnsigned);
    ElementsRead(v, 0, [], rest);
  }

  lemma {:induction false} EncodedArray(v: Json, rest: bytes)
    requires v.Array? && |v.a| < TWO_32
    ensures Encode(v) != [] && Encode(v) + rest == ArrayHead(|v.a|) + (Elements(v, 0) + rest)
  {
    DecodeArrayHead(|v.a|, []);
    Regroup(ArrayHead(|v.a|), Elements(v, 0), rest);
    hide ArrayHead, Decode, ReadItems, Elements;
  }

  lemma {:induction false} ElementsRead(v: Json, i: nat, done: seq<Json>, rest: bytes)
    requires v.Array? && SizesFit(v) && i <= |v.a|
    ensures ReadItems(|v.a| - i, Elements(v, i) + rest, done) == Got(Array(done + RenumberFrom(v.a, i, AllUnsigned)), rest)
    decreases v, 0, |v.a| - i
  {
    hide Decode, Encode, Renumber;
    if i == |v.a| {
      assert Elements(v, i) + rest == rest && done + RenumberFrom(v.a, i, AllUnsigned) == done;
    } else {
      DecodeEncode(v.a[i], Elements(v, i + 1) + rest);
      assert Elements(v, i) + rest == Encode(v.a[i]) + (Elements(v, i + 1) + rest);
      ElementsRead(v, i + 1, done + [Unsigneds(v.a[i])], rest);
      assert (done + [Unsigneds(v.a[i])]) + RenumberFrom(v.a, i + 1, AllUnsigned) == done + RenumberFrom(v.a, i, AllUnsigned);
    }
  }

  lemma {:induction false} ObjectRead(v: Json, rest: bytes)
    requires v.Object? && SizesFit(v)
    ensures Encode(v) != [] && Decode(Encode(v) + rest) == Got(Unsigneds(v), rest)
    decreases v, 0, |v.o| + 1
  {
    var keys := Sorted(v.o.Keys);
    EncodedObject(v, rest);
    DecodeMapHead(|v.o|, Members(v, keys) + rest);
    RenumberObject(v, AllUnsigned);
    hide MapHead, ReadPairs, Decode, Encode, Renumber, RenumberMembers, Members, Sorted;
    MembersRead(v, keys, map[], rest);
  }

  lemma {:induction false} EncodedObject(v: Json, rest: bytes)
    requires v.Object? && |v.o| < TWO_32
    ensures Encode(v) != [] && Encode(v) + rest == MapHead(|v.o|) + (Members(v, Sorted(v.o.Keys)) + rest)
  {
    DecodeMapHead(|v.o|, []);
    Regroup(MapHead(|v.o|), Members(v, Sorted(v.o.Keys)), rest);
    hide MapHead, Decode, ReadPairs, Members, Sorted;
  }

  lemma {:induction false} MembersRead(v: Json, keys: seq<bytes>, done: map<bytes, Json>, rest: bytes)
    requires v.Object? && SizesFit(v) && forall k | k in keys :: k in v.o
    ensures ReadPairs(|keys|, Members(v, keys) + rest, done) == Got(Object(RenumberMembers(v.o, keys, done, AllUnsigned)), rest)
    decreases v, 0, |keys|
  {
    hide Decode, Encode, Renumber, ReadString, Text, SizesFit;
    if keys == [] {
      assert Members(v, keys) + rest == rest;
    } else {
      MemberRead(v, keys[0], Members(v, keys[1..]) + rest);
      assert Members(v, keys) + rest == Text(keys[0]) + (Encode(v.o[keys[0]]) + (Members(v, keys[1..]) + rest));
      MembersRead(v, keys[1..], Emplace(done, keys[0], Unsigneds(v.o[keys[0]])), rest);
    }
  }

  lemma {:induction false} MemberRead(v: Json, k: bytes, rest: bytes)
    requires v.Object? && SizesFit(v) && k in v.o
    ensures ReadPair(Text(k) + (Encode(v.o[k]) + rest)) == Got(Pair(k, Unsigneds(v.o[k])), rest)
    decreases v, 0, 0
  {
    assert |k| < TWO_32 && SizesFit(v.o[k]);
    hide Decode, Encode, Renumber, ReadString, Text, SizesFit;
    ReadText(k, Encode(v.o[k]) + rest);
    DecodeEncode(v.o[k], rest);
  }

  // ---- whole messages

  /** A message, strictly: nothing may follow the value. */
  function Parse(s: bytes, strict: bool): Result<Json> {
    match Decode(s)
    case Broken(id) => Err(id)
    case Got(v, rest) => if strict && rest != [] then Err(PARSE_ERROR_110) else Ok(v)
  }

  lemma {:induction false} RoundTrip(v: Json)
    requires SizesFit(v)
    ensures Parse(Encode(v), true) == Ok(Unsigneds(v)) && (Eq(Unsigneds(v), v) <==> NoNaN(v))
  {
    hide Decode, Encode, Renumber, SizesFit;
    DecodeEncode(v, []);
    assert Encode(v) + [] == Encode(v);
    EqualUnsigneds(v);
  }

  // ---- the limits are exact: whatever the reader makes is below them

  lemma {:induction false} TextFits(s: bytes)
    ensures ReadString(s).Got? ==> |ReadString(s).v| < TWO_32
  {
    Capacities();
    hide TakeNumber;
  }

  lemma {:induction false} DecodedFits(s: bytes)
    ensures Decode(s).Got? ==> SizesFit(Decode(s).v)
    decreases |s|, 0
  {
    Capacities();
    hide ReadString, ReadItems, ReadPairs, ReadNumber, TakeNumber;
    if s != [] {
      var c, rest := s[0], s[1..];
      if 0x80 <= c <= 0x8F {
        PairsFit(c - 0x80, rest, map[]);
      } else if 0x90 <= c <= 0x9F {
        ItemsFit(c - 0x90, rest, []);
      } else if 0xDC <= c <= 0xDF {
        var g := TakeNumber(rest, if c % 2 == 0 then 2 else 4);
        if g.Got? {
          ItemsFit(g.v, g.rest, []);
          PairsFit(g.v, g.rest, map[]);
        }
      } else if 0xCA <= c <= 0xD3 {
        NumbersFit(c, rest);
      } else {
        TextFits(s);
      }
    }
  }

  lemma {:induction false} NumbersFit(c: byte, rest: bytes)
    requires 0xCA <= c <= 0xD3
    ensures ReadNumber(c, rest).Got? ==> SizesFit(ReadNumber(c, rest).v)
  {
    hide TakeNumber, SingleToDouble;
  }

  lemma {:induction false} ItemsFit(n: nat, s: bytes, done: seq<Json>)
    requires |done| + n < TWO_32 && forall i | 0 <= i < |done| :: SizesFit(done[i])
    ensures ReadItems(n, s, done).Got? ==> SizesFit(ReadItems(n, s, done).v)
    decreases |s|, 1
  {
    hide Decode;
    if n != 0 && Decode(s).Got? {
      DecodedFits(s);
      ItemsFit(n - 1, Decode(s).rest, done + [Decode(s).v]);
    }
  }

  predicate EntriesFit(o: map<bytes, Json>) {
    forall k | k in o :: |k| < TWO_32 && SizesFit(o[k])
  }

  lemma {:induction false} EmplaceFits(done: map<bytes, Json>, k: bytes, v: Json)
    requires |k| < TWO_32 && SizesFit(v) && EntriesFit(done)
    ensures |Emplace(done, k, v)| <= |done| + 1 && EntriesFit(Emplace(done, k, v))
  {
    hide SizesFit;
    assert done[k := v].Keys == done.Keys + {k};
  }

  lemma {:induction false} ObjectFits(o: map<bytes, Json>)
    ensures SizesFit(Object(o)) <==> |o| < TWO_32 && EntriesFit(o)
  {
  }

  lemma {:induction false} PairsFit(n: nat, s: bytes, done: map<bytes, Json>)
    requires |done| + n < TWO_32 && EntriesFit(done)
    ensures ReadPairs(n, s, done).Got? ==> SizesFit(ReadPairs(n, s, done).v)
    decreases |s|, 2
  {
    hide ReadPair, Emplace, SizesFit, EntriesFit;
    if n == 0 {
      ObjectFits(done);
    } else if ReadPair(s).Got? {
      var p := ReadPair(s).v;
      PairFits(s);
      EmplaceFits(done, p.k, p.v);
      PairsFit(n - 1, ReadPair(s).rest, Emplace(done, p.k, p.v));
    }
  }

  lemma {:induction false} PairFits(s: bytes)
    ensures var g := ReadPair(s); g.Got? ==> |g.v.k| < TWO_32 && SizesFit(g.v.v)
    decreases |s|, 1
  {
    hide Decode, ReadString;
    TextFits(s);
    if ReadString(s).Got? {
      DecodedFits(ReadString(s).rest);
    }
  }

  lemma {:induction false} UnsignedsFit(v: Json)
    ensures SizesFit(Unsigneds(v)) <==> SizesFit(v)
  {
    match v
    case Array(a) =>
      forall i | 0 <= i < |a| ensures SizesFit(Unsigneds(a[i])) <==> SizesFit(a[i]) {
        UnsignedsFit(a[i]);
      }
      var r := Unsigneds(v);
      assert forall i | 0 <= i < |a| :: r.a[i] == Unsigneds(a[i]);
      if SizesFit(v) {
        forall i | 0 <= i < |a| ensures SizesFit(r.a[i]) {
          assert SizesFit(a[i]);
        }
      } else if SizesFit(r) {
        forall i | 0 <= i < |a| ensures SizesFit(a[i]) {
          assert SizesFit(r.a[i]);
        }
      }
    case Object(o) =>
      hide Renumber;
      forall k ensures k in o ==> (SizesFit(Unsigneds(o[k])) <==> SizesFit(o[k])) {
        if k in o {
          UnsignedsFit(o[k]);
        }
      }
      MembersFit(v);
    case _ =>
  }

  lemma {:induction false} MembersFit(v: Json)
    requires v.Object? && forall k | k in v.o :: SizesFit(Unsigneds(v.o[k])) <==> SizesFit(v.o[k])
    ensures SizesFit(Unsigneds(v)) <==> SizesFit(v)
  {
    hide Renumber;
    var r := Unsigneds(v);
    RenumberMember(v, AllUnsigned, []);
    forall k ensures (k in r.o <==> k in v.o) && (k in v.o ==> r.o[k] == Unsigneds(v.o[k])) {
      RenumberMember(v, AllUnsigned, k);
    }
    assert r.o.Keys == v.o.Keys;
    assert |r.o| == |r.o.Keys| == |v.o|;
  }

  lemma {:induction false} EqualFits(x: Json, y: Json)
    requires Eq(x, y) && SizesFit(x)
    ensures SizesFit(y)
  {
    match x
    case Array(a) =>
      EqArrays(x, y);
      forall i | 0 <= i < |y.a| ensures SizesFit(y.a[i]) {
        EqualFits(a[i], y.a[i]);
      }
    case Object(o) =>
      EqObjects(x, y);
      assert |y.o| == |y.o.Keys| == |o.Keys|;
      forall k | k in y.o ensures |k| < TWO_32 && SizesFit(y.o[k]) {
        assert k in o.Keys;
        EqualFits(o[k], y.o[k]);
      }
    case _ =>
  }

  /** A value comes back exactly if every size in it is below 2^32, at any depth and in keys as well; */
  lemma {:induction false} RestoredExactly(v: Json, rest: bytes)
    ensures Decode(Encode(v) + rest) == Got(Unsigneds(v), rest) <==> SizesFit(v)
  {
    hide Decode, Encode, SizesFit, Unsigneds;
    if SizesFit(v) {
      DecodeEncode(v, rest);
    }
    DecodedFits(Encode(v) + rest);
    UnsignedsFit(v);
  }

  /** and no equal value comes back otherwise, or for NaN. */
  lemma {:induction false} EqualExactly(v: Json, rest: bytes)
    ensures var g := Decode(Encode(v) + rest);
            g.Got? && g.rest == rest && Eq(g.v, v) <==> SizesFit(v) && NoNaN(v)
  {
    hide Decode, Encode, SizesFit, Unsigneds, Eq, NoNaN, Renumber;
    var g := Decode(Encode(v) + rest);
    if SizesFit(v) {
      DecodeEncode(v, rest);
      EqualUnsigneds(v);
    } else if g.Got? && Eq(g.v, v) {
      DecodedFits(Encode(v) + rest);
      EqualFits(g.v, v);
    }
  }

  /** A string that is too long for its head does not come back. */
  lemma {:induction false} LongStringIsLost(s: bytes, rest: bytes)
    requires |s| >= TWO_32
    ensures Decode(Encode(String(s)) + rest) != Got(String(s), rest)
  {
    assert Encode(String(s)) == [] + s == s;
    StringIsShorter(s + rest);
    hide Decode;
  }

  lemma {:induction false} StringIsShorter(s: bytes)
    ensures var g := Decode(s); g.Got? && g.v.String? ==> |g.v.s| + |g.rest| < |s|
  {
    hide ReadString, ReadItems, ReadPairs, SingleToDouble;
  }

  /** A byte order mark can only be the beginning of a longer message than the writer's one byte for -17. */
  lemma {:induction false} NoMark(v: Json)
    requires SizesFit(v)
    ensures !([0xEF, 0xBB, 0xBF] <= Encode(v))
  {
    DecodeEncode(v, []);
    assert Encode(v) + [] == Encode(v);
    MarkIsOneByte(Encode(v));
    hide Encode, Unsigneds;
  }

  lemma {:induction false} MarkIsOneByte(s: bytes)
    ensures s != [] && s[0] == 0xEF && Decode(s).Got? ==> |Decode(s).rest| == |s| - 1
  {
    hide ReadString, ReadItems, ReadPairs, ReadNumber;
  }

  // ---- the writer

  class Writer {
    const sink: Sink

    constructor ()
      ensures fresh(sink) && sink.output == []
    {
      sink := new Sink();
    }

    method WriteUnsigned(n: nat)
      requires n < TWO_64
      modifies sink
      ensures sink.output == old(sink.output) + UnsignedBytes(n)
    {
      hide BigEndian;
      if n < 0x80 {
        OneByte(n);
        sink.WriteNumber(n, 1);
      } else if n <= 0xFF {
        sink.WriteCharacter(0xCC);
        sink.WriteNumber(n, 1);
      } else if n <= 0xFFFF {
        sink.WriteCharacter(0xCD);
        sink.WriteNumber(n, 2);
      } else if n < TWO_32 {
        sink.WriteCharacter(0xCE);
        sink.WriteNumber(n, 4);
      } else {
        sink.WriteCharacter(0xCF);
        sink.WriteNumber(n, 8);
      }
    }

    method WriteNegative(i: int)
      requires -TWO_63 <= i < 0
      modifies sink
      ensures sink.output == old(sink.output) + NegativeBytes(i)
    {
      Capacities();
      hide BigEndian;
      if i >= -32 {
        OneByte(0x100 + i);
        sink.WriteNumber(TwosComplement(i, 1), 1);
      } else if i >= -0x80 {
        sink.WriteCharacter(0xD0);
        sink.WriteNumber(TwosComplement(i, 1), 1);
      } else if i >= -0x8000 {
        sink.WriteCharacter(0xD1);
        sink.WriteNumber(TwosComplement(i, 2), 2);
      } else if i >= -0x8000_0000 {
        sink.WriteCharacter(0xD2);
        sink.WriteNumber(TwosComplement(i, 4), 4);
      } else {
        sink.WriteCharacter(0xD3);
        sink.WriteNumber(TwosComplement(i, 8), 8);
      }
    }

    /** A short head in one byte, or a prefix and the size in two or four bytes. */
    method WriteHead(short: nat, limit: nat, prefix: byte, n: nat)
      requires short + limit < 0x100 && limit < 0x10000 && prefix < 0xFF
      modifies sink
      ensures sink.output == old(sink.output) +
                             if n <= limit then [short + n]
                             else if n <= 0xFFFF then [prefix] + BigEndian(n, 2)
                             else if n < TWO_32 then [prefix + 1] + BigEndian(n, 4)
                             else []
    {
      hide BigEndian;
      if n <= limit {
        OneByte(short + n);
        sink.WriteNumber(short + n, 1);
      } else if n <= 0xFFFF {
        sink.WriteCharacter(prefix);
        sink.WriteNumber(n, 2);
      } else if n < TWO_32 {
        sink.WriteCharacter(prefix + 1);
        sink.WriteNumber(n, 4);
      }
    }

    method Write(v: Json)
      modifies sink
      ensures sink.output == old(sink.output) + Encode(v)
      decreases v, 1
    {
      hide BigEndian, UnsignedBytes, NegativeBytes;
      match v
      case Null => sink.WriteCharacter(0xC0);
      case Bool(b) => sink.WriteCharacter(if b then 0xC3 else 0xC2);
      case Integer(i) =>
        if i >= 0 {
          WriteUnsigned(i);
        } else {
          WriteNegative(i);
        }
      case Unsigned(u) => WriteUnsigned(u);
      case Float(bits) =>
        sink.WriteCharacter(0xCB);
        sink.WriteNumber(bits, 8);
      case String(s) => WriteText(s);
      case Array(_) => WriteArray(v);
      case Object(_) => WriteObject(v);
    }

    method WriteText(s: bytes)
      modifies sink
      ensures sink.output == old(sink.output) + Text(s)
    {
      hide BigEndian;
      if 31 < |s| <= 0xFF {
        sink.WriteCharacter(0xD9);
        sink.WriteNumber(|s|, 1);
      } else {
        WriteHead(0xA0, 31, 0xDA, |s|);
      }
      sink.WriteCharacters(s);
      Regroup(old(sink.output), TextHead(|s|), s);
    }

    method WriteArray(v: Json)
      requires v.Array?
      modifies sink
      ensures sink.output == old(sink.output) + Encode(v)
      decreases v, 0
    {
      hide Encode, BigEndian;
      WriteHead(0x90, 15, 0xDC, |v.a|);
      assert sink.output == old(sink.output) + ArrayHead(|v.a|);
      hide ArrayHead;
      ghost var start := sink.output;
      for i := 0 to |v.a|
        invariant sink.output + Elements(v, i) == start + Elements(v, 0)
      {
        Regroup(sink.output, Encode(v.a[i]), Elements(v, i + 1));
        Write(v.a[i]);
      }
      ArrayParts(v, old(sink.output));
      assert sink.output + [] == sink.output;
    }

    method WriteObject(v: Json)
      requires v.Object?
      modifies sink
      ensures sink.output == old(sink.output) + Encode(v)
      decreases v, 0
    {
      hide Encode, Text, Sorted, BigEndian;
      var keys := Sorted(v.o.Keys);
      WriteHead(0x80, 15, 0xDE, |v.o|);
      assert sink.output == old(sink.output) + MapHead(|v.o|);
      hide MapHead;
      ghost var start := sink.output;
      for i := 0 to |keys|
        invariant sink.output + Members(v, keys[i..]) == start + Members(v, keys)
      {
        var k := keys[i];
        assert k in keys && keys[i..][1..] == keys[i + 1..];
        RegroupMember(sink.output, Text(k), Encode(v.o[k]), Members(v, keys[i + 1..]));
        WriteText(k);
        Write(v.o[k]);
      }
      ObjectParts(v, old(sink.output));
      assert sink.output + [] == sink.output;
    }
  }

  lemma {:induction false} ArrayParts(v: Json, out: bytes)
    requires v.Array?
    ensures out + ArrayHead(|v.a|) + Elements(v, 0) == out + Encode(v)
  {
    hide ArrayHead, Elements;
  }

  lemma {:induction false} ObjectParts(v: Json, out: bytes)
    requires v.Object?
    ensures out + MapHead(|v.o|) + Members(v, Sorted(v.o.Keys)) == out + Encode(v)
  {
    hide MapHead, Members, Sorted;
  }

  // ---- the reader

  class Reader {
    const source: Source

    ghost predicate Valid()
      reads this, source
    {
      source.Valid()
    }

    constructor (message: bytes)
      ensures Valid() && fresh(source)
      ensures source.Rest() == if [0xEF, 0xBB, 0xBF] <= message then message[3..] else message
    {
      source := new Source(message);
    }

    /** A string from the current byte on. */
    method GetMsgPackString() returns (r: Result<bytes>)
      requires Valid()
      modifies source
      ensures Valid() && source.Reached(ReadString(old(source.Here())), r)
    {
      if source.current == EOF {
        return Err(PARSE_ERROR_110);
      }
      assert source.Here()[1..] == source.Rest();
      if 0xA0 <= source.current <= 0xBF {
        r := source.GetString(source.current - 0xA0);
      } else if 0xD9 <= source.current <= 0xDB {
        var n := source.GetNumber(if source.current == 0xD9 then 1 else if source.current == 0xDA then 2 else 4);
        if n.Err? {
          return Err(n.id);
        }
        r := source.GetString(n.value);
      } else {
        r := Err(PARSE_ERROR_113);
      }
    }

    method GetNumberValue() returns (r: Result<Json>)
      requires Valid() && 0xCA <= source.current <= 0xD3
      modifies source
      ensures Valid() && source.Reached(ReadNumber(old(source.current), old(source.Rest())), r)
    {
      var c := source.current;
      Capacities();
      WidthCapacity(c);
      hide SingleToDouble, Capacity;
      if c == 0xCA {
        var n := source.GetNumber(4);
        r := if n.Err? then Err(n.id) else Ok(Float(SingleToDouble(n.value)));
      } else if c == 0xCB {
        var n := source.GetNumber(8);
        r := if n.Err? then Err(n.id) else Ok(Float(n.value));
      } else {
        var n := source.GetNumber(Width(c));
        r := if n.Err? then Err(n.id) else Ok(if c <= 0xCF then Unsigned(n.value) else Integer(Signed(n.value, Width(c))));
      }
    }

    method ParseInternal() returns (r: Result<Json>)
      requires Valid()
      modifies source
      ensures Valid() && source.Reached(Decode(old(source.Rest())), r)
      decreases |source.Rest()|, 0
    {
      hide ReadString, ReadItems, ReadPairs, ReadNumber;
      Capacities();
      source.Get();
      var c := source.current;
      if c == EOF {
        return Err(PARSE_ERROR_110);
      }
      if c <= 0x7F {
        r := Ok(Unsigned(c));
      } else if c <= 0x8F {
        r := GetMsgPackObject(c - 0x80);
      } else if c <= 0x9F {
        r := GetMsgPackArray(c - 0x90);
      } else if c <= 0xBF || 0xD9 <= c <= 0xDB {
        var t := GetMsgPackString();
        r := if t.Err? then Err(t.id) else Ok(String(t.value));
      } else if c == 0xC0 {
        r := Ok(Null);
      } else if c == 0xC2 {
        r := Ok(Bool(false));
      } else if c == 0xC3 {
        r := Ok(Bool(true));
      } else if 0xCA <= c <= 0xD3 {
        r := GetNumberValue();
      } else if 0xDC <= c <= 0xDF {
        var n := source.GetNumber(if c % 2 == 0 then 2 else 4);
        if n.Err? {
          return Err(n.id);
        }
        if c <= 0xDD {
          r := GetMsgPackArray(n.value);
        } else {
          r := GetMsgPackObject(n.value);
        }
      } else if c >= 0xE0 {
        r := Ok(Integer(Signed(c, 1)));
      } else {
        r := Err(PARSE_ERROR_112);
      }
    }

    method GetMsgPackArray(len: nat) returns (r: Result<Json>)
      requires Valid()
      modifies source
      ensures Valid() && source.Reached(ReadItems(len, old(source.Rest()), []), r)
      decreases |source.Rest()|, 1
    {
      hide Decode;
      ghost var p, left := ReadItems(len, source.Rest(), []), |source.Rest()|;
      var result: seq<Json> := [];
      for i := 0 to len
        invariant Valid() && |source.Rest()| <= left
        invariant ReadItems(len - i, source.Rest(), result) == p
      {
        var item := ParseInternal();
        if item.Err? {
          return item;
        }
        result := result + [item.value];
      }
      return Ok(Array(result));
    }

    /** A key, from the current byte on, and its value. */
    method GetPair() returns (r: Result<Pair>)
      requires Valid()
      modifies source
      ensures Valid() && source.Reached(ReadPair(old(source.Here())), r)
      decreases |source.Here()|, 1
    {
      hide Decode, ReadString;
      var key := GetMsgPackString();
      if key.Err? {
        return Err(key.id);
      }
      var val := ParseInternal();
      r := if val.Err? then Err(val.id) else Ok(Pair(key.value, val.value));
    }

    method GetMsgPackObject(len: nat) returns (r: Result<Json>)
      requires Valid()
      modifies source
      ensures Valid() && source.Reached(ReadPairs(len, old(source.Rest()), map[]), r)
      decreases |source.Rest()|, 2
    {
      hide ReadPair, Emplace;
      ghost var p, left := ReadPairs(len, source.Rest(), map[]), |source.Rest()|;
      var result: map<bytes, Json> := map[];
      for i := 0 to len
        invariant Valid() && |source.Rest()| <= left
        invariant ReadPairs(len - i, source.Rest(), result) == p
      {
        source.Get();
        var pair := GetPair();
        if pair.Err? {
          return Err(pair.id);
        }
        result := Emplace(result, pair.value.k, pair.value.v);
      }
      return Ok(Object(result));
    }

    method ParseMsgPack(strict: bool) returns (r: Result<Json>)
      requires Valid()
      modifies source
      ensures Valid() && r == Parse(old(source.Rest()), strict)
    {
      hide Decode;
      r := ParseInternal();
      if r.Ok? && strict {
        source.Get();
        if source.current != EOF {
          return Err(PARSE_ERROR_110);
        }
      }
    }
  }

  /** The writer, then the reader. */
  method WriteAndParse(v: Json) returns (message: bytes, r: Result<Json>)
    requires SizesFit(v)
    ensures message == Encode(v) && r == Ok(Unsigneds(v))
  {
    hide Encode, Decode, SizesFit;
    var writer := new Writer();
    writer.Write(v);
    message := writer.sink.output;
    assert message == [] + Encode(v) == Encode(v);
    RoundTrip(v);
    NoMark(v);
    var reader := new Reader(message);
    r := reader.ParseMsgPack(true);
  }
}
