/**
  MessagePack byte by byte: the documented table of first bytes, what the reader makes of messages that the
  writer never writes, and which messages it rejects.
 */
module MsgPackLaws {
  import opened Arith
  import opened Buffers
  import opened Decimal
  import opened J = Json
  import opened Binary
  import opened MsgPack
  import Doubles

  // ---- the table

  predicate UnsignedForm(e: bytes, n: nat) {
    if n <= 127 then e == [n]
    else if n <= 255 then e == [0xCC] + BigEndian(n, 1)
    else if n <= 65535 then e == [0xCD] + BigEndian(n, 2)
    else if n <= 4294967295 then e == [0xCE] + BigEndian(n, 4)
    else e == [0xCF] + BigEndian(n, 8)
  }

  /** Negative numbers in two's complement. */
  predicate NegativeForm(e: bytes, i: int)
    requires -0x8000_0000_0000_0000 <= i < 0
  {
    if i >= -32 then e == [0x100 + i]
    else if i >= -128 then e == [0xD0] + BigEndian(0x100 + i, 1)
    else if i >= -32768 then e == [0xD1] + BigEndian(0x1_0000 + i, 2)
    else if i >= -2147483648 then e == [0xD2] + BigEndian(0x1_0000_0000 + i, 4)
    else e == [0xD3] + BigEndian(0x1_0000_0000_0000_0000 + i, 8)
  }

  predicate TextForm(h: bytes, n: nat) {
    if n <= 31 then h == [0xA0 + n]
    else if n <= 255 then h == [0xD9] + BigEndian(n, 1)
    else if n <= 65535 then h == [0xDA] + BigEndian(n, 2)
    else h == [0xDB] + BigEndian(n, 4)
  }

  predicate ContainerForm(h: bytes, fix: byte, two: byte, four: byte, n: nat)
    requires fix <= 0xF0
  {
    if n <= 15 then h == [fix + n]
    else if n <= 65535 then h == [two] + BigEndian(n, 2)
    else h == [four] + BigEndian(n, 4)
  }

  /** The encoding of a value that is no container, by the table. */
  predicate TableRow(v: Json, e: bytes) {
    match v
    case Null => e == [0xC0]
    case Bool(b) => e == [if b then 0xC3 else 0xC2]
    case Integer(i) => if i >= 0 then UnsignedForm(e, i) else NegativeForm(e, i)
    case Unsigned(u) => UnsignedForm(e, u)
    case Float(bits) => e == [0xCB] + BigEndian(bits, 8)
    case String(s) => |s| <= |e| && TextForm(e[..|e| - |s|], |s|) && e[|e| - |s|..] == s
    case _ => false
  }

  lemma {:induction false} NegativeIs(i: int)
    requires -TWO_63 <= i < 0
    ensures NegativeForm(NegativeBytes(i), i)
  {
    Capacities();
    hide BigEndian, Capacity;
  }

  lemma {:induction false} Table(v: Json)
    requires !v.Array? && !v.Object? && SizesFit(v)
    ensures TableRow(v, Encode(v))
  {
    hide BigEndian, NegativeBytes, NegativeForm, TextHead;
    match v
    case Integer(i) =>
      if i < 0 {
        NegativeIs(i);
      }
    case String(s) =>
      var h := TextHead(|s|);
      TextHeadIs(|s|);
      assert Encode(v) == h + s;
      assert (h + s)[..|h|] == h && (h + s)[|h|..] == s;
    case _ =>
  }

  lemma {:induction false} TextHeadIs(n: nat)
    requires n < TWO_32
    ensures TextForm(TextHead(n), n)
  {
    hide BigEndian;
  }

  lemma {:induction false} ContainerHeadIs(n: nat)
    requires n < TWO_32
    ensures ContainerForm(ArrayHead(n), 0x90, 0xDC, 0xDD, n) && ContainerForm(MapHead(n), 0x80, 0xDE, 0xDF, n)
  {
    hide BigEndian;
  }

  function ElementParts(a: seq<Json>): seq<bytes> {
    seq(|a|, j requires 0 <= j < |a| => Encode(a[j]))
  }

  lemma {:induction false} ElementsJoined(v: Json, i: nat)
    requires v.Array? && i <= |v.a|
    ensures Elements(v, i) == Joined(ElementParts(v.a[i..]))
    decreases |v.a| - i
  {
    hide Encode;
    if i < |v.a| {
      ElementsJoined(v, i + 1);
      assert v.a[i..][1..] == v.a[i + 1..];
      assert ElementParts(v.a[i..])[1..] == ElementParts(v.a[i + 1..]);
    }
  }

  /** An array is a head and its elements. */
  lemma {:induction false} ArrayTable(v: Json) returns (h: bytes)
    requires SizesFit(v) && v.Array?
    ensures ContainerForm(h, 0x90, 0xDC, 0xDD, |v.a|) && Encode(v) == h + Joined(ElementParts(v.a))
  {
    h := ArrayHead(|v.a|);
    hide ArrayHead, MapHead, ContainerForm, Elements;
    ContainerHeadIs(|v.a|);
    ElementsJoined(v, 0);
    assert v.a[0..] == v.a;
  }

  function MemberPart(o: map<bytes, Json>, k: bytes): bytes
    requires k in o
  {
    Encode(String(k)) + Encode(o[k])
  }

  function MemberParts(o: map<bytes, Json>, keys: seq<bytes>): seq<bytes>
    requires forall k | k in keys :: k in o
  {
    if keys == [] then [] else [MemberPart(o, keys[0])] + MemberParts(o, keys[1..])
  }

  lemma {:induction false} MembersJoined(v: Json, keys: seq<bytes>)
    requires v.Object? && forall k | k in keys :: k in v.o
    ensures Members(v, keys) == Joined(MemberParts(v.o, keys))
    decreases |keys|
  {
    hide Text;
    if keys != [] {
      MembersJoined(v, keys[1..]);
      assert Encode(String(keys[0])) == Text(keys[0]);
      hide Encode;
      assert MemberParts(v.o, keys)[1..] == MemberParts(v.o, keys[1..]);
    }
  }

  /** An object is a head and its members in key order, each a string and a value. */
  lemma {:induction false} ObjectTable(v: Json) returns (h: bytes, keys: seq<bytes>)
    requires SizesFit(v) && v.Object?
    ensures ContainerForm(h, 0x80, 0xDE, 0xDF, |v.o|) && InKeyOrder(keys, v.o) && Encode(v) == h + Joined(MemberParts(v.o, keys))
  {
    assert |v.o| < TWO_32;
    h := MapHead(|v.o|);
    keys := Sorted(v.o.Keys);
    hide ArrayHead, MapHead, ContainerForm, Members, Sorted, Less, MemberParts, InKeyOrder, SizesFit;
    SortedInKeyOrder(v.o);
    ContainerHeadIs(|v.o|);
    MembersJoined(v, keys);
  }

  // ---- messages that are not written

  /** Single precision, by sign and value, infinity and NaN included. */
  lemma {:induction false} ShortFloats(n: nat, rest: bytes)
    requires n < 0x1_0000_0000
    ensures exists r: uint64 :: Decode([0xCA] + BigEndian(n, 4) + rest) == Got(Float(r), rest) && IsSingle(n, r)
  {
    SingleRead(n, rest);
    SingleWidened(n);
    hide Decode, IsSingle, SingleToDouble;
  }

  lemma {:induction false} SingleRead(n: nat, rest: bytes)
    requires n < 0x1_0000_0000
    ensures Decode([0xCA] + BigEndian(n, 4) + rest) == Got(Float(SingleToDouble(n)), rest)
  {
    hide ReadString, FromBigEndian, BigEndian, ReadItems, ReadPairs, SingleToDouble;
    Capacities();
    TakeWritten(n, 4, rest);
    assert ([0xCA] + BigEndian(n, 4) + rest)[1..] == BigEndian(n, 4) + rest;
  }

  /** Integers that are written wider than they have to be; a wide signed one stays signed. */
  lemma {:induction false} WideIntegers(k: nat, w: nat, n: nat, i: int, s: bytes)
    requires (k, w) in [(0, 1), (1, 2), (2, 4), (3, 8)] && n < Capacity(w) && 0 - Capacity(w) <= 2 * i < Capacity(w)
    ensures n < TWO_64 && Decode([0xCC + k] + (BigEndian(n, w) + s)) == Got(Unsigned(n), s)
    ensures -TWO_63 <= i < TWO_63 && Decode([0xD0 + k] + (BigEndian(TwosComplement(i, w), w) + s)) == Got(Integer(i), s)
  {
    hide FromBigEndian, BigEndian, TwosComplement, Signed, ReadItems, ReadPairs, ReadString;
    Capacities();
    TakeWritten(n, w, s);
    SignedRoundTrip(i, w);
    TakeWritten(TwosComplement(i, w), w, s);
    assert Width(0xCC + k) == w && Width(0xD0 + k) == w;
    var t, u := [0xCC + k] + (BigEndian(n, w) + s), [0xD0 + k] + (BigEndian(TwosComplement(i, w), w) + s);
    assert t[1..] == BigEndian(n, w) + s && u[1..] == BigEndian(TwosComplement(i, w), w) + s;
  }

  lemma {:induction false} TextStart(n: nat, s: bytes)
    requires n < TWO_32
    ensures ReadString(TextHead(n) + s) == TakeBytes(s, n)
    ensures var t := TextHead(n) + s; t != [] && (0xA0 <= t[0] <= 0xBF || 0xD9 <= t[0] <= 0xDB)
  {
    hide FromBigEndian, BigEndian;
    Capacities();
    if n > 31 {
      var w := if n <= 0xFF then 1 else if n <= 0xFFFF then 2 else 4;
      TakeWritten(n, w, s);
      assert (TextHead(n) + s)[1..] == BigEndian(n, w) + s;
    } else {
      assert (TextHead(n) + s)[1..] == s;
    }
  }

  /** Lengths of strings that are written wider than they have to be. */
  lemma {:induction false} WideStrings(k: nat, w: nat, n: nat, s: bytes)
    requires (k, w) in [(0, 1), (1, 2), (2, 4)] && n < Capacity(w)
    ensures var wide := [0xD9 + k] + (BigEndian(n, w) + s);
            ReadString(wide) == ReadString(TextHead(n) + s) && Decode(wide) == Decode(TextHead(n) + s)
  {
    hide FromBigEndian, BigEndian, ReadItems, ReadPairs, ReadNumber, TextHead;
    Capacities();
    TextStart(n, s);
    TakeWritten(n, w, s);
    assert ([0xD9 + k] + (BigEndian(n, w) + s))[1..] == BigEndian(n, w) + s;
  }

  lemma {:induction false} ContainerStarts(n: nat, s: bytes)
    requires n < TWO_32
    ensures Decode(ArrayHead(n) + s) == ReadItems(n, s, []) && Decode(MapHead(n) + s) == ReadPairs(n, s, map[])
  {
    DecodeArrayHead(n, s);
    DecodeMapHead(n, s);
  }

  /** Sizes of arrays and maps that are written wider than they have to be. */
  lemma {:induction false} WideContainers(k: nat, w: nat, n: nat, s: bytes)
    requires (k, w) in [(0, 2), (1, 4)] && n < Capacity(w)
    ensures Decode([0xDC + k] + (BigEndian(n, w) + s)) == Decode(ArrayHead(n) + s)
    ensures Decode([0xDE + k] + (BigEndian(n, w) + s)) == Decode(MapHead(n) + s)
  {
    hide FromBigEndian, BigEndian, ReadItems, ReadPairs, ReadNumber, ReadString, ArrayHead, MapHead;
    Capacities();
    ContainerStarts(n, s);
    TakeWritten(n, w, s);
    assert ([0xDC + k] + (BigEndian(n, w) + s))[1..] == BigEndian(n, w) + s;
    assert ([0xDE + k] + (BigEndian(n, w) + s))[1..] == BigEndian(n, w) + s;
  }

  /** First bytes that start no value. */
  predicate Unsupported(c: byte) {
    c == 0xC1 || 0xC4 <= c <= 0xC9 || 0xD4 <= c <= 0xD8
  }

  lemma {:induction false} Rejected(s: bytes)
    ensures s == [] ==> Decode(s) == Broken(PARSE_ERROR_110) && ReadPair(s) == Broken(PARSE_ERROR_110)
    ensures s != [] && Unsupported(s[0]) ==> Decode(s) == Broken(PARSE_ERROR_112)
    ensures s != [] && !(0xA0 <= s[0] <= 0xBF) && !(0xD9 <= s[0] <= 0xDB) ==> ReadPair(s) == Broken(PARSE_ERROR_113)
  {
    hide ReadItems, ReadPairs, ReadNumber, TakeNumber;
  }

  // ---- keys that occur again

  function EntryBytes(e: Entry): bytes {
    Encode(String(e.k)) + Encode(e.v)
  }

  function EntriesBytes(members: seq<Entry>): bytes {
    if members == [] then [] else EntryBytes(members[0]) + EntriesBytes(members[1..])
  }

  predicate AllFit(members: seq<Entry>) {
    forall e | e in members :: |e.k| < TWO_32 && SizesFit(e.v)
  }

  function Read(e: Entry): Entry {
    Entry(e.k, Unsigneds(e.v))
  }

  function ReadAll(members: seq<Entry>): seq<Entry> {
    if members == [] then [] else [Read(members[0])] + ReadAll(members[1..])
  }

  lemma {:induction false} KeyEncoded(k: bytes)
    ensures Encode(String(k)) == Text(k)
  {}

  lemma {:induction false} EntryRead(e: Entry, rest: bytes)
    requires |e.k| < TWO_32 && SizesFit(e.v)
    ensures ReadPair(EntryBytes(e) + rest) == Got(Pair(e.k, Unsigneds(e.v)), rest)
  {
    hide ReadString, Text, Decode, Encode, Unsigneds, SizesFit;
    var key := Text(e.k);
    KeyEncoded(e.k);
    ReadText(e.k, Encode(e.v) + rest);
    DecodeEncode(e.v, rest);
    assert EntryBytes(e) + rest == key + (Encode(e.v) + rest);
  }

  lemma {:induction false} SizedRead(members: seq<Entry>, done: map<bytes, Json>, rest: bytes)
    requires AllFit(members)
    ensures ReadPairs(|members|, EntriesBytes(members) + rest, done) == Got(Object(FirstWins(ReadAll(members)) + done), rest)
    decreases |members|
  {
    hide ReadPair, Unsigneds, EntryBytes, FirstWins, SizesFit;
    if members == [] {
      assert EntriesBytes(members) + rest == rest;
      NoneWins(done);
    } else {
      var e, more := members[0], EntriesBytes(members[1..]) + rest;
      EntryRead(e, more);
      assert EntriesBytes(members) + rest == EntryBytes(e) + more;
      SizedRead(members[1..], Emplace(done, e.k, Unsigneds(e.v)), rest);
      assert ReadAll(members)[1..] == ReadAll(members[1..]);
      FirstWinsStep(ReadAll(members), done);
    }
  }

  /** The first of several members with one key counts. */
  lemma {:induction false} SizedMap(members: seq<Entry>, rest: bytes)
    requires AllFit(members) && |members| < TWO_32
    ensures Decode(MapHead(|members|) + (EntriesBytes(members) + rest)) == Got(Object(FirstWins(ReadAll(members))), rest)
  {
    hide Decode, MapHead, EntriesBytes, ReadPairs, FirstWins, ReadAll, AllFit;
    DecodeMapHead(|members|, EntriesBytes(members) + rest);
    SizedRead(members, map[], rest);
    assert FirstWins(ReadAll(members)) + map[] == FirstWins(ReadAll(members));
  }

  // ---- messages that are cut off

  lemma {:induction false} StringExtends(s: bytes, x: bytes)
    ensures Extends(ReadString(s), ReadString(s + x), x)
  {
    hide TakeBytes, TakeNumber;
    if s != [] {
      TailExtends(s, x);
      if 0xA0 <= s[0] <= 0xBF {
        TakeExtends(s[1..], s[0] - 0xA0, x);
      } else {
        var w := if s[0] == 0xD9 then 1 else if s[0] == 0xDA then 2 else 4;
        TakeExtends(s[1..], w, x);
        var g := TakeNumber(s[1..], w);
        if g.Got? {
          TakeExtends(g.rest, g.v, x);
        }
      }
    }
  }

  lemma {:induction false} NumberExtends(c: byte, s: bytes, x: bytes)
    requires 0xCA <= c <= 0xD3
    ensures Extends(ReadNumber(c, s), ReadNumber(c, s + x), x)
  {
    hide TakeNumber, SingleToDouble;
    TakeExtends(s, 4, x);
    TakeExtends(s, 8, x);
    TakeExtends(s, Width(c), x);
  }

  lemma {:induction false} ContainerExtends(s: bytes, x: bytes)
    requires s != [] && (0x80 <= s[0] <= 0x9F || 0xDC <= s[0] <= 0xDF)
    ensures Extends(Decode(s), Decode(s + x), x)
    decreases |s|, 0, 0
  {
    hide ReadString, ReadItems, ReadPairs, ReadNumber, TakeNumber;
    TailExtends(s, x);
    var c, rest := s[0], s[1..];
    if c <= 0x8F {
      PairsExtend(c - 0x80, rest, map[], x);
    } else if c <= 0x9F {
      ItemsExtend(c - 0x90, rest, [], x);
    } else {
      var w := if c % 2 == 0 then 2 else 4;
      TakeExtends(rest, w, x);
      var g := TakeNumber(rest, w);
      if g.Got? {
        ItemsExtend(g.v, g.rest, [], x);
        PairsExtend(g.v, g.rest, map[], x);
      }
    }
  }

  lemma {:induction false} ScalarExtends(s: bytes, x: bytes)
    requires s != [] && !(0x80 <= s[0] <= 0x9F || 0xDC <= s[0] <= 0xDF)
    ensures Extends(Decode(s), Decode(s + x), x)
  {
    hide ReadString, ReadItems, ReadPairs, ReadNumber, TakeNumber;
    TailExtends(s, x);
    StringExtends(s, x);
    if 0xCA <= s[0] <= 0xD3 {
      NumberExtends(s[0], s[1..], x);
    }
  }

  /** More input changes nothing but an error for a short one. */
  lemma {:induction false} DecodeExtends(s: bytes, x: bytes)
    ensures Extends(Decode(s), Decode(s + x), x)
    decreases |s|, 0, 1
  {
    if s == [] {
      Rejected(s);
    } else if 0x80 <= s[0] <= 0x9F || 0xDC <= s[0] <= 0xDF {
      ContainerExtends(s, x);
    } else {
      ScalarExtends(s, x);
    }
    hide Decode;
  }

  lemma {:induction false} ItemsExtend(n: nat, s: bytes, done: seq<Json>, x: bytes)
    ensures Extends(ReadItems(n, s, done), ReadItems(n, s + x, done), x)
    decreases |s|, 1
  {
    hide Decode;
    if n != 0 {
      DecodeExtends(s, x);
      if Decode(s).Got? {
        ItemsExtend(n - 1, Decode(s).rest, done + [Decode(s).v], x);
      }
    }
  }

  lemma {:induction false} PairExtends(s: bytes, x: bytes)
    ensures Extends(ReadPair(s), ReadPair(s + x), x)
    decreases |s|, 1
  {
    hide Decode, ReadString;
    StringExtends(s, x);
    if ReadString(s).Got? {
      DecodeExtends(ReadString(s).rest, x);
    }
  }

  lemma {:induction false} PairsExtend(n: nat, s: bytes, done: map<bytes, Json>, x: bytes)
    ensures Extends(ReadPairs(n, s, done), ReadPairs(n, s + x, done), x)
    decreases |s|, 2
  {
    hide ReadPair, Emplace;
    if n != 0 {
      PairExtends(s, x);
      var g := ReadPair(s);
      if g.Got? {
        PairsExtend(n - 1, g.rest, Emplace(done, g.v.k, g.v.v), x);
      }
    }
  }

  /** Every message that is cut off is rejected for its end. */
  lemma {:induction false} CutOff(v: Json, n: nat)
    requires SizesFit(v) && n < |Encode(v)|
    ensures Decode(Encode(v)[..n]) == Broken(PARSE_ERROR_110)
  {
    var s := Encode(v);
    hide Decode, Encode, SizesFit, Unsigneds;
    DecodeEncode(v, []);
    assert s + [] == s && s[..n] + s[n..] == s;
    assert |s[n..]| > 0;
    DecodeExtends(s[..n], s[n..]);
  }

  /** In strict mode a message has to end where its value ends; otherwise what follows does not matter. */
  lemma {:induction false} TrailingBytes(s: bytes, v: Json, x: bytes)
    requires Parse(s, true) == Ok(v) && x != []
    ensures Parse(s, false) == Ok(v) && Parse(s + x, false) == Ok(v) && Parse(s + x, true) == Err(PARSE_ERROR_110)
  {
    DecodeExtends(s, x);
    hide Decode;
  }
}
