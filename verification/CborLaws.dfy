/**
  CBOR byte by byte: the documented table of first bytes, what the reader makes of messages that the writer
  never writes, and which messages it rejects (RFC 7049).
 */
module CborLaws {
  import opened Arith
  import opened Buffers
  import opened Decimal
  import opened J = Json
  import opened Binary
  import opened Cbor
  import Doubles

  // ---- the table

  /** A head: the argument itself up to 23, or a number of 1, 2, 4 or 8 bytes behind the first byte. */
  predicate HeadForm(h: bytes, base: nat, n: nat)
    requires base + 0x1B < 0x100
  {
    if n <= 23 then h == [base + n]
    else if n <= 0xFF then h == [base + 0x18] + BigEndian(n, 1)
    else if n <= 0xFFFF then h == [base + 0x19] + BigEndian(n, 2)
    else if n <= 0xFFFF_FFFF then h == [base + 0x1A] + BigEndian(n, 4)
    else h == [base + 0x1B] + BigEndian(n, 8)
  }

  lemma {:induction false} HeadIs(major: nat, n: nat, base: nat)
    requires major <= 5 && base == 0x20 * major && n < 0x1_0000_0000_0000_0000
    ensures HeadForm(Head(major, n), base, n)
  {
    hide BigEndian;
  }

  /** The encoding of a value that is no container, by the table. */
  predicate TableRow(v: Json, e: bytes)
  {
    match v
    case Null => e == [0xF6]
    case Bool(b) => e == [if b then 0xF5 else 0xF4]
    case Integer(i) => if i >= 0 then HeadForm(e, 0x00, i) else HeadForm(e, 0x20, -1 - i)
    case Unsigned(u) => HeadForm(e, 0x00, u)
    case Float(bits) => e == [0xFB] + BigEndian(bits, 8)
    case String(s) => |s| <= |e| && HeadForm(e[..|e| - |s|], 0x60, |s|) && e[|e| - |s|..] == s
    case _ => false
  }

  lemma {:induction false} Table(v: Json)
    requires !v.Array? && !v.Object? && SizesFit(v)
    ensures TableRow(v, Encode(v))
  {
    hide Head, BigEndian, HeadForm;
    match v
    case Integer(i) =>
      if i >= 0 {
        HeadIs(MAJOR_UNSIGNED, i, 0x00);
      } else {
        HeadIs(MAJOR_NEGATIVE, -1 - i, 0x20);
      }
    case Unsigned(u) => HeadIs(MAJOR_UNSIGNED, u, 0x00);
    case String(s) =>
      HeadIs(MAJOR_STRING, |s|, 0x60);
      var h := Head(MAJOR_STRING, |s|);
      assert Encode(v) == h + s;
      assert (h + s)[..|h|] == h && (h + s)[|h|..] == s;
    case _ =>
  }

  function ElementParts(a: seq<Json>): seq<bytes> {
    seq(|a|, j requires 0 <= j < |a| => Encode(a[j]))
  }

  lemma {:induction false} ElementsJoined(v: Json, i: nat)
    requires v.Array? && i <= |v.a|
    ensures Elements(v, i) == Joined(ElementParts(v.a[i..]))
    decreases |v.a| - i
  {
    hide Encode;
    if i < |v.a| {
      ElementsJoined(v, i + 1);
      assert v.a[i..][1..] == v.a[i + 1..];
      assert ElementParts(v.a[i..])[1..] == ElementParts(v.a[i + 1..]);
    }
  }

  /** An array is a head and its elements. */
  lemma {:induction false} ArrayTable(v: Json) returns (h: bytes)
    requires SizesFit(v) && v.Array?
    ensures HeadForm(h, 0x80, |v.a|) && Encode(v) == h + Joined(ElementParts(v.a))
  {
    h := Head(MAJOR_ARRAY, |v.a|);
    hide Head, HeadForm, Elements;
    HeadIs(MAJOR_ARRAY, |v.a|, 0x80);
    ElementsJoined(v, 0);
    assert v.a[0..] == v.a;
  }

  function MemberPart(o: map<bytes, Json>, k: bytes): bytes
    requires k in o
  {
    Encode(String(k)) + Encode(o[k])
  }

  function MemberParts(o: map<bytes, Json>, keys: seq<bytes>): seq<bytes>
    requires forall k | k in keys :: k in o
  {
    if keys == [] then [] else [MemberPart(o, keys[0])] + MemberParts(o, keys[1..])
  }

  lemma {:induction false} MembersJoined(v: Json, keys: seq<bytes>)
    requires v.Object? && forall k | k in keys :: k in v.o
    ensures Members(v, keys) == Joined(MemberParts(v.o, keys))
    decreases |keys|
  {
    hide Text;
    if keys != [] {
      MembersJoined(v, keys[1..]);
      assert Encode(String(keys[0])) == Text(keys[0]);
      hide Encode;
      assert MemberParts(v.o, keys)[1..] == MemberParts(v.o, keys[1..]);
    }
  }

  /** An object is a head and its members in key order, each a string and a value. */
  lemma {:induction false} ObjectTable(v: Json) returns (h: bytes, keys: seq<bytes>)
    requires SizesFit(v) && v.Object?
    ensures HeadForm(h, 0xA0, |v.o|) && InKeyOrder(keys, v.o) && Encode(v) == h + Joined(MemberParts(v.o, keys))
  {
    assert |v.o| < TWO_64;
    h := Head(MAJOR_MAP, |v.o|);
    keys := Sorted(v.o.Keys);
    hide Head, HeadForm, Members, Sorted, Less, MemberParts, InKeyOrder, SizesFit;
    SortedInKeyOrder(v.o);
    HeadIs(MAJOR_MAP, |v.o|, 0xA0);
    MembersJoined(v, keys);
  }

  // ---- messages that are not written

  lemma {:induction false} HalfWidened(n: nat)
    requires n < 0x10000
    ensures IsHalf(n, HalfToDouble(n))
  {
    var exp, mant := n / 0x400 % 0x20, n % 0x400;
    if exp != 0x1F {
      HalfIsExact(n);
      hide HalfToDouble, Scaled, Doubles.Value;
    }
  }

  /** Half and single precision, by sign and value, infinity and NaN included. */
  lemma {:induction false} ShortFloats(n: nat, rest: bytes)
    ensures n < 0x10000 ==>
              exists r: uint64 :: Decode([0xF9] + BigEndian(n, 2) + rest) == Got(Float(r), rest) && IsHalf(n, r)
    ensures n < 0x1_0000_0000 ==>
              exists r: uint64 :: Decode([0xFA] + BigEndian(n, 4) + rest) == Got(Float(r), rest) && IsSingle(n, r)
  {
    if n < 0x10000 {
      HalfRead(n, rest);
      HalfWidened(n);
    }
    if n < 0x1_0000_0000 {
      SingleRead(n, rest);
      SingleWidened(n);
    }
    hide Decode, IsHalf, IsSingle, HalfToDouble, SingleToDouble;
  }

  lemma {:induction false} HalfRead(n: nat, rest: bytes)
    requires n < 0x10000
    ensures Decode([0xF9] + BigEndian(n, 2) + rest) == Got(Float(HalfToDouble(n)), rest)
  {
    hide ReadString, Argument, FromBigEndian, BigEndian, ReadItems, ReadPairs, HalfToDouble;
    Capacities();
    TakeWritten(n, 2, rest);
    assert ([0xF9] + BigEndian(n, 2) + rest)[1..] == BigEndian(n, 2) + rest;
  }

  lemma {:induction false} SingleRead(n: nat, rest: bytes)
    requires n < 0x1_0000_0000
    ensures Decode([0xFA] + BigEndian(n, 4) + rest) == Got(Float(SingleToDouble(n)), rest)
  {
    hide ReadString, Argument, FromBigEndian, BigEndian, ReadItems, ReadPairs, SingleToDouble;
    Capacities();
    TakeWritten(n, 4, rest);
    assert ([0xFA] + BigEndian(n, 4) + rest)[1..] == BigEndian(n, 4) + rest;
  }

  /** A negative integer below the range of int64 wraps around. */
  lemma {:induction false} NegativeWraps(n: nat, rest: bytes) returns (i: int64)
    requires n < 0x1_0000_0000_0000_0000
    ensures Decode([0x3B] + BigEndian(n, 8) + rest) == Got(Integer(i), rest) && (i + 1 + n) % 0x1_0000_0000_0000_0000 == 0
  {
    hide ReadString, FromBigEndian, BigEndian, ReadItems, ReadPairs;
    Capacities();
    TakeWritten(n, 8, rest);
    assert ([0x3B] + BigEndian(n, 8) + rest)[1..] == BigEndian(n, 8) + rest;
    i := -1 - ToSigned(n);
  }

  /** The forms in which an argument follows the first byte. */
  predicate Wide(low: nat, w: nat) {
    (low, w) in [(0x18, 1), (0x19, 2), (0x1A, 4), (0x1B, 8)]
  }

  lemma {:induction false} WideArgument(low: nat, w: nat, n: nat, s: bytes)
    requires Wide(low, w) && n < Capacity(w)
    ensures n < TWO_64 && Argument(low, BigEndian(n, w) + s) == Got(n, s)
  {
    hide FromBigEndian, BigEndian;
    Capacities();
    TakeWritten(n, w, s);
  }

  lemma {:induction false} ArgumentDecides(major: nat, s: bytes, t: bytes)
    requires major in [0, 1, 3, 4, 5] && s != [] && t != []
    requires 0x20 * major <= s[0] <= 0x20 * major + 0x1B && 0x20 * major <= t[0] <= 0x20 * major + 0x1B
    requires Argument(s[0] - 0x20 * major, s[1..]) == Argument(t[0] - 0x20 * major, t[1..])
    ensures Decode(s) == Decode(t) && (major == 3 ==> ReadString(s) == ReadString(t))
  {
    hide Argument, ReadItems, ReadPairs, ReadItemsToBreak, ReadPairsToBreak, ReadChunks;
  }

  /** A head that is longer than it has to be is read like the shortest one, for numbers, sizes and lengths. */
  lemma {:induction false} WideHeads(major: nat, low: nat, w: nat, n: nat, s: bytes)
    requires major in [0, 1, 3, 4, 5] && Wide(low, w) && n < Capacity(w)
    ensures var wide := [0x20 * major + low] + (BigEndian(n, w) + s);
            && Decode(wide) == Decode(Head(major, n) + s)
            && (major == 3 ==> ReadString(wide) == ReadString(Head(major, n) + s))
  {
    hide Decode, ReadString, Argument, Head, BigEndian;
    WideArgument(low, w, n, s);
    ArgumentOfHead(major, n, s);
    var wide := [0x20 * major + low] + (BigEndian(n, w) + s);
    assert wide[1..] == BigEndian(n, w) + s;
    ArgumentDecides(major, wide, Head(major, n) + s);
  }

  /** First bytes that start no value. */
  predicate Unsupported(c: byte) {
    || 0x1C <= c <= 0x1F || 0x3C <= c <= 0x5F || 0x7C <= c <= 0x7E || 0x9C <= c <= 0x9E
    || 0xBC <= c <= 0xBE || 0xC0 <= c <= 0xF3 || 0xF7 <= c <= 0xF8 || 0xFC <= c <= 0xFF
  }

  lemma {:induction false} Rejected(s: bytes)
    ensures s == [] ==> Decode(s) == Broken(PARSE_ERROR_110) && ReadPair(s) == Broken(PARSE_ERROR_110)
    ensures s != [] && Unsupported(s[0]) ==> Decode(s) == Broken(PARSE_ERROR_112)
    ensures s != [] && !(0x60 <= s[0] <= 0x7B) && s[0] != 0x7F ==> ReadPair(s) == Broken(PARSE_ERROR_113)
  {
    hide Argument, ReadItems, ReadPairs;
  }

  // ---- keys that occur again

  function EntryBytes(e: Entry): bytes {
    Encode(String(e.k)) + Encode(e.v)
  }

  function EntriesBytes(members: seq<Entry>): bytes {
    if members == [] then [] else EntryBytes(members[0]) + EntriesBytes(members[1..])
  }

  predicate EntriesFit(members: seq<Entry>) {
    forall e | e in members :: |e.k| < TWO_64 && SizesFit(e.v)
  }

  function Read(e: Entry): Entry {
    Entry(e.k, Unsigneds(e.v))
  }

  function ReadAll(members: seq<Entry>): seq<Entry> {
    if members == [] then [] else [Read(members[0])] + ReadAll(members[1..])
  }

  lemma {:induction false} KeyEncoded(k: bytes)
    ensures Encode(String(k)) == Text(k)
  {}

  lemma {:induction false} EntryRead(e: Entry, rest: bytes)
    requires |e.k| < TWO_64 && SizesFit(e.v)
    ensures ReadPair(EntryBytes(e) + rest) == Got(Pair(e.k, Unsigneds(e.v)), rest)
    ensures EntryBytes(e) != [] && EntryBytes(e)[0] != BREAK
  {
    hide ReadString, Text, Decode, Encode, Unsigneds, SizesFit;
    var key := Text(e.k);
    KeyEncoded(e.k);
    ReadText(e.k, Encode(e.v) + rest);
    DecodeEncode(e.v, rest);
    assert EntryBytes(e) + rest == key + (Encode(e.v) + rest);
    KeyStart(e.k, Encode(e.v));
  }

  lemma {:induction false} KeyStart(k: bytes, more: bytes)
    requires |k| < TWO_64
    ensures (Text(k) + more) != [] && (Text(k) + more)[0] != BREAK
  {
    ReadText(k, more);
    hide ReadString, Text;
  }

  lemma {:induction false} SizedRead(members: seq<Entry>, done: map<bytes, Json>, rest: bytes)
    requires EntriesFit(members)
    ensures ReadPairs(|members|, EntriesBytes(members) + rest, done) == Got(Object(FirstWins(ReadAll(members)) + done), rest)
    decreases |members|
  {
    hide ReadPair, Unsigneds, EntryBytes, FirstWins, SizesFit;
    if members == [] {
      assert EntriesBytes(members) + rest == rest;
      NoneWins(done);
    } else {
      var e, more := members[0], EntriesBytes(members[1..]) + rest;
      EntryRead(e, more);
      assert EntriesBytes(members) + rest == EntryBytes(e) + more;
      SizedRead(members[1..], Emplace(done, e.k, Unsigneds(e.v)), rest);
      assert ReadAll(members)[1..] == ReadAll(members[1..]);
      FirstWinsStep(ReadAll(members), done);
    }
  }

  /** In a map with a size the first of several members with one key counts. */
  lemma {:induction false} SizedMap(members: seq<Entry>, rest: bytes)
    requires EntriesFit(members) && |members| < TWO_64
    ensures Decode(Head(MAJOR_MAP, |members|) + (EntriesBytes(members) + rest)) == Got(Object(FirstWins(ReadAll(members))), rest)
  {
    hide Decode, Head, EntriesBytes, ReadPairs, FirstWins, ReadAll, EntriesFit;
    DecodeHead(MAJOR_MAP, |members|, EntriesBytes(members) + rest);
    SizedRead(members, map[], rest);
    assert FirstWins(ReadAll(members)) + map[] == FirstWins(ReadAll(members));
  }

  lemma {:induction false} BrokenOffRead(members: seq<Entry>, done: map<bytes, Json>, rest: bytes)
    requires EntriesFit(members)
    ensures ReadPairsToBreak(EntriesBytes(members) + ([BREAK] + rest), done) ==
            Got(Object(done + LastWins(ReadAll(members))), rest)
    decreases |members|
  {
    hide ReadPair, Unsigneds, EntryBytes, LastWins, SizesFit;
    var end := [BREAK] + rest;
    if members == [] {
      assert EntriesBytes(members) + end == end && end[1..] == rest;
      NoneWins(done);
    } else {
      var e, more := members[0], EntriesBytes(members[1..]) + end;
      EntryRead(e, more);
      var s := EntriesBytes(members) + end;
      assert s == EntryBytes(e) + more;
      assert s[0] == EntryBytes(e)[0];
      BrokenOffRead(members[1..], done[e.k := Unsigneds(e.v)], rest);
      assert ReadAll(members)[1..] == ReadAll(members[1..]);
      LastWinsStep(ReadAll(members), done);
    }
  }

  /** In a map up to a break the last one counts. */
  lemma {:induction false} BrokenOffMap(members: seq<Entry>, rest: bytes)
    requires EntriesFit(members)
    ensures Decode([0xBF] + (EntriesBytes(members) + ([0xFF] + rest))) == Got(Object(LastWins(ReadAll(members))), rest)
  {
    hide Argument, EntriesBytes, ReadPairs, ReadItems, ReadPairsToBreak, ReadItemsToBreak, ReadString, LastWins, ReadAll, EntriesFit;
    var body := EntriesBytes(members) + ([0xFF] + rest);
    BrokenOffRead(members, map[], rest);
    assert ([0xBF] + body)[1..] == body;
    assert map[] + LastWins(ReadAll(members)) == LastWins(ReadAll(members));
  }

  // ---- messages that are cut off

  lemma {:induction false} ArgumentExtends(low: nat, s: bytes, x: bytes)
    requires low <= 0x1B
    ensures Extends(Argument(low, s), Argument(low, s + x), x)
  {
    hide TakeNumber;
    TakeExtends(s, 1, x);
    TakeExtends(s, 2, x);
    TakeExtends(s, 4, x);
    TakeExtends(s, 8, x);
  }

  lemma {:induction false} StringExtends(s: bytes, x: bytes)
    ensures Extends(ReadString(s), ReadString(s + x), x)
    decreases |s|, 0
  {
    hide Argument, TakeBytes;
    if s != [] {
      TailExtends(s, x);
      if 0x60 <= s[0] <= 0x7B {
        ArgumentExtends(s[0] - 0x60, s[1..], x);
        var g := Argument(s[0] - 0x60, s[1..]);
        if g.Got? {
          TakeExtends(g.rest, g.v, x);
        }
      } else if s[0] == 0x7F {
        ChunksExtend(s[1..], [], x);
      }
    }
  }

  lemma {:induction false} ChunksExtend(s: bytes, done: bytes, x: bytes)
    ensures Extends(ReadChunks(s, done), ReadChunks(s + x, done), x)
    decreases |s|, 1
  {
    hide ReadString;
    TailExtends(s, x);
    NoString();
    if s != [] && s[0] != BREAK {
      StringExtends(s, x);
      if ReadString(s).Got? {
        ChunksExtend(ReadString(s).rest, done + ReadString(s).v, x);
      }
    }
  }

  lemma {:induction false} NoString()
    ensures ReadString([]) == Broken(PARSE_ERROR_110) && Decode([]) == Broken(PARSE_ERROR_110)
  {
  }

  lemma {:induction false} IntegerExtends(s: bytes, x: bytes)
    requires s != [] && (s[0] <= 0x1B || 0x20 <= s[0] <= 0x3B)
    ensures Extends(Decode(s), Decode(s + x), x)
  {
    hide Argument, ReadString, ReadItems, ReadPairs, ReadItemsToBreak, ReadPairsToBreak, TakeNumber, HalfToDouble, SingleToDouble;
    TailExtends(s, x);
    ArgumentExtends(s[0] % 0x20, s[1..], x);
  }

  lemma {:induction false} SizedExtends(s: bytes, x: bytes)
    requires s != [] && (0x80 <= s[0] <= 0x9B || 0xA0 <= s[0] <= 0xBB)
    ensures Extends(Decode(s), Decode(s + x), x)
    decreases |s|, 0, 0
  {
    hide Argument, ReadString, ReadItems, ReadPairs, ReadItemsToBreak, ReadPairsToBreak, TakeNumber, HalfToDouble, SingleToDouble;
    TailExtends(s, x);
    var low := s[0] % 0x20;
    ArgumentExtends(low, s[1..], x);
    var g := Argument(low, s[1..]);
    if g.Got? {
      if s[0] <= 0x9B {
        ItemsExtend(g.v, g.rest, [], x);
      } else {
        PairsExtend(g.v, g.rest, map[], x);
      }
    }
  }

  lemma {:induction false} ShortExtends(s: bytes, x: bytes)
    requires s != [] && 0xC0 <= s[0]
    ensures Extends(Decode(s), Decode(s + x), x)
  {
    hide Argument, ReadString, ReadItems, ReadPairs, ReadItemsToBreak, ReadPairsToBreak, TakeNumber, HalfToDouble, SingleToDouble;
    TailExtends(s, x);
    TakeExtends(s[1..], 2, x);
    TakeExtends(s[1..], 4, x);
    TakeExtends(s[1..], 8, x);
  }

  lemma {:induction false} DecodeExtends(s: bytes, x: bytes)
    ensures Extends(Decode(s), Decode(s + x), x)
    decreases |s|, 0, 1
  {
    NoString();
    if s != [] {
      var c := s[0];
      if c <= 0x1B || 0x20 <= c <= 0x3B {
        IntegerExtends(s, x);
      } else if 0x80 <= c <= 0x9B || 0xA0 <= c <= 0xBB {
        SizedExtends(s, x);
      } else if c >= 0xC0 {
        ShortExtends(s, x);
      } else {
        OtherExtends(s, x);
      }
    }
    hide Decode;
  }

  lemma {:induction false} OtherExtends(s: bytes, x: bytes)
    requires s != []
    requires var c := s[0]; 0x1C <= c <= 0x1F || 0x3C <= c <= 0x7F || 0x9C <= c <= 0x9F || 0xBC <= c <= 0xBF
    ensures Extends(Decode(s), Decode(s + x), x)
    decreases |s|, 0, 0
  {
    hide Argument, ReadString, ReadItems, ReadPairs, ReadItemsToBreak, ReadPairsToBreak, TakeNumber, HalfToDouble, SingleToDouble;
    TailExtends(s, x);
    if s[0] == 0x9F {
      ItemsToBreakExtend(s[1..], [], x);
    } else if s[0] == 0xBF {
      PairsToBreakExtend(s[1..], map[], x);
    } else {
      StringExtends(s, x);
    }
  }

  lemma {:induction false} ItemsExtend(n: nat, s: bytes, done: seq<Json>, x: bytes)
    ensures Extends(ReadItems(n, s, done), ReadItems(n, s + x, done), x)
    decreases |s|, 1
  {
    hide Decode;
    if n != 0 {
      DecodeExtends(s, x);
      if Decode(s).Got? {
        ItemsExtend(n - 1, Decode(s).rest, done + [Decode(s).v], x);
      }
    }
  }

  lemma {:induction false} ItemsToBreakExtend(s: bytes, done: seq<Json>, x: bytes)
    ensures Extends(ReadItemsToBreak(s, done), ReadItemsToBreak(s + x, done), x)
    decreases |s|, 1
  {
    hide Decode;
    TailExtends(s, x);
    NoString();
    if s != [] && s[0] != BREAK {
      DecodeExtends(s, x);
      if Decode(s).Got? {
        ItemsToBreakExtend(Decode(s).rest, done + [Decode(s).v], x);
      }
    }
  }

  lemma {:induction false} PairExtends(s: bytes, x: bytes)
    ensures Extends(ReadPair(s), ReadPair(s + x), x)
    decreases |s|, 1
  {
    hide Decode, ReadString;
    StringExtends(s, x);
    if ReadString(s).Got? {
      DecodeExtends(ReadString(s).rest, x);
    }
  }

  lemma {:induction false} PairsExtend(n: nat, s: bytes, done: map<bytes, Json>, x: bytes)
    ensures Extends(ReadPairs(n, s, done), ReadPairs(n, s + x, done), x)
    decreases |s|, 2
  {
    hide ReadPair, Emplace;
    if n != 0 {
      PairExtends(s, x);
      var g := ReadPair(s);
      if g.Got? {
        PairsExtend(n - 1, g.rest, Emplace(done, g.v.k, g.v.v), x);
      }
    }
  }

  lemma {:induction false} PairsToBreakExtend(s: bytes, done: map<bytes, Json>, x: bytes)
    ensures Extends(ReadPairsToBreak(s, done), ReadPairsToBreak(s + x, done), x)
    decreases |s|, 2
  {
    Rejected([]);
    hide ReadPair;
    TailExtends(s, x);
    if s != [] && s[0] != BREAK {
      PairExtends(s, x);
      var g := ReadPair(s);
      if g.Got? {
        PairsToBreakExtend(g.rest, done[g.v.k := g.v.v], x);
      }
    }
  }

  /** Every message that is cut off is rejected for its end. */
  lemma {:induction false} CutOff(v: Json, n: nat)
    requires SizesFit(v) && n < |Encode(v)|
    ensures Decode(Encode(v)[..n]) == Broken(PARSE_ERROR_110)
  {
    var s := Encode(v);
    hide Decode, Encode, SizesFit, Unsigneds;
    DecodeEncode(v, []);
    assert s + [] == s && s[..n] + s[n..] == s;
    assert |s[n..]| > 0;
    DecodeExtends(s[..n], s[n..]);
  }

  /** In strict mode a message has to end where its value ends; otherwise what follows does not matter. */
  lemma {:induction false} TrailingBytes(s: bytes, v: Json, x: bytes)
    requires Parse(s, true) == Ok(v) && x != []
    ensures Parse(s, false) == Ok(v) && Parse(s + x, false) == Ok(v) && Parse(s + x, true) == Err(PARSE_ERROR_110)
  {
    DecodeExtends(s, x);
    hide Decode;
  }
}
