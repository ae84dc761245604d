/**
  What a dump looks like, stated apart from the serializer on the trees of the text grammar: no white space,
  each character in one spelling, members in the order of their keys, and null for what is not finite.
 */
module DumpLaws {
  import opened Arith
  import opened Decimal
  import opened Utf8
  import opened J = Json
  import opened C = StringGrammar
  import opened G = TextGrammar
  import N = NumberGrammar
  import T = NumberToken
  import R = TextRoundTrip
  import S = Serializer
  import F = FloatText
  import Strings
  import Doubles

  // ---- characters

  predicate IsShort(c: int) {
    c == 0x08 || c == 0x09 || c == 0x0A || c == 0x0C || c == 0x0D || c == '"' as int || c == '\\' as int
  }

  predicate NoUpperCase(t: bytes) {
    forall i | 0 <= i < |t| :: !('A' as int <= t[i] <= 'Z' as int)
  }

  /** Short escapes where there are any, lower-case hexadecimal digits for what else must be escaped, and itself otherwise. */
  predicate CanonicalCharacter(ch: Character, ensureAscii: bool)
    requires Scalar(ch.c)
  {
    var c := ch.c;
    if IsShort(c) then SpellsShort(ch.spelling, c)
    else if c < 0x20 || (ensureAscii && c > 0x7E) then
      (if c < 0x10000 then SpellsUnit(ch.spelling, c) else SpellsPair(ch.spelling, c)) && NoUpperCase(ch.spelling)
    else SpellsItself(ch.spelling, c)
  }

  predicate CanonicalString(cs: seq<Character>, ensureAscii: bool)
    requires LegalString(cs)
  {
    forall i | 0 <= i < |cs| :: CanonicalCharacter(cs[i], ensureAscii)
  }

  lemma {:induction false} HexDigitIs(d: nat)
    requires d < 16
    ensures IsHex(Strings.HexDigit(d), d) && !('A' as int <= Strings.HexDigit(d) <= 'Z' as int)
  {
    assert LOWER_HEX[0] == '0' && LOWER_HEX[10] == 'a';
  }

  lemma {:induction false} UnitWritten(v: nat)
    requires v < 0x10000
    ensures SpellsUnit(Strings.UnicodeEscape(v), v) && NoUpperCase(Strings.UnicodeEscape(v))
  {
    hide IsHex, Strings.HexDigit;
    var q1 := v / 0x10;
    var q2 := q1 / 0x10;
    var q3 := q2 / 0x10;
    HexDigitIs(q3);
    HexDigitIs(q2 % 0x10);
    HexDigitIs(q1 % 0x10);
    HexDigitIs(v % 0x10);
    assert Strings.UnicodeEscape(v)[2..] == Strings.Hex4(v);
  }

  lemma {:induction false} SurrogatesAre(c: nat)
    requires 0x10000 <= c <= 0x10FFFF
    ensures Strings.HighSurrogate(c) == 0xD800 + (c - 0x10000) / 0x400 < 0x10000
    ensures Strings.LowSurrogate(c) == 0xDC00 + (c - 0x10000) % 0x400 < 0x10000
  {}

  lemma {:induction false} PairWritten(c: nat)
    requires 0x10000 <= c <= 0x10FFFF
    ensures var t := Strings.UnicodeEscape(Strings.HighSurrogate(c)) + Strings.UnicodeEscape(Strings.LowSurrogate(c));
            SpellsPair(t, c) && NoUpperCase(t)
  {
    hide Strings.UnicodeEscape, SpellsUnit, Strings.HighSurrogate, Strings.LowSurrogate;
    SurrogatesAre(c);
    UnitWritten(Strings.HighSurrogate(c));
    UnitWritten(Strings.LowSurrogate(c));
    var high, low := Strings.UnicodeEscape(Strings.HighSurrogate(c)), Strings.UnicodeEscape(Strings.LowSurrogate(c));
    assert (high + low)[..6] == high && (high + low)[6..] == low;
  }

  /** One character is written in its canonical spelling. */
  lemma {:induction false} CharacterWritten(s: bytes, ensureAscii: bool)
    requires CharLength(s) > 0
    ensures var c := CodePoint(s);
            var ch := Character(Strings.EscapeChar(c, Strings.FirstChar(s), ensureAscii), c);
            Spells(ch.spelling, c) && CanonicalCharacter(ch, ensureAscii) && Encode(c) == Strings.FirstChar(s)
  {
    var c := CodePoint(s);
    EncodeDecode(s);
    hide CodePoint, CharLength, Encode, SpellsUnit, SpellsPair, Strings.UnicodeEscape;
    if !IsShort(c) && Strings.NeedsUnicodeEscape(c, ensureAscii) {
      if c <= 0xFFFF {
        UnitWritten(c);
      } else {
        PairWritten(c);
      }
    }
  }

  /** An escaped string is its characters in their canonical spellings. */
  lemma {:induction false} StringWritten(s: bytes, ensureAscii: bool) returns (cs: seq<Character>)
    requires WellFormed(s)
    ensures LegalString(cs) && CanonicalString(cs, ensureAscii)
    ensures Spelling(cs) == Strings.Escaped(s, ensureAscii) && Contents(cs) == s
    decreases |s|
  {
    hide CanonicalCharacter, Spells, CharLength, CodePoint, Encode, Strings.EscapeChar;
    if s == [] {
      cs := [];
    } else {
      var n := CharLength(s);
      var more := StringWritten(s[n..], ensureAscii);
      CharacterWritten(s, ensureAscii);
      var ch := Character(Strings.EscapeChar(CodePoint(s), Strings.FirstChar(s), ensureAscii), CodePoint(s));
      cs := [ch] + more;
      StringCons(ch, more);
      assert s == s[..n] + s[n..];
    }
  }

  // ---- values

  /** The number is the one of the value, an integer without a superfluous sign. */
  ghost predicate NumberOf(p: N.Parts, v: Json)
    requires N.Number(p)
  {
    match v
    case Unsigned(u) => p.minus == p.frac == p.exp == [] && DigitsValue(p.whole) == u
    case Integer(i) =>
      p.frac == p.exp == [] && (p.minus == [] <==> i >= 0) && DigitsValue(p.whole) == if i < 0 then 0 - i else i
    case Float(bits) => Doubles.Finite(bits) && F.TextOf(N.Text(p), bits)
    case _ => false
  }

  function Keys(members: Members): seq<bytes>
    requires LegalMembers(members)
  {
    [Contents(members.member.key)] + if members.MoreMembers? then Keys(members.more) else []
  }

  /** All keys of the object, each before the next ones. */
  ghost predicate Ascending(keys: seq<bytes>, o: map<bytes, Json>) {
    (forall k :: k in keys <==> k in o) && forall i, j | 0 <= i < j < |keys| :: Before(keys[i], keys[j])
  }

  predicate Tight(i: Item) {
    i.before == [] && i.after == []
  }

  /** The tree is the dump of the value. */
  ghost predicate DumpOf(t: Tree, v: Json, ensureAscii: bool)
    requires Legal(t)
    decreases t
  {
    match t
    case NullTree => v.Null? || (v.Float? && !Doubles.Finite(v.bits))
    case TrueTree => v == Bool(true)
    case FalseTree => v == Bool(false)
    case StringTree(cs) => CanonicalString(cs, ensureAscii) && v == String(Contents(cs))
    case NumberTree(p) => NumberOf(p, v)
    case NoItems(inside) => inside == [] && v == Array([])
    case ItemsTree(items) => v.Array? && ItemsDump(items, v.a, ensureAscii)
    case NoMembers(inside) => inside == [] && v == Object(map[])
    case MembersTree(members) => v.Object? && Ascending(Keys(members), v.o) && MembersDump(members, v.o, ensureAscii)
  }

  ghost predicate ItemsDump(items: Items, a: seq<Json>, ensureAscii: bool)
    requires LegalItems(items)
    decreases items
  {
    && a != [] && Tight(items.item) && DumpOf(items.item.tree, a[0], ensureAscii)
    && if items.LastItem? then |a| == 1 else ItemsDump(items.more, a[1..], ensureAscii)
  }

  ghost predicate MembersDump(members: Members, o: map<bytes, Json>, ensureAscii: bool)
    requires LegalMembers(members)
    decreases members
  {
    var m := members.member;
    && m.before == [] && m.after == [] && Tight(m.item) && CanonicalString(m.key, ensureAscii)
    && Contents(m.key) in o && DumpOf(m.item.tree, o[Contents(m.key)], ensureAscii)
    && (members.MoreMembers? ==> MembersDump(members.more, o, ensureAscii))
  }

  lemma {:induction false} IntegerWritten(x: int) returns (p: N.Parts)
    ensures N.Number(p) && N.Text(p) == S.IntegerText(x) && p.frac == p.exp == []
    ensures (p.minus == [] <==> x >= 0) && DigitsValue(p.whole) == if x < 0 then 0 - x else x
  {
    hide ToDecimal, DigitsValue;
    p := N.Parts(if x < 0 then [T.MINUS] else [], ToDecimal(if x < 0 then 0 - x else x), [], []);
  }

  /** A float token is a number of the grammar. */
  lemma {:induction false} FloatWritten(text: bytes, bits: uint64) returns (p: N.Parts)
    requires Doubles.Finite(bits) && F.TextOf(text, bits)
    ensures N.Number(p) && N.Text(p) == text
  {
    hide F.TextOf, N.Number, N.Text, T.NumberStep, T.Reaches, N.KindOf;
    var final := R.FloatReaches(text, bits);
    DoneInFinal(final);
    T.ReachesScans(T.Init, T.UnsignedKind, text, final, T.FloatKind, []);
    assert text + [] == text;
    p := N.LexemeIsNumber(text);
    assert text[..|text|] == text;
  }

  lemma {:induction false} DoneInFinal(final: T.NumberState)
    requires final in {T.Decimal2, T.Any2}
    ensures T.NumberStep(final, T.First([])).Done?
  {}

  lemma {:induction false} ScalarDumped(v: Json, ensureAscii: bool, out: bytes) returns (t: Tree)
    requires !v.Array? && !v.Object? && S.Dumps(v, ensureAscii, out)
    ensures Legal(t) && Written(t) == out && DumpOf(t, v, ensureAscii)
  {
    hide S.IntegerText, F.TextOf, WellFormed, LegalString, N.Number, N.Text, DigitsValue, CanonicalString, Contents, Spelling, Strings.Escaped;
    match v
    case Null => t := NullTree;
    case Bool(b) => t := if b then TrueTree else FalseTree;
    case Integer(i) =>
      var p := IntegerWritten(i);
      t := NumberTree(p);
    case Unsigned(u) =>
      var p := IntegerWritten(u);
      t := NumberTree(p);
    case Float(bits) =>
      if Doubles.Finite(bits) {
        var p := FloatWritten(out, bits);
        t := NumberTree(p);
      } else {
        t := NullTree;
      }
    case String(s) =>
      var cs := StringWritten(s, ensureAscii);
      t := StringTree(cs);
      assert [Strings.QUOTE] + Spelling(cs) + [Strings.QUOTE] == Quoted(cs);
  }

  lemma {:induction false} ItemsCons(t: Tree, rest: seq<bytes>, a: seq<Json>, more: Items, ensureAscii: bool) returns (items: Items)
    requires a != [] && Legal(t) && DumpOf(t, a[0], ensureAscii) && |rest| == |a| - 1
    requires rest != [] ==> LegalItems(more) && WrittenItems(more) == S.Joined(rest) && ItemsDump(more, a[1..], ensureAscii)
    ensures LegalItems(items) && WrittenItems(items) == S.Joined([Written(t)] + rest) && ItemsDump(items, a, ensureAscii)
  {
    hide Legal, Written, DumpOf;
    var i := Item([], t, []);
    assert Surrounded(i, Written(t)) == Written(t);
    var texts := [Written(t)] + rest;
    if rest == [] {
      items := LastItem(i);
      assert texts[..0] == [];
      assert S.Closed([]) + texts[0] == texts[0];
    } else {
      items := MoreItems(i, more);
      R.JoinedCons(texts);
      assert texts[1..] == rest;
      hide S.Joined;
      assert WrittenItems(items) == Written(t) + [',' as int] + WrittenItems(more);
    }
  }

  lemma {:induction false} ItemsDumped(a: seq<Json>, texts: seq<bytes>, ensureAscii: bool, v: Json) returns (items: Items)
    requires v.Array? && |texts| == |a| > 0 && (forall x | x in a :: x in v.a)
    requires forall i | 0 <= i < |a| :: S.Dumps(a[i], ensureAscii, texts[i])
    ensures LegalItems(items) && WrittenItems(items) == S.Joined(texts) && ItemsDump(items, a, ensureAscii)
    decreases v, 0, |a|
  {
    hide S.Dumps, S.Joined, Legal, Written, DumpOf, WrittenItems, LegalItems, ItemsDump;
    assert a[0] in v.a;
    var t := TreeDumped(a[0], ensureAscii, texts[0]);
    var more: Items := LastItem(Item([], NullTree, []));
    if |a| > 1 {
      more := ItemsDumped(a[1..], texts[1..], ensureAscii, v);
    }
    items := ItemsCons(t, texts[1..], a, more, ensureAscii);
    assert [Written(t)] + texts[1..] == texts;
  }

  /** The dump of a value is written by a tree that is the dump of the value. */
  lemma {:induction false} TreeDumped(v: Json, ensureAscii: bool, out: bytes) returns (t: Tree)
    requires S.Dumps(v, ensureAscii, out)
    ensures Legal(t) && Written(t) == out && DumpOf(t, v, ensureAscii)
    decreases v, 1
  {
    if v.Array? {
      t := ArrayDumped(v, ensureAscii, out);
    } else if v.Object? {
      t := ObjectDumped(v, ensureAscii, out);
    } else {
      t := ScalarDumped(v, ensureAscii, out);
    }
  }

  lemma {:induction false} ArrayDumped(v: Json, ensureAscii: bool, out: bytes) returns (t: Tree)
    requires v.Array? && S.Dumps(v, ensureAscii, out)
    ensures Legal(t) && Written(t) == out && DumpOf(t, v, ensureAscii)
    decreases v, 0, |v.a| + 1
  {
    if v.a == [] {
      t := NoItems([]);
    } else {
      var texts := R.ElementTexts(v, ensureAscii, out);
      hide S.Dumps, S.Joined, LegalItems, WrittenItems, ItemsDump;
      var items := ItemsDumped(v.a, texts, ensureAscii, v);
      t := ItemsTree(items);
    }
  }

  lemma {:induction false} ObjectDumped(v: Json, ensureAscii: bool, out: bytes) returns (t: Tree)
    requires v.Object? && S.Dumps(v, ensureAscii, out)
    ensures Legal(t) && Written(t) == out && DumpOf(t, v, ensureAscii)
    decreases v, 0, |v.o| + 1
  {
    hide S.Dumps, S.Joined, LegalMembers, WrittenMembers, MembersDump, Sorted, Keys, S.MemberTexts, WellFormed, Ascending;
    var keys := Sorted(v.o.Keys);
    if keys == [] {
      EmptyDumped(v, ensureAscii, out);
      t := NoMembers([]);
    } else {
      var texts := R.MemberTexts(v, ensureAscii, out);
      SortedAscending(v.o);
      var members := MembersDumped(v, keys, texts, ensureAscii);
      t := MembersTree(members);
    }
  }

  lemma {:induction false} EmptyDumped(v: Json, ensureAscii: bool, out: bytes)
    requires v.Object? && Sorted(v.o.Keys) == [] && S.Dumps(v, ensureAscii, out)
    ensures v.o == map[] && out == ['{' as int, '}' as int]
  {
    assert |v.o.Keys| == |Sorted(v.o.Keys)|;
    assert v.o.Keys == {};
  }

  lemma {:induction false} SortedAscending(o: map<bytes, Json>)
    ensures Ascending(Sorted(o.Keys), o)
  {
    hide Less, Before;
    var keys := Sorted(o.Keys);
    hide Sorted;
    forall i, j | 0 <= i < j < |keys| ensures Before(keys[i], keys[j]) {
      LessExactly(keys[i], keys[j]);
    }
  }

  lemma {:induction false} MembersCons(m: Member, rest: seq<bytes>, o: map<bytes, Json>, more: Members, ensureAscii: bool)
    returns (members: Members)
    requires m.before == [] && LegalString(m.key) && m.after == [] && CanonicalString(m.key, ensureAscii) && Tight(m.item)
    requires Legal(m.item.tree) && Contents(m.key) in o && DumpOf(m.item.tree, o[Contents(m.key)], ensureAscii)
    requires rest != [] ==> LegalMembers(more) && WrittenMembers(more) == S.Joined(rest) && MembersDump(more, o, ensureAscii)
    ensures LegalMembers(members) && MembersDump(members, o, ensureAscii)
    ensures WrittenMembers(members) == S.Joined([Quoted(m.key) + [':' as int] + Written(m.item.tree)] + rest)
    ensures Keys(members) == [Contents(m.key)] + if rest == [] then [] else Keys(more)
  {
    hide Legal, Written, DumpOf, Quoted, LegalString, CanonicalString, Contents;
    var text := Quoted(m.key) + [':' as int] + Written(m.item.tree);
    assert WrittenKey(m) + Surrounded(m.item, Written(m.item.tree)) == text;
    var texts := [text] + rest;
    if rest == [] {
      members := LastMember(m);
      assert texts[..0] == [];
      assert S.Closed([]) + texts[0] == texts[0];
    } else {
      members := MoreMembers(m, more);
      R.JoinedCons(texts);
      assert texts[1..] == rest;
      hide S.Joined;
      assert WrittenMembers(members) == text + [',' as int] + WrittenMembers(more);
    }
  }

  lemma {:induction false} MemberTextIs(k: bytes, cs: seq<Character>, text: bytes, ensureAscii: bool)
    requires WellFormed(k) && LegalString(cs) && Spelling(cs) == Strings.Escaped(k, ensureAscii)
    ensures Quoted(cs) + [':' as int] + text == S.MemberText(k, text, ensureAscii)
  {
    hide WellFormed, LegalString, Spelling, Strings.Escaped;
  }

  lemma {:induction false} MembersDumped(v: Json, keys: seq<bytes>, texts: seq<bytes>, ensureAscii: bool) returns (members: Members)
    requires v.Object? && |texts| == |keys| > 0 && forall k | k in keys :: k in v.o && WellFormed(k)
    requires forall i | 0 <= i < |keys| :: S.Dumps(v.o[keys[i]], ensureAscii, texts[i])
    ensures LegalMembers(members) && WrittenMembers(members) == S.Joined(S.MemberTexts(keys, texts, ensureAscii))
    ensures Keys(members) == keys && MembersDump(members, v.o, ensureAscii)
    decreases v, 0, |keys|
  {
    hide S.Dumps, S.Joined, Legal, Written, DumpOf, WrittenMembers, LegalMembers, MembersDump, Keys, WellFormed, S.MemberText, S.MemberTexts,
      CanonicalString, LegalString, Spelling, Contents, Quoted;
    var k := keys[0];
    var t := TreeDumped(v.o[k], ensureAscii, texts[0]);
    var cs := StringWritten(k, ensureAscii);
    var m := Member([], cs, [], Item([], t, []));
    MemberTextIs(k, cs, texts[0], ensureAscii);
    R.MemberTextsCons(keys, texts, ensureAscii);
    var written := S.MemberTexts(keys, texts, ensureAscii);
    assert written == [written[0]] + written[1..];
    var more: Members := LastMember(m);
    if |keys| > 1 {
      more := MembersDumped(v, keys[1..], texts[1..], ensureAscii);
    }
    members := MembersCons(m, written[1..], v.o, more, ensureAscii);
    assert [k] + keys[1..] == keys;
  }
}
