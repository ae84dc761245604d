/**
  The JSON texts of section 2 of RFC 7159, stated apart from the parser as trees that hold every byte of the
  text, white space included: strict parsing succeeds exactly on the texts that are written by such a tree,
  and gives what the tree stands for.
 */
module TextGrammar {
  import opened Arith
  import opened Decimal
  import opened J = Json
  import opened L = Lexer
  import opened P = Parser
  import opened C = StringGrammar
  import N = NumberGrammar
  import T = NumberToken
  import R = TextRoundTrip
  import Strings
  import Doubles

  // ---- the grammar

  /** White space: runs of space, tab, line feed and carriage return. */
  predicate White(s: bytes) {
    forall i | 0 <= i < |s| :: s[i] == 0x20 || s[i] == 0x09 || s[i] == 0x0A || s[i] == 0x0D
  }

  /** A value as it is written; empty brackets may hold white space. */
  datatype Tree =
    | NullTree | TrueTree | FalseTree
    | StringTree(chars: seq<Character>)
    | NumberTree(parts: N.Parts)
    | NoItems(inside: bytes) | ItemsTree(items: Items)
    | NoMembers(inside: bytes) | MembersTree(members: Members)

  /** A value and the white space around it. */
  datatype Item = Item(before: bytes, tree: Tree, after: bytes)

  datatype Items = LastItem(item: Item) | MoreItems(item: Item, more: Items)

  /** A key, the colon and a value. */
  datatype Member = Member(before: bytes, key: seq<Character>, after: bytes, item: Item)

  datatype Members = LastMember(member: Member) | MoreMembers(member: Member, more: Members)

  predicate Around(i: Item) {
    White(i.before) && White(i.after)
  }

  predicate LegalKey(m: Member) {
    White(m.before) && LegalString(m.key) && White(m.after)
  }

  predicate Legal(t: Tree) {
    match t
    case StringTree(cs) => LegalString(cs)
    case NumberTree(p) => N.Number(p)
    case NoItems(inside) => White(inside)
    case ItemsTree(items) => LegalItems(items)
    case NoMembers(inside) => White(inside)
    case MembersTree(members) => LegalMembers(members)
    case _ => true
  }

  predicate LegalItems(items: Items) {
    Around(items.item) && Legal(items.item.tree) && (items.MoreItems? ==> LegalItems(items.more))
  }

  predicate LegalMembers(members: Members) {
    var m := members.member;
    LegalKey(m) && Around(m.item) && Legal(m.item.tree) && (members.MoreMembers? ==> LegalMembers(members.more))
  }

  // ---- how it is written

  function Quoted(cs: seq<Character>): bytes {
    ['"' as int] + Spelling(cs) + ['"' as int]
  }

  function Surrounded(i: Item, text: bytes): bytes {
    i.before + text + i.after
  }

  function WrittenKey(m: Member): bytes {
    m.before + Quoted(m.key) + m.after + [':' as int]
  }

  function Written(t: Tree): bytes {
    match t
    case NullTree => ['n' as int, 'u' as int, 'l' as int, 'l' as int]
    case TrueTree => ['t' as int, 'r' as int, 'u' as int, 'e' as int]
    case FalseTree => ['f' as int, 'a' as int, 'l' as int, 's' as int, 'e' as int]
    case StringTree(cs) => Quoted(cs)
    case NumberTree(p) => N.Text(p)
    case NoItems(inside) => ['[' as int] + inside + [']' as int]
    case ItemsTree(items) => ['[' as int] + WrittenItems(items) + [']' as int]
    case NoMembers(inside) => ['{' as int] + inside + ['}' as int]
    case MembersTree(members) => ['{' as int] + WrittenMembers(members) + ['}' as int]
  }

  function WrittenItems(items: Items): bytes {
    var first := Surrounded(items.item, Written(items.item.tree));
    if items.LastItem? then first else first + [',' as int] + WrittenItems(items.more)
  }

  function WrittenMembers(members: Members): bytes {
    var m := members.member;
    var first := WrittenKey(m) + Surrounded(m.item, Written(m.item.tree));
    if members.LastMember? then first else first + [',' as int] + WrittenMembers(members.more)
  }

  // ---- what it stands for

  /** Integers within 64 bits stay integers; every other number is what the reader makes of its text. */
  function NumberMeaning(p: N.Parts, reader: Reader): Json
    requires N.Number(p)
  {
    var n := DigitsValue(p.whole);
    if p.frac == [] && p.exp == [] && p.minus == [] && n < 0x1_0000_0000_0000_0000 then Unsigned(n)
    else if p.frac == [] && p.exp == [] && p.minus != [] && n <= 0x8000_0000_0000_0000 then Integer(0 - n)
    else Float(reader(N.Text(p)))
  }

  function Meaning(t: Tree, reader: Reader): Json
    requires Legal(t)
  {
    match t
    case NullTree => Null
    case TrueTree => Bool(true)
    case FalseTree => Bool(false)
    case StringTree(cs) => String(Contents(cs))
    case NumberTree(p) => NumberMeaning(p, reader)
    case NoItems(_) => Array([])
    case ItemsTree(items) => Array(Elements(items, reader))
    case NoMembers(_) => Object(map[])
    case MembersTree(members) => Object(FirstWins(Entries(members, reader)))
  }

  function Elements(items: Items, reader: Reader): seq<Json>
    requires LegalItems(items)
  {
    [Meaning(items.item.tree, reader)] + if items.MoreItems? then Elements(items.more, reader) else []
  }

  /** The members in their order; of several with one key the first one counts. */
  function Entries(members: Members, reader: Reader): seq<Entry>
    requires LegalMembers(members)
  {
    var m := members.member;
    [Entry(Contents(m.key), Meaning(m.item.tree, reader))] +
    if members.MoreMembers? then Entries(members.more, reader) else []
  }

  predicate FiniteNumber(v: Json) {
    v.Float? ==> Doubles.Finite(v.bits)
  }

  /** No number is too large for the reader. */
  predicate InRange(t: Tree, reader: Reader)
    requires Legal(t)
  {
    match t
    case NumberTree(p) =>
      FiniteNumber(NumberMeaning(p, reader))
    case ItemsTree(items) => ItemsInRange(items, reader)
    case MembersTree(members) => MembersInRange(members, reader)
    case _ => true
  }

  predicate ItemsInRange(items: Items, reader: Reader)
    requires LegalItems(items)
  {
    InRange(items.item.tree, reader) && (items.MoreItems? ==> ItemsInRange(items.more, reader))
  }

  predicate MembersInRange(members: Members, reader: Reader)
    requires LegalMembers(members)
  {
    InRange(members.member.item.tree, reader) && (members.MoreMembers? ==> MembersInRange(members.more, reader))
  }

  /** The end of the input, or a zero byte, which is taken for it. */
  predicate AtEnd(s: bytes) {
    s == [] || s[0] == 0
  }

  /** The next byte does not make a longer number of the value. */
  predicate Complete(t: Tree, next: bytes) {
    t.NumberTree? && next != [] ==> !N.Continues(t.parts, next[0])
  }

  // ---- tokens

  lemma {:induction false} WhiteSkipped(ws: bytes, s: bytes)
    requires White(ws)
    ensures SkipSpace(ws + s) == SkipSpace(s)
    decreases |ws|
  {
    if ws == [] {
      assert ws + s == s;
    } else {
      WhiteSkipped(ws[1..], s);
      assert (ws + s)[1..] == ws[1..] + s;
    }
  }

  lemma {:induction false} SkippedIsWhite(s: bytes) returns (ws: bytes)
    ensures White(ws) && s == ws + SkipSpace(s)
    decreases |s|
  {
    if s != [] && IsSpace(s[0]) {
      ws := SkippedIsWhite(s[1..]);
      ws := [s[0]] + ws;
    } else {
      ws := [];
    }
  }

  /** White space in front of a token does not matter. */
  lemma {:induction false} WhiteBefore(ws: bytes, s: bytes, reader: Reader)
    requires White(ws)
    ensures NextToken(ws + s, reader) == NextToken(s, reader)
  {
    WhiteSkipped(ws, s);
    hide TokenAt, SkipSpace;
  }

  lemma {:induction false} NoWhite(s: bytes)
    requires s != [] && s[0] > 0x20
    ensures SkipSpace(s) == s
  {}

  /** The token of a number. */
  function NumberToken(v: Json): Token {
    match v
    case Unsigned(u) => UnsignedToken(u)
    case Integer(i) => IntegerToken(i)
    case Float(bits) => FloatToken(bits)
    case _ => ParseError
  }

  lemma {:induction false} WholeRead(p: N.Parts)
    requires N.Number(p) && p.frac == [] && p.exp == []
    ensures T.Read(T.NOTHING_READ, N.Text(p)).mantissa == DigitsValue(p.whole)
  {
    hide DigitsValue;
    assert N.Text(p) == p.minus + p.whole;
    T.ReadConcat(T.NOTHING_READ, p.minus, p.whole);
    var r := T.Read(T.NOTHING_READ, p.minus);
    assert r.phase.IntegerPart? && r.mantissa == 0 by {
      assert p.minus == [T.MINUS] ==> p.minus[1..] == [];
    }
    T.ReadDigits(r, p.whole);
  }

  /** Kind and magnitude decide the token. */
  lemma {:induction false} NumberTokenIs(p: N.Parts, reader: Reader)
    requires N.Number(p)
    ensures NumberValueToken(N.KindOf(p), N.Text(p), reader) == NumberToken(NumberMeaning(p, reader))
  {
    hide DigitsValue, N.Text, T.Read;
    if p.frac == [] && p.exp == [] {
      WholeRead(p);
    }
  }

  lemma {:induction false} NumberStarts(p: N.Parts)
    requires N.Number(p)
    ensures N.Text(p) != [] && StartsNumber(N.Text(p)[0])
  {}

  lemma {:induction false} NumberRead(p: N.Parts, f: bytes, reader: Reader)
    requires N.Number(p) && (f == [] || !N.Continues(p, f[0]))
    ensures NextToken(N.Text(p) + f, reader) == (NumberToken(NumberMeaning(p, reader)), f)
  {
    hide N.Text, N.Number, N.Continues, NumberMeaning, NumberValueToken, NumberToken, T.ScanNumber;
    N.NumberIsLexeme(p, f);
    NumberTokenIs(p, reader);
    NumberStarts(p);
    var s := N.Text(p) + f;
    assert s[0] == N.Text(p)[0] && s[..|N.Text(p)|] == N.Text(p) && s[|N.Text(p)|..] == f;
  }

  lemma {:induction false} StringRead(cs: seq<Character>, f: bytes, reader: Reader)
    requires LegalString(cs)
    ensures NextToken(Quoted(cs) + f, reader) == (StringToken(Contents(cs)), f)
  {
    hide LegalString, Spelling, Contents, Strings.ScanText;
    StringIsScanned(cs, f);
    R.QuotedSlices(Spelling(cs), f);
    assert Quoted(cs) + f == [Strings.QUOTE] + Spelling(cs) + [Strings.QUOTE] + f;
  }

  // ---- every tree is parsed

  ghost function Outcome(good: bool, v: Json, rest: bytes): Parsed {
    if good then Parsed(v, rest) else Failed(OUT_OF_RANGE_406)
  }

  predicate Delimiter(f: bytes) {
    f != [] && (f[0] == ',' as int || f[0] == ':' as int || f[0] == ']' as int || f[0] == '}' as int)
  }

  lemma {:induction false} DelimiterCompletes(i: Item, f: bytes)
    requires Around(i) && Delimiter(f)
    ensures Complete(i.tree, i.after + f)
  {
    var next := i.after + f;
    assert i.after == [] ==> next == f;
  }

  lemma {:induction false} ScalarParsed(t: Tree, f: bytes, reader: Reader)
    requires Legal(t) && Complete(t, f)
    requires t.NullTree? || t.TrueTree? || t.FalseTree? || t.StringTree? || t.NumberTree?
    ensures R.ParseFrom(Written(t) + f, reader) == Outcome(InRange(t, reader), Meaning(t, reader), f)
    ensures NextToken(Written(t) + f, reader).0 != EndArray
  {
    hide NextToken, LegalString, N.Number, N.Text, N.Continues, NumberMeaning, Quoted, Contents;
    match t
    case NullTree => R.LiteralToken(Strings.NULL_TEXT, LiteralNull, f, reader);
    case TrueTree => R.LiteralToken(Strings.TRUE_TEXT, LiteralTrue, f, reader);
    case FalseTree => R.LiteralToken(Strings.FALSE_TEXT, LiteralFalse, f, reader);
    case StringTree(cs) => StringRead(cs, f, reader);
    case NumberTree(p) =>
      NumberRead(p, f, reader);
      NumberIsNumber(p, reader);
  }

  lemma {:induction false} NumberIsNumber(p: N.Parts, reader: Reader)
    requires N.Number(p)
    ensures var v := NumberMeaning(p, reader); v.Unsigned? || v.Integer? || v.Float?
  {}

  lemma {:induction false} Reassociate(a: bytes, b: bytes, c: bytes, f: bytes)
    ensures a + b + c + f == a + (b + (c + f))
  {}

  lemma {:induction false} EmptyParsed(inside: bytes, f: bytes, reader: Reader)
    requires White(inside)
    ensures R.ParseFrom(Written(NoItems(inside)) + f, reader) == Parsed(Array([]), f)
    ensures R.ParseFrom(Written(NoMembers(inside)) + f, reader) == Parsed(Object(map[]), f)
    ensures NextToken(Written(NoItems(inside)) + f, reader).0 == BeginArray
    ensures NextToken(Written(NoMembers(inside)) + f, reader).0 == BeginObject
  {
    hide NextToken, White;
    Reassociate(['[' as int], inside, [']' as int], f);
    R.PunctuationToken('[' as int, inside + ([']' as int] + f), reader);
    WhiteBefore(inside, [']' as int] + f, reader);
    R.PunctuationToken(']' as int, f, reader);
    Reassociate(['{' as int], inside, ['}' as int], f);
    R.PunctuationToken('{' as int, inside + (['}' as int] + f), reader);
    WhiteBefore(inside, ['}' as int] + f, reader);
    R.PunctuationToken('}' as int, f, reader);
  }

  /** A tree is read as what it stands for, or rejected for a number that is too large. */
  lemma {:induction false} TreeParsed(t: Tree, f: bytes, reader: Reader)
    requires Legal(t) && Complete(t, f)
    ensures R.ParseFrom(Written(t) + f, reader) == Outcome(InRange(t, reader), Meaning(t, reader), f)
    ensures NextToken(Written(t) + f, reader).0 != EndArray
    decreases t
  {
    hide NextToken, R.ParseFrom, WrittenItems, WrittenMembers, LegalItems, LegalMembers, Elements, Entries, ItemsInRange, MembersInRange;
    match t
    case NoItems(inside) => EmptyParsed(inside, f, reader);
    case NoMembers(inside) => EmptyParsed(inside, f, reader);
    case ItemsTree(items) =>
      var inner := WrittenItems(items) + ([']' as int] + f);
      Reassociate(['[' as int], WrittenItems(items), [']' as int], f);
      R.PunctuationToken('[' as int, inner, reader);
      ItemsParsed(items, f, [], reader);
      R.ParseBracket(inner, reader);
      assert [] + Elements(items, reader) == Elements(items, reader);
    case MembersTree(members) =>
      var inner := WrittenMembers(members) + (['}' as int] + f);
      Reassociate(['{' as int], WrittenMembers(members), ['}' as int], f);
      R.PunctuationToken('{' as int, inner, reader);
      MembersParsed(members, f, map[], reader);
      R.ParseBrace(inner, reader);
      assert FirstWins(Entries(members, reader)) + map[] == FirstWins(Entries(members, reader));
    case _ => ScalarParsed(t, f, reader);
  }

  /** The value of an item, and the delimiter behind it. */
  lemma {:induction false} ItemParsed(i: Item, f: bytes, reader: Reader)
    requires Around(i) && Legal(i.tree) && Delimiter(f)
    ensures var (t, more) := NextToken(Surrounded(i, Written(i.tree)) + f, reader);
            t != EndArray && ParseValue(t, more, reader) == Outcome(InRange(i.tree, reader), Meaning(i.tree, reader), i.after + f)
    ensures NextToken(i.after + f, reader) == NextToken(f, reader)
    decreases i
  {
    hide NextToken, Written, Legal, Meaning, InRange, ParseValue, White;
    DelimiterCompletes(i, f);
    TreeParsed(i.tree, i.after + f, reader);
    Reassociate(i.before, Written(i.tree), i.after, f);
    WhiteBefore(i.before, Written(i.tree) + (i.after + f), reader);
    WhiteBefore(i.after, f, reader);
  }

  /** What is behind the first item, up to the end of the array. */
  function NextItems(items: Items, close: bytes): bytes {
    if items.LastItem? then close else [',' as int] + (WrittenItems(items.more) + close)
  }

  function OtherElements(items: Items, reader: Reader): seq<Json>
    requires LegalItems(items)
  {
    if items.LastItem? then [] else Elements(items.more, reader)
  }

  lemma {:induction false} FirstItem(items: Items, close: bytes)
    requires LegalItems(items)
    ensures WrittenItems(items) + close == Surrounded(items.item, Written(items.item.tree)) + NextItems(items, close)
  {
    hide Written, Legal, White, Surrounded;
  }

  lemma {:induction false} FirstElement(items: Items, done: seq<Json>, reader: Reader)
    requires LegalItems(items)
    ensures Legal(items.item.tree) &&
            done + Elements(items, reader) == done + [Meaning(items.item.tree, reader)] + OtherElements(items, reader)
  {
    hide Written, Legal, Meaning, White;
  }

  lemma {:induction false} ItemsParsed(items: Items, f: bytes, done: seq<Json>, reader: Reader)
    requires LegalItems(items)
    ensures var (t, more) := NextToken(WrittenItems(items) + ([']' as int] + f), reader);
            && t != EndArray
            && ParseElements(t, more, done, reader)
               == Outcome(ItemsInRange(items, reader), Array(done + Elements(items, reader)), f)
    decreases items
  {
    hide NextToken, Written, Legal, Meaning, InRange, ParseValue, White, Surrounded, ParseElements, LegalItems, WrittenItems, Elements, ItemsInRange;
    ItemsUnfolded(items, reader);
    var i := items.item;
    var close := [']' as int] + f;
    var next := NextItems(items, close);
    FirstItem(items, close);
    ItemParsed(i, next, reader);
    var (t, more) := NextToken(WrittenItems(items) + close, reader);
    ElementsStep(t, more, done, reader);
    FirstElement(items, done, reader);
    var added := done + [Meaning(i.tree, reader)];
    if items.LastItem? {
      R.PunctuationToken(']' as int, f, reader);
      assert added + [] == added;
    } else {
      R.PunctuationToken(',' as int, WrittenItems(items.more) + close, reader);
      ItemsParsed(items.more, f, added, reader);
    }
  }

  lemma {:induction false} ItemsUnfolded(items: Items, reader: Reader)
    requires LegalItems(items)
    ensures var i := items.item;
            && Around(i) && Legal(i.tree) && (items.MoreItems? ==> LegalItems(items.more))
            && ItemsInRange(items, reader) == (InRange(i.tree, reader) && (items.MoreItems? ==> ItemsInRange(items.more, reader)))
  {
    hide Legal, Meaning, InRange, White;
  }

  lemma {:induction false} MembersUnfolded(members: Members, reader: Reader)
    requires LegalMembers(members)
    ensures var m := members.member;
            && LegalKey(m) && Around(m.item) && Legal(m.item.tree) && (members.MoreMembers? ==> LegalMembers(members.more))
            && MembersInRange(members, reader) ==
               (InRange(m.item.tree, reader) && (members.MoreMembers? ==> MembersInRange(members.more, reader)))
  {
    hide Legal, Meaning, InRange, White, LegalString;
  }

  ghost function MemberOutcome(good: bool, k: bytes, v: Json, rest: bytes): ParsedMember {
    if good then ParsedMember(k, v, rest) else FailedMember(OUT_OF_RANGE_406)
  }

  lemma {:induction false} MemberParsed(m: Member, f: bytes, reader: Reader)
    requires LegalKey(m) && Around(m.item) && Legal(m.item.tree) && Delimiter(f)
    ensures var (t, more) := NextToken(WrittenKey(m) + Surrounded(m.item, Written(m.item.tree)) + f, reader);
            && t.StringToken?
            && ParseMember(t, more, reader)
               == MemberOutcome(InRange(m.item.tree, reader), Contents(m.key), Meaning(m.item.tree, reader), m.item.after + f)
    ensures NextToken(m.item.after + f, reader) == NextToken(f, reader)
    decreases m
  {
    hide NextToken, Written, Legal, Meaning, InRange, ParseValue, White, Surrounded, Quoted, LegalString, Contents;
    var value := Surrounded(m.item, Written(m.item.tree)) + f;
    var after := m.after + ([':' as int] + value);
    KeyRegrouped(m, Surrounded(m.item, Written(m.item.tree)), f);
    WhiteBefore(m.before, Quoted(m.key) + after, reader);
    StringRead(m.key, after, reader);
    WhiteBefore(m.after, [':' as int] + value, reader);
    R.PunctuationToken(':' as int, value, reader);
    ItemParsed(m.item, f, reader);
  }

  lemma {:induction false} KeyRegrouped(m: Member, text: bytes, f: bytes)
    ensures WrittenKey(m) + text + f == m.before + (Quoted(m.key) + (m.after + ([':' as int] + (text + f))))
  {
    hide Quoted;
  }

  /** What is behind the first member, up to the end of the object. */
  function NextMembers(members: Members, close: bytes): bytes {
    if members.LastMember? then close else [',' as int] + (WrittenMembers(members.more) + close)
  }

  function OtherEntries(members: Members, reader: Reader): seq<Entry>
    requires LegalMembers(members)
  {
    if members.LastMember? then [] else Entries(members.more, reader)
  }

  lemma {:induction false} FirstMember(members: Members, close: bytes)
    requires LegalMembers(members)
    ensures var m := members.member;
            WrittenMembers(members) + close == WrittenKey(m) + Surrounded(m.item, Written(m.item.tree)) + NextMembers(members, close)
  {
    hide Written, Legal, White, Surrounded, WrittenKey, LegalString;
  }

  lemma {:induction false} FirstEntry(members: Members, done: map<bytes, Json>, reader: Reader)
    requires LegalMembers(members)
    ensures var m := members.member;
            LegalKey(m) && Legal(m.item.tree) &&
            FirstWins(Entries(members, reader)) + done ==
            FirstWins(OtherEntries(members, reader)) + Emplace(done, Contents(m.key), Meaning(m.item.tree, reader))
  {
    hide Written, Legal, Meaning, InRange, White, LegalString, Contents, FirstWins, Emplace;
    FirstWinsStep(Entries(members, reader), done);
    assert Entries(members, reader)[1..] == OtherEntries(members, reader);
  }

  lemma {:induction false} MembersParsed(members: Members, f: bytes, done: map<bytes, Json>, reader: Reader)
    requires LegalMembers(members)
    ensures var (t, more) := NextToken(WrittenMembers(members) + (['}' as int] + f), reader);
            && t != EndObject
            && ParseMembers(t, more, done, reader)
               == Outcome(MembersInRange(members, reader), Object(FirstWins(Entries(members, reader)) + done), f)
    decreases members
  {
    hide NextToken, Written, Legal, Meaning, InRange, ParseMember, White, Surrounded, WrittenKey, ParseMembers, LegalMembers, WrittenMembers, Entries, MembersInRange, Contents, Emplace, FirstWins;
    MembersUnfolded(members, reader);
    var m := members.member;
    var close := ['}' as int] + f;
    var next := NextMembers(members, close);
    FirstMember(members, close);
    MemberParsed(m, next, reader);
    var (t, more) := NextToken(WrittenMembers(members) + close, reader);
    MembersStep(t, more, done, reader);
    FirstEntry(members, done, reader);
    var added := Emplace(done, Contents(m.key), Meaning(m.item.tree, reader));
    if members.LastMember? {
      R.PunctuationToken('}' as int, f, reader);
      NoneWins(added);
    } else {
      R.PunctuationToken(',' as int, WrittenMembers(members.more) + close, reader);
      MembersParsed(members.more, f, added, reader);
    }
  }

  // ---- whatever is parsed is a tree

  lemma {:induction false} MarkFound(s: bytes, c: byte, reader: Reader)
    requires s != [] && Punctuation(c) != ParseError && TokenAt(s, reader).0 == Punctuation(c)
    ensures s == [c] + TokenAt(s, reader).1
  {
    hide N.Text, T.ScanNumber, Strings.ScanText, T.Read;
    assert s == [s[0]] + s[1..];
  }

  /** A mark is written behind white space. */
  lemma {:induction false} MarkWritten(s: bytes, c: byte, reader: Reader) returns (ws: bytes)
    requires Punctuation(c) != ParseError && NextToken(s, reader).0 == Punctuation(c)
    ensures White(ws) && s == ws + ([c] + NextToken(s, reader).1)
  {
    ws := SkippedIsWhite(s);
    hide TokenAt, SkipSpace;
    MarkFound(SkipSpace(s), c, reader);
  }

  lemma {:induction false} LiteralFound(s: bytes, reader: Reader) returns (t: Tree)
    requires s != [] && TokenAt(s, reader).0 in {LiteralTrue, LiteralFalse, LiteralNull}
    ensures var (tok, rest) := TokenAt(s, reader);
            t == (match tok case LiteralTrue => TrueTree case LiteralFalse => FalseTree case _ => NullTree) && s == Written(t) + rest
  {
    hide N.Text, T.ScanNumber, Strings.ScanText, T.Read;
    var tok := TokenAt(s, reader).0;
    t := match tok case LiteralTrue => TrueTree case LiteralFalse => FalseTree case _ => NullTree;
    assert s == s[..|Written(t)|] + s[|Written(t)|..];
  }

  lemma {:induction false} StringFound(s: bytes, reader: Reader) returns (cs: seq<Character>)
    requires s != [] && TokenAt(s, reader).0.StringToken?
    ensures var (tok, rest) := TokenAt(s, reader);
            LegalString(cs) && tok.s == Contents(cs) && s == Quoted(cs) + rest
  {
    hide N.Text, T.ScanNumber, Strings.ScanText, T.Read, LegalString, Contents, Spelling;
    cs := ScannedIsString(s[1..]);
    var n := Strings.ScanText(s[1..]).length;
    TakeTwice(s, 1, n);
    assert s[..1] == ['"' as int];
    assert s == s[..1 + n] + s[1 + n..];
    assert ['"' as int] + (Spelling(cs) + ['"' as int]) == Quoted(cs);
  }

  predicate IsNumberToken(tok: Token) {
    tok.UnsignedToken? || tok.IntegerToken? || tok.FloatToken?
  }

  lemma {:induction false} NumberFound(s: bytes, reader: Reader) returns (p: N.Parts)
    requires s != [] && IsNumberToken(TokenAt(s, reader).0)
    ensures var (tok, rest) := TokenAt(s, reader);
            && N.Number(p) && tok == NumberToken(NumberMeaning(p, reader)) && s == N.Text(p) + rest
            && Complete(NumberTree(p), rest)
  {
    hide N.Text, T.ScanNumber, Strings.ScanText, T.Read, N.Number, N.Continues, NumberMeaning, NumberToken, NumberValueToken, N.KindOf;
    NumberTokenFound(s, reader);
    p := N.LexemeIsNumber(s);
    NumberTokenIs(p, reader);
    var n := T.ScanNumber(s).length;
    assert s == s[..n] + s[n..];
  }

  lemma {:induction false} NumberTokenFound(s: bytes, reader: Reader)
    requires s != [] && IsNumberToken(TokenAt(s, reader).0)
    ensures var r := T.ScanNumber(s);
            && r.Lexeme? && r.length <= |s|
            && TokenAt(s, reader) == (NumberValueToken(r.kind, s[..r.length], reader), s[r.length..])
  {
    hide T.ScanFrom, Strings.ScanText, NumberValueToken;
  }

  lemma {:induction false} FoundBehindWhite(s: bytes, reader: Reader) returns (ws: bytes)
    requires NextToken(s, reader).0 != EndOfInput
    ensures White(ws) && SkipSpace(s) != [] && s == ws + SkipSpace(s) && NextToken(s, reader) == TokenAt(SkipSpace(s), reader)
  {
    ws := SkippedIsWhite(s);
    hide SkipSpace, TokenAt;
  }

  lemma {:induction false} ScalarWritten(s: bytes, reader: Reader) returns (ws: bytes, t: Tree)
    requires R.ParseFrom(s, reader).Parsed? && NextToken(s, reader).0 != BeginArray && NextToken(s, reader).0 != BeginObject
    ensures Derived(s, ws, t, R.ParseFrom(s, reader), reader)
  {
    hide NextToken, TokenAt, SkipSpace, LegalString, Contents, N.Number, N.Text, N.Continues, NumberMeaning, Quoted;
    var tok := NextToken(s, reader).0;
    ws := FoundBehindWhite(s, reader);
    var text := SkipSpace(s);
    if IsNumberToken(tok) {
      var p := NumberFound(text, reader);
      t := NumberTree(p);
      NumberIsNumber(p, reader);
    } else if tok.StringToken? {
      var cs := StringFound(text, reader);
      t := StringTree(cs);
    } else {
      t := LiteralFound(text, reader);
    }
  }

  /** The text is white space, the tree, and the rest. */
  ghost predicate Derived(s: bytes, ws: bytes, t: Tree, p: Parsed, reader: Reader) {
    && p.Parsed? && White(ws) && Legal(t) && s == ws + (Written(t) + p.rest)
    && Meaning(t, reader) == p.v && InRange(t, reader) && Complete(t, p.rest)
  }

  lemma {:induction false} TreeWritten(s: bytes, reader: Reader) returns (ws: bytes, t: Tree)
    requires R.ParseFrom(s, reader).Parsed?
    ensures Derived(s, ws, t, R.ParseFrom(s, reader), reader)
    decreases |s|, 0, 1
  {
    hide *;
    var tok := NextToken(s, reader).0;
    if tok == BeginArray {
      ws, t := ArrayWritten(s, reader);
    } else if tok == BeginObject {
      ws, t := ObjectWritten(s, reader);
    } else {
      ws, t := ScalarWritten(s, reader);
    }
  }

  lemma {:induction false} ArrayWritten(s: bytes, reader: Reader) returns (ws: bytes, t: Tree)
    requires R.ParseFrom(s, reader).Parsed? && NextToken(s, reader).0 == BeginArray
    ensures Derived(s, ws, t, R.ParseFrom(s, reader), reader)
    decreases |s|, 0, 0
  {
    hide NextToken, ParseElements, ParseMembers, White, WrittenItems, LegalItems, Elements, ItemsInRange;
    var rest := NextToken(s, reader).1;
    ws := MarkWritten(s, '[' as int, reader);
    var (t1, rest1) := NextToken(rest, reader);
    if t1 == EndArray {
      var inside := MarkWritten(rest, ']' as int, reader);
      t := NoItems(inside);
      Reassociate(['[' as int], inside, [']' as int], rest1);
    } else {
      var items, more := ItemsWritten(rest, [], reader);
      t := ItemsTree(items);
      Reassociate(['[' as int], WrittenItems(items), [']' as int], more);
      assert [] + Elements(items, reader) == Elements(items, reader);
    }
  }

  lemma {:induction false} ObjectWritten(s: bytes, reader: Reader) returns (ws: bytes, t: Tree)
    requires R.ParseFrom(s, reader).Parsed? && NextToken(s, reader).0 == BeginObject
    ensures Derived(s, ws, t, R.ParseFrom(s, reader), reader)
    decreases |s|, 0, 0
  {
    hide NextToken, ParseElements, ParseMembers, White, WrittenMembers, LegalMembers, Entries, MembersInRange;
    var rest := NextToken(s, reader).1;
    ws := MarkWritten(s, '{' as int, reader);
    var (t1, rest1) := NextToken(rest, reader);
    if t1 == EndObject {
      var inside := MarkWritten(rest, '}' as int, reader);
      t := NoMembers(inside);
      Reassociate(['{' as int], inside, ['}' as int], rest1);
    } else {
      var members, more := MembersWritten(rest, map[], reader);
      t := MembersTree(members);
      Reassociate(['{' as int], WrittenMembers(members), ['}' as int], more);
      assert FirstWins(Entries(members, reader)) + map[] == FirstWins(Entries(members, reader));
    }
  }

  lemma {:induction false} ItemsWritten(s: bytes, done: seq<Json>, reader: Reader) returns (items: Items, more: bytes)
    requires var (t, rest) := NextToken(s, reader); ParseElements(t, rest, done, reader).Parsed?
    ensures var (t, rest) := NextToken(s, reader);
            && LegalItems(items) && ItemsInRange(items, reader)
            && ParseElements(t, rest, done, reader) == Parsed(Array(done + Elements(items, reader)), more)
            && s == WrittenItems(items) + ([']' as int] + more)
    decreases |s|, 1
  {
    hide NextToken, ParseElements, ParseValue, White, Written, Legal, Meaning, InRange;
      var (t, rest) := NextToken(s, reader);
    ElementsStep(t, rest, done, reader);
    var before, tree := TreeWritten(s, reader);
    var p := ParseValue(t, rest, reader);
    var (u, rest2) := NextToken(p.rest, reader);
    if u == EndArray {
      var after := MarkWritten(p.rest, ']' as int, reader);
      items, more := LastItem(Item(before, tree, after)), rest2;
      Reassociate(before, Written(tree), after, [']' as int] + more);
      assert done + [p.v] == done + Elements(items, reader);
    } else {
      var after := MarkWritten(p.rest, ',' as int, reader);
      var rest3: Items;
      rest3, more := ItemsWritten(rest2, done + [p.v], reader);
      items := MoreItems(Item(before, tree, after), rest3);
      Reassociate(before, Written(tree), after, [',' as int] + rest2);
      assert done + [p.v] + Elements(rest3, reader) == done + Elements(items, reader);
    }
  }

  lemma {:induction false} KeyWritten(s: bytes, reader: Reader) returns (ws: bytes, cs: seq<Character>)
    requires NextToken(s, reader).0.StringToken?
    ensures White(ws) && LegalString(cs) && s == ws + (Quoted(cs) + NextToken(s, reader).1) && NextToken(s, reader).0.s == Contents(cs)
  {
    ws := FoundBehindWhite(s, reader);
    hide NextToken, TokenAt, SkipSpace, LegalString, Contents, Quoted;
    cs := StringFound(SkipSpace(s), reader);
  }

  /** The text is a member without the white space behind its value, and the rest. */
  ghost predicate DerivedMember(s: bytes, m: Member, p: ParsedMember, reader: Reader) {
    && p.ParsedMember? && LegalKey(m) && Legal(m.item.tree) && White(m.item.before) && m.item.after == []
    && s == WrittenKey(m) + (m.item.before + (Written(m.item.tree) + p.rest))
    && Contents(m.key) == p.k && Meaning(m.item.tree, reader) == p.v && InRange(m.item.tree, reader)
  }

  lemma {:induction false} MemberWritten(s: bytes, reader: Reader) returns (m: Member)
    requires var (t, rest) := NextToken(s, reader); ParseMember(t, rest, reader).ParsedMember?
    ensures var (t, rest) := NextToken(s, reader); DerivedMember(s, m, ParseMember(t, rest, reader), reader)
    decreases |s|, 1
  {
    hide NextToken, ParseValue, White, Written, Legal, Meaning, InRange, LegalString, Contents, Quoted;
      var (t, rest) := NextToken(s, reader);
    var ws, cs := KeyWritten(s, reader);
    var (u, rest1) := NextToken(rest, reader);
    var between := MarkWritten(rest, ':' as int, reader);
    var before, tree := TreeWritten(rest1, reader);
    m := Member(ws, cs, between, Item(before, tree, []));
    var p := ParseMember(t, rest, reader);
    KeyRegrouped(m, before, Written(tree) + p.rest);
    assert WrittenKey(m) + before + (Written(tree) + p.rest) == WrittenKey(m) + (before + (Written(tree) + p.rest));
  }

  /** The member with the white space behind its value. */
  function Closed(m: Member, after: bytes): Member {
    m.(item := m.item.(after := after))
  }

  lemma {:induction false} MemberClosed(s: bytes, m: Member, p: ParsedMember, after: bytes, tail: bytes, reader: Reader)
    requires DerivedMember(s, m, p, reader) && White(after) && p.rest == after + tail
    ensures var c := Closed(m, after);
            && LegalKey(c) && Around(c.item) && Legal(c.item.tree) && Contents(c.key) == p.k
            && Meaning(c.item.tree, reader) == p.v && InRange(c.item.tree, reader)
            && s == WrittenKey(c) + Surrounded(c.item, Written(c.item.tree)) + tail
  {
    hide White, Written, Legal, Meaning, InRange, LegalString, Contents, Quoted;
    var before, text := m.item.before, Written(m.item.tree);
    assert before + (text + (after + tail)) == before + text + after + tail;
    assert WrittenKey(m) == WrittenKey(Closed(m, after));
  }

  lemma {:induction false} MembersWritten(s: bytes, done: map<bytes, Json>, reader: Reader) returns (members: Members, more: bytes)
    requires var (t, rest) := NextToken(s, reader); ParseMembers(t, rest, done, reader).Parsed?
    ensures var (t, rest) := NextToken(s, reader);
            && LegalMembers(members) && MembersInRange(members, reader)
            && ParseMembers(t, rest, done, reader) == Parsed(Object(FirstWins(Entries(members, reader)) + done), more)
            && s == WrittenMembers(members) + (['}' as int] + more)
    decreases |s|, 2
  {
    hide NextToken, ParseMembers, ParseMember, White, Written, Legal, Meaning, InRange, LegalString, Contents, Quoted, Emplace, FirstWins,
      DerivedMember, WrittenKey, Surrounded;
      var (t, rest) := NextToken(s, reader);
    MembersStep(t, rest, done, reader);
    var m := MemberWritten(s, reader);
    var p := ParseMember(t, rest, reader);
    var (u, rest2) := NextToken(p.rest, reader);
    if u == EndObject {
      var after := MarkWritten(p.rest, '}' as int, reader);
      members, more := LastMember(Closed(m, after)), rest2;
      MemberClosed(s, m, p, after, ['}' as int] + rest2, reader);
      FirstWinsStep(Entries(members, reader), done);
      NoneWins(Emplace(done, p.k, p.v));
      assert Entries(members, reader)[1..] == [];
    } else {
      var after := MarkWritten(p.rest, ',' as int, reader);
      var others: Members;
      others, more := MembersWritten(rest2, Emplace(done, p.k, p.v), reader);
      members := MoreMembers(Closed(m, after), others);
      MemberClosed(s, m, p, after, [',' as int] + rest2, reader);
      FirstWinsStep(Entries(members, reader), done);
      assert Entries(members, reader)[1..] == Entries(others, reader);
    }
  }

  // ---- texts

  /** The input is one item up to its end; the item stands for v. */
  ghost predicate IsText(input: bytes, v: Json, reader: Reader) {
    exists i: Item, end: bytes ::
      && Around(i) && Legal(i.tree) && InRange(i.tree, reader) && AtEnd(end)
      && input == Surrounded(i, Written(i.tree)) + end && v == Meaning(i.tree, reader)
  }

  /** The input starts with a tree behind white space, and no byte follows that belongs to a longer number. */
  ghost predicate StartsText(input: bytes, v: Json, reader: Reader) {
    exists ws: bytes, t: Tree, rest: bytes ::
      && White(ws) && Legal(t) && InRange(t, reader) && Complete(t, rest)
      && input == ws + (Written(t) + rest) && v == Meaning(t, reader)
  }

  lemma {:induction false} EndFound(s: bytes, reader: Reader)
    ensures NextToken(s, reader).0 == EndOfInput <==> AtEnd(SkipSpace(s))
  {
    hide N.Text, T.ScanNumber, Strings.ScanText, T.Read;
  }

  lemma {:induction false} EndStays(end: bytes)
    requires AtEnd(end)
    ensures SkipSpace(end) == end
  {}

  lemma {:induction false} EndCompletes(i: Item, end: bytes)
    requires Around(i) && AtEnd(end)
    ensures Complete(i.tree, i.after + end)
  {
    var next := i.after + end;
    assert i.after == [] ==> next == end;
  }

  lemma {:induction false} ItemBeforeEnd(i: Item, end: bytes, reader: Reader)
    requires Around(i) && Legal(i.tree) && AtEnd(end)
    ensures var input := Surrounded(i, Written(i.tree)) + end;
            && R.ParseFrom(input, reader) == Outcome(InRange(i.tree, reader), Meaning(i.tree, reader), i.after + end)
            && NextToken(i.after + end, reader).0 == EndOfInput
  {
    hide NextToken, Written, Legal, Meaning, InRange, ParseValue, White, SkipSpace;
    EndCompletes(i, end);
    TreeParsed(i.tree, i.after + end, reader);
    Reassociate(i.before, Written(i.tree), i.after, end);
    WhiteBefore(i.before, Written(i.tree) + (i.after + end), reader);
    WhiteBefore(i.after, end, reader);
    EndFound(end, reader);
    EndStays(end);
  }

  /** Strict parsing succeeds exactly on the texts of the grammar, with the value that they stand for. */
  lemma {:induction false} ParsesExactly(input: bytes, v: Json, reader: Reader)
    ensures Parse(input, true, reader) == Ok(v) <==> IsText(input, v, reader)
  {
    hide NextToken, Written, Legal, Meaning, InRange, ParseValue, White, SkipSpace, Complete;
    if IsText(input, v, reader) {
      var i: Item, end: bytes :|
        && Around(i) && Legal(i.tree) && InRange(i.tree, reader) && AtEnd(end)
        && input == Surrounded(i, Written(i.tree)) + end && v == Meaning(i.tree, reader);
      ItemBeforeEnd(i, end, reader);
    }
    if Parse(input, true, reader) == Ok(v) {
      var ws, t := TreeWritten(input, reader);
      var rest := R.ParseFrom(input, reader).rest;
      var after := SkippedIsWhite(rest);
      EndFound(rest, reader);
      var i, end := Item(ws, t, after), SkipSpace(rest);
      Reassociate(ws, Written(t), after, end);
      assert input == Surrounded(i, Written(i.tree)) + end;
    }
  }

  /** Otherwise it succeeds on every input that starts with one. */
  lemma {:induction false} ParsesStart(input: bytes, v: Json, reader: Reader)
    ensures Parse(input, false, reader) == Ok(v) <==> StartsText(input, v, reader)
  {
    hide NextToken, Written, Legal, Meaning, InRange, ParseValue, White, SkipSpace, Complete;
    if StartsText(input, v, reader) {
      var ws: bytes, t: Tree, rest: bytes :|
        && White(ws) && Legal(t) && InRange(t, reader) && Complete(t, rest)
        && input == ws + (Written(t) + rest) && v == Meaning(t, reader);
      TreeParsed(t, rest, reader);
      WhiteBefore(ws, Written(t) + rest, reader);
    }
    if Parse(input, false, reader) == Ok(v) {
      var ws, t := TreeWritten(input, reader);
    }
  }

  /** A text with a number that is too large is rejected for that. */
  lemma {:induction false} TooLarge(i: Item, end: bytes, strict: bool, reader: Reader)
    requires Around(i) && Legal(i.tree) && !InRange(i.tree, reader) && AtEnd(end)
    ensures Parse(Surrounded(i, Written(i.tree)) + end, strict, reader) == Err(OUT_OF_RANGE_406)
  {
    hide NextToken, Written, Legal, Meaning, InRange, ParseValue, White, SkipSpace, AtEnd;
    ItemBeforeEnd(i, end, reader);
  }

  // ---- which errors there are

  predicate Reported(id: int) {
    id == 101 || id == 406
  }

  lemma {:induction false} ValueErrors(tok: Token, rest: bytes, reader: Reader)
    ensures var p := ParseValue(tok, rest, reader); p.Failed? ==> Reported(p.id)
    decreases Left(tok, rest), 0
  {
    hide NextToken, ParseElements, ParseMembers;
      var (t, more) := NextToken(rest, reader);
    if tok == BeginArray && t != EndArray {
      ElementErrors(t, more, [], reader);
    } else if tok == BeginObject && t != EndObject {
      MemberErrors(t, more, map[], reader);
    }
  }

  lemma {:induction false} ElementErrors(tok: Token, rest: bytes, done: seq<Json>, reader: Reader)
    ensures var p := ParseElements(tok, rest, done, reader); p.Failed? ==> Reported(p.id)
    decreases Left(tok, rest), 1
  {
    hide NextToken, ParseValue, ParseElements;
    ElementsStep(tok, rest, done, reader);
    ValueErrors(tok, rest, reader);
    var p := ParseValue(tok, rest, reader);
    if p.Parsed? {
      var (t, rest2) := NextToken(p.rest, reader);
      if t == ValueSeparator {
        var (u, rest3) := NextToken(rest2, reader);
        ElementErrors(u, rest3, done + [p.v], reader);
      }
    }
  }

  lemma {:induction false} MemberErrors(tok: Token, rest: bytes, done: map<bytes, Json>, reader: Reader)
    ensures var p := ParseMembers(tok, rest, done, reader); p.Failed? ==> Reported(p.id)
    decreases Left(tok, rest), 2
  {
    hide NextToken, ParseMember, ParseMembers, Emplace;
    MembersStep(tok, rest, done, reader);
    OneMemberErrors(tok, rest, reader);
    var p := ParseMember(tok, rest, reader);
    if p.ParsedMember? {
      var (t, rest2) := NextToken(p.rest, reader);
      if t == ValueSeparator {
        var (u, rest3) := NextToken(rest2, reader);
        MemberErrors(u, rest3, Emplace(done, p.k, p.v), reader);
      }
    }
  }

  lemma {:induction false} OneMemberErrors(tok: Token, rest: bytes, reader: Reader)
    ensures var p := ParseMember(tok, rest, reader); p.FailedMember? ==> Reported(p.id)
    decreases Left(tok, rest), 1
  {
    hide NextToken, ParseValue;
    if tok.StringToken? {
      var (t, rest1) := NextToken(rest, reader);
      if t == NameSeparator {
        var (u, rest2) := NextToken(rest1, reader);
        ValueErrors(u, rest2, reader);
      }
    }
  }

  /** A text outside the grammar is a syntax error, or rejected for a number in front of the error. */
  lemma {:induction false} ParseErrors(input: bytes, reader: Reader)
    requires forall v :: !IsText(input, v, reader)
    ensures var r := Parse(input, true, reader); r.Err? && Reported(r.id)
  {
    hide NextToken, ParseValue, IsText;
      var (t, rest) := NextToken(input, reader);
    ValueErrors(t, rest, reader);
    if Parse(input, true, reader).Ok? {
      ParsesExactly(input, Parse(input, true, reader).value, reader);
    }
  }

  // ---- broken lists

  /** Behind the items there is a colon, or a comma with nothing but the closing bracket behind it. */
  ghost predicate Broken(f: bytes, reader: Reader) {
    var (t, rest) := NextToken(f, reader);
    t == NameSeparator || (t == ValueSeparator && NextToken(rest, reader).0 == EndArray)
  }

  lemma {:induction false} NoValueIsClosing(rest: bytes, done: seq<Json>, reader: Reader)
    ensures ParseElements(EndArray, rest, done, reader) == Failed(PARSE_ERROR_101)
  {}

  lemma {:induction false} BrokenItems(items: Items, f: bytes, done: seq<Json>, reader: Reader)
    requires LegalItems(items) && Delimiter(f) && Broken(f, reader)
    ensures var (t, more) := NextToken(WrittenItems(items) + f, reader);
            && t != EndArray
            && ParseElements(t, more, done, reader) == Failed(if ItemsInRange(items, reader) then 101 else 406)
    decreases items
  {
    hide NextToken, Written, Legal, Meaning, InRange, ParseValue, White, Surrounded, ParseElements, LegalItems, WrittenItems, Elements, ItemsInRange;
    ItemsUnfolded(items, reader);
    var i := items.item;
    FirstItem(items, f);
    ItemParsed(i, NextItems(items, f), reader);
    var (t, more) := NextToken(WrittenItems(items) + f, reader);
    ElementsStep(t, more, done, reader);
    if items.LastItem? {
      var (u, rest) := NextToken(f, reader);
      NoValueIsClosing(NextToken(rest, reader).1, done + [Meaning(i.tree, reader)], reader);
    } else {
      R.PunctuationToken(',' as int, WrittenItems(items.more) + f, reader);
      BrokenItems(items.more, f, done + [Meaning(i.tree, reader)], reader);
    }
  }

  lemma {:induction false} BrokenIsRejected(items: Items, f: bytes, strict: bool, reader: Reader)
    requires LegalItems(items) && Delimiter(f) && Broken(f, reader)
    ensures Parse(['[' as int] + (WrittenItems(items) + f), strict, reader) == Err(if ItemsInRange(items, reader) then 101 else 406)
  {
    hide NextToken, LegalItems, WrittenItems, ItemsInRange, ParseElements, R.ParseFrom, Broken;
    BrokenItems(items, f, [], reader);
    R.ParseBracket(WrittenItems(items) + f, reader);
    FailedIsError(['[' as int] + (WrittenItems(items) + f), strict, reader);
  }

  lemma {:induction false} FailedIsError(s: bytes, strict: bool, reader: Reader)
    requires R.ParseFrom(s, reader).Failed?
    ensures Parse(s, strict, reader) == Err(R.ParseFrom(s, reader).id)
  {
    hide NextToken, ParseValue;
  }

  /** Neither a comma in front of the closing bracket is accepted nor a colon between elements, in any array. */
  lemma {:induction false} NoTrailingComma(items: Items, ws: bytes, rest: bytes, strict: bool, reader: Reader)
    requires LegalItems(items) && White(ws)
    ensures var start := ['[' as int] + WrittenItems(items);
            && Parse(start + [',' as int] + ws + [']' as int] + rest, strict, reader).Err?
            && Parse(start + [':' as int] + rest, strict, reader).Err?
  {
    hide NextToken, LegalItems, WrittenItems, White, Parse;
    var close := [']' as int] + rest;
    var comma, colon := [',' as int] + (ws + close), [':' as int] + rest;
    R.PunctuationToken(',' as int, ws + close, reader);
    WhiteBefore(ws, close, reader);
    R.PunctuationToken(']' as int, rest, reader);
    BrokenIsRejected(items, comma, strict, reader);
    R.PunctuationToken(':' as int, rest, reader);
    BrokenIsRejected(items, colon, strict, reader);
    var start := ['[' as int] + WrittenItems(items);
    assert start + [',' as int] + ws + [']' as int] + rest == ['[' as int] + (WrittenItems(items) + comma);
    assert start + [':' as int] + rest == ['[' as int] + (WrittenItems(items) + colon);
  }

  /** A byte order mark in front of a text is skipped, and not part of any text. */
  lemma {:induction false} MarkIsSkipped(s: bytes, strict: bool, reader: Reader)
    ensures var mark := [0xEF, 0xBB, 0xBF];
            WithoutMark(mark + s) == s && Parse(mark + s, strict, reader).Err?
    ensures s == [] || s[0] != 0xEF ==> WithoutMark(s) == s
  {
    var text := [0xEF, 0xBB, 0xBF] + s;
    assert text[0] == 0xEF && text[3..] == s;
    R.MarkIsNoValue(text, reader);
    hide NextToken, ParseValue;
    FailedIsError(text, strict, reader);
  }
}
