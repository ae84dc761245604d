/**
  UTF-8: the grammar of section 4 of RFC 3629, the encoding of code points, and the table-driven
  automaton that the serializer checks strings with.
 */
module Utf8 {
  import opened Arith
  import opened Decimal

  // ---- the grammar of RFC 3629

  predicate Tail(b: byte) {
    0x80 <= b <= 0xBF
  }

  predicate SecondOf3(lead: byte, b: byte) {
    || (lead == 0xE0 && 0xA0 <= b <= 0xBF)
    || (0xE1 <= lead <= 0xEC && Tail(b))
    || (lead == 0xED && 0x80 <= b <= 0x9F)
    || (0xEE <= lead <= 0xEF && Tail(b))
  }

  predicate SecondOf4(lead: byte, b: byte) {
    || (lead == 0xF0 && 0x90 <= b <= 0xBF)
    || (0xF1 <= lead <= 0xF3 && Tail(b))
    || (lead == 0xF4 && 0x80 <= b <= 0x8F)
  }

  /** How many bytes the first character takes; 0 if there is none. */
  function CharLength(s: bytes): (n: nat)
    ensures n <= |s| && n <= 4
  {
    if |s| >= 1 && s[0] <= 0x7F then 1
    else if |s| >= 2 && 0xC2 <= s[0] <= 0xDF && Tail(s[1]) then 2
    else if |s| >= 3 && SecondOf3(s[0], s[1]) && Tail(s[2]) then 3
    else if |s| >= 4 && SecondOf4(s[0], s[1]) && Tail(s[2]) && Tail(s[3]) then 4
    else 0
  }

  predicate WellFormed(s: bytes) {
    s == [] || (CharLength(s) > 0 && WellFormed(s[CharLength(s)..]))
  }

  /** A Unicode code point that is not a surrogate. */
  predicate Scalar(c: int) {
    0 <= c < 0xD800 || 0xE000 <= c <= 0x10FFFF
  }

  /** What a byte carries besides its marker bits. */
  function Payload(b: byte, marker: byte): (n: int) {
    b - marker
  }

  function CodePoint(s: bytes): (c: int)
    requires CharLength(s) > 0
    ensures Scalar(c)
  {
    match CharLength(s)
    case 1 => s[0]
    case 2 => Payload(s[0], 0xC0) * 0x40 + Payload(s[1], 0x80)
    case 3 => Payload(s[0], 0xE0) * 0x1000 + Payload(s[1], 0x80) * 0x40 + Payload(s[2], 0x80)
    case _ => Payload(s[0], 0xF0) * 0x40000 + Payload(s[1], 0x80) * 0x1000 + Payload(s[2], 0x80) * 0x40 + Payload(s[3], 0x80)
  }

  // ---- encoding, as the lexer does it

  /** The low six bits, in a continuation byte. */
  function Low6(c: nat): (b: byte)
    ensures Tail(b)
  {
    0x80 + c % 0x40
  }

  /** The bits above the low six. */
  function High(c: nat): (h: nat)
    ensures c == 0x40 * h + (Low6(c) - 0x80)
  {
    c / 0x40
  }

  lemma {:induction false} Join6(h: nat, b: byte)
    requires Tail(b)
    ensures var c := 0x40 * h + (b - 0x80); High(c) == h && Low6(c) == b
  {}

  function Encode(c: int): bytes
    requires Scalar(c)
  {
    if c < 0x80 then [c]
    else if c <= 0x7FF then [0xC0 + High(c), Low6(c)]
    else if c <= 0xFFFF then [0xE0 + High(High(c)), Low6(High(c)), Low6(c)]
    else [0xF0 + High(High(High(c))), Low6(High(High(c))), Low6(High(c)), Low6(c)]
  }

  /** The grammar describes exactly the encodings: every code point has one, */
  lemma {:induction false} DecodeEncode(c: int, rest: bytes)
    requires Scalar(c)
    ensures CharLength(Encode(c) + rest) == |Encode(c)| && CodePoint(Encode(c) + rest) == c
  {
    hide Low6, High;
    var e, s := Encode(c), Encode(c) + rest;
    assert forall i | 0 <= i < |e| :: s[i] == e[i];
  }

  /** and every character of the grammar is the encoding of its code point. */
  lemma {:induction false} EncodeDecode(s: bytes)
    requires CharLength(s) > 0
    ensures Encode(CodePoint(s)) == s[..CharLength(s)]
  {
    hide Low6, High;
    match CharLength(s)
    case 1 =>
    case 2 =>
      Join6(s[0] - 0xC0, s[1]);
    case 3 =>
      Join6(s[0] - 0xE0, s[1]);
      Join6(0x40 * Payload(s[0], 0xE0) + Payload(s[1], 0x80), s[2]);
    case _ =>
      Join6(s[0] - 0xF0, s[1]);
      Join6(0x40 * Payload(s[0], 0xF0) + Payload(s[1], 0x80), s[2]);
      Join6(0x1000 * Payload(s[0], 0xF0) + 0x40 * Payload(s[1], 0x80) + Payload(s[2], 0x80), s[3]);
  }

  // ---- the automaton

  const ACCEPT: byte := 0
  const REJECT: byte := 1

  function Uniform(c: byte): (row: seq<byte>)
    ensures |row| == 16 && forall i | 0 <= i < 16 :: row[i] == c
  {
    seq(16, _ => c)
  }

  /** Rows 0 to 15 of the table, 16 entries each: the class of a byte. */
  function ClassRow(r: nat): (row: seq<byte>)
    requires r < 16
    ensures |row| == 16 && forall i | 0 <= i < 16 :: row[i] < 12
  {
    if r < 8 then Uniform(0)
    else if r == 8 then Uniform(1)
    else if r == 9 then Uniform(9)
    else if r < 12 then Uniform(7)
    else if r == 12 then [8, 8, 2, 2, 2, 2, 2, 2, 2, 2, 2, 2, 2, 2, 2, 2]
    else if r == 13 then Uniform(2)
    else if r == 14 then [0xA, 0x3, 0x3, 0x3, 0x3, 0x3, 0x3, 0x3, 0x3, 0x3, 0x3, 0x3, 0x3, 0x4, 0x3, 0x3]
    else [0xB, 0x6, 0x6, 0x6, 0x5, 0x8, 0x8, 0x8, 0x8, 0x8, 0x8, 0x8, 0x8, 0x8, 0x8, 0x8]
  }

  /** The rows after them: the transitions from a state, by class. */
  function StateRow(state: nat): (row: seq<byte>)
    requires state < 9
    ensures |row| == 16 && forall i | 0 <= i < 16 :: row[i] < 9
  {
    if state == 0 then [0x0, 0x1, 0x2, 0x3, 0x5, 0x8, 0x7, 0x1, 0x1, 0x1, 0x4, 0x6, 0x1, 0x1, 0x1, 0x1]
    else if state == 1 then Uniform(1)
    else if state == 2 then [1, 0, 1, 1, 1, 1, 1, 0, 1, 0, 1, 1, 1, 1, 1, 1]
    else if state == 3 then [1, 2, 1, 1, 1, 1, 1, 2, 1, 2, 1, 1, 1, 1, 1, 1]
    else if state == 4 then [1, 1, 1, 1, 1, 1, 1, 2, 1, 1, 1, 1, 1, 1, 1, 1]
    else if state == 5 then [1, 2, 1, 1, 1, 1, 1, 1, 1, 2, 1, 1, 1, 1, 1, 1]
    else if state == 6 then [1, 1, 1, 1, 1, 1, 1, 3, 1, 3, 1, 1, 1, 1, 1, 1]
    else if state == 7 then [1, 3, 1, 1, 1, 1, 1, 3, 1, 3, 1, 1, 1, 1, 1, 1]
    else [1, 3, 1, 1, 1, 1, 1, 1, 1, 1, 1, 1, 1, 1, 1, 1]
  }

  function Class(b: byte): byte {
    ClassRow(b / 16)[b % 16]
  }

  function Transition(state: nat, class_: nat): byte
    requires state < 9 && class_ < 12
  {
    StateRow(state)[class_]
  }

  /** One step: the new state, and the code point collected so far (complete when the state is ACCEPT). */
  function Decode(state: byte, codep: uint32, b: byte): (r: (byte, uint32))
    requires state < 9
    ensures r.0 < 9
  {
    var class_ := Class(b);
    (Transition(state, class_),
     if state != ACCEPT then (b % 0x40 + codep * 0x40) % TWO_32 else LeadBits(b, class_))
  }

  /** The bits of a first byte that are kept: 0xff >> class. */
  function LeadBits(b: byte, class_: byte): (r: uint32)
    requires class_ < 12
  {
    match class_
    case 0 => b
    case 1 => b % 0x80
    case 2 => b % 0x40
    case 3 => b % 0x20
    case 4 => b % 0x10
    case 5 => b % 0x8
    case 6 => b % 0x4
    case 7 => b % 0x2
    case _ => 0
  }

  // ---- the automaton recognises the grammar

  /** The beginning of a character that is not complete yet. */
  predicate Pending(p: bytes) {
    match |p|
    case 0 => true
    case 1 => 0xC2 <= p[0] <= 0xF4
    case 2 => SecondOf3(p[0], p[1]) || SecondOf4(p[0], p[1])
    case 3 => SecondOf4(p[0], p[1]) && Tail(p[2])
    case _ => false
  }

  /** The state after such a beginning. */
  function StateAfter(p: bytes): (state: byte)
    requires Pending(p)
    ensures state < 9 && state != REJECT && (state == ACCEPT <==> p == [])
  {
    match |p|
    case 0 => ACCEPT
    case 1 =>
      var b := p[0];
      if b <= 0xDF then 2
      else if b == 0xE0 then 4
      else if b == 0xED then 5
      else if b <= 0xEF then 3
      else if b == 0xF0 then 6
      else if b <= 0xF3 then 7
      else 8
    case 2 => if p[0] <= 0xEF then 2 else 3
    case _ => 2
  }

  /** The code point bits after such a beginning. */
  function CodeAfter(p: bytes): (c: uint32)
    requires Pending(p) && p != []
  {
    var lead := Payload(p[0], if p[0] <= 0xDF then 0xC0 else if p[0] <= 0xEF then 0xE0 else 0xF0);
    match |p|
    case 1 => lead
    case 2 => lead * 0x40 + Payload(p[1], 0x80)
    case _ => lead * 0x1000 + Payload(p[1], 0x80) * 0x40 + Payload(p[2], 0x80)
  }

  function ClassOf(b: byte): byte {
    if b <= 0x7F then 0
    else if b <= 0x8F then 1
    else if b <= 0x9F then 9
    else if b <= 0xBF then 7
    else if b <= 0xC1 then 8
    else if b <= 0xDF then 2
    else if b == 0xE0 then 10
    else if b == 0xED then 4
    else if b <= 0xEF then 3
    else if b == 0xF0 then 11
    else if b <= 0xF3 then 6
    else if b == 0xF4 then 5
    else 8
  }

  lemma {:induction false} ClassRowAt(r: nat, i: nat)
    requires r < 16 && i < 16
    ensures ClassRow(r)[i] ==
            if r < 8 then 0
            else if r < 12 then (if r == 8 then 1 else if r == 9 then 9 else 7)
            else if r < 14 then (if r == 12 && i < 2 then 8 else 2)
            else if r == 14 then (if i == 0 then 10 else if i == 13 then 4 else 3)
            else if i == 0 then 11 else if i <= 3 then 6 else if i == 4 then 5 else 8
  {}

  lemma {:induction false} ClassIs(b: byte)
    ensures Class(b) == ClassOf(b)
  {
    hide ClassRow;
    ClassRowAt(b / 16, b % 16);
  }

  function TransitionOf(state: nat, c: nat): byte
    requires state < 9 && c < 12
  {
    match state
    case 0 => if c == 0 then 0 else if c == 2 then 2 else if c == 3 then 3 else if c == 4 then 5 else if c == 5 then 8
    else if c == 6 then 7 else if c == 10 then 4 else if c == 11 then 6 else 1
    case 1 => 1
    case 2 => if c == 1 || c == 7 || c == 9 then 0 else 1
    case 3 => if c == 1 || c == 7 || c == 9 then 2 else 1
    case 4 => if c == 7 then 2 else 1
    case 5 => if c == 1 || c == 9 then 2 else 1
    case 6 => if c == 7 || c == 9 then 3 else 1
    case 7 => if c == 1 || c == 7 || c == 9 then 3 else 1
    case _ => if c == 1 then 3 else 1
  }

  lemma {:induction false} TransitionIs(state: nat, c: nat)
    requires state < 9 && c < 12
    ensures Transition(state, c) == TransitionOf(state, c)
  {}

  /**
    One step from a pending beginning: it completes a character of the grammar and yields its code
    point, or rejects what no character begins with, or stays pending.
   */
  lemma {:induction false} DecodeStep(p: bytes, codep: uint32, b: byte)
    requires Pending(p) && (p != [] ==> codep == CodeAfter(p))
    ensures var r := Decode(StateAfter(p), codep, b);
            var q := p + [b];
            if r.0 == ACCEPT then CharLength(q) == |q| && CodePoint(q) == r.1
            else if r.0 == REJECT then !Pending(q) && CharLength(q) != |q|
            else Pending(q) && r.0 == StateAfter(q) && r.1 == CodeAfter(q)
  {
    if p == [] {
      FirstStep(b, codep);
      assert p + [b] == [b];
    } else {
      LaterStep(p, codep, b);
    }
  }

  lemma {:induction false} LaterStep(p: bytes, codep: uint32, b: byte)
    requires Pending(p) && p != [] && codep == CodeAfter(p)
    ensures var r := Decode(StateAfter(p), codep, b);
            var q := p + [b];
            if r.0 == ACCEPT then CharLength(q) == |q| && CodePoint(q) == r.1
            else if r.0 == REJECT then !Pending(q) && CharLength(q) != |q|
            else Pending(q) && r.0 == StateAfter(q) && r.1 == CodeAfter(q)
  {
    DecodeLater(StateAfter(p), codep, b);
    TailBits(b);
    hide Decode, ClassRow, StateRow;
    var q := p + [b];
    assert q[0] == p[0] && (|p| > 1 ==> q[1] == p[1]) && (|p| > 2 ==> q[2] == p[2]) && q[|p|] == b;
  }

  lemma {:induction false} DecodeLater(state: byte, codep: uint32, b: byte)
    requires state < 9 && state != ACCEPT && codep < 0x8000
    ensures Decode(state, codep, b) == (TransitionOf(state, ClassOf(b)), codep * 0x40 + b % 0x40)
  {
    ClassIs(b);
    TransitionIs(state, ClassOf(b));
    hide Class, Transition, ClassRow, StateRow;
  }

  lemma {:induction false} TailBits(b: byte)
    ensures Tail(b) ==> b % 0x40 == b - 0x80
  {}

  lemma {:induction false} FirstStep(b: byte, codep: uint32)
    ensures var r := Decode(ACCEPT, codep, b);
            if r.0 == ACCEPT then CharLength([b]) == 1 && CodePoint([b]) == r.1
            else if r.0 == REJECT then !Pending([b]) && CharLength([b]) != 1
            else Pending([b]) && r.0 == StateAfter([b]) && r.1 == CodeAfter([b])
  {
    ClassIs(b);
    TransitionIs(ACCEPT, ClassOf(b));
    hide Class, Transition, ClassRow, StateRow;
    FirstBits(b);
    hide LeadBits;
  }

  lemma {:induction false} FirstBits(b: byte)
    ensures LeadBits(b, ClassOf(b)) ==
            if b <= 0x7F then b
            else if 0xC2 <= b <= 0xDF then b - 0xC0
            else if 0xE0 <= b <= 0xEF then b - 0xE0
            else if 0xF0 <= b <= 0xF4 then b - 0xF0
            else LeadBits(b, ClassOf(b))
  {}

  /** Characters are prefix-free, and all their proper beginnings are pending. */
  lemma {:induction false} CharPrefixes(s: bytes, k: nat)
    requires k <= |s|
    ensures CharLength(s) > 0 ==> (k < CharLength(s) ==> Pending(s[..k]) && CharLength(s[..k]) == 0)
    ensures CharLength(s) > 0 && k >= CharLength(s) ==> CharLength(s[..k]) == CharLength(s)
    ensures CharLength(s) > 0 && k > CharLength(s) ==> !Pending(s[..k])
    ensures k > 0 && CharLength(s[..k]) > 0 ==> CharLength(s) == CharLength(s[..k]) && CodePoint(s) == CodePoint(s[..k])
    ensures k > 0 && Pending(s[..k]) ==> CharLength(s[..k]) == 0
  {}

  /** The automaton over a whole string. */
  function Run(state: byte, codep: uint32, s: bytes): (end: byte)
    requires state < 9
    ensures end < 9
    decreases |s|
  {
    if s == [] then state
    else
      var r := Decode(state, codep, s[0]);
      Run(r.0, r.1, s[1..])
  }

  lemma {:induction false} RejectIsFinal(codep: uint32, s: bytes)
    ensures Run(REJECT, codep, s) == REJECT
    decreases |s|
  {
    if s != [] {
      assert Transition(REJECT, Class(s[0])) == REJECT;
      RejectIsFinal(Decode(REJECT, codep, s[0]).1, s[1..]);
    }
  }

  lemma {:induction false} NothingPending(p: bytes)
    requires Pending(p)
    ensures StateAfter(p) == ACCEPT <==> p == []
    ensures WellFormed(p) <==> p == []
    ensures Pending([]) && StateAfter([]) == ACCEPT
  {
    hide SecondOf3, SecondOf4;
    CharPrefixes(p, |p|);
    assert p[..|p|] == p;
  }

  lemma {:induction false} RunPending(p: bytes, codep: uint32, s: bytes)
    requires Pending(p) && (p != [] ==> codep == CodeAfter(p))
    ensures Run(StateAfter(p), codep, s) == ACCEPT <==> WellFormed(p + s)
    decreases |s|
  {
    hide Decode, CodeAfter, CharLength, Pending, StateAfter;
    NothingPending(p);
    CharPrefixes(p + s, |p|);
    assert (p + s)[..|p|] == p;
    if s == [] {
      assert p + s == p;
    } else {
      var r, q := Decode(StateAfter(p), codep, s[0]), p + [s[0]];
      DecodeStep(p, codep, s[0]);
      assert p + s == q + s[1..] && (p + s)[..|q|] == q;
      CharPrefixes(p + s, |q|);
      if r.0 == ACCEPT {
        RunPending([], r.1, s[1..]);
        assert (p + s)[|q|..] == s[1..] && [] + s[1..] == s[1..];
      } else if r.0 == REJECT {
        RejectIsFinal(r.1, s[1..]);
      } else {
        RunPending(q, r.1, s[1..]);
      }
    }
  }

  /** The table accepts a byte string exactly when it is well formed. */
  lemma {:induction false} TableAccepts(s: bytes, codep: uint32)
    ensures Run(ACCEPT, codep, s) == ACCEPT <==> WellFormed(s)
  {
    RunPending([], codep, s);
    assert [] + s == s;
  }
}
