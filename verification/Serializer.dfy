/**
  The compact serializer: an output, a 512-byte buffer for escaped text and a 64-byte one for numbers.
 */
module Serializer {
  import opened Arith
  import opened Buffers
  import opened Decimal
  import opened Utf8
  import opened Strings
  import opened J = Json
  import FloatText
  import Doubles

  const COMMA: byte := ',' as int
  const COLON: byte := ':' as int
  const BEGIN_ARRAY: byte := '[' as int
  const END_ARRAY: byte := ']' as int
  const BEGIN_OBJECT: byte := '{' as int
  const END_OBJECT: byte := '}' as int
  const MINUS: byte := '-' as int

  // ---- what a dump may be

  function IntegerText(x: int): bytes {
    if x < 0 then [MINUS] + ToDecimal(-x) else ToDecimal(x)
  }

  function Quoted(s: bytes, ensureAscii: bool): bytes
    requires WellFormed(s)
  {
    [QUOTE] + Escaped(s, ensureAscii) + [QUOTE]
  }

  /** Texts, each followed by a comma. */
  function Closed(texts: seq<bytes>): bytes {
    if texts == [] then [] else texts[0] + [COMMA] + Closed(texts[1..])
  }

  function Joined(texts: seq<bytes>): bytes
    requires texts != []
  {
    Closed(texts[..|texts| - 1]) + texts[|texts| - 1]
  }

  lemma {:induction false} ClosedSnoc(texts: seq<bytes>, t: bytes)
    ensures Closed(texts + [t]) == Closed(texts) + t + [COMMA]
  {
    if texts == [] {
      assert texts + [t] == [t];
    } else {
      assert (texts + [t])[1..] == texts[1..] + [t];
      ClosedSnoc(texts[1..], t);
    }
  }

  function MemberText(k: bytes, text: bytes, ensureAscii: bool): bytes
    requires WellFormed(k)
  {
    Quoted(k, ensureAscii) + [COLON] + text
  }

  function MemberTexts(keys: seq<bytes>, texts: seq<bytes>, ensureAscii: bool): (r: seq<bytes>)
    requires |keys| == |texts| && forall k | k in keys :: WellFormed(k)
    ensures |r| == |keys|
  {
    seq(|keys|, i requires 0 <= i < |keys| => MemberText(keys[i], texts[i], ensureAscii))
  }

  predicate InBrackets(texts: seq<bytes>, n: nat, out: bytes) {
    |texts| == n > 0 && out == [BEGIN_ARRAY] + Joined(texts) + [END_ARRAY]
  }

  predicate InBraces(keys: seq<bytes>, texts: seq<bytes>, ensureAscii: bool, out: bytes) {
    && |texts| == |keys| > 0 && (forall k | k in keys :: WellFormed(k))
    && out == [BEGIN_OBJECT] + Joined(MemberTexts(keys, texts, ensureAscii)) + [END_OBJECT]
  }

  /** All strings and keys are well-formed UTF-8. */
  predicate Dumpable(v: Json) {
    match v
    case String(s) => WellFormed(s)
    case Array(a) => forall i | 0 <= i < |a| :: Dumpable(a[i])
    case Object(o) => forall k | k in o :: WellFormed(k) && Dumpable(o[k])
    case _ => true
  }

  /** out is a compact text for v; only the texts of floats are not fixed by the value. */
  ghost predicate Dumps(v: Json, ensureAscii: bool, out: bytes) {
    match v
    case Null => out == NULL_TEXT
    case Bool(b) => out == if b then TRUE_TEXT else FALSE_TEXT
    case Integer(i) => out == IntegerText(i)
    case Unsigned(u) => out == IntegerText(u)
    case Float(bits) => if Doubles.Finite(bits) then FloatText.TextOf(out, bits) else out == NULL_TEXT
    case String(s) => WellFormed(s) && out == Quoted(s, ensureAscii)
    case Array(a) =>
      if a == [] then out == [BEGIN_ARRAY, END_ARRAY]
      else exists texts ::
             && InBrackets(texts, |a|, out)
             && forall i | 0 <= i < |a| :: Dumps(a[i], ensureAscii, texts[i])
    case Object(o) =>
      var keys := Sorted(o.Keys);
      if keys == [] then out == [BEGIN_OBJECT, END_OBJECT]
      else exists texts ::
             && InBraces(keys, texts, ensureAscii, out)
             && forall i | 0 <= i < |keys| :: Dumps(o[keys[i]], ensureAscii, texts[i])
  }

  class Serializer {
    var output: bytes
    const stringBuffer: array<byte>
    const numberBuffer: array<byte>

    ghost predicate Valid()
      reads this
    {
      stringBuffer.Length == 512 && numberBuffer.Length == 64 && stringBuffer != numberBuffer
    }

    constructor ()
      ensures Valid() && fresh(stringBuffer) && fresh(numberBuffer) && output == []
    {
      stringBuffer := new byte[512];
      numberBuffer := new byte[64];
      output := [];
    }

    /** snprintf of a \\uxxxx escape, with its terminating zero. */
    method PrintUnicode(n: nat, v: nat)
      requires Valid() && n + 7 <= stringBuffer.Length && v < 0x10000
      modifies stringBuffer
      ensures stringBuffer[..n + 6] == old(stringBuffer[..n]) + UnicodeEscape(v)
    {
      var text := UnicodeEscape(v);
      hide UnicodeEscape;
      for i := 0 to 6
        invariant stringBuffer[..n] == old(stringBuffer[..n])
        invariant stringBuffer[n..n + i] == text[..i]
      {
        stringBuffer[n + i] := text[i];
        assert stringBuffer[n..n + (i + 1)] == stringBuffer[n..n + i] + [text[i]];
      }
      stringBuffer[n + 6] := 0;
      assert stringBuffer[..n + 6] == stringBuffer[..n] + stringBuffer[n..n + 6];
      assert text[..6] == text;
    }

    method PrintSurrogates(n: nat, c: nat)
      requires Valid() && n + 13 <= stringBuffer.Length && 0xFFFF < c && Scalar(c)
      modifies stringBuffer
      ensures stringBuffer[..n + 12] ==
              old(stringBuffer[..n]) + (UnicodeEscape(HighSurrogate(c)) + UnicodeEscape(LowSurrogate(c)))
    {
      hide UnicodeEscape;
      Surrogates(c);
      ghost var before := stringBuffer[..n];
      PrintUnicode(n, HighSurrogate(c));
      PrintUnicode(n + 6, LowSurrogate(c));
      Regroup(before, UnicodeEscape(HighSurrogate(c)), UnicodeEscape(LowSurrogate(c)));
    }

    /**
      The last byte of a character q has been read: its text goes to the buffer.  The bytes before it are
      in the buffer already, unless they are going to be escaped.
     */
    method PutChar(n: nat, c: nat, last: byte, ensureAscii: bool, ghost q: bytes) returns (m: nat)
      requires Valid() && n < stringBuffer.Length
      requires ensureAscii || |q| == 1 ==> n + 13 <= stringBuffer.Length
      requires CharLength(q) == |q| > 0 && last == q[|q| - 1] && c == CodePoint(q)
      requires !ensureAscii ==> |q| - 1 <= n && stringBuffer[n - (|q| - 1)..n] == q[..|q| - 1]
      modifies stringBuffer
      ensures n <= m <= n + 12 && m <= stringBuffer.Length
      ensures var start := if ensureAscii then n else n - (|q| - 1);
              stringBuffer[..m] == old(stringBuffer[..start]) + EscapeChar(c, q, ensureAscii)
    {
      ghost var before := stringBuffer[..n];
      hide UnicodeEscape, CharLength, CodePoint, ShortEscape, NeedsUnicodeEscape;
      if ShortEscape(c) != 0 {
        stringBuffer[n] := BACKSLASH;
        stringBuffer[n + 1] := ShortEscape(c);
        m := n + 2;
        assert stringBuffer[..m] == before + [BACKSLASH, ShortEscape(c)];
      } else if NeedsUnicodeEscape(c, ensureAscii) {
        if c <= 0xFFFF {
          PrintUnicode(n, c);
          m := n + 6;
        } else {
          PrintSurrogates(n, c);
          m := n + 12;
        }
      } else {
        stringBuffer[n] := last;
        m := n + 1;
        assert stringBuffer[..m] == before + [last];
      }
      CharText(before, c, ensureAscii, q);
    }

    /**
      Throws (ok is false) exactly on ill-formed UTF-8; otherwise the escaped text is written.  Neither
      buffer access is out of range: after a character at least 13 bytes are free.
     */
    method DumpEscaped(s: bytes, ensureAscii: bool) returns (ok: bool)
      requires Valid()
      modifies this`output, stringBuffer
      ensures ok == WellFormed(s)
      ensures ok ==> output == old(output) + Escaped(s, ensureAscii)
    {
      hide CharLength, CodePoint, Decode, StateAfter, CodeAfter, Pending, EscapeChar, Escaping, WellFormed, Escaped;
      var codep: uint32 := 0;
      var state := ACCEPT;
      var n := 0;
      ghost var j := 0;
      ghost var done: bytes := [];
      NothingDone(s, ensureAscii, output, stringBuffer[..0]);
      EmptyPending(s, 0);
      for i := 0 to |s|
        invariant j <= i <= j + 3 && Pending(s[j..i])
        invariant var held := if ensureAscii then 0 else i - j; held <= n <= 499 + held
        invariant Escaping(s, ensureAscii, old(output), output + stringBuffer[..n], j, i, done)
        invariant state == StateAfter(s[j..i]) && (j < i ==> codep == CodeAfter(s[j..i]))
      {
        var b := s[i];
        ghost var before := stringBuffer[..n];
        ghost var p, q := s[j..i], s[j..i + 1];
        DecodeStep(p, codep, b);
        SliceSnoc(s, j, i);
        PendingShort(q);
        EmptyPending(s, i + 1);
        var r := Decode(state, codep, b);
        state, codep := r.0, r.1;
        if state == ACCEPT {
          ghost var start := if ensureAscii then n else n - (i - j);
          AcceptByte(s, ensureAscii, old(output), output, before, j, i, done);
          BufferSlices(before, stringBuffer[..], n, start);
          n := PutChar(n, codep, b, ensureAscii, q);
          done := done + EscapeChar(codep, q, ensureAscii);
          j := i + 1;
          if stringBuffer.Length - n < 13 {
            Flush(output, stringBuffer[..n], stringBuffer[..0]);
            output := output + stringBuffer[..n];
            n := 0;
          }
        } else if state == REJECT {
          RejectByte(s, ensureAscii, old(output), output + before, j, i, done);
          return false;
        } else {
          PendingByte(s, ensureAscii, old(output), output, before, j, i, done);
          if !ensureAscii {
            stringBuffer[n] := b;
            n := n + 1;
            assert stringBuffer[..n] == before + [b];
          }
        }
      }
      AllBytesDone(s, ensureAscii, old(output), output + stringBuffer[..n], j, done);
      if state == ACCEPT {
        output := output + stringBuffer[..n];
        return true;
      }
      return false;
    }

    method Write(text: bytes)
      modifies this`output
      ensures output == old(output) + text
    {
      output := output + text;
    }

    /** Digits from the least significant one, by truncating division; then the buffer is reversed. */
    method DumpInteger(x: int)
      requires Valid() && -TWO_63 <= x < TWO_64
      modifies this`output, numberBuffer
      ensures output == old(output) + IntegerText(x)
    {
      hide Extracting, Reversed, IntegerText, Quot10, Rem10;
      if x == 0 {
        ZeroText();
        Write([DIGIT_0]);
        return;
      }
      var i := 0;
      var rest := x;
      ExtractStart(x, numberBuffer[..0]);
      while rest != 0
        invariant output == old(output)
        invariant 0 <= i <= 20 && Extracting(numberBuffer[..i], rest, x)
        decreases Abs(rest)
      {
        ExtractStep(numberBuffer[..i], rest, x);
        ghost var before := numberBuffer[..i];
        numberBuffer[i] := DIGIT_0 + Abs(Rem10(rest));
        assert numberBuffer[..i + 1] == before + [DIGIT_0 + Abs(Rem10(rest))];
        i := i + 1;
        rest := Quot10(rest);
      }
      ExtractEnd(numberBuffer[..i], x);
      if x < 0 {
        ghost var before := numberBuffer[..i];
        numberBuffer[i] := MINUS;
        i := i + 1;
        assert numberBuffer[..i] == before + [MINUS];
      }
      ReverseBuffer(numberBuffer, i);
      output := output + numberBuffer[..i];
    }

    /** ok is false exactly when some string or key is not well formed: the exception of DumpEscaped. */
    method Dump(v: Json, ensureAscii: bool) returns (ok: bool, ghost text: bytes)
      requires Valid()
      modifies this`output, stringBuffer, numberBuffer
      ensures ok == Dumpable(v)
      ensures ok ==> output == old(output) + text && Dumps(v, ensureAscii, text)
      decreases v
    {
      ok, text := true, [];
      match v
      case Null =>
        text := NULL_TEXT;
        Write(NULL_TEXT);
      case Bool(b) =>
        text := if b then TRUE_TEXT else FALSE_TEXT;
        Write(if b then TRUE_TEXT else FALSE_TEXT);
      case Integer(i) =>
        text := IntegerText(i);
        DumpInteger(i);
      case Unsigned(u) =>
        text := IntegerText(u);
        DumpInteger(u);
      case Float(bits) =>
        text := DumpFloat(bits);
      case String(s) =>
        ok := DumpQuoted(s, ensureAscii);
        if ok {
          text := Quoted(s, ensureAscii);
        }
      case Array(a) =>
        ok, text := DumpArray(v, ensureAscii);
      case Object(o) =>
        ok, text := DumpObject(v, ensureAscii);
    }

    method DumpQuoted(s: bytes, ensureAscii: bool) returns (ok: bool)
      requires Valid()
      modifies this`output, stringBuffer
      ensures ok == WellFormed(s)
      ensures ok ==> output == old(output) + Quoted(s, ensureAscii)
    {
      hide Escaped, WellFormed;
      Write([QUOTE]);
      ok := DumpEscaped(s, ensureAscii);
      if ok {
        Write([QUOTE]);
        assert output == old(output) + [QUOTE] + Escaped(s, ensureAscii) + [QUOTE];
      }
    }

    method DumpArray(v: Json, ensureAscii: bool) returns (ok: bool, ghost text: bytes)
      requires Valid() && v.Array?
      modifies this`output, stringBuffer, numberBuffer
      ensures ok == Dumpable(v)
      ensures ok ==> output == old(output) + text && Dumps(v, ensureAscii, text)
      decreases v, 1
    {
      var a := v.a;
      if a == [] {
        text := [BEGIN_ARRAY, END_ARRAY];
        Write([BEGIN_ARRAY, END_ARRAY]);
        return true, text;
      }
      DumpableArray(v);
      hide Dumps, Dumpable, Closed;
      Write([BEGIN_ARRAY]);
      ghost var texts;
      ok, texts := DumpFirstElements(v, ensureAscii);
      text := [];
      if ok {
        ok, text := Dump(a[|a| - 1], ensureAscii);
        if ok {
          Write([END_ARRAY]);
          RegroupAll(old(output), [BEGIN_ARRAY], Closed(texts), text, [END_ARRAY]);
          text := ArrayDumped(v, ensureAscii, texts, text);
        }
      }
    }

    /** All elements but the last, each with its comma. */
    method DumpFirstElements(v: Json, ensureAscii: bool) returns (ok: bool, ghost texts: seq<bytes>)
      requires Valid() && v.Array? && v.a != []
      modifies this`output, stringBuffer, numberBuffer
      ensures ok == forall j | 0 <= j < |v.a| - 1 :: Dumpable(v.a[j])
      ensures ok ==> output == old(output) + Closed(texts) && |texts| == |v.a| - 1
      ensures ok ==> forall j | 0 <= j < |v.a| - 1 :: Dumps(v.a[j], ensureAscii, texts[j])
      decreases v, 0
    {
      texts := [];
      NoneClosed();
      hide Dumps, Dumpable, Closed;
      for i := 0 to |v.a| - 1
        invariant |texts| == i && output == old(output) + Closed(texts)
        invariant forall j | 0 <= j < i :: Dumpable(v.a[j])
        invariant forall j | 0 <= j < i :: Dumps(v.a[j], ensureAscii, texts[j])
      {
        ghost var t;
        ok, t := Dump(v.a[i], ensureAscii);
        if !ok {
          return;
        }
        Write([COMMA]);
        ClosedSnoc(texts, t);
        RegroupFour(old(output), Closed(texts), t, [COMMA]);
        texts := texts + [t];
      }
      ok := true;
    }

    method DumpObject(v: Json, ensureAscii: bool) returns (ok: bool, ghost text: bytes)
      requires Valid() && v.Object?
      modifies this`output, stringBuffer, numberBuffer
      ensures ok == Dumpable(v)
      ensures ok ==> output == old(output) + text && Dumps(v, ensureAscii, text)
      decreases v, 1
    {
      var keys := Sorted(v.o.Keys);
      if keys == [] {
        text := [BEGIN_OBJECT, END_OBJECT];
        Write([BEGIN_OBJECT, END_OBJECT]);
        return true, text;
      }
      DumpableObject(v, keys);
      hide Dumps, Dumpable, Closed, WellFormed, Sorted, MemberTexts, MemberText;
      Write([BEGIN_OBJECT]);
      ghost var texts;
      ok, texts := DumpFirstMembers(v, keys, ensureAscii);
      text := [];
      if ok {
        ok, text := DumpMember(keys[|keys| - 1], v, ensureAscii);
        if ok {
          Write([END_OBJECT]);
          RegroupAll(old(output), [BEGIN_OBJECT], Closed(MemberTexts(keys[..|keys| - 1], texts, ensureAscii)),
                     MemberText(keys[|keys| - 1], text, ensureAscii), [END_OBJECT]);
          text := ObjectDumped(v, ensureAscii, texts, text);
        }
      }
    }

    /** All members but the last, each with its comma. */
    method DumpFirstMembers(v: Json, keys: seq<bytes>, ensureAscii: bool) returns (ok: bool, ghost texts: seq<bytes>)
      requires Valid() && v.Object? && keys != [] && forall k | k in keys :: k in v.o
      modifies this`output, stringBuffer, numberBuffer
      ensures ok == forall j | 0 <= j < |keys| - 1 :: WellFormed(keys[j]) && Dumpable(v.o[keys[j]])
      ensures ok ==> |texts| == |keys| - 1 && output == old(output) + Closed(MemberTexts(keys[..|keys| - 1], texts, ensureAscii))
      ensures ok ==> forall j | 0 <= j < |keys| - 1 :: Dumps(v.o[keys[j]], ensureAscii, texts[j])
      decreases v, 0, 1
    {
      texts := [];
      NoneClosed();
      NoMembers(keys, ensureAscii);
      hide Dumps, Dumpable, Closed, WellFormed, MemberTexts, MemberText;
      for i := 0 to |keys| - 1
        invariant |texts| == i && forall j | 0 <= j < i :: WellFormed(keys[j]) && Dumpable(v.o[keys[j]])
        invariant forall j | 0 <= j < i :: Dumps(v.o[keys[j]], ensureAscii, texts[j])
        invariant output == old(output) + Closed(MemberTexts(keys[..i], texts, ensureAscii))
      {
        ghost var t;
        ok, t := DumpMember(keys[i], v, ensureAscii);
        if !ok {
          return;
        }
        Write([COMMA]);
        MembersSnoc(keys, texts, i, t, ensureAscii);
        RegroupFour(old(output), Closed(MemberTexts(keys[..i], texts, ensureAscii)), MemberText(keys[i], t, ensureAscii), [COMMA]);
        texts := texts + [t];
      }
      ok := true;
    }

    method DumpMember(k: bytes, v: Json, ensureAscii: bool) returns (ok: bool, ghost text: bytes)
      requires Valid() && v.Object? && k in v.o
      modifies this`output, stringBuffer, numberBuffer
      ensures ok == (WellFormed(k) && Dumpable(v.o[k]))
      ensures ok ==> output == old(output) + MemberText(k, text, ensureAscii) && Dumps(v.o[k], ensureAscii, text)
      decreases v, 0, 0
    {
      text := [];
      ok := DumpQuoted(k, ensureAscii);
      if ok {
        Write([COLON]);
        ok, text := Dump(v.o[k], ensureAscii);
        hide Quoted;
        if ok {
          assert output == old(output) + (Quoted(k, ensureAscii) + [COLON] + text);
        }
      }
    }

    method DumpFloat(bits: uint64) returns (ghost text: bytes)
      requires Valid()
      modifies this`output, numberBuffer
      ensures output == old(output) + text
      ensures if Doubles.Finite(bits) then FloatText.TextOf(text, bits) else text == NULL_TEXT
    {
      if bits % TWO_63 >= Doubles.INFINITY {
        text := NULL_TEXT;
        Write(NULL_TEXT);
      } else {
        var end := FloatText.ToChars(numberBuffer, 0, bits);
        text := numberBuffer[0..end];
        Write(numberBuffer[0..end]);
      }
    }
  }

  // ---- the texts of containers

  lemma {:induction false} RegroupFour(a: bytes, b: bytes, c: bytes, d: bytes)
    ensures a + b + c + d == a + (b + c + d)
  {}

  lemma {:induction false} RegroupAll(a: bytes, b: bytes, c: bytes, d: bytes, e: bytes)
    ensures a + b + c + d + e == a + (b + (c + d) + e)
  {}

  lemma {:induction false} NoneClosed()
    ensures Closed([]) == []
  {}

  lemma {:induction false} NoMembers(keys: seq<bytes>, ensureAscii: bool)
    ensures MemberTexts(keys[..0], [], ensureAscii) == []
  {}

  lemma {:induction false} DumpableArray(v: Json)
    requires v.Array?
    ensures Dumpable(v) <==> forall i | 0 <= i < |v.a| :: Dumpable(v.a[i])
  {}

  lemma {:induction false} DumpableObject(v: Json, keys: seq<bytes>)
    requires v.Object? && keys == Sorted(v.o.Keys)
    ensures Dumpable(v) <==> forall i | 0 <= i < |keys| :: WellFormed(keys[i]) && Dumpable(v.o[keys[i]])
  {
    DumpableMembers(v);
    hide WellFormed, Dumpable, Sorted, Less;
    var good := set k | k in v.o && WellFormed(k) && Dumpable(v.o[k]);
    EachKey(keys, v.o.Keys, good);
    forall i | 0 <= i < |keys|
      ensures keys[i] in v.o && (keys[i] in good <==> WellFormed(keys[i]) && Dumpable(v.o[keys[i]]))
    {
      assert keys[i] in keys;
    }
    assert Dumpable(v) <==> v.o.Keys <= good;
  }

  lemma {:induction false} EachKey(keys: seq<bytes>, all: set<bytes>, good: set<bytes>)
    requires forall k :: k in keys <==> k in all
    ensures all <= good <==> forall i | 0 <= i < |keys| :: keys[i] in good
  {
    if forall i | 0 <= i < |keys| :: keys[i] in good {
      forall k | k in all ensures k in good {
        assert k in keys;
      }
    }
  }

  lemma {:induction false} DumpableMembers(v: Json)
    requires v.Object?
    ensures Dumpable(v) <==> forall k | k in v.o :: WellFormed(k) && Dumpable(v.o[k])
  {}

  lemma {:induction false} ArrayDumped(v: Json, ensureAscii: bool, first: seq<bytes>, last: bytes) returns (text: bytes)
    requires v.Array? && v.a != [] && |first| == |v.a| - 1
    requires forall i | 0 <= i < |first| :: Dumps(v.a[i], ensureAscii, first[i])
    requires Dumps(v.a[|first|], ensureAscii, last)
    ensures Dumps(v, ensureAscii, text)
    ensures text == [BEGIN_ARRAY] + (Closed(first) + last) + [END_ARRAY]
  {
    var texts := first + [last];
    assert texts[..|first|] == first;
    text := [BEGIN_ARRAY] + Joined(texts) + [END_ARRAY];
    assert InBrackets(texts, |v.a|, text);
  }

  lemma {:induction false} ObjectDumped(v: Json, ensureAscii: bool, first: seq<bytes>, last: bytes) returns (text: bytes)
    requires v.Object? && |first| == |Sorted(v.o.Keys)| - 1
    requires forall i | 0 <= i <= |first| :: WellFormed(Sorted(v.o.Keys)[i])
    requires forall i | 0 <= i < |first| :: Dumps(v.o[Sorted(v.o.Keys)[i]], ensureAscii, first[i])
    requires Dumps(v.o[Sorted(v.o.Keys)[|first|]], ensureAscii, last)
    ensures Dumps(v, ensureAscii, text)
    ensures var n, keys := |first|, Sorted(v.o.Keys);
            text == [BEGIN_OBJECT] +
            (Closed(MemberTexts(keys[..n], first, ensureAscii)) + MemberText(keys[n], last, ensureAscii)) + [END_OBJECT]
  {
    var keys, texts := Sorted(v.o.Keys), first + [last];
    assert texts[..|first|] == first;
    hide WellFormed, MemberText, Closed, MemberTexts, Sorted, Dumps;
    forall i | 0 <= i < |texts| ensures WellFormed(keys[i]) && Dumps(v.o[keys[i]], ensureAscii, texts[i]) {
      assert i < |first| ==> texts[i] == first[i];
    }
    WholeObjectDumped(v, ensureAscii, texts);
    MembersInit(keys, texts, ensureAscii);
    text := [BEGIN_OBJECT] + Joined(MemberTexts(keys, texts, ensureAscii)) + [END_OBJECT];
  }

  lemma {:induction false} WholeObjectDumped(v: Json, ensureAscii: bool, texts: seq<bytes>)
    requires v.Object? && |texts| == |Sorted(v.o.Keys)| > 0
    requires forall i | 0 <= i < |texts| :: WellFormed(Sorted(v.o.Keys)[i]) && Dumps(v.o[Sorted(v.o.Keys)[i]], ensureAscii, texts[i])
    ensures Dumps(v, ensureAscii, [BEGIN_OBJECT] + Joined(MemberTexts(Sorted(v.o.Keys), texts, ensureAscii)) + [END_OBJECT])
  {
    hide WellFormed, MemberText, Closed, MemberTexts;
    var keys := Sorted(v.o.Keys);
    assert InBraces(keys, texts, ensureAscii, [BEGIN_OBJECT] + Joined(MemberTexts(keys, texts, ensureAscii)) + [END_OBJECT]);
  }

  lemma {:induction false} MembersInit(keys: seq<bytes>, texts: seq<bytes>, ensureAscii: bool)
    requires |keys| == |texts| > 0 && forall k | k in keys :: WellFormed(k)
    ensures var n, r := |texts| - 1, MemberTexts(keys, texts, ensureAscii);
            r[..n] == MemberTexts(keys[..n], texts[..n], ensureAscii) && r[n] == MemberText(keys[n], texts[n], ensureAscii)
  {
    hide WellFormed, MemberText;
  }

  lemma {:induction false} MembersSnoc(keys: seq<bytes>, texts: seq<bytes>, i: nat, t: bytes, ensureAscii: bool)
    requires i < |keys| && |texts| == i && forall j | 0 <= j <= i :: WellFormed(keys[j])
    ensures Closed(MemberTexts(keys[..i + 1], texts + [t], ensureAscii)) ==
            Closed(MemberTexts(keys[..i], texts, ensureAscii)) + MemberText(keys[i], t, ensureAscii) + [COMMA]
  {
    hide MemberText, WellFormed;
    assert MemberTexts(keys[..i + 1], texts + [t], ensureAscii) ==
           MemberTexts(keys[..i], texts, ensureAscii) + [MemberText(keys[i], t, ensureAscii)];
    ClosedSnoc(MemberTexts(keys[..i], texts, ensureAscii), MemberText(keys[i], t, ensureAscii));
  }

  // ---- decimal digits in a buffer

  /** Division that truncates toward zero. */
  function Quot10(x: int): int {
    if x < 0 then 0 - (-x) / 10 else x / 10
  }

  function Rem10(x: int): int {
    x - 10 * Quot10(x)
  }

  function Digits(m: nat): bytes {
    if m == 0 then [] else ToDecimal(m)
  }

  lemma {:induction false} ZeroText()
    ensures IntegerText(0) == [DIGIT_0]
  {}

  lemma {:induction false} AtMostTwentyDigits(m: nat)
    requires m < TWO_64
    ensures |ToDecimal(m)| <= 20
  {
    var s := ToDecimal(m);
    DigitsBound(s);
    Pow10Values();
    PowAdd(10, 10, 10);
    hide Pow, DigitsValue, ToDecimal;
    if |s| > 20 {
      PowMonotone(10, 20, |s| - 1);
    }
  }

  /** The low digits of x are in the buffer, the lowest first; the others are those of rest. */
  ghost predicate Extracting(digits: bytes, rest: int, x: int) {
    && (rest == 0 || (rest < 0 <==> x < 0))
    && ToDecimal(Abs(x)) == Digits(Abs(rest)) + Reversed(digits)
  }

  lemma {:induction false} ExtractStart(x: int, s: bytes)
    requires s == [] && x != 0
    ensures Extracting(s, x, x)
  {
    assert ToDecimal(Abs(x)) + [] == ToDecimal(Abs(x));
  }

  lemma {:induction false} ExtractStep(s: bytes, rest: int, x: int)
    requires rest != 0 && Extracting(s, rest, x) && -TWO_63 <= x < TWO_64
    ensures 0 <= Abs(Rem10(rest)) <= 9 && Abs(Quot10(rest)) < Abs(rest) && |s| < 20
    ensures Extracting(s + [DIGIT_0 + Abs(Rem10(rest))], Quot10(rest), x)
  {
    hide ToDecimal, Quot10, Rem10, Digits, Reversed;
    AtMostTwentyDigits(Abs(x));
    QuotRem(rest);
    DigitMoves(s, Digits(Abs(Quot10(rest))), DIGIT_0 + Abs(Rem10(rest)), ToDecimal(Abs(x)));
  }

  lemma {:induction false} DigitMoves(s: bytes, more: bytes, d: byte, whole: bytes)
    requires whole == (more + [d]) + Reversed(s)
    ensures whole == more + Reversed(s + [d]) && |s| < |whole|
  {
    ReversedSnoc(s, d);
    hide Reversed;
    assert more + ([d] + Reversed(s)) == (more + [d]) + Reversed(s);
  }

  lemma {:induction false} QuotRem(x: int)
    requires x != 0
    ensures 0 <= Abs(Rem10(x)) <= 9 && Abs(Quot10(x)) < Abs(x) && (Quot10(x) == 0 || (Quot10(x) < 0 <==> x < 0))
    ensures Digits(Abs(x)) == Digits(Abs(Quot10(x))) + [DIGIT_0 + Abs(Rem10(x))]
  {
    assert Abs(Quot10(x)) == Abs(x) / 10 && Abs(Rem10(x)) == Abs(x) % 10;
    LastDigit(Abs(x));
  }

  lemma {:induction false} LastDigit(m: nat)
    requires m > 0
    ensures Digits(m) == Digits(m / 10) + [DIGIT_0 + m % 10]
  {}

  lemma {:induction false} ExtractEnd(s: bytes, x: int)
    requires x != 0 && Extracting(s, 0, x)
    ensures Reversed(if x < 0 then s + [MINUS] else s) == IntegerText(x)
  {
    assert Digits(0) + Reversed(s) == Reversed(s);
    ReversedSnoc(s, MINUS);
  }

  // ---- the invariant of the escaping loop

  /** s[..j] has been dealt with: it is well formed, and its text is done. */
  ghost predicate Progress(s: bytes, ensureAscii: bool, j: nat, done: bytes) {
    && j <= |s|
    && (WellFormed(s) <==> WellFormed(s[j..]))
    && (WellFormed(s) ==> Escaped(s, ensureAscii) == done + Escaped(s[j..], ensureAscii))
  }

  /** The bytes from j to i begin a character; unless it may have to be escaped, they are written. */
  ghost predicate Escaping(s: bytes, ensureAscii: bool, was: bytes, written: bytes, j: nat, i: nat, done: bytes) {
    && j <= i <= |s| && Progress(s, ensureAscii, j, done) && Pending(s[j..i])
    && written == was + done + (if ensureAscii then [] else s[j..i])
  }

  /** What is appended: an escape for the whole character, or its last byte. */
  lemma {:induction false} CharText(before: bytes, c: nat, ensureAscii: bool, q: bytes)
    requires CharLength(q) == |q| > 0 && c == CodePoint(q)
    requires !ensureAscii ==> |q| - 1 <= |before| && before[|before| - (|q| - 1)..] == q[..|q| - 1]
    ensures var start := if ensureAscii then |before| else |before| - (|q| - 1);
            before[..start] + EscapeChar(c, q, ensureAscii) ==
            before + if ShortEscape(c) == 0 && !NeedsUnicodeEscape(c, ensureAscii) then [q[|q| - 1]]
            else EscapeChar(c, q, ensureAscii)
  {
    hide CharLength, CodePoint, EscapeChar;
    LongCharIsHigh(q);
    PlainChar(c, q, ensureAscii);
    if !ensureAscii {
      CompleteChar(before, q);
    }
    assert before[..|before|] == before;
  }

  lemma {:induction false} PlainChar(c: nat, q: bytes, ensureAscii: bool)
    requires Scalar(c)
    ensures ShortEscape(c) == 0 && !NeedsUnicodeEscape(c, ensureAscii) ==> EscapeChar(c, q, ensureAscii) == q
  {}

  lemma {:induction false} CompleteChar(before: bytes, q: bytes)
    requires 0 < |q| <= |before| + 1 && before[|before| - (|q| - 1)..] == q[..|q| - 1]
    ensures before[..|before| - (|q| - 1)] + q == before + [q[|q| - 1]]
  {
    var start := |before| - (|q| - 1);
    assert before == before[..start] + before[start..];
    assert q == q[..|q| - 1] + [q[|q| - 1]];
  }

  lemma {:induction false} LongCharIsHigh(q: bytes)
    requires CharLength(q) == |q| > 0
    ensures |q| > 1 ==> CodePoint(q) >= 0x80
    ensures |q| == 1 ==> q[0] == CodePoint(q)
  {}

  lemma {:induction false} NothingDone(s: bytes, ensureAscii: bool, was: bytes, buffer: bytes)
    requires buffer == []
    ensures StateAfter(s[0..0]) == ACCEPT && Escaping(s, ensureAscii, was, was + buffer, 0, 0, [])
  {
    assert s[0..] == s && s[0..0] == [];
    if WellFormed(s) {
      assert [] + Escaped(s, ensureAscii) == Escaped(s, ensureAscii);
    }
    hide WellFormed, Escaped;
    assert was + buffer == was + [] + [];
  }

  lemma {:induction false} AllBytesDone(s: bytes, ensureAscii: bool, was: bytes, written: bytes, j: nat, done: bytes)
    requires Escaping(s, ensureAscii, was, written, j, |s|, done)
    ensures WellFormed(s) <==> StateAfter(s[j..|s|]) == ACCEPT
    ensures WellFormed(s) ==> written == was + Escaped(s, ensureAscii)
  {
    var p := s[j..];
    assert p == s[j..|s|];
    if p == [] {
      assert done + [] == done && (was + done) + [] == was + done;
    } else {
      assert p[..|p|] == p;
      CharPrefixes(p, |p|);
    }
    hide CharLength, Pending, StateAfter;
  }

  /** The byte completes a character: its text replaces what has been written of it. */
  lemma {:induction false} AcceptByte(s: bytes, ensureAscii: bool, was: bytes, out: bytes, before: bytes, j: nat, i: nat, done: bytes)
    requires Escaping(s, ensureAscii, was, out + before, j, i, done) && i < |s|
    requires ensureAscii || i - j <= |before|
    requires CharLength(s[j..i + 1]) == i + 1 - j
    ensures var q := s[j..i + 1];
            var start := if ensureAscii then |before| else |before| - (i - j);
            var text := EscapeChar(CodePoint(q), q, ensureAscii);
            && (!ensureAscii ==> before[start..] == q[..|q| - 1])
            && Escaping(s, ensureAscii, was, out + (before[..start] + text), i + 1, i + 1, done + text)
  {
    hide CharLength, CodePoint, EscapeChar, WellFormed, Escaped, Pending, StateAfter, Progress;
    EmptyPending(s, i + 1);
    var p, q := s[j..i], s[j..i + 1];
    var text := EscapeChar(CodePoint(q), q, ensureAscii);
    assert q[..|q| - 1] == p;
    PendingInBuffer(out, before, was + done, p, ensureAscii);
    CharDone(s, ensureAscii, j, i + 1, done);
    Appended(out, before[..if ensureAscii then |before| else |before| - |p|], was, done, text);
    assert (was + (done + text)) + [] == was + (done + text) + s[i + 1..i + 1];
  }

  lemma {:induction false} RejectByte(s: bytes, ensureAscii: bool, was: bytes, written: bytes, j: nat, i: nat, done: bytes)
    requires Escaping(s, ensureAscii, was, written, j, i, done) && i < |s|
    requires !Pending(s[j..i + 1]) && CharLength(s[j..i + 1]) != i + 1 - j
    ensures !WellFormed(s)
  {
    NoChar(s, ensureAscii, j, i + 1, done);
  }

  lemma {:induction false} PendingByte(s: bytes, ensureAscii: bool, was: bytes, out: bytes, before: bytes, j: nat, i: nat, done: bytes)
    requires Escaping(s, ensureAscii, was, out + before, j, i, done) && i < |s| && Pending(s[j..i + 1])
    ensures Escaping(s, ensureAscii, was, out + (if ensureAscii then before else before + [s[i]]), j, i + 1, done)
  {
    hide Progress, Pending;
    if !ensureAscii {
      SliceSnoc(s, j, i);
      Snoc(out, before, was + done, s[j..i], s[i]);
    }
  }

  lemma {:induction false} SliceSnoc(s: bytes, j: nat, i: nat)
    requires j <= i < |s|
    ensures s[j..i] + [s[i]] == s[j..i + 1]
  {}

  lemma {:induction false} PendingShort(p: bytes)
    ensures Pending(p) ==> |p| <= 3
  {}

  lemma {:induction false} EmptyPending(s: bytes, i: nat)
    requires i <= |s|
    ensures s[i..i] == [] && Pending(s[i..i]) && StateAfter(s[i..i]) == ACCEPT
  {}

  lemma {:induction false} PendingInBuffer(out: bytes, buffer: bytes, done: bytes, p: bytes, ensureAscii: bool)
    requires out + buffer == done + (if ensureAscii then [] else p)
    requires ensureAscii || |p| <= |buffer|
    ensures ensureAscii ==> out + buffer == done && buffer[..|buffer|] == buffer
    ensures !ensureAscii ==> buffer[|buffer| - |p|..] == p && out + buffer[..|buffer| - |p|] == done
  {
    if ensureAscii {
      assert done + [] == done;
    } else {
      var k := |buffer| - |p|;
      assert out + buffer == (out + buffer[..k]) + buffer[k..];
      assert |done| == |out + buffer[..k]|;
      assert (out + buffer)[..|done|] == done;
      assert (out + buffer)[|done|..] == p;
    }
  }

  lemma {:induction false} BufferSlices(before: bytes, all: bytes, n: nat, start: nat)
    requires start <= n <= |all| && before == all[..n]
    ensures all[start..n] == before[start..] && all[..start] == before[..start]
  {}

  lemma {:induction false} Flush(out: bytes, buffer: bytes, empty: bytes)
    requires empty == []
    ensures (out + buffer) + empty == out + buffer
  {}

  lemma {:induction false} Appended(out: bytes, buffer: bytes, was: bytes, done: bytes, text: bytes)
    requires out + buffer == was + done
    ensures out + (buffer + text) == was + (done + text) + []
  {
    assert out + (buffer + text) == (out + buffer) + text;
  }

  lemma {:induction false} Snoc(out: bytes, buffer: bytes, done: bytes, p: bytes, b: byte)
    requires out + buffer == done + p
    ensures out + (buffer + [b]) == done + (p + [b])
  {
    assert out + (buffer + [b]) == (out + buffer) + [b];
  }

  lemma {:induction false} CharDone(s: bytes, ensureAscii: bool, j: nat, i: nat, done: bytes)
    requires Progress(s, ensureAscii, j, done) && j < i <= |s|
    requires CharLength(s[j..i]) == i - j
    ensures Progress(s, ensureAscii, i, done + EscapeChar(CodePoint(s[j..i]), s[j..i], ensureAscii))
  {
    hide CharLength, CodePoint, EscapeChar, WellFormed, Escaped;
    var t := s[j..];
    assert t[..i - j] == s[j..i] && t[i - j..] == s[i..];
    CharPrefixes(t, i - j);
    FirstCharEscaped(t, ensureAscii);
    if WellFormed(s) {
      Regroup(done, EscapeChar(CodePoint(t), FirstChar(t), ensureAscii), Escaped(s[i..], ensureAscii));
    }
  }

  lemma {:induction false} FirstCharEscaped(t: bytes, ensureAscii: bool)
    requires CharLength(t) > 0
    ensures WellFormed(t) <==> WellFormed(t[CharLength(t)..])
    ensures WellFormed(t) ==>
              Escaped(t, ensureAscii) ==
              EscapeChar(CodePoint(t), FirstChar(t), ensureAscii) + Escaped(t[CharLength(t)..], ensureAscii)
  {
    hide CharLength, CodePoint, EscapeChar;
  }

  lemma {:induction false} NoChar(s: bytes, ensureAscii: bool, j: nat, i: nat, done: bytes)
    requires Progress(s, ensureAscii, j, done)
    requires j < i <= |s| && !Pending(s[j..i]) && CharLength(s[j..i]) != i - j
    requires Pending(s[j..i - 1])
    ensures !WellFormed(s)
  {
    var t := s[j..];
    assert t[..i - j] == s[j..i] && t[..i - j - 1] == s[j..i - 1];
    CharPrefixes(t, i - j);
    CharPrefixes(t, i - j - 1);
    hide CharLength, Pending;
  }
}
