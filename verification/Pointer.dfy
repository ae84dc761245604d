/** JSON Pointer: reference tokens, their escaping, and the text form (RFC 6901, sections 3 to 5). */
module Pointer {
  import opened Arith
  import opened Decimal
  import opened Json

  const SLASH: byte := '/' as int
  const TILDE: byte := '~' as int
  const ZERO: byte := '0' as int
  const ONE: byte := '1' as int
  const NPOS := -1

  // ---- replacing a substring

  /** Position of the first occurrence of f in s, or NPOS. */
  function IndexOf(s: bytes, f: bytes): (i: int)
    requires f != []
    ensures i == NPOS || (0 <= i <= |s| - |f| && s[i..i + |f|] == f)
    decreases |s|
  {
    if |s| < |f| then NPOS
    else if s[..|f|] == f then 0
    else
      var i := IndexOf(s[1..], f);
      if i == NPOS then NPOS
      else
        assert s[1..][i..i + |f|] == s[1 + i..1 + i + |f|];
        i + 1
  }

  /** std::string::find from a position on. */
  function Find(s: bytes, f: bytes, pos: nat): (i: int)
    requires f != []
    ensures i == NPOS || (pos <= i <= |s| - |f| && s[i..i + |f|] == f)
  {
    if pos > |s| then NPOS
    else
      var i := IndexOf(s[pos..], f);
      if i == NPOS then NPOS
      else
        assert s[pos..][i..i + |f|] == s[pos + i..pos + i + |f|];
        pos + i
  }

  /** All occurrences of f in s, from left to right and without overlap, replaced by t. */
  function ReplaceAll(s: bytes, f: bytes, t: bytes): bytes
    requires f != []
    decreases |s|
  {
    if |s| < |f| then s
    else if s[..|f|] == f then t + ReplaceAll(s[|f|..], f, t)
    else [s[0]] + ReplaceAll(s[1..], f, t)
  }

  /** Up to the first occurrence, nothing is replaced. */
  lemma {:induction false} ReplaceFirst(s: bytes, f: bytes, t: bytes)
    requires f != []
    ensures var i := IndexOf(s, f);
            ReplaceAll(s, f, t) == if i == NPOS then s else s[..i] + t + ReplaceAll(s[i + |f|..], f, t)
    decreases |s|
  {
    hide ReplaceAll, IndexOf;
    OneByte(s, f, t);
    if |s| >= |f| && s[..|f|] != f {
      ReplaceFirst(s[1..], f, t);
      LaterMatch(s, f, t, IndexOf(s[1..], f), ReplaceAll(s[1..], f, t));
    }
  }

  /** Both functions, unfolded once. */
  lemma {:induction false} OneByte(s: bytes, f: bytes, t: bytes)
    requires f != []
    ensures |s| < |f| ==> IndexOf(s, f) == NPOS && ReplaceAll(s, f, t) == s
    ensures |s| >= |f| && s[..|f|] == f ==>
              IndexOf(s, f) == 0 && ReplaceAll(s, f, t) == s[..0] + t + ReplaceAll(s[0 + |f|..], f, t)
    ensures |s| >= |f| && s[..|f|] != f ==>
              && IndexOf(s, f) == (if IndexOf(s[1..], f) == NPOS then NPOS else IndexOf(s[1..], f) + 1)
              && ReplaceAll(s, f, t) == [s[0]] + ReplaceAll(s[1..], f, t)
  {
    assert s[..0] + t == t;
  }

  /** Prepending a byte to the parts around a match. */
  lemma {:induction false} LaterMatch(s: bytes, f: bytes, t: bytes, i: int, r: bytes)
    requires f != [] && s != [] && (i == NPOS || 0 <= i <= |s| - 1 - |f|)
    requires r == if i == NPOS then s[1..] else s[1..][..i] + t + ReplaceAll(s[1..][i + |f|..], f, t)
    ensures [s[0]] + r == if i == NPOS then s else s[..i + 1] + t + ReplaceAll(s[i + 1 + |f|..], f, t)
  {
    hide ReplaceAll;
    if i != NPOS {
      SliceTail(s, i, |f|);
      ConsConcat(s[0], s[1..][..i], t, ReplaceAll(s[i + 1 + |f|..], f, t));
    }
  }

  lemma {:induction false} SliceTail(s: bytes, i: nat, n: nat)
    requires 1 + i + n <= |s|
    ensures s[1..][i + n..] == s[i + 1 + n..] && [s[0]] + s[1..][..i] == s[..i + 1]
  {}

  lemma {:induction false} ConsConcat(c: byte, a: bytes, t: bytes, r: bytes)
    ensures [c] + (a + t + r) == ([c] + a) + t + r
  {}

  lemma {:induction false} Concat4(d: bytes, a: bytes, t: bytes, r: bytes)
    ensures d + (a + t + r) == (d + a + t) + r
  {}

  lemma {:induction false} FindBehind(s: bytes, n: nat, done: bytes, todo: bytes, f: bytes)
    requires f != [] && s == done + todo && n == |done|
    ensures Find(s, f, n) == if IndexOf(todo, f) == NPOS then NPOS else n + IndexOf(todo, f)
  {
    assert s[n..] == todo;
  }

  lemma {:induction false} Spliced(done: bytes, todo: bytes, i: nat, n: nat, t: bytes)
    requires i + n <= |todo|
    ensures (done + todo)[..|done| + i] + t + (done + todo)[|done| + i + n..] == (done + todo[..i] + t) + todo[i + n..]
  {}

  /** Replacing has reached `todo`, and pos is its first occurrence of f. */
  ghost predicate Replacing(s: bytes, pos: int, done: bytes, todo: bytes, f: bytes, t: bytes, goal: bytes)
    requires f != []
  {
    && s == done + todo
    && goal == done + ReplaceAll(todo, f, t)
    && pos == if IndexOf(todo, f) == NPOS then NPOS else |done| + IndexOf(todo, f)
  }

  lemma {:induction false} ReplaceStep(s: bytes, pos: int, done: bytes, todo: bytes, f: bytes, t: bytes, goal: bytes)
    returns (done': bytes, todo': bytes)
    requires f != [] && Replacing(s, pos, done, todo, f, t, goal) && pos != NPOS
    ensures 0 <= pos <= |s| - |f| && |todo'| < |todo|
    ensures var s' := s[..pos] + t + s[pos + |f|..];
            Replacing(s', Find(s', f, pos + |t|), done', todo', f, t, goal)
  {
    hide ReplaceAll, IndexOf, Find;
    var s';
    s', done', todo' := SplitAtMatch(s, pos, done, todo, f, t);
    FindBehind(s', pos + |t|, done', todo', f);
  }

  lemma {:induction false} SplitAtMatch(s: bytes, pos: int, done: bytes, todo: bytes, f: bytes, t: bytes)
    returns (s': bytes, done': bytes, todo': bytes)
    requires f != [] && s == done + todo
    requires IndexOf(todo, f) != NPOS && pos == |done| + IndexOf(todo, f)
    ensures 0 <= pos <= |s| - |f| && s' == s[..pos] + t + s[pos + |f|..]
    ensures s' == done' + todo' && |done'| == pos + |t| && |todo'| < |todo|
    ensures done' + ReplaceAll(todo', f, t) == done + ReplaceAll(todo, f, t)
  {
    hide ReplaceAll, IndexOf;
    var i := IndexOf(todo, f);
    done', todo' := done + todo[..i] + t, todo[i + |f|..];
    s' := done' + todo';
    Spliced(done, todo, i, |f|, t);
    MatchReplaced(done, todo, f, t);
  }

  lemma {:induction false} MatchReplaced(done: bytes, todo: bytes, f: bytes, t: bytes)
    requires f != [] && IndexOf(todo, f) != NPOS
    ensures var i := IndexOf(todo, f);
            (done + todo[..i] + t) + ReplaceAll(todo[i + |f|..], f, t) == done + ReplaceAll(todo, f, t)
  {
    hide ReplaceAll, IndexOf;
    ReplaceFirst(todo, f, t);
    var i := IndexOf(todo, f);
    Concat4(done, todo[..i], t, ReplaceAll(todo[i + |f|..], f, t));
  }

  /** The in-place loop: replace at pos, and go on behind the replacement. */
  method ReplaceSubstring(s0: bytes, f: bytes, t: bytes) returns (s: bytes)
    requires f != []
    ensures s == ReplaceAll(s0, f, t)
  {
    s := s0;
    var pos := Find(s, f, 0);
    ghost var done, todo := [], s0;
    ghost var goal := ReplaceAll(s0, f, t);
    assert done + todo == s0 && done + goal == goal;
    FindBehind(s, 0, done, todo, f);
    assert Replacing(s, pos, done, todo, f, t, goal);
    hide Replacing, ReplaceAll, Find;
    while pos != NPOS
      invariant Replacing(s, pos, done, todo, f, t, goal)
      decreases |todo|
    {
      done, todo := ReplaceStep(s, pos, done, todo, f, t, goal);
      s := s[..pos] + t + s[pos + |f|..];
      pos := Find(s, f, pos + |t|);
    }
    ReplaceDone(s, done, todo, f, t, goal);
  }

  lemma {:induction false} ReplaceDone(s: bytes, done: bytes, todo: bytes, f: bytes, t: bytes, goal: bytes)
    requires f != [] && Replacing(s, NPOS, done, todo, f, t, goal)
    ensures s == goal
  {
    ReplaceFirst(todo, f, t);
  }

  // ---- escaping

  function Escape(s: bytes): bytes {
    ReplaceAll(ReplaceAll(s, [TILDE], [TILDE, ZERO]), [SLASH], [TILDE, ONE])
  }

  function Unescape(s: bytes): bytes {
    ReplaceAll(ReplaceAll(s, [TILDE, ONE], [SLASH]), [TILDE, ZERO], [TILDE])
  }

  method EscapeToken(s: bytes) returns (r: bytes)
    ensures r == Escape(s)
  {
    r := ReplaceSubstring(s, [TILDE], [TILDE, ZERO]);
    r := ReplaceSubstring(r, [SLASH], [TILDE, ONE]);
  }

  method UnescapeToken(s: bytes) returns (r: bytes)
    ensures r == Unescape(s)
  {
    r := ReplaceSubstring(s, [TILDE, ONE], [SLASH]);
    r := ReplaceSubstring(r, [TILDE, ZERO], [TILDE]);
  }

  /** The escape sequence of one byte. */
  function EscapeByte(c: byte): bytes {
    if c == TILDE then [TILDE, ZERO] else if c == SLASH then [TILDE, ONE] else [c]
  }

  predicate ProperlyEscaped(s: bytes) {
    forall i | 0 <= i < |s| && s[i] == TILDE :: i + 1 < |s| && (s[i + 1] == ZERO || s[i + 1] == ONE)
  }

  /** Both passes of escaping together work byte by byte. */
  lemma {:induction false} EscapeCons(c: byte, s: bytes)
    ensures Escape([]) == []
    ensures Escape([c] + s) == EscapeByte(c) + Escape(s)
  {
    var e := ReplaceAll(s, [TILDE], [TILDE, ZERO]);
    assert ([c] + s)[..1] == [c] && ([c] + s)[1..] == s;
    if c == TILDE {
      var x := [TILDE, ZERO] + e;
      assert ReplaceAll([c] + s, [TILDE], [TILDE, ZERO]) == x;
      assert x[..1] == [TILDE] && x[1..][..1] == [ZERO] && x[1..][1..] == e;
      assert ReplaceAll(x, [SLASH], [TILDE, ONE]) == [TILDE] + ReplaceAll(x[1..], [SLASH], [TILDE, ONE]);
    } else {
      var x := [c] + e;
      assert ReplaceAll([c] + s, [TILDE], [TILDE, ZERO]) == x;
      assert x[..1] == [c] && x[1..] == e;
    }
  }

  /** Both passes of unescaping together undo one escape sequence at a time. */
  lemma {:induction false} UnescapeCons(c: byte, s: bytes)
    requires c != TILDE && c != SLASH
    ensures Unescape([]) == []
    ensures Unescape([c] + s) == [c] + Unescape(s)
    ensures Unescape([TILDE, ZERO] + s) == [TILDE] + Unescape(s)
    ensures Unescape([TILDE, ONE] + s) == [SLASH] + Unescape(s)
  {
    UnescapePlain(c, s);
    UnescapeTilde(s);
    UnescapeSlash(s);
  }

  lemma {:induction false} UnescapePlain(c: byte, s: bytes)
    requires c != TILDE
    ensures Unescape([c] + s) == [c] + Unescape(s)
  {
    var x := [c] + s;
    var y := [c] + ReplaceAll(s, [TILDE, ONE], [SLASH]);
    assert x[1..] == s && y[1..] == ReplaceAll(s, [TILDE, ONE], [SLASH]);
    if |x| >= 2 {
      assert x[..2][0] == c;
    } else {
      assert s == [];
    }
    assert ReplaceAll(x, [TILDE, ONE], [SLASH]) == y;
    if |y| >= 2 {
      assert y[..2][0] == c;
    } else {
      assert y == [c];
    }
  }

  lemma {:induction false} UnescapeTilde(s: bytes)
    ensures Unescape([TILDE, ZERO] + s) == [TILDE] + Unescape(s)
  {
    var x := [TILDE, ZERO] + s;
    var p := ReplaceAll(s, [TILDE, ONE], [SLASH]);
    assert x[..2][1] == ZERO;
    assert x[1..] == [ZERO] + s;
    if |s| >= 1 {
      assert x[1..][..2][0] == ZERO;
    }
    assert x[1..][1..] == s;
    assert ReplaceAll(x[1..], [TILDE, ONE], [SLASH]) == [ZERO] + p;
    var y := [TILDE, ZERO] + p;
    assert ReplaceAll(x, [TILDE, ONE], [SLASH]) == y;
    assert y[..2] == [TILDE, ZERO] && y[2..] == p;
  }

  lemma {:induction false} UnescapeSlash(s: bytes)
    ensures Unescape([TILDE, ONE] + s) == [SLASH] + Unescape(s)
  {
    var x := [TILDE, ONE] + s;
    var p := ReplaceAll(s, [TILDE, ONE], [SLASH]);
    assert x[..2] == [TILDE, ONE] && x[2..] == s;
    var y := [SLASH] + p;
    assert ReplaceAll(x, [TILDE, ONE], [SLASH]) == y;
    if |y| >= 2 {
      assert y[..2][0] == SLASH;
    } else {
      assert p == [];
    }
    assert y[1..] == p;
  }

  /** Unescaping undoes escaping; an escaped token has no slash and only proper escape sequences. */
  lemma {:induction false} UnescapeEscape(s: bytes)
    ensures Unescape(Escape(s)) == s
    ensures ProperlyEscaped(Escape(s)) && SLASH !in Escape(s)
    decreases |s|
  {
    EscapeCons(0, s);
    UnescapeCons(0, s);
    if s != [] {
      var c, r := s[0], s[1..];
      UnescapeEscape(r);
      assert s == [c] + r;
      EscapeCons(c, r);
      hide Escape, Unescape;
      if c == TILDE || c == SLASH {
        UnescapeCons(0, Escape(r));
      } else {
        UnescapeCons(c, Escape(r));
      }
      ProperCons(EscapeByte(c), Escape(r));
    }
  }

  lemma {:induction false} ProperCons(e: bytes, s: bytes)
    requires ProperlyEscaped(e) && ProperlyEscaped(s)
    ensures ProperlyEscaped(e + s)
  {
    var x := e + s;
    forall i | 0 <= i < |x| && x[i] == TILDE ensures i + 1 < |x| && (x[i + 1] == ZERO || x[i + 1] == ONE) {
      if i < |e| {
        assert x[i] == e[i] && x[i + 1] == e[i + 1];
      } else {
        assert s[i - |e|] == TILDE;
        assert x[i + 1] == s[i - |e| + 1];
      }
    }
  }

  /** Escaping undoes unescaping of whatever the check for proper escape sequences lets through. */
  lemma {:induction false} EscapeUnescape(s: bytes)
    requires ProperlyEscaped(s) && SLASH !in s
    ensures Escape(Unescape(s)) == s
    decreases |s|
  {
    if s == [] {
      EscapeCons(0, s);
      UnescapeCons(0, s);
    } else if s[0] == TILDE {
      var r := s[2..];
      assert s[1] == ZERO || s[1] == ONE;
      assert s == [TILDE, s[1]] + r;
      forall i | 0 <= i < |r| && r[i] == TILDE ensures i + 1 < |r| && (r[i + 1] == ZERO || r[i + 1] == ONE) {
        assert s[i + 2] == TILDE && s[i + 3] == r[i + 1];
      }
      EscapeUnescape(r);
      UnescapeCons(0, r);
      hide Escape, Unescape;
      EscapeCons(if s[1] == ZERO then TILDE else SLASH, Unescape(r));
    } else {
      var c, r := s[0], s[1..];
      assert s == [c] + r;
      forall i | 0 <= i < |r| && r[i] == TILDE ensures i + 1 < |r| && (r[i + 1] == ZERO || r[i + 1] == ONE) {
        assert s[i + 1] == TILDE && s[i + 2] == r[i + 1];
      }
      EscapeUnescape(r);
      UnescapeCons(c, r);
      hide Escape, Unescape;
      EscapeCons(c, Unescape(r));
    }
  }

  // ---- text form

  /** The pieces between slashes. */
  function RawTokens(s: bytes): (r: seq<bytes>)
    ensures r != []
    decreases |s|
  {
    var i := IndexOf(s, [SLASH]);
    if i == NPOS then [s] else [s[..i]] + RawTokens(s[i + 1..])
  }

  function DecodeTokens(raw: seq<bytes>): Result<seq<bytes>> {
    if raw == [] then Ok([])
    else if !ProperlyEscaped(raw[0]) then Err(PARSE_ERROR_108)
    else
      match DecodeTokens(raw[1..])
      case Err(id) => Err(id)
      case Ok(tokens) => Ok([Unescape(raw[0])] + tokens)
  }

  /** The reference tokens written in a string. */
  function Split(s: bytes): Result<seq<bytes>> {
    if s == [] then Ok([])
    else if s[0] != SLASH then Err(PARSE_ERROR_107)
    else DecodeTokens(RawTokens(s[1..]))
  }

  function ToString(tokens: seq<bytes>): bytes {
    if tokens == [] then [] else [SLASH] + Escape(tokens[0]) + ToString(tokens[1..])
  }

  /** The position of the next tilde from pos on, as find_first_of computes it. */
  method CheckEscapes(token: bytes) returns (ok: bool)
    ensures ok == ProperlyEscaped(token)
  {
    var pos := Find(token, [TILDE], 0);
    FindByte(token, TILDE, 0);
    while pos != NPOS
      invariant pos == NPOS || (0 <= pos < |token| && token[pos] == TILDE)
      invariant forall i | 0 <= i < (if pos == NPOS then |token| else pos) && token[i] == TILDE ::
                  i + 1 < |token| && (token[i + 1] == ZERO || token[i + 1] == ONE)
      decreases if pos == NPOS then 0 else |token| - pos
    {
      if pos == |token| - 1 || (token[pos + 1] != ZERO && token[pos + 1] != ONE) {
        return false;
      }
      FindByte(token, TILDE, pos + 1);
      pos := Find(token, [TILDE], pos + 1);
    }
    return true;
  }

  lemma {:induction false} IndexOfByte(s: bytes, c: byte)
    ensures var i := IndexOf(s, [c]);
            if i == NPOS then c !in s else 0 <= i < |s| && s[i] == c && c !in s[..i]
    decreases |s|
  {
    if |s| > 0 && s[..1] != [c] {
      assert s[0] != c;
      IndexOfByte(s[1..], c);
      assert s == [s[0]] + s[1..];
      var i := IndexOf(s[1..], [c]);
      if i != NPOS {
        assert s[..i + 1] == [s[0]] + s[1..][..i];
      }
    }
  }

  lemma {:induction false} FindByte(s: bytes, c: byte, pos: nat)
    requires pos <= |s|
    ensures var i := Find(s, [c], pos);
            if i == NPOS then forall j | pos <= j < |s| :: s[j] != c
            else pos <= i < |s| && s[i] == c && forall j | pos <= j < i :: s[j] != c
  {
    IndexOfByte(s[pos..], c);
    var i := IndexOf(s[pos..], [c]);
    forall j | pos <= j < (if i == NPOS then |s| else pos + i) ensures s[j] != c {
      assert s[pos..][j - pos] == s[j];
      if i != NPOS {
        assert s[pos..][..i][j - pos] == s[j];
      }
    }
  }

  method SplitPointer(s: bytes) returns (r: Result<seq<bytes>>)
    ensures r == Split(s)
  {
    SplitEdges(s);
    hide Split, Splitting, Find, ProperlyEscaped, Unescape, DecodeTokens, RawTokens;
    if s == [] {
      return Ok([]);
    }
    if s[0] != SLASH {
      return Err(PARSE_ERROR_107);
    }
    var result: seq<bytes> := [];
    var slash := Find(s, [SLASH], 1);
    var start := 1;
    SplittingStarts(s);
    while start != 0
      invariant 0 <= start <= |s| && Splitting(s, start, slash, result)
      decreases if start == 0 then 0 else |s| + 1 - start
    {
      SplittingStep(s, start, slash, result);
      var token := if slash == NPOS then s[start..] else s[start..slash];
      var ok := CheckEscapes(token);
      if !ok {
        return Err(PARSE_ERROR_108);
      }
      var decoded := UnescapeToken(token);
      result := result + [decoded];
      start := slash + 1;
      if start != 0 {
        slash := Find(s, [SLASH], start);
      }
    }
    SplittingEnds(s, slash, result);
    return Ok(result);
  }

  lemma {:induction false} SplitEdges(s: bytes)
    ensures s == [] ==> Split(s) == Ok([])
    ensures s != [] && s[0] != SLASH ==> Split(s) == Err(PARSE_ERROR_107)
  {}

  /** The tokens in front of start have been read; start is 0 when all have. */
  ghost predicate Splitting(s: bytes, start: nat, slash: int, result: seq<bytes>) {
    && start <= |s|
    && (start != 0 ==> slash == Find(s, [SLASH], start))
    && Split(s) == if start == 0 then Ok(result) else Prepend(result, DecodeTokens(RawTokens(s[start..])))
  }

  lemma {:induction false} SplittingStarts(s: bytes)
    requires s != [] && s[0] == SLASH
    ensures Splitting(s, 1, Find(s, [SLASH], 1), [])
  {
    hide DecodeTokens, RawTokens, Find;
    PrependNone(DecodeTokens(RawTokens(s[1..])));
  }

  lemma {:induction false} SplittingStep(s: bytes, start: nat, slash: int, result: seq<bytes>)
    requires Splitting(s, start, slash, result) && start != 0
    ensures slash == NPOS || start <= slash < |s|
    ensures var token := if slash == NPOS then s[start..] else s[start..slash];
            if ProperlyEscaped(token) then
              Splitting(s, slash + 1, if slash == NPOS then slash else Find(s, [SLASH], slash + 1), result + [Unescape(token)])
            else Split(s) == Err(PARSE_ERROR_108)
  {
    NextToken(s, start, slash);
    hide Split, DecodeTokens, RawTokens, Find, ProperlyEscaped, Unescape;
    var token := if slash == NPOS then s[start..] else s[start..slash];
    PrependOne(result, Unescape(token), if slash == NPOS then Ok([]) else DecodeTokens(RawTokens(s[slash + 1..])));
    assert (result + [Unescape(token)]) + [] == result + [Unescape(token)];
  }

  lemma {:induction false} SplittingEnds(s: bytes, slash: int, result: seq<bytes>)
    requires Splitting(s, 0, slash, result)
    ensures Split(s) == Ok(result)
  {
    hide Split;
  }

  function Prepend(front: seq<bytes>, r: Result<seq<bytes>>): Result<seq<bytes>> {
    match r
    case Err(id) => Err(id)
    case Ok(tokens) => Ok(front + tokens)
  }

  lemma {:induction false} PrependNone(r: Result<seq<bytes>>)
    ensures Prepend([], r) == r
  {
    if r.Ok? {
      assert [] + r.value == r.value;
    }
  }

  lemma {:induction false} PrependOne(front: seq<bytes>, t: bytes, r: Result<seq<bytes>>)
    ensures Prepend(front, Prepend([t], r)) == Prepend(front + [t], r)
  {
    if r.Ok? {
      assert front + ([t] + r.value) == (front + [t]) + r.value;
    }
  }

  /** One turn of the splitting loop, in terms of the specification. */
  lemma {:induction false} NextToken(s: bytes, start: nat, slash: int)
    requires 0 < start <= |s| && slash == Find(s, [SLASH], start)
    ensures slash == NPOS || start <= slash < |s|
    ensures var token := if slash == NPOS then s[start..] else s[start..slash];
            DecodeTokens(RawTokens(s[start..])) ==
            if !ProperlyEscaped(token) then Err(PARSE_ERROR_108)
            else Prepend([Unescape(token)], if slash == NPOS then Ok([]) else DecodeTokens(RawTokens(s[slash + 1..])))
  {
    var i := IndexOf(s[start..], [SLASH]);
    IndexOfByte(s[start..], SLASH);
    hide IndexOf, ProperlyEscaped, Unescape;
    if i == NPOS {
      assert RawTokens(s[start..])[1..] == [];
    } else {
      assert s[start..][..i] == s[start..slash] && s[start..][i + 1..] == s[slash + 1..];
      assert RawTokens(s[start..])[1..] == RawTokens(s[slash + 1..]);
    }
  }

  // ---- strings and token lists are in bijection

  /** The first piece of a text that starts with a slash-free token. */
  lemma {:induction false} RawTokensCons(t: bytes, u: bytes)
    requires SLASH !in t
    ensures RawTokens(t) == [t]
    ensures RawTokens(t + [SLASH] + u) == [t] + RawTokens(u)
  {
    IndexOfByte(t, SLASH);
    var s := t + [SLASH] + u;
    IndexOfByte(s, SLASH);
    var i := IndexOf(s, [SLASH]);
    hide IndexOf;
    assert s[|t|] == SLASH;
    assert forall j | 0 <= j < |t| :: s[j] == t[j];
    assert i == |t|;
    assert s[..i] == t && s[i + 1..] == u;
  }

  lemma {:induction false} RawTokensOfString(t: bytes, tokens: seq<bytes>)
    requires SLASH !in t
    ensures RawTokens(t + ToString(tokens)) == [t] + EscapeAll(tokens)
    decreases |tokens|
  {
    hide RawTokens, Escape;
    if tokens == [] {
      assert t + [] == t;
      RawTokensCons(t, []);
    } else {
      var e, u := Escape(tokens[0]), ToString(tokens[1..]);
      UnescapeEscape(tokens[0]);
      RawTokensOfString(e, tokens[1..]);
      RawTokensCons(t, e + u);
      assert t + ([SLASH] + e + u) == t + [SLASH] + (e + u);
    }
  }

  function EscapeAll(tokens: seq<bytes>): seq<bytes> {
    if tokens == [] then [] else [Escape(tokens[0])] + EscapeAll(tokens[1..])
  }

  lemma {:induction false} DecodeEscaped(tokens: seq<bytes>)
    ensures DecodeTokens(EscapeAll(tokens)) == Ok(tokens)
  {
    if tokens != [] {
      DecodeEscaped(tokens[1..]);
      UnescapeEscape(tokens[0]);
      assert EscapeAll(tokens)[1..] == EscapeAll(tokens[1..]);
      assert [tokens[0]] + tokens[1..] == tokens;
    }
  }

  /** Reading the text of a pointer gives its tokens back. */
  lemma {:induction false} SplitToString(tokens: seq<bytes>)
    ensures Split(ToString(tokens)) == Ok(tokens)
  {
    if tokens != [] {
      var u := Escape(tokens[0]) + ToString(tokens[1..]);
      SplitSlash(u);
      UnescapeEscape(tokens[0]);
      RawTokensOfString(Escape(tokens[0]), tokens[1..]);
      DecodeEscaped(tokens);
      assert ToString(tokens) == [SLASH] + u;
      assert [Escape(tokens[0])] + EscapeAll(tokens[1..]) == EscapeAll(tokens);
      hide Split, Escape;
    }
  }

  lemma {:induction false} SplitSlash(u: bytes)
    ensures Split([SLASH] + u) == DecodeTokens(RawTokens(u))
  {
    hide RawTokens, DecodeTokens;
    assert ([SLASH] + u)[1..] == u;
  }

  lemma {:induction false} StringOfRawTokens(s: bytes)
    requires DecodeTokens(RawTokens(s)).Ok?
    ensures ToString(DecodeTokens(RawTokens(s)).value) == [SLASH] + s
    decreases |s|
  {
    var raw := RawTokens(s);
    var i := IndexOf(s, [SLASH]);
    IndexOfByte(s, SLASH);
    hide IndexOf, ProperlyEscaped, Escape, Unescape;
    EscapeUnescape(raw[0]);
    var tokens := DecodeTokens(raw).value;
    if i == NPOS {
      assert tokens == [Unescape(s)] + [];
      StringOfOne(Unescape(s), []);
    } else {
      var rest := s[i + 1..];
      assert raw[1..] == RawTokens(rest);
      StringOfRawTokens(rest);
      var more := DecodeTokens(RawTokens(rest)).value;
      StringOfOne(Unescape(s[..i]), more);
      JoinAtSlash(s, i);
    }
  }

  lemma {:induction false} StringOfOne(t: bytes, more: seq<bytes>)
    ensures ToString([t] + more) == [SLASH] + Escape(t) + ToString(more)
  {
    assert ([t] + more)[1..] == more;
  }

  lemma {:induction false} JoinAtSlash(s: bytes, i: nat)
    requires i < |s| && s[i] == SLASH
    ensures [SLASH] + s[..i] + ([SLASH] + s[i + 1..]) == [SLASH] + s
  {}

  /** Writing the tokens read from a string gives the string back. */
  lemma {:induction false} ToStringSplit(s: bytes)
    requires Split(s).Ok?
    ensures ToString(Split(s).value) == s
  {
    if s != [] {
      StringOfRawTokens(s[1..]);
    }
  }

  lemma {:induction false} ToStringConcat(a: seq<bytes>, b: seq<bytes>)
    ensures ToString(a + b) == ToString(a) + ToString(b)
  {
    hide ToString, Escape;
    if a == [] {
      NoTokens();
      assert a + b == b;
    } else {
      ToStringConcat(a[1..], b);
      OneTokenMore(a, b);
      StringOfOne(a[0], a[1..]);
      StringOfOne(a[0], a[1..] + b);
      ConcatThree([SLASH] + Escape(a[0]), ToString(a[1..]), ToString(b));
    }
  }

  lemma {:induction false} NoTokens()
    ensures ToString([]) == []
  {}

  lemma {:induction false} OneTokenMore(a: seq<bytes>, b: seq<bytes>)
    requires a != []
    ensures a == [a[0]] + a[1..] && a + b == [a[0]] + (a[1..] + b)
  {}

  lemma {:induction false} ConcatThree(x: bytes, y: bytes, z: bytes)
    ensures (x + y) + z == x + (y + z)
  {}

  lemma {:induction false} ToStringInjective(a: seq<bytes>, b: seq<bytes>)
    requires ToString(a) == ToString(b)
    ensures a == b
  {
    SplitToString(a);
    SplitToString(b);
  }

  // ---- paths of children

  lemma {:induction false} ChildPath(tokens: seq<bytes>, tok: bytes)
    ensures ToString(tokens + [tok]) == ToString(tokens) + [SLASH] + Escape(tok)
  {
    ToStringConcat(tokens, [tok]);
    hide Escape;
    assert ToString([tok]) == [SLASH] + Escape(tok) + ToString([]);
    assert ToString(tokens) + ([SLASH] + Escape(tok)) == ToString(tokens) + [SLASH] + Escape(tok);
  }

  /** A decimal number needs no escaping. */
  lemma {:induction false} IndexPath(tokens: seq<bytes>, i: nat)
    ensures ToString(tokens + [ToDecimal(i)]) == ToString(tokens) + [SLASH] + ToDecimal(i)
  {
    ChildPath(tokens, ToDecimal(i));
    DigitsEscape(ToDecimal(i));
  }

  lemma {:induction false} DigitsEscape(d: bytes)
    requires AllDigits(d)
    ensures Escape(d) == d
  {
    AbsentByte(d, TILDE, [TILDE, ZERO]);
    AbsentByte(d, SLASH, [TILDE, ONE]);
  }

  lemma {:induction false} AbsentByte(d: bytes, c: byte, t: bytes)
    requires c !in d
    ensures ReplaceAll(d, [c], t) == d
  {
    if d != [] {
      assert d[..1][0] == d[0];
      AbsentByte(d[1..], c, t);
    }
  }

  // ---- array indices

  predicate IsSpace(c: byte) {
    c == 0x20 || 0x09 <= c <= 0x0D
  }

  function SkipSpace(s: bytes): bytes {
    if s != [] && IsSpace(s[0]) then SkipSpace(s[1..]) else s
  }

  function DigitPrefix(s: bytes): (d: bytes)
    ensures AllDigits(d) && |d| <= |s|
  {
    if s != [] && IsDigit(s[0]) then [s[0]] + DigitPrefix(s[1..]) else []
  }

  const INT_MAX := 0x7FFF_FFFF
  const INT_MIN := -0x8000_0000

  /** std::stoi, followed by the check that all of the string was used. */
  function ArrayIndex(s: bytes): Result<int> {
    var t := SkipSpace(s);
    var signed := t != [] && (t[0] == ('-' as int) || t[0] == ('+' as int));
    var u := if signed then t[1..] else t;
    var digits := DigitPrefix(u);
    var v: int := if signed && t[0] == ('-' as int) then 0 - DigitsValue(digits) else DigitsValue(digits);
    if digits == [] then Err(INVALID_ARGUMENT)
    else if v < INT_MIN || v > INT_MAX then Err(STD_OUT_OF_RANGE)
    else if |digits| != |u| then Err(OUT_OF_RANGE_404)
    else Ok(v)
  }

  lemma {:induction false} DigitPrefixAll(s: bytes)
    requires AllDigits(s)
    ensures DigitPrefix(s) == s
  {
    if s != [] {
      DigitPrefixAll(s[1..]);
    }
  }

  /** The token of index i: read back exactly when it fits an int. */
  lemma {:induction false} IndexToken(i: nat)
    ensures ArrayIndex(ToDecimal(i)) == if i <= INT_MAX then Ok(i) else Err(STD_OUT_OF_RANGE)
    ensures ToDecimal(i) != ['-' as int]
    ensures |ToDecimal(i)| > 1 ==> ToDecimal(i)[0] != ZERO
  {
    DigitPrefixAll(ToDecimal(i));
  }

  // ---- what a pointer selects

  predicate DecimalToken(t: bytes) {
    AllDigits(t) && t == ToDecimal(DigitsValue(t))
  }

  /** The child that a token selects. */
  predicate HasChild(x: Json, t: bytes) {
    match x
    case Array(a) => DecimalToken(t) && DigitsValue(t) < |a|
    case Object(o) => t in o
    case _ => false
  }

  function ChildOf(x: Json, t: bytes): (c: Json)
    requires HasChild(x, t)
    ensures c < x
  {
    if x.Array? then x.a[DigitsValue(t)] else x.o[t]
  }

  /** The part of a value that a list of tokens selects. */
  function Select(x: Json, path: seq<bytes>): Option<Json>
    decreases |path|
  {
    if path == [] then Some(x)
    else if HasChild(x, path[0]) then Select(ChildOf(x, path[0]), path[1..])
    else None
  }
}
