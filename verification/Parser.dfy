/**
  The recursive-descent parser and the acceptor that runs beside it, both on the same lexer.
 */
module Parser {
  import opened Arith
  import opened Decimal
  import opened J = Json
  import opened L = Lexer
  import Doubles

  // ---- the grammar, as functions from the current token and the rest of the input

  datatype Parsed = Parsed(v: Json, rest: bytes) | Failed(id: int)

  /** What is left, counting the current token. */
  function Left(tok: Token, rest: bytes): nat {
    |rest| + if tok == EndOfInput then 0 else 1
  }

  function ParseValue(tok: Token, rest: bytes, reader: Reader): (r: Parsed)
    ensures r.Parsed? ==> |r.rest| <= |rest|
    decreases Left(tok, rest), 0
  {
    match tok
    case BeginObject =>
      var (t, more) := NextToken(rest, reader);
      if t == EndObject then Parsed(Object(map[]), more) else ParseMembers(t, more, map[], reader)
    case BeginArray =>
      var (t, more) := NextToken(rest, reader);
      if t == EndArray then Parsed(Array([]), more) else ParseElements(t, more, [], reader)
    case LiteralNull => Parsed(Null, rest)
    case LiteralTrue => Parsed(Bool(true), rest)
    case LiteralFalse => Parsed(Bool(false), rest)
    case StringToken(s) => Parsed(String(s), rest)
    case UnsignedToken(u) => Parsed(Unsigned(u), rest)
    case IntegerToken(i) => Parsed(Integer(i), rest)
    case FloatToken(bits) => if Doubles.Finite(bits) then Parsed(Float(bits), rest) else Failed(OUT_OF_RANGE_406)
    case _ => Failed(PARSE_ERROR_101)
  }

  function ParseElements(tok: Token, rest: bytes, done: seq<Json>, reader: Reader): (r: Parsed)
    ensures r.Parsed? ==> |r.rest| <= |rest|
    decreases Left(tok, rest), 1
  {
    match ParseValue(tok, rest, reader)
    case Failed(id) => Failed(id)
    case Parsed(v, rest1) =>
      var (t, rest2) := NextToken(rest1, reader);
      if t == ValueSeparator then
        var (u, rest3) := NextToken(rest2, reader);
        ParseElements(u, rest3, done + [v], reader)
      else if t == EndArray then Parsed(Array(done + [v]), rest2)
      else Failed(PARSE_ERROR_101)
  }

  datatype ParsedMember = ParsedMember(k: bytes, v: Json, rest: bytes) | FailedMember(id: int)

  function ParseMember(tok: Token, rest: bytes, reader: Reader): (r: ParsedMember)
    ensures r.ParsedMember? ==> |r.rest| <= |rest|
    decreases Left(tok, rest), 1
  {
    if !tok.StringToken? then FailedMember(PARSE_ERROR_101)
    else
      var (t, rest1) := NextToken(rest, reader);
      if t != NameSeparator then FailedMember(PARSE_ERROR_101)
      else
        var (u, rest2) := NextToken(rest1, reader);
        match ParseValue(u, rest2, reader)
        case Failed(id) => FailedMember(id)
        case Parsed(v, rest3) => ParsedMember(tok.s, v, rest3)
  }

  function ParseMembers(tok: Token, rest: bytes, done: map<bytes, Json>, reader: Reader): (r: Parsed)
    ensures r.Parsed? ==> |r.rest| <= |rest|
    decreases Left(tok, rest), 2
  {
    match ParseMember(tok, rest, reader)
    case FailedMember(id) => Failed(id)
    case ParsedMember(k, v, rest1) =>
      var (t, rest2) := NextToken(rest1, reader);
      if t == ValueSeparator then
        var (u, rest3) := NextToken(rest2, reader);
        ParseMembers(u, rest3, Emplace(done, k, v), reader)
      else if t == EndObject then Parsed(Object(Emplace(done, k, v)), rest2)
      else Failed(PARSE_ERROR_101)
  }

  /** One value and, in strict mode, the end of the input. */
  function Parse(input: bytes, strict: bool, reader: Reader): Result<Json> {
    var (tok, rest) := NextToken(input, reader);
    match ParseValue(tok, rest, reader)
    case Failed(id) => Err(id)
    case Parsed(v, more) => if strict && NextToken(more, reader).0 != EndOfInput then Err(PARSE_ERROR_101) else Ok(v)
  }

  // ---- the acceptor's grammar, which builds no value

  datatype Accepted = Accepted(rest: bytes) | Rejected

  function AcceptValue(tok: Token, rest: bytes, reader: Reader): (r: Accepted)
    ensures r.Accepted? ==> |r.rest| <= |rest|
    decreases Left(tok, rest), 0
  {
    match tok
    case BeginObject =>
      var (t, more) := NextToken(rest, reader);
      if t == EndObject then Accepted(more) else AcceptMembers(t, more, reader)
    case BeginArray =>
      var (t, more) := NextToken(rest, reader);
      if t == EndArray then Accepted(more) else AcceptElements(t, more, reader)
    case FloatToken(bits) => if Doubles.Finite(bits) then Accepted(rest) else Rejected
    case LiteralFalse => Accepted(rest)
    case LiteralNull => Accepted(rest)
    case LiteralTrue => Accepted(rest)
    case IntegerToken(_) => Accepted(rest)
    case StringToken(_) => Accepted(rest)
    case UnsignedToken(_) => Accepted(rest)
    case _ => Rejected
  }

  function AcceptElements(tok: Token, rest: bytes, reader: Reader): (r: Accepted)
    ensures r.Accepted? ==> |r.rest| <= |rest|
    decreases Left(tok, rest), 1
  {
    match AcceptValue(tok, rest, reader)
    case Rejected => Rejected
    case Accepted(rest1) =>
      var (t, rest2) := NextToken(rest1, reader);
      if t == ValueSeparator then
        var (u, rest3) := NextToken(rest2, reader);
        AcceptElements(u, rest3, reader)
      else if t == EndArray then Accepted(rest2)
      else Rejected
  }

  function AcceptMember(tok: Token, rest: bytes, reader: Reader): (r: Accepted)
    ensures r.Accepted? ==> |r.rest| <= |rest|
    decreases Left(tok, rest), 1
  {
    if !tok.StringToken? then Rejected
    else
      var (t, rest1) := NextToken(rest, reader);
      if t != NameSeparator then Rejected
      else
        var (u, rest2) := NextToken(rest1, reader);
        AcceptValue(u, rest2, reader)
  }

  function AcceptMembers(tok: Token, rest: bytes, reader: Reader): (r: Accepted)
    ensures r.Accepted? ==> |r.rest| <= |rest|
    decreases Left(tok, rest), 2
  {
    match AcceptMember(tok, rest, reader)
    case Rejected => Rejected
    case Accepted(rest1) =>
      var (t, rest2) := NextToken(rest1, reader);
      if t == ValueSeparator then
        var (u, rest3) := NextToken(rest2, reader);
        AcceptMembers(u, rest3, reader)
      else if t == EndObject then Accepted(rest2)
      else Rejected
  }

  function Accept(input: bytes, strict: bool, reader: Reader): bool {
    var (tok, rest) := NextToken(input, reader);
    match AcceptValue(tok, rest, reader)
    case Rejected => false
    case Accepted(more) => !strict || NextToken(more, reader).0 == EndOfInput
  }

  // ---- the two agree

  function Forget(p: Parsed): Accepted {
    if p.Parsed? then Accepted(p.rest) else Rejected
  }

  lemma {:induction false} AgreeOnValue(tok: Token, rest: bytes, reader: Reader)
    ensures AcceptValue(tok, rest, reader) == Forget(ParseValue(tok, rest, reader))
    decreases Left(tok, rest), 0
  {
    var (t, more) := NextToken(rest, reader);
    hide NextToken;
    if tok == BeginObject && t != EndObject {
      AgreeOnMembers(t, more, map[], reader);
    } else if tok == BeginArray && t != EndArray {
      AgreeOnElements(t, more, [], reader);
    }
  }

  lemma {:induction false} AgreeOnElements(tok: Token, rest: bytes, done: seq<Json>, reader: Reader)
    ensures AcceptElements(tok, rest, reader) == Forget(ParseElements(tok, rest, done, reader))
    decreases Left(tok, rest), 1
  {
    hide NextToken, AcceptValue, ParseValue;
    AgreeOnValue(tok, rest, reader);
    var p := ParseValue(tok, rest, reader);
    if p.Parsed? {
      var (t, rest2) := NextToken(p.rest, reader);
      if t == ValueSeparator {
        var (u, rest3) := NextToken(rest2, reader);
        AgreeOnElements(u, rest3, done + [p.v], reader);
      }
    }
  }

  lemma {:induction false} AgreeOnMember(tok: Token, rest: bytes, reader: Reader)
    ensures var p := ParseMember(tok, rest, reader);
            AcceptMember(tok, rest, reader) == if p.ParsedMember? then Accepted(p.rest) else Rejected
    decreases Left(tok, rest), 1
  {
    hide NextToken, AcceptValue, ParseValue;
    if tok.StringToken? {
      var (t, rest1) := NextToken(rest, reader);
      if t == NameSeparator {
        var (u, rest2) := NextToken(rest1, reader);
        AgreeOnValue(u, rest2, reader);
      }
    }
  }

  lemma {:induction false} AgreeOnMembers(tok: Token, rest: bytes, done: map<bytes, Json>, reader: Reader)
    ensures AcceptMembers(tok, rest, reader) == Forget(ParseMembers(tok, rest, done, reader))
    decreases Left(tok, rest), 2
  {
    hide NextToken, AcceptMember, ParseMember, Emplace;
    AgreeOnMember(tok, rest, reader);
    var p := ParseMember(tok, rest, reader);
    if p.ParsedMember? {
      var (t, rest2) := NextToken(p.rest, reader);
      if t == ValueSeparator {
        var (u, rest3) := NextToken(rest2, reader);
        AgreeOnMembers(u, rest3, Emplace(done, p.k, p.v), reader);
      }
    }
  }

  /** accept says yes exactly to the inputs that parse turns into a value. */
  lemma {:induction false} AcceptAgrees(input: bytes, strict: bool, reader: Reader)
    ensures Accept(input, strict, reader) <==> Parse(input, strict, reader).Ok?
  {
    var (tok, rest) := NextToken(input, reader);
    AgreeOnValue(tok, rest, reader);
  }

  // ---- one step of each function, for the loops of the parser

  lemma {:induction false} ObjectStart(rest: bytes, reader: Reader)
    ensures var (t, more) := NextToken(rest, reader);
            ParseValue(BeginObject, rest, reader) ==
            if t == EndObject then Parsed(Object(map[]), more) else ParseMembers(t, more, map[], reader)
  {
    hide NextToken, ParseMembers;
  }

  lemma {:induction false} ArrayStart(rest: bytes, reader: Reader)
    ensures var (t, more) := NextToken(rest, reader);
            ParseValue(BeginArray, rest, reader) ==
            if t == EndArray then Parsed(Array([]), more) else ParseElements(t, more, [], reader)
  {
    hide NextToken, ParseElements;
  }

  lemma {:induction false} MembersStep(tok: Token, rest: bytes, done: map<bytes, Json>, reader: Reader)
    ensures ParseMembers(tok, rest, done, reader) ==
            match ParseMember(tok, rest, reader)
            case FailedMember(id) => Failed(id)
            case ParsedMember(k, v, rest1) =>
              var (t, rest2) := NextToken(rest1, reader);
              if t == ValueSeparator then
                ParseMembers(NextToken(rest2, reader).0, NextToken(rest2, reader).1, Emplace(done, k, v), reader)
              else if t == EndObject then Parsed(Object(Emplace(done, k, v)), rest2)
              else Failed(PARSE_ERROR_101)
  {
    hide NextToken, ParseMember, Emplace;
  }

  lemma {:induction false} ElementsStep(tok: Token, rest: bytes, done: seq<Json>, reader: Reader)
    ensures ParseElements(tok, rest, done, reader) ==
            match ParseValue(tok, rest, reader)
            case Failed(id) => Failed(id)
            case Parsed(v, rest1) =>
              var (t, rest2) := NextToken(rest1, reader);
              if t == ValueSeparator then
                ParseElements(NextToken(rest2, reader).0, NextToken(rest2, reader).1, done + [v], reader)
              else if t == EndArray then Parsed(Array(done + [v]), rest2)
              else Failed(PARSE_ERROR_101)
  {
    hide NextToken, ParseValue;
  }

  lemma {:induction false} AcceptedStarts(rest: bytes, reader: Reader)
    ensures var (t, more) := NextToken(rest, reader);
            && AcceptValue(BeginObject, rest, reader) ==
               (if t == EndObject then Accepted(more) else AcceptMembers(t, more, reader))
            && AcceptValue(BeginArray, rest, reader) ==
               (if t == EndArray then Accepted(more) else AcceptElements(t, more, reader))
  {
    hide NextToken, AcceptMembers, AcceptElements;
  }

  /** Behind an accepted item, in an object or an array. */
  ghost function AcceptMore(g: Accepted, end: Token, reader: Reader): Accepted {
    match g
    case Rejected => Rejected
    case Accepted(rest1) =>
      var (t, rest2) := NextToken(rest1, reader);
      if t == ValueSeparator then
        var (u, rest3) := NextToken(rest2, reader);
        if end == EndObject then AcceptMembers(u, rest3, reader) else AcceptElements(u, rest3, reader)
      else if t == end then Accepted(rest2)
      else Rejected
  }

  lemma {:induction false} AcceptedStep(tok: Token, rest: bytes, reader: Reader)
    ensures AcceptMembers(tok, rest, reader) == AcceptMore(AcceptMember(tok, rest, reader), EndObject, reader)
    ensures AcceptElements(tok, rest, reader) == AcceptMore(AcceptValue(tok, rest, reader), EndArray, reader)
  {
    hide NextToken, AcceptMember, AcceptValue;
  }

  class Parser {
    const lexer: Lexer
    var lastToken: TokenKind
    var errored: bool
    var errorId: int

    ghost predicate Valid()
      reads this, lexer
    {
      lexer.Valid()
    }

    ghost function Token(): Token
      reads this, lexer
    {
      lexer.Value(lastToken)
    }

    /** The input behind the current token; nothing counts any more after an error. */
    ghost function Rest(): bytes
      reads this, lexer
      requires Valid()
    {
      if lastToken == KParseError then [] else lexer.Rest()
    }

    /** What parsing gives from here. */
    ghost function Expected(): Parsed
      reads this, lexer
      requires Valid()
    {
      ParseValue(Token(), Rest(), lexer.reader)
    }

    /** Parsing has come to the given end: a value and the input behind it, or a recorded error. */
    ghost predicate Reached(p: Parsed, v: Json)
      reads this, lexer
      requires Valid()
    {
      match p
      case Failed(id) => errored && errorId == id
      case Parsed(w, rest) => !errored && v == w && lexer.Rest() == rest
    }

    ghost predicate ReachedMember(p: ParsedMember, key: bytes, v: Json)
      reads this, lexer
      requires Valid()
    {
      match p
      case FailedMember(id) => errored && errorId == id
      case ParsedMember(k, w, rest) => !errored && key == k && v == w && lexer.Rest() == rest
    }

    constructor (input: bytes, reader: Reader)
      ensures Valid() && fresh(lexer) && !errored && lexer.reader == reader
      ensures lexer.Rest() == WithoutMark(input)
    {
      lexer := new Lexer(input, reader);
      lastToken, errored, errorId := KParseError, false, 0;
    }

    method GetToken()
      requires Valid()
      modifies lexer, this`lastToken
      ensures Valid() && (Token(), Rest()) == NextToken(old(lexer.Rest()), lexer.reader)
    {
      ErrorsEndInput(lexer.Rest(), lexer.reader);
      lastToken := lexer.Scan();
    }

    /** The current token is the expected one, or an error is recorded. */
    method Expect(kind: TokenKind, id: int := PARSE_ERROR_101) returns (ok: bool)
      modifies this`errored, this`errorId
      ensures ok == (kind == lastToken)
      ensures if ok then errored == old(errored) && errorId == old(errorId) else errored && errorId == id
    {
      ok := kind == lastToken;
      if !ok {
        errored, errorId := true, id;
      }
    }

    /** Parses the value that the current token starts. */
    method ParseInternal() returns (result: Json)
      requires Valid() && !errored
      modifies this, lexer
      ensures Valid() && Reached(old(Expected()), result)
      decreases Left(Token(), Rest()), 1
    {
      result := Null;
      match lastToken
      case KBeginObject => result := ParseObject();
      case KBeginArray => result := ParseArray();
      case KNull => result := Null;
      case KString => result := String(lexer.tokenBuffer);
      case KTrue => result := Bool(true);
      case KFalse => result := Bool(false);
      case KUnsigned => result := Unsigned(lexer.valueUnsigned);
      case KInteger => result := Integer(lexer.valueInteger);
      case KFloat =>
        result := Float(lexer.valueFloat);
        if lexer.valueFloat % TWO_63 >= Doubles.INFINITY {
          errored, errorId := true, OUT_OF_RANGE_406;
        }
      case _ =>
        errored, errorId := true, PARSE_ERROR_101;
    }

    /** Behind an item: a comma and the next item's first token, or the closing bracket. */
    method NextItem(end: TokenKind) returns (more: bool)
      requires Valid() && !errored && end in {KEndArray, KEndObject}
      modifies lexer, this`lastToken, this`errored, this`errorId
      ensures Valid()
      ensures var (t, rest) := NextToken(old(lexer.Rest()), lexer.reader);
              if t == ValueSeparator then more && !errored && (Token(), Rest()) == NextToken(rest, lexer.reader)
              else if t == lexer.Value(end) then !more && !errored && lexer.Rest() == rest
              else !more && errored && errorId == PARSE_ERROR_101
    {
      hide NextToken;
      GetToken();
      more := lastToken == KValueSeparator;
      if more {
        GetToken();
      } else {
        var ok := Expect(end);
      }
    }

    method ParseObject() returns (result: Json)
      requires Valid() && !errored && lastToken == KBeginObject
      modifies this, lexer
      ensures Valid() && Reached(old(Expected()), result)
      decreases Left(Token(), Rest()), 0
    {
      hide ParseMember, ParseMembers, NextToken, ParseValue, Emplace;
      result := Object(map[]);
      ghost var p := Expected();
      ghost var left := Left(Token(), Rest());
      ObjectStart(Rest(), lexer.reader);
      GetToken();
      if lastToken == KEndObject {
        return;
      }
      while true
        invariant Valid() && !errored && result.Object?
        invariant ParseMembers(Token(), Rest(), result.o, lexer.reader) == p
        invariant Left(Token(), Rest()) < left
        decreases Left(Token(), Rest())
      {
        MembersStep(Token(), Rest(), result.o, lexer.reader);
        var key, value := ParseKeyAndValue();
        if errored {
          return;
        }
        result := Object(Emplace(result.o, key, value));
        var more := NextItem(KEndObject);
        if !more {
          return;
        }
      }
    }

    method ParseKeyAndValue() returns (key: bytes, value: Json)
      requires Valid() && !errored
      modifies this, lexer
      ensures Valid() && ReachedMember(old(ParseMember(Token(), Rest(), lexer.reader)), key, value)
      decreases Left(Token(), Rest()), 2
    {
      hide ParseValue, NextToken;
      key, value := [], Null;
      var ok := Expect(KString);
      if !ok {
        return;
      }
      key := lexer.tokenBuffer;
      GetToken();
      ok := Expect(KNameSeparator);
      if !ok {
        return;
      }
      GetToken();
      value := ParseInternal();
    }

    method ParseArray() returns (result: Json)
      requires Valid() && !errored && lastToken == KBeginArray
      modifies this, lexer
      ensures Valid() && Reached(old(Expected()), result)
      decreases Left(Token(), Rest()), 0
    {
      hide ParseValue, ParseElements, NextToken;
      result := Array([]);
      ghost var p := Expected();
      ghost var left := Left(Token(), Rest());
      ArrayStart(Rest(), lexer.reader);
      GetToken();
      if lastToken == KEndArray {
        return;
      }
      while true
        invariant Valid() && !errored && result.Array?
        invariant ParseElements(Token(), Rest(), result.a, lexer.reader) == p
        invariant Left(Token(), Rest()) < left
        decreases Left(Token(), Rest())
      {
        ElementsStep(Token(), Rest(), result.a, lexer.reader);
        var value := ParseInternal();
        if errored {
          return;
        }
        result := Array(result.a + [value]);
        var more := NextItem(KEndArray);
        if !more {
          return;
        }
      }
    }

    /** With exceptions off the recorded error stands for a discarded result; with exceptions on it is thrown. */
    method ParseText(strict: bool) returns (r: Result<Json>)
      requires Valid() && !errored
      modifies this, lexer
      ensures Valid() && r == Parse(old(lexer.Rest()), strict, lexer.reader)
    {
      hide NextToken, ParseValue;
      GetToken();
      var result := ParseInternal();
      if errored {
        return Err(errorId);
      }
      if strict {
        GetToken();
        var ok := Expect(KEndOfInput);
        if errored {
          return Err(errorId);
        }
      }
      return Ok(result);
    }

    ghost predicate AcceptedTo(a: Accepted, ok: bool)
      reads this, lexer
      requires Valid()
    {
      match a
      case Rejected => !ok
      case Accepted(rest) => ok && lexer.Rest() == rest
    }

    /** What accepting gives from here. */
    ghost function Acceptable(): Accepted
      reads this, lexer
      requires Valid()
    {
      AcceptValue(Token(), Rest(), lexer.reader)
    }

    method AcceptInternal() returns (ok: bool)
      requires Valid()
      modifies lexer, this`lastToken
      ensures Valid() && AcceptedTo(old(Acceptable()), ok)
      decreases Left(Token(), Rest()), 1
    {
      match lastToken
      case KBeginObject => ok := AcceptObject();
      case KBeginArray => ok := AcceptArray();
      case KFloat => ok := lexer.valueFloat % TWO_63 < Doubles.INFINITY;
      case KFalse => ok := true;
      case KNull => ok := true;
      case KTrue => ok := true;
      case KInteger => ok := true;
      case KString => ok := true;
      case KUnsigned => ok := true;
      case _ => ok := false;
    }

    method AcceptNextItem(end: TokenKind) returns (ok: bool, more: bool)
      requires Valid() && end in {KEndArray, KEndObject}
      modifies lexer, this`lastToken
      ensures Valid()
      ensures var (t, rest) := NextToken(old(lexer.Rest()), lexer.reader);
              if t == ValueSeparator then more && (Token(), Rest()) == NextToken(rest, lexer.reader)
              else if t == lexer.Value(end) then !more && ok && lexer.Rest() == rest
              else !more && !ok
    {
      hide NextToken;
      GetToken();
      more := lastToken == KValueSeparator;
      ok := lastToken == end;
      if more {
        GetToken();
      }
    }

    method AcceptObject() returns (ok: bool)
      requires Valid() && lastToken == KBeginObject
      modifies lexer, this`lastToken
      ensures Valid() && AcceptedTo(old(Acceptable()), ok)
      decreases Left(Token(), Rest()), 0
    {
      hide AcceptMember, AcceptMembers, AcceptElements, AcceptValue, NextToken;
      ghost var a := Acceptable();
      ghost var left := Left(Token(), Rest());
      AcceptedStarts(Rest(), lexer.reader);
      GetToken();
      if lastToken == KEndObject {
        return true;
      }
      while true
        invariant Valid() && AcceptMembers(Token(), Rest(), lexer.reader) == a
        invariant Left(Token(), Rest()) < left
        decreases Left(Token(), Rest())
      {
        AcceptedStep(Token(), Rest(), lexer.reader);
        ok := AcceptKeyAndValue();
        if !ok {
          return;
        }
        var more;
        ok, more := AcceptNextItem(KEndObject);
        if !more {
          return;
        }
      }
    }

    method AcceptKeyAndValue() returns (ok: bool)
      requires Valid()
      modifies lexer, this`lastToken
      ensures Valid() && AcceptedTo(AcceptMember(old(Token()), old(Rest()), lexer.reader), ok)
      decreases Left(Token(), Rest()), 2
    {
      hide AcceptValue, NextToken;
      if lastToken != KString {
        return false;
      }
      GetToken();
      if lastToken != KNameSeparator {
        return false;
      }
      GetToken();
      ok := AcceptInternal();
    }

    method AcceptArray() returns (ok: bool)
      requires Valid() && lastToken == KBeginArray
      modifies lexer, this`lastToken
      ensures Valid() && AcceptedTo(old(Acceptable()), ok)
      decreases Left(Token(), Rest()), 0
    {
      hide AcceptMembers, AcceptElements, AcceptValue, NextToken;
      ghost var a := Acceptable();
      ghost var left := Left(Token(), Rest());
      AcceptedStarts(Rest(), lexer.reader);
      GetToken();
      if lastToken == KEndArray {
        return true;
      }
      while true
        invariant Valid() && AcceptElements(Token(), Rest(), lexer.reader) == a
        invariant Left(Token(), Rest()) < left
        decreases Left(Token(), Rest())
      {
        AcceptedStep(Token(), Rest(), lexer.reader);
        ok := AcceptInternal();
        if !ok {
          return;
        }
        var more;
        ok, more := AcceptNextItem(KEndArray);
        if !more {
          return;
        }
      }
    }

    method AcceptText(strict: bool) returns (ok: bool)
      requires Valid()
      modifies lexer, this`lastToken
      ensures Valid() && ok == Accept(old(lexer.Rest()), strict, lexer.reader)
    {
      hide NextToken, AcceptValue;
      GetToken();
      ok := AcceptInternal();
      if ok && strict {
        GetToken();
        ok := lastToken == KEndOfInput;
      }
    }
  }

  function WithoutMark(input: bytes): bytes {
    if [0xEF, 0xBB, 0xBF] <= input then input[3..] else input
  }

  lemma {:induction false} ErrorsEndInput(s: bytes, reader: Reader)
    ensures NextToken(s, reader).0 == ParseError ==> NextToken(s, reader).1 == []
  {}
}
