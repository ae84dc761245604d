/**
  JSON Patch (RFC 6902): the operations of a patch document, one by one and all in turn.

  References into the tree become functional updates along the path of reference tokens.
 */
module Patch {
  import opened Arith
  import opened Decimal
  import opened Json
  import opened Pointer

  const ASSERTION_FAILED := -4
  const DASH: bytes := ['-' as int]

  // ---- places inside a container

  datatype Place = Member(key: bytes) | Element(index: nat)

  predicate Has(j: Json, p: Place) {
    match p
    case Member(k) => j.Object? && k in j.o
    case Element(i) => j.Array? && i < |j.a|
  }

  function Get(j: Json, p: Place): Json
    requires Has(j, p)
  {
    match p
    case Member(k) => j.o[k]
    case Element(i) => j.a[i]
  }

  function Put(j: Json, p: Place, c: Json): (r: Json)
    requires Has(j, p)
    ensures Has(r, p) && Get(r, p) == c
  {
    match p
    case Member(k) => Object(j.o[k := c])
    case Element(i) => Array(j.a[i := c])
  }

  /** One token with range check: at(). */
  function CheckedPlace(j: Json, tok: bytes): (r: Result<Place>)
    ensures r.Ok? ==> Has(j, r.value)
  {
    match j
    case Object(o) => if tok in o then Ok(Member(tok)) else Err(OUT_OF_RANGE_403)
    case Array(a) =>
      if tok == DASH then Err(OUT_OF_RANGE_402)
      else if |tok| > 1 && tok[0] == ZERO then Err(PARSE_ERROR_106)
      else
        (match ArrayIndex(tok)
         case Err(id) => Err(if id == INVALID_ARGUMENT then PARSE_ERROR_109 else id)
         case Ok(i) => if 0 <= i < |a| then Ok(Element(i)) else Err(OUT_OF_RANGE_401))
    case _ => Err(OUT_OF_RANGE_404)
  }

  /** Null turns into the container that the token asks for. */
  function Vivify(j: Json, tok: bytes): Json {
    if j.Null? then (if AllDigits(tok) || tok == DASH then Array([]) else Object(map[])) else j
  }

  function Nulls(n: nat): seq<Json> {
    seq(n, _ => Null)
  }

  /** One token without range check: operator[], which creates what is missing. */
  function OpenPlace(j0: Json, tok: bytes): (r: Result<(Json, Place)>)
    ensures r.Ok? ==> Has(r.value.0, r.value.1)
  {
    var j := Vivify(j0, tok);
    match j
    case Object(o) => Ok((if tok in o then j else Object(o[tok := Null]), Member(tok)))
    case Array(a) =>
      if |tok| > 1 && tok[0] == ZERO then Err(PARSE_ERROR_106)
      else
        (match (if tok == DASH then Ok(|a|) else ArrayIndex(tok))
         case Err(id) => Err(if id == INVALID_ARGUMENT then PARSE_ERROR_109 else id)
         case Ok(i) =>
           if i < 0 then Err(LENGTH_ERROR)
           else Ok((if i < |a| then j else Array(a + Nulls(i - |a| + 1)), Element(i))))
    case _ => Err(OUT_OF_RANGE_404)
  }

  // ---- updates along a path

  function At(j: Json, path: seq<bytes>): Result<Json>
    decreases |path|
  {
    if path == [] then Ok(j)
    else
      match CheckedPlace(j, path[0])
      case Err(id) => Err(id)
      case Ok(p) => At(Get(j, p), path[1..])
  }

  function Alter(j: Json, path: seq<bytes>, f: Json -> Result<Json>): Result<Json>
    decreases |path|
  {
    if path == [] then f(j)
    else
      match CheckedPlace(j, path[0])
      case Err(id) => Err(id)
      case Ok(p) => Lift(j, p, Alter(Get(j, p), path[1..], f))
  }

  function AlterOpen(j: Json, path: seq<bytes>, f: Json -> Result<Json>): Result<Json>
    decreases |path|
  {
    if path == [] then f(j)
    else
      match OpenPlace(j, path[0])
      case Err(id) => Err(id)
      case Ok((k, p)) => Lift(k, p, AlterOpen(Get(k, p), path[1..], f))
  }

  /** A child's outcome, put back into its container. */
  function Lift(j: Json, p: Place, r: Result<Json>): Result<Json>
    requires Has(j, p)
  {
    match r
    case Err(id) => Err(id)
    case Ok(c) => Ok(Put(j, p, c))
  }

  // ---- operations

  datatype Op =
    | Add(path: seq<bytes>, value: Json)
    | Remove(path: seq<bytes>)
    | Replace(path: seq<bytes>, value: Json)
    | Move(path: seq<bytes>, from: seq<bytes>)
    | Copy(path: seq<bytes>, from: seq<bytes>)
    | Test(path: seq<bytes>, value: Json)

  function AddChild(parent: Json, last: bytes, v: Json): Result<Json> {
    match parent
    case Null => Ok(Object(map[last := v]))
    case Object(o) => Ok(Object(o[last := v]))
    case Array(a) =>
      if last == DASH then Ok(Array(a + [v]))
      else
        (match ArrayIndex(last)
         case Err(id) => Err(id)
         case Ok(i) => if 0 <= i <= |a| then Ok(Array(a[..i] + [v] + a[i..])) else Err(OUT_OF_RANGE_401))
    case _ => Err(ASSERTION_FAILED)
  }

  function RemoveChild(parent: Json, last: bytes): Result<Json> {
    match parent
    case Object(o) => if last in o then Ok(Object(o - {last})) else Err(OUT_OF_RANGE_403)
    case Array(a) =>
      (match ArrayIndex(last)
       case Err(id) => Err(id)
       case Ok(i) => if 0 <= i < |a| then Ok(Array(a[..i] + a[i + 1..])) else Err(OUT_OF_RANGE_401))
    case _ => Ok(parent)
  }

  /** The top element of a longer pointer has to exist; below it, missing values are created. */
  function ApplyAdd(j: Json, path: seq<bytes>, v: Json, checkTop: bool): Result<Json> {
    if path == [] then Ok(v)
    else if checkTop && |path| > 1 && CheckedPlace(j, path[0]).Err? then Err(CheckedPlace(j, path[0]).id)
    else
      var last := path[|path| - 1];
      AlterOpen(j, path[..|path| - 1], p => AddChild(p, last, v))
  }

  function ApplyRemove(j: Json, path: seq<bytes>): Result<Json> {
    if path == [] then Err(OUT_OF_RANGE_405)
    else
      var last := path[|path| - 1];
      Alter(j, path[..|path| - 1], p => RemoveChild(p, last))
  }

  function ApplyReplace(j: Json, path: seq<bytes>, v: Json): Result<Json> {
    Alter(j, path, p => Ok(v))
  }

  function IsOutOfRange(id: int): bool {
    400 <= id < 500
  }

  /** One operation.  The check of the top element only concerns the whole document, so it is a parameter. */
  function ApplyOp(j: Json, op: Op, checkTop: bool := true): Result<Json> {
    match op
    case Add(path, v) => ApplyAdd(j, path, v, checkTop)
    case Remove(path) => ApplyRemove(j, path)
    case Replace(path, v) => ApplyReplace(j, path, v)
    case Move(path, from) =>
      (match At(j, from)
       case Err(id) => Err(id)
       case Ok(v) =>
         match ApplyRemove(j, from)
         case Err(id) => Err(id)
         case Ok(k) => ApplyAdd(k, path, v, checkTop))
    case Copy(path, from) =>
      (match At(j, from)
       case Err(id) => Err(id)
       case Ok(v) => ApplyAdd(j, path, v, checkTop))
    case Test(path, v) =>
      (match At(j, path)
       case Err(id) => Err(if IsOutOfRange(id) then OTHER_ERROR_501 else id)
       case Ok(w) => if Eq(w, v) then Ok(j) else Err(OTHER_ERROR_501))
  }

  function ApplyAll(j: Json, ops: seq<Op>, checkTop: bool := true): Result<Json>
    decreases |ops|
  {
    if ops == [] then Ok(j)
    else
      match ApplyOp(j, ops[0], checkTop)
      case Err(id) => Err(id)
      case Ok(k) => ApplyAll(k, ops[1..], checkTop)
  }

  // ---- patch documents

  const KEY_OP: bytes := ['o' as int, 'p' as int]
  const KEY_PATH: bytes := ['p' as int, 'a' as int, 't' as int, 'h' as int]
  const KEY_FROM: bytes := ['f' as int, 'r' as int, 'o' as int, 'm' as int]
  const KEY_VALUE: bytes := ['v' as int, 'a' as int, 'l' as int, 'u' as int, 'e' as int]
  const NAME_ADD: bytes := ['a' as int, 'd' as int, 'd' as int]
  const NAME_REMOVE: bytes := ['r' as int, 'e' as int, 'm' as int, 'o' as int, 'v' as int, 'e' as int]
  const NAME_REPLACE: bytes := ['r' as int, 'e' as int, 'p' as int, 'l' as int, 'a' as int, 'c' as int, 'e' as int]
  const NAME_MOVE: bytes := ['m' as int, 'o' as int, 'v' as int, 'e' as int]
  const NAME_COPY: bytes := ['c' as int, 'o' as int, 'p' as int, 'y' as int]
  const NAME_TEST: bytes := ['t' as int, 'e' as int, 's' as int, 't' as int]

  function StringMember(o: map<bytes, Json>, key: bytes): Result<bytes> {
    if key in o && o[key].String? then Ok(o[key].s) else Err(PARSE_ERROR_105)
  }

  function PointerMember(o: map<bytes, Json>, key: bytes): Result<seq<bytes>> {
    match StringMember(o, key)
    case Err(id) => Err(id)
    case Ok(s) => Split(s)
  }

  /** The operation that an element of a patch document describes. */
  function ParseOp(val: Json): Result<Op> {
    if !val.Object? then Err(PARSE_ERROR_104)
    else
      var o := val.o;
      match StringMember(o, KEY_OP)
      case Err(id) => Err(id)
      case Ok(name) =>
        match PointerMember(o, KEY_PATH)
        case Err(id) => Err(id)
        case Ok(path) =>
          if name == NAME_ADD || name == NAME_REPLACE || name == NAME_TEST then
            if KEY_VALUE !in o then Err(PARSE_ERROR_105)
            else if name == NAME_ADD then Ok(Add(path, o[KEY_VALUE]))
            else if name == NAME_REPLACE then Ok(Replace(path, o[KEY_VALUE]))
            else Ok(Test(path, o[KEY_VALUE]))
          else if name == NAME_REMOVE then Ok(Remove(path))
          else if name == NAME_MOVE || name == NAME_COPY then
            match PointerMember(o, KEY_FROM)
            case Err(id) => Err(id)
            case Ok(from) => Ok(if name == NAME_MOVE then Move(path, from) else Copy(path, from))
          else Err(PARSE_ERROR_105)
  }

  function ApplyDocs(j: Json, docs: seq<Json>): Result<Json>
    decreases |docs|
  {
    if docs == [] then Ok(j)
    else
      match ParseOp(docs[0])
      case Err(id) => Err(id)
      case Ok(op) =>
        match ApplyOp(j, op)
        case Err(id) => Err(id)
        case Ok(k) => ApplyDocs(k, docs[1..])
  }

  function ApplyPatch(j: Json, patch: Json): Result<Json> {
    if patch.Array? then ApplyDocs(j, patch.a) else Err(PARSE_ERROR_104)
  }

  /** The loop over the document, on a working copy. */
  method PatchValue(source: Json, patch: Json) returns (r: Result<Json>)
    ensures r == ApplyPatch(source, patch)
  {
    if !patch.Array? {
      return Err(PARSE_ERROR_104);
    }
    var result := source;
    for i := 0 to |patch.a|
      invariant ApplyDocs(result, patch.a[i..]) == ApplyDocs(source, patch.a)
    {
      assert patch.a[i..][1..] == patch.a[i + 1..];
      var op := ParseOp(patch.a[i]);
      if op.Err? {
        return Err(op.id);
      }
      var next := ApplyOp(result, op.value);
      if next.Err? {
        return next;
      }
      result := next.value;
    }
    return Ok(result);
  }
}
