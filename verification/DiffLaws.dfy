/** The operations that diff() emits, against what the two values hold at their paths. */
module DiffLaws {
  import opened Arith
  import opened Decimal
  import opened Json
  import opened Pointer
  import opened Patch
  import opened Diff

  predicate IsContainer(x: Json) {
    x.Array? || x.Object?
  }

  /** Both values have containers of the same type at the path. */
  predicate SameContainers(s: Json, t: Json, path: seq<bytes>) {
    && Select(s, path).Some? && Select(t, path).Some?
    && IsContainer(Select(s, path).value) && Kind(Select(s, path).value) == Kind(Select(t, path).value)
  }

  /**
    A replacement gives an unequal value the target's one, unless both are containers of one type; a
    removal takes out what only the source has, an addition puts in what only the target has.
   */
  predicate Local(op: Op, s: Json, t: Json) {
    match op
    case Replace(p, v) =>
      && Select(s, p).Some? && Select(t, p) == Some(v)
      && !Eq(Select(s, p).value, v) && !SameContainers(s, t, p)
    case Remove(p) =>
      p != [] && SameContainers(s, t, p[..|p| - 1]) && Select(s, p).Some? && Select(t, p).None?
    case Add(p, v) =>
      p != [] && SameContainers(s, t, p[..|p| - 1]) && Select(s, p).None? && Select(t, p) == Some(v)
    case _ => false
  }

  predicate AllLocal(ops: seq<Op>, s: Json, t: Json) {
    forall op | op in ops :: Local(op, s, t)
  }

  lemma {:induction false} SelectBelow(x: Json, tok: bytes, path: seq<bytes>)
    ensures Select(x, [tok] + path) == if HasChild(x, tok) then Select(ChildOf(x, tok), path) else None
  {
    assert ([tok] + path)[1..] == path;
  }

  lemma {:induction false} ElementToken(a: seq<Json>, i: nat)
    ensures HasChild(Array(a), ToDecimal(i)) <==> i < |a|
    ensures i < |a| ==> ChildOf(Array(a), ToDecimal(i)) == a[i]
  {
  }

  lemma {:induction false} PrefixLocal(tok: bytes, op: Op, s: Json, t: Json)
    requires HasChild(s, tok) && HasChild(t, tok) && Local(op, ChildOf(s, tok), ChildOf(t, tok))
    ensures Local(Prefix(tok, op), s, t)
  {
    var p := op.path;
    hide HasChild, ChildOf, Select, Eq;
    SelectBelow(s, tok, p);
    SelectBelow(t, tok, p);
    if !op.Replace? {
      PathSplit(tok, p);
      SelectBelow(s, tok, p[..|p| - 1]);
      SelectBelow(t, tok, p[..|p| - 1]);
    }
  }

  lemma {:induction false} PrefixAllLocal(tok: bytes, ops: seq<Op>, s: Json, t: Json)
    requires HasChild(s, tok) && HasChild(t, tok) && AllLocal(ops, ChildOf(s, tok), ChildOf(t, tok))
    ensures AllLocal(PrefixAll(tok, ops), s, t)
  {
    hide Local;
    if ops != [] {
      assert ops[0] in ops;
      PrefixLocal(tok, ops[0], s, t);
      PrefixAllLocal(tok, ops[1..], s, t);
    }
  }

  lemma {:induction false} OneToken(s: Json, t: Json, tok: bytes)
    requires IsContainer(s) && Kind(s) == Kind(t)
    ensures HasChild(s, tok) && !HasChild(t, tok) ==> Local(Remove([tok]), s, t)
    ensures !HasChild(s, tok) && HasChild(t, tok) ==> Local(Add([tok], ChildOf(t, tok)), s, t)
  {
    hide HasChild, ChildOf;
    assert [tok][..0] == [] && [tok] + [] == [tok];
    SelectBelow(s, tok, []);
    SelectBelow(t, tok, []);
  }

  lemma {:induction false} ElementOpsLocal(s: Json, t: Json, i: nat)
    requires s.Array? && t.Array?
    ensures AllLocal(ElementOps(s, t, i), s, t)
    decreases s, 0, |s.a| - i
  {
    hide Local, HasChild, ChildOf, DiffOps;
    if i < |s.a| && i < |t.a| {
      ElementToken(s.a, i);
      ElementToken(t.a, i);
      OpsLocal(s.a[i], t.a[i]);
      PrefixAllLocal(ToDecimal(i), DiffOps(s.a[i], t.a[i]), s, t);
      ElementOpsLocal(s, t, i + 1);
    }
  }

  lemma {:induction false} RemoveOpsLocal(s: Json, t: Json, n: nat)
    requires s.Array? && t.Array? && n <= |s.a|
    ensures AllLocal(RemoveOps(n, |t.a|), s, t)
    decreases n
  {
    hide Local, HasChild, ChildOf;
    if n > |t.a| {
      ElementToken(s.a, n - 1);
      ElementToken(t.a, n - 1);
      OneToken(s, t, ToDecimal(n - 1));
      RemoveOpsLocal(s, t, n - 1);
    }
  }

  lemma {:induction false} AddOpsLocal(s: Json, t: Json, i: nat)
    requires s.Array? && t.Array? && i >= |s.a|
    ensures AllLocal(AddOps(t.a, i), s, t)
    decreases |t.a| - i
  {
    hide Local, HasChild, ChildOf;
    if i < |t.a| {
      ElementToken(s.a, i);
      ElementToken(t.a, i);
      OneToken(s, t, ToDecimal(i));
      AddOpsLocal(s, t, i + 1);
    }
  }

  lemma {:induction false} KeyOpsLocal(s: Json, t: Json, keys: seq<bytes>)
    requires s.Object? && t.Object? && forall k | k in keys :: k in s.o
    ensures AllLocal(KeyOps(s, t, keys), s, t)
    decreases s, 0, |keys|
  {
    hide Local, DiffOps;
    if keys != [] {
      var k := keys[0];
      if k in t.o {
        OpsLocal(s.o[k], t.o[k]);
        PrefixAllLocal(k, DiffOps(s.o[k], t.o[k]), s, t);
      } else {
        OneToken(s, t, k);
      }
      KeyOpsLocal(s, t, keys[1..]);
    }
  }

  lemma {:induction false} NewKeyOpsLocal(s: Json, t: Json, keys: seq<bytes>)
    requires s.Object? && t.Object? && forall k | k in keys :: k in t.o
    ensures AllLocal(NewKeyOps(s.o, t.o, keys), s, t)
    decreases |keys|
  {
    hide Local;
    if keys != [] {
      if keys[0] !in s.o {
        OneToken(s, t, keys[0]);
      }
      NewKeyOpsLocal(s, t, keys[1..]);
    }
  }

  /** Every operation of a difference is local. */
  lemma {:induction false} OpsLocal(s: Json, t: Json)
    ensures AllLocal(DiffOps(s, t), s, t)
    decreases s, 1, 0
  {
    hide ElementOps, RemoveOps, AddOps, KeyOps, NewKeyOps, Sorted, Eq;
    if Eq(s, t) {
    } else if s.Array? && t.Array? {
      ElementOpsLocal(s, t, 0);
      RemoveOpsLocal(s, t, |s.a|);
      AddOpsLocal(s, t, |s.a|);
      hide Local;
    } else if s.Object? && t.Object? {
      KeyOpsLocal(s, t, Sorted(s.o.Keys));
      NewKeyOpsLocal(s, t, Sorted(t.o.Keys));
      hide Local;
    } else {
      var root: seq<bytes> := [];
      assert Local(Replace(root, t), s, t);
    }
  }

  // ---- patch documents

  function Ascii(s: string): bytes
    requires forall c | c in s :: c < 128 as char
  {
    seq(|s|, i requires 0 <= i < |s| => assert s[i] in s; Code(s[i]))
  }

  function Code(c: char): byte
    requires c < 128 as char
  {
    c as int
  }

  lemma {:induction false} Names()
    ensures KEY_OP == Ascii("op") && KEY_PATH == Ascii("path") && KEY_FROM == Ascii("from") && KEY_VALUE == Ascii("value")
    ensures NAME_ADD == Ascii("add") && NAME_REMOVE == Ascii("remove") && NAME_REPLACE == Ascii("replace")
    ensures NAME_MOVE == Ascii("move") && NAME_COPY == Ascii("copy") && NAME_TEST == Ascii("test")
  {
  }

  /** The document of an operation, literally. */
  lemma {:induction false} DocumentForm(op: Op)
    ensures var path := String(ToString(op.path));
            Encode(op) ==
            match op
            case Add(_, v) => Object(map[Ascii("op") := String(Ascii("add")), Ascii("path") := path, Ascii("value") := v])
            case Remove(_) => Object(map[Ascii("op") := String(Ascii("remove")), Ascii("path") := path])
            case Replace(_, v) => Object(map[Ascii("op") := String(Ascii("replace")), Ascii("path") := path, Ascii("value") := v])
            case Move(_, from) => Object(map[Ascii("op") := String(Ascii("move")), Ascii("path") := path, Ascii("from") := String(ToString(from))])
            case Copy(_, from) => Object(map[Ascii("op") := String(Ascii("copy")), Ascii("path") := path, Ascii("from") := String(ToString(from))])
            case Test(_, v) => Object(map[Ascii("op") := String(Ascii("test")), Ascii("path") := path, Ascii("value") := v])
  {
    Names();
    hide Ascii, ToString;
  }

  function NameOf(op: Op): bytes {
    match op
    case Add(_, _) => NAME_ADD
    case Remove(_) => NAME_REMOVE
    case Replace(_, _) => NAME_REPLACE
    case Move(_, _) => NAME_MOVE
    case Copy(_, _) => NAME_COPY
    case Test(_, _) => NAME_TEST
  }

  /** o has the given member. */
  predicate Holds(o: map<bytes, Json>, key: bytes, v: Json) {
    key in o && o[key] == v
  }

  lemma {:induction false} EncodedMembers(op: Op, o: map<bytes, Json>)
    ensures (forall k | k in Encode(op).o :: Holds(o, k, Encode(op).o[k])) <==>
            && Holds(o, KEY_OP, String(NameOf(op))) && Holds(o, KEY_PATH, String(ToString(op.path)))
            && (op.Add? || op.Replace? || op.Test? ==> Holds(o, KEY_VALUE, op.value))
            && (op.Move? || op.Copy? ==> Holds(o, KEY_FROM, String(ToString(op.from))))
  {
    KeysDiffer();
    hide ToString, Holds;
    var e := Encode(op).o;
    assert KEY_OP in e && e[KEY_OP] == String(NameOf(op));
    assert KEY_PATH in e && e[KEY_PATH] == String(ToString(op.path));
    if op.Add? || op.Replace? || op.Test? {
      assert KEY_VALUE in e && e[KEY_VALUE] == op.value;
      assert forall k | k in e :: k == KEY_OP || k == KEY_PATH || k == KEY_VALUE;
    } else if op.Move? || op.Copy? {
      assert KEY_FROM in e && e[KEY_FROM] == String(ToString(op.from));
      assert forall k | k in e :: k == KEY_OP || k == KEY_PATH || k == KEY_FROM;
    } else {
      assert forall k | k in e :: k == KEY_OP || k == KEY_PATH;
    }
  }

  /** An element of a patch is read as an operation exactly if it is an object with the members of its document. */
  lemma {:induction false} ParseExactly(val: Json, op: Op)
    ensures ParseOp(val) == Ok(op) <==>
            val.Object? && forall k | k in Encode(op).o :: Holds(val.o, k, Encode(op).o[k])
  {
    if val.Object? {
      EncodedMembers(op, val.o);
      hide Encode;
      PointerExactly(val, KEY_PATH, op.path);
      if op.Move? || op.Copy? {
        PointerExactly(val, KEY_FROM, op.from);
      }
      hide Split, ToString, PointerMember;
      ParseMembers(val, op);
    }
  }

  lemma {:induction false} ParseMembers(val: Json, op: Op)
    requires val.Object?
    ensures ParseOp(val) == Ok(op) <==>
            && Holds(val.o, KEY_OP, String(NameOf(op))) && PointerMember(val.o, KEY_PATH) == Ok(op.path)
            && (op.Add? || op.Replace? || op.Test? ==> Holds(val.o, KEY_VALUE, op.value))
            && (op.Move? || op.Copy? ==> PointerMember(val.o, KEY_FROM) == Ok(op.from))
  {
    NamesDiffer();
    hide PointerMember;
  }

  lemma {:induction false} PointerExactly(val: Json, key: bytes, path: seq<bytes>)
    ensures val.Object? ==>
              (PointerMember(val.o, key) == Ok(path) <==> key in val.o && val.o[key] == String(ToString(path)))
  {
    hide Split, ToString;
    SplitToString(path);
    if val.Object? && key in val.o && val.o[key].String? && Split(val.o[key].s) == Ok(path) {
      ToStringSplit(val.o[key].s);
    }
  }

  /** Otherwise a member is missing or of the wrong type, or the operation is unknown, or a pointer is malformed. */
  lemma {:induction false} ParseFails(val: Json)
    requires ParseOp(val).Err?
    ensures !val.Object? ==> ParseOp(val) == Err(PARSE_ERROR_104)
    ensures val.Object? ==>
              || ParseOp(val) == Err(PARSE_ERROR_105)
              || (exists key | key in [KEY_PATH, KEY_FROM] ::
                    && key in val.o && val.o[key].String? && Split(val.o[key].s).Err?
                    && ParseOp(val) == Err(Split(val.o[key].s).id))
  {
    hide Split;
    assert KEY_PATH in [KEY_PATH, KEY_FROM] && KEY_FROM in [KEY_PATH, KEY_FROM];
  }

  /** The operations of a patch act one after the other. */
  lemma {:induction false} PatchSequence(j: Json, a: seq<Json>, b: seq<Json>)
    ensures ApplyPatch(j, Array(a + b)) ==
            match ApplyPatch(j, Array(a))
            case Err(id) => Err(id)
            case Ok(k) => ApplyPatch(k, Array(b))
    decreases |a|
  {
    hide ParseOp, ApplyOp;
    if a == [] {
      assert a + b == b;
    } else {
      assert (a + b)[0] == a[0] && (a + b)[1..] == a[1..] + b;
      var op := ParseOp(a[0]);
      if op.Ok? && ApplyOp(j, op.value).Ok? {
        PatchSequence(ApplyOp(j, op.value).value, a[1..], b);
      }
    }
  }

  /** One operation by its document; anything that is no array of objects is rejected. */
  lemma {:induction false} PatchOne(j: Json, op: Op, other: Json)
    ensures ApplyPatch(j, Array([Encode(op)])) == ApplyOp(j, op)
    ensures ApplyPatch(j, Array([])) == Ok(j)
    ensures !other.Array? ==> ApplyPatch(j, other) == Err(PARSE_ERROR_104)
    ensures !other.Object? ==> ApplyPatch(j, Array([other])) == Err(PARSE_ERROR_104)
  {
    ParseEncode(op);
    hide ApplyOp, Encode;
    assert [Encode(op)][1..] == [] && [other][1..] == [];
    assert ApplyDocs(j, [Encode(op)]) == match ApplyOp(j, op) { case Err(id) => Err(id) case Ok(k) => ApplyDocs(k, [Encode(op)][1..]) };
  }
}
