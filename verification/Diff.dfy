/**
  diff() and its law: patching the source with the difference gives the target, exactly when the target
  holds no NaN and no array index on a changed path exceeds the range of int.
 */
module Diff {
  import opened Arith
  import opened Decimal
  import opened Json
  import opened Pointer
  import opened Patch
  import Doubles

  // ---- the operations that diff() emits, with paths relative to the two values

  function Prefix(tok: bytes, op: Op): Op {
    op.(path := [tok] + op.path)
  }

  function PrefixAll(tok: bytes, ops: seq<Op>): (r: seq<Op>)
    ensures |r| == |ops|
  {
    if ops == [] then [] else [Prefix(tok, ops[0])] + PrefixAll(tok, ops[1..])
  }

  /** value_t of a value. */
  function Kind(x: Json): nat {
    match x
    case Null => 0
    case Object(_) => 1
    case Array(_) => 2
    case String(_) => 3
    case Bool(_) => 4
    case Integer(_) => 5
    case Unsigned(_) => 6
    case Float(_) => 7
  }

  function DiffOps(s: Json, t: Json): seq<Op>
    decreases s, 1, 0
  {
    if Eq(s, t) then []
    else if Kind(s) != Kind(t) then [Replace([], t)]
    else
      match s
      case Array(a) => ElementOps(s, t, 0) + RemoveOps(|a|, |t.a|) + AddOps(t.a, |a|)
      case Object(o) => KeyOps(s, t, Sorted(o.Keys)) + NewKeyOps(o, t.o, Sorted(t.o.Keys))
      case _ => [Replace([], t)]
  }

  /** First pass over arrays: the common indices from i on. */
  function ElementOps(s: Json, t: Json, i: nat): seq<Op>
    requires s.Array? && t.Array?
    decreases s, 0, |s.a| - i
  {
    if i >= |s.a| || i >= |t.a| then []
    else PrefixAll(ToDecimal(i), DiffOps(s.a[i], t.a[i])) + ElementOps(s, t, i + 1)
  }

  /** Indices n - 1 down to m. */
  function RemoveOps(n: nat, m: nat): seq<Op> {
    if n <= m then [] else [Remove([ToDecimal(n - 1)])] + RemoveOps(n - 1, m)
  }

  function AddOps(t: seq<Json>, i: nat): seq<Op>
    decreases |t| - i
  {
    if i >= |t| then [] else [Add([ToDecimal(i)], t[i])] + AddOps(t, i + 1)
  }

  /** First pass over objects: the source's keys. */
  function KeyOps(s: Json, t: Json, keys: seq<bytes>): seq<Op>
    requires s.Object? && t.Object? && forall k | k in keys :: k in s.o
    decreases s, 0, |keys|
  {
    if keys == [] then []
    else
      var k := keys[0];
      (if k in t.o then PrefixAll(k, DiffOps(s.o[k], t.o[k])) else [Remove([k])]) + KeyOps(s, t, keys[1..])
  }

  /** Second pass over objects: the target's keys that the source lacks. */
  function NewKeyOps(s: map<bytes, Json>, t: map<bytes, Json>, keys: seq<bytes>): seq<Op>
    requires forall k | k in keys :: k in t
  {
    if keys == [] then []
    else (if keys[0] in s then [] else [Add([keys[0]], t[keys[0]])]) + NewKeyOps(s, t, keys[1..])
  }

  // ---- locality: operations below a token act on the child

  /** Operations that replace a value or work on the inside of it. */
  predicate Nested(op: Op) {
    match op
    case Add(path, _) => path != []
    case Remove(path) => path != []
    case Replace(_, _) => true
    case _ => false
  }

  lemma {:induction false} CheckedIsOpen(j: Json, tok: bytes)
    requires CheckedPlace(j, tok).Ok?
    ensures OpenPlace(j, tok) == Ok((j, CheckedPlace(j, tok).value))
  {}

  lemma {:induction false} PlaceAfterPut(j: Json, tok: bytes, c: Json)
    requires CheckedPlace(j, tok).Ok?
    ensures CheckedPlace(Put(j, CheckedPlace(j, tok).value, c), tok) == CheckedPlace(j, tok)
  {}

  lemma {:induction false} PathSplit(tok: bytes, path: seq<bytes>)
    requires path != []
    ensures var p := [tok] + path;
            && p[|p| - 1] == path[|path| - 1]
            && p[..|p| - 1] == [tok] + path[..|path| - 1]
            && ([tok] + path[..|path| - 1])[1..] == path[..|path| - 1]
            && p[1..] == path
  {}

  lemma {:induction false} LiftOne(j: Json, tok: bytes, op: Op, checkTop: bool)
    requires Nested(op) && CheckedPlace(j, tok).Ok?
    ensures var p := CheckedPlace(j, tok).value;
            ApplyOp(j, Prefix(tok, op), checkTop) == Lift(j, p, ApplyOp(Get(j, p), op, false))
  {
    CheckedIsOpen(j, tok);
    if op.path != [] {
      PathSplit(tok, op.path);
    }
    assert ([tok] + op.path)[1..] == op.path;
    hide CheckedPlace, OpenPlace;
    match op
    case Add(path, v) =>
      var last := path[|path| - 1];
      assert ([tok] + path)[|path|] == last;
    case Remove(path) =>
    case Replace(path, v) =>
  }

  lemma {:induction false} LiftAll(j: Json, tok: bytes, ops: seq<Op>, checkTop: bool)
    requires (forall op | op in ops :: Nested(op)) && CheckedPlace(j, tok).Ok?
    ensures var p := CheckedPlace(j, tok).value;
            ApplyAll(j, PrefixAll(tok, ops), checkTop) == Lift(j, p, ApplyAll(Get(j, p), ops, false))
    decreases |ops|
  {
    var p := CheckedPlace(j, tok).value;
    var c := Get(j, p);
    if ops == [] {
      assert Put(j, p, c) == j by {
        match p
        case Member(k) => assert j.o[k := c] == j.o;
        case Element(i) => assert j.a[i := c] == j.a;
      }
    } else {
      LiftOne(j, tok, ops[0], checkTop);
      assert PrefixAll(tok, ops)[1..] == PrefixAll(tok, ops[1..]);
      var r := ApplyOp(c, ops[0], false);
      if r.Ok? {
        PlaceAfterPut(j, tok, r.value);
        LiftAll(Put(j, p, r.value), tok, ops[1..], checkTop);
        hide ApplyOp, CheckedPlace;
        PutTwice(j, p, r.value, ApplyAll(r.value, ops[1..], false));
      }
    }
  }

  lemma {:induction false} PutTwice(j: Json, p: Place, c: Json, r: Result<Json>)
    requires Has(j, p)
    ensures Lift(Put(j, p, c), p, r) == Lift(j, p, r)
  {
    if r.Ok? {
      match p
      case Member(k) => assert j.o[k := c][k := r.value] == j.o[k := r.value];
      case Element(i) => assert j.a[i := c][i := r.value] == j.a[i := r.value];
    }
  }

  lemma {:induction false} ApplyAllConcat(j: Json, a: seq<Op>, b: seq<Op>, checkTop: bool)
    ensures ApplyAll(j, a + b, checkTop) ==
            match ApplyAll(j, a, checkTop)
            case Err(id) => Err(id)
            case Ok(k) => ApplyAll(k, b, checkTop)
    decreases |a|
  {
    hide ApplyOp;
    if a == [] {
      assert a + b == b;
    } else {
      assert (a + b)[1..] == a[1..] + b;
      var r := ApplyOp(j, a[0], checkTop);
      if r.Ok? {
        ApplyAllConcat(r.value, a[1..], b, checkTop);
      }
    }
  }

  // ---- when every index on a changed path is an int

  predicate Indexable(s: Json, t: Json) {
    Eq(s, t) ||
    match (s, t)
    case (Array(a), Array(b)) =>
      && (forall i | 0 <= i < |a| && i < |b| :: Eq(a[i], b[i]) || (i <= INT_MAX && Indexable(a[i], b[i])))
      && (|a| > |b| ==> |a| - 1 <= INT_MAX)
      && (|a| < |b| ==> |b| - 1 <= INT_MAX)
    case (Object(o), Object(p)) => forall k | k in o && k in p :: Indexable(o[k], p[k])
    case _ => true
  }

  ghost predicate IndexableAt(a: seq<Json>, b: seq<Json>, i: nat)
    requires i < |a| && i < |b|
  {
    Eq(a[i], b[i]) || (i <= INT_MAX && Indexable(a[i], b[i]))
  }

  /** The outcome of the patch: the target, or an exception when an index does not fit. */
  ghost predicate Outcome(r: Result<Json>, s: Json, t: Json) {
    if Indexable(s, t) then r.Ok? && Eq(r.value, t) else r.Err?
  }

  lemma {:induction false} OpsNested(s: Json, t: Json)
    ensures forall op | op in DiffOps(s, t) :: Nested(op)
    decreases s, 1, 0
  {
    if !Eq(s, t) && Kind(s) == Kind(t) {
      match s
      case Array(a) =>
        ElementOpsNested(s, t, 0);
        RemoveOpsNested(|a|, |t.a|);
        AddOpsNested(t.a, |a|);
      case Object(o) =>
        KeyOpsNested(s, t, Sorted(o.Keys));
        NewKeyOpsNested(o, t.o, Sorted(t.o.Keys));
      case _ =>
    }
  }

  lemma {:induction false} PrefixNested(tok: bytes, ops: seq<Op>)
    requires forall op | op in ops :: Nested(op)
    ensures forall op | op in PrefixAll(tok, ops) :: Nested(op)
  {
    if ops != [] {
      assert Nested(ops[0]);
      PrefixNested(tok, ops[1..]);
    }
  }

  lemma {:induction false} ElementOpsNested(s: Json, t: Json, i: nat)
    requires s.Array? && t.Array?
    ensures forall op | op in ElementOps(s, t, i) :: Nested(op)
    decreases s, 0, |s.a| - i
  {
    if i < |s.a| && i < |t.a| {
      OpsNested(s.a[i], t.a[i]);
      PrefixNested(ToDecimal(i), DiffOps(s.a[i], t.a[i]));
      ElementOpsNested(s, t, i + 1);
    }
  }

  lemma {:induction false} RemoveOpsNested(n: nat, m: nat)
    ensures forall op | op in RemoveOps(n, m) :: Nested(op)
  {
    if n > m {
      RemoveOpsNested(n - 1, m);
    }
  }

  lemma {:induction false} AddOpsNested(t: seq<Json>, i: nat)
    ensures forall op | op in AddOps(t, i) :: Nested(op)
    decreases |t| - i
  {
    if i < |t| {
      AddOpsNested(t, i + 1);
    }
  }

  lemma {:induction false} KeyOpsNested(s: Json, t: Json, keys: seq<bytes>)
    requires s.Object? && t.Object? && forall k | k in keys :: k in s.o
    ensures forall op | op in KeyOps(s, t, keys) :: Nested(op)
    decreases s, 0, |keys|
  {
    if keys != [] {
      var k := keys[0];
      if k in t.o {
        OpsNested(s.o[k], t.o[k]);
        PrefixNested(k, DiffOps(s.o[k], t.o[k]));
      }
      KeyOpsNested(s, t, keys[1..]);
    }
  }

  lemma {:induction false} NewKeyOpsNested(s: map<bytes, Json>, t: map<bytes, Json>, keys: seq<bytes>)
    requires forall k | k in keys :: k in t
    ensures forall op | op in NewKeyOps(s, t, keys) :: Nested(op)
  {
    if keys != [] {
      NewKeyOpsNested(s, t, keys[1..]);
    }
  }

  // ---- the law, by induction on the source

  /** diff() emits nothing exactly for equal values. */
  lemma {:induction false} SomeOps(s: Json, t: Json)
    ensures DiffOps(s, t) == [] <==> Eq(s, t)
    decreases s, 1, 0
  {
    if !Eq(s, t) && Kind(s) == Kind(t) {
      match s
      case Array(_) => SomeElementOps(s, t);
      case Object(_) => SomeMemberOps(s, t);
      case _ =>
    }
  }

  lemma {:induction false} SomeElementOps(s: Json, t: Json)
    requires s.Array? && t.Array? && !Eq(s, t)
    ensures ElementOps(s, t, 0) + RemoveOps(|s.a|, |t.a|) + AddOps(t.a, |s.a|) != []
    decreases s, 0, |s.a| + 1
  {
    if |s.a| == |t.a| {
      EqArrays(s, t);
      var i :| 0 <= i < |s.a| && !Eq(s.a[i], t.a[i]);
      SomeOps(s.a[i], t.a[i]);
      ElementOpsAt(s, t, 0, i);
    }
  }

  lemma {:induction false} ElementOpsAt(s: Json, t: Json, j: nat, i: nat)
    requires s.Array? && t.Array? && j <= i < |s.a| && i < |t.a| && DiffOps(s.a[i], t.a[i]) != []
    ensures ElementOps(s, t, j) != []
    decreases i - j
  {
    hide DiffOps;
    if j < i {
      ElementOpsAt(s, t, j + 1, i);
    }
  }

  lemma {:induction false} SomeMemberOps(s: Json, t: Json)
    requires s.Object? && t.Object? && !Eq(s, t)
    ensures KeyOps(s, t, Sorted(s.o.Keys)) + NewKeyOps(s.o, t.o, Sorted(t.o.Keys)) != []
    decreases s, 0, |s.o.Keys| + 1
  {
    hide KeyOps, NewKeyOps, DiffOps, Sorted, Eq;
    EqObjects(s, t);
    if k :| k in t.o && k !in s.o {
      NewKeyOpsAt(s.o, t.o, Sorted(t.o.Keys), k);
    } else {
      assert s.o.Keys == t.o.Keys || exists k :: k in s.o && k !in t.o;
      var k :| k in s.o && (k in t.o ==> !Eq(s.o[k], t.o[k]));
      if k in t.o {
        SomeOps(s.o[k], t.o[k]);
      }
      KeyOpsAt(s, t, Sorted(s.o.Keys), k);
    }
  }

  lemma {:induction false} KeyOpsAt(s: Json, t: Json, keys: seq<bytes>, k: bytes)
    requires s.Object? && t.Object? && (forall k | k in keys :: k in s.o)
    requires k in keys && (k in t.o ==> DiffOps(s.o[k], t.o[k]) != [])
    ensures KeyOps(s, t, keys) != []
    decreases |keys|
  {
    hide DiffOps;
    if keys[0] != k {
      KeyOpsAt(s, t, keys[1..], k);
    }
  }

  lemma {:induction false} NewKeyOpsAt(s: map<bytes, Json>, t: map<bytes, Json>, keys: seq<bytes>, k: bytes)
    requires (forall k | k in keys :: k in t) && k in keys && k !in s
    ensures NewKeyOps(s, t, keys) != []
  {
    if keys[0] != k {
      NewKeyOpsAt(s, t, keys[1..], k);
    }
  }

  lemma {:induction false} IndexPlace(a: seq<Json>, i: nat)
    requires i < |a|
    ensures CheckedPlace(Array(a), ToDecimal(i)) == if i <= INT_MAX then Ok(Element(i)) else Err(STD_OUT_OF_RANGE)
  {
    IndexToken(i);
  }

  lemma {:induction false} NothingToApply(j: Json, checkTop: bool)
    ensures ApplyAll(j, [], checkTop) == Ok(j)
  {
    hide ApplyOp;
  }

  lemma {:induction false} ApplyFirst(j: Json, op: Op, ops: seq<Op>, checkTop: bool)
    ensures ApplyAll(j, [op] + ops, checkTop) ==
            match ApplyOp(j, op, checkTop)
            case Err(id) => Err(id)
            case Ok(k) => ApplyAll(k, ops, checkTop)
  {
    hide ApplyOp;
    assert ([op] + ops)[1..] == ops;
  }

  lemma {:induction false} RemoveLast(a: seq<Json>, checkTop: bool)
    requires a != []
    ensures ApplyOp(Array(a), Remove([ToDecimal(|a| - 1)]), checkTop) ==
            if |a| - 1 <= INT_MAX then Ok(Array(a[..|a| - 1])) else Err(STD_OUT_OF_RANGE)
  {
    hide ArrayIndex, ToDecimal;
    var n := |a| - 1;
    var op := Remove([ToDecimal(n)]);
    IndexToken(n);
    assert op.path[..0] == [];
    assert ApplyOp(Array(a), op, checkTop) == RemoveChild(Array(a), ToDecimal(n));
    assert a[..n] + a[n + 1..] == a[..n];
  }

  /** Removing the last elements, from the end. */
  lemma {:induction false} RemoveTail(a: seq<Json>, m: nat, checkTop: bool)
    requires m <= |a|
    ensures ApplyAll(Array(a), RemoveOps(|a|, m), checkTop) ==
            if m == |a| || |a| - 1 <= INT_MAX then Ok(Array(a[..m])) else Err(STD_OUT_OF_RANGE)
    decreases |a|
  {
    hide ApplyOp, ToDecimal, ApplyAll;
    if m == |a| {
      NothingToApply(Array(a), checkTop);
      assert a[..m] == a;
    } else {
      var n := |a| - 1;
      RemoveLast(a, checkTop);
      ApplyFirst(Array(a), Remove([ToDecimal(n)]), RemoveOps(n, m), checkTop);
      if n <= INT_MAX {
        RemoveTail(a[..n], m, checkTop);
        assert a[..n][..m] == a[..m];
      }
    }
  }

  lemma {:induction false} AddLast(a: seq<Json>, v: Json, checkTop: bool)
    ensures ApplyOp(Array(a), Add([ToDecimal(|a|)], v), checkTop) ==
            if |a| <= INT_MAX then Ok(Array(a + [v])) else Err(STD_OUT_OF_RANGE)
  {
    hide ArrayIndex, ToDecimal;
    var n := |a|;
    var op := Add([ToDecimal(n)], v);
    IndexToken(n);
    assert op.path[..0] == [];
    assert ApplyOp(Array(a), op, checkTop) == AddChild(Array(a), ToDecimal(n), v);
    assert a[..n] + [v] + a[n..] == a + [v];
  }

  /** Adding the missing elements at the end. */
  lemma {:induction false} AddTail(a: seq<Json>, t: seq<Json>, checkTop: bool)
    requires |a| <= |t|
    ensures ApplyAll(Array(a), AddOps(t, |a|), checkTop) ==
            if |a| == |t| || |t| - 1 <= INT_MAX then Ok(Array(a + t[|a|..])) else Err(STD_OUT_OF_RANGE)
    decreases |t| - |a|
  {
    hide ApplyOp, ToDecimal, ApplyAll;
    var n := |a|;
    if n == |t| {
      NothingToApply(Array(a), checkTop);
      assert a + t[n..] == a;
    } else {
      AddLast(a, t[n], checkTop);
      ApplyFirst(Array(a), Add([ToDecimal(n)], t[n]), AddOps(t, n + 1), checkTop);
      if n <= INT_MAX {
        AddTail(a + [t[n]], t, checkTop);
        assert (a + [t[n]]) + t[n + 1..] == a + t[n..];
      }
    }
  }

  /** An index that is no int makes every operation on or below it fail. */
  lemma {:induction false} BadIndex(a: seq<Json>, i: nat, op: Op, checkTop: bool)
    requires Nested(op) && INT_MAX < i < |a|
    ensures ApplyOp(Array(a), Prefix(ToDecimal(i), op), checkTop).Err?
  {
    IndexPlace(a, i);
    IndexToken(i);
    if op.path != [] {
      PathSplit(ToDecimal(i), op.path);
    }
    assert ([ToDecimal(i)] + op.path)[1..] == op.path;
  }

  ghost predicate ElementsDone(r: Result<Json>, a: seq<Json>, s: seq<Json>, t: seq<Json>, i: nat)
    requires |a| == |s|
  {
    var m := if |s| <= |t| then |s| else |t|;
    if forall j | i <= j < m :: IndexableAt(s, t, j) then
      && r.Ok? && r.value.Array? && |r.value.a| == |a|
      && (forall j | 0 <= j < |a| && (j < i || j >= m) :: r.value.a[j] == a[j])
      && (forall j | i <= j < m :: Eq(r.value.a[j], t[j]))
    else r.Err?
  }

  lemma {:induction false} ElementPass(s: Json, t: Json, a: seq<Json>, i: nat, checkTop: bool)
    requires s.Array? && t.Array? && NoNaN(t)
    requires |a| == |s.a| && forall j | i <= j < |a| :: a[j] == s.a[j]
    ensures ElementsDone(ApplyAll(Array(a), ElementOps(s, t, i), checkTop), a, s.a, t.a, i)
    decreases s, 0, |s.a| - i
  {
    hide DiffOps, ApplyOp, Indexable, IndexableAt, NoNaN, Eq;
    if i < |s.a| && i < |t.a| {
      var ops := PrefixAll(ToDecimal(i), DiffOps(s.a[i], t.a[i]));
      var end := ApplyAll(Array(a), ElementOps(s, t, i), checkTop);
      ApplyAllConcat(Array(a), ops, ElementOps(s, t, i + 1), checkTop);
      ElementChild(s, t, a, i, checkTop);
      var r := ApplyAll(Array(a), ops, checkTop);
      if IndexableAt(s.a, t.a, i) {
        ElementPass(s, t, r.value.a, i + 1, checkTop);
        ElementStep(end, a, r.value.a, s.a, t.a, i);
      }
    }
  }

  lemma {:induction false} ElementChild(s: Json, t: Json, a: seq<Json>, i: nat, checkTop: bool)
    requires s.Array? && t.Array? && NoNaN(t) && i < |s.a| && i < |t.a|
    requires |a| == |s.a| && a[i] == s.a[i]
    ensures var r := ApplyAll(Array(a), PrefixAll(ToDecimal(i), DiffOps(s.a[i], t.a[i])), checkTop);
            if IndexableAt(s.a, t.a, i) then
              && r.Ok? && r.value.Array? && |r.value.a| == |a| && r.value.a == a[i := r.value.a[i]]
              && Eq(r.value.a[i], t.a[i])
            else r.Err?
    decreases s, 0, |s.a| - i, 0
  {
    var x, y, tok := s.a[i], t.a[i], ToDecimal(i);
    var ops := DiffOps(x, y);
    hide NoNaN;
    if Eq(x, y) {
      assert a == a[i := a[i]];
    } else if i > INT_MAX {
      OpsNested(x, y);
      SomeOps(x, y);
      BadIndex(a, i, ops[0], checkTop);
      assert PrefixAll(tok, ops)[0] == Prefix(tok, ops[0]);
    } else {
      Law(x, y, false);
      OpsNested(x, y);
      IndexPlace(a, i);
      LiftAll(Array(a), tok, ops, checkTop);
    }
  }

  lemma {:induction false} ElementStep(r: Result<Json>, a: seq<Json>, a': seq<Json>, s: seq<Json>, t: seq<Json>, i: nat)
    requires |a| == |s| == |a'| && i < |s| && i < |t| && a' == a[i := a'[i]]
    requires IndexableAt(s, t, i) && Eq(a'[i], t[i])
    requires ElementsDone(r, a', s, t, i + 1)
    ensures ElementsDone(r, a, s, t, i)
  {
    hide Eq, IndexableAt;
    var m := if |s| <= |t| then |s| else |t|;
    assert (forall j | i <= j < m :: IndexableAt(s, t, j)) <==> (forall j | i + 1 <= j < m :: IndexableAt(s, t, j));
  }

  /** The second and third pass over arrays: cut the tail off, or append the rest. */
  lemma {:induction false} TailPass(a: seq<Json>, t: seq<Json>, n: nat, checkTop: bool)
    requires |a| == n
    ensures ApplyAll(Array(a), RemoveOps(n, |t|) + AddOps(t, n), checkTop) ==
            if (n > |t| && n - 1 > INT_MAX) || (n < |t| && |t| - 1 > INT_MAX) then Err(STD_OUT_OF_RANGE)
            else Ok(Array(if n >= |t| then a[..|t|] else a + t[n..]))
  {
    hide ApplyOp;
    ApplyAllConcat(Array(a), RemoveOps(n, |t|), AddOps(t, n), checkTop);
    if n >= |t| {
      RemoveTail(a, |t|, checkTop);
      assert AddOps(t, n) == [];
    } else {
      assert RemoveOps(n, |t|) == [];
      AddTail(a, t, checkTop);
    }
  }

  lemma {:induction false} IndexableArrays(s: Json, t: Json)
    requires s.Array? && t.Array? && !Eq(s, t)
    ensures var n, m := |s.a|, |t.a|;
            Indexable(s, t) <==>
            && (forall i | 0 <= i < n && i < m :: IndexableAt(s.a, t.a, i))
            && !(n > m && n - 1 > INT_MAX) && !(n < m && m - 1 > INT_MAX)
  {
    assert forall i | 0 <= i < |s.a| && i < |t.a| ::
        IndexableAt(s.a, t.a, i) <==> Eq(s.a[i], t.a[i]) || (i <= INT_MAX && Indexable(s.a[i], t.a[i]));
    assert (forall i | 0 <= i < |s.a| && i < |t.a| :: IndexableAt(s.a, t.a, i)) <==>
           (forall i | 0 <= i < |s.a| && i < |t.a| :: Eq(s.a[i], t.a[i]) || (i <= INT_MAX && Indexable(s.a[i], t.a[i])));
  }

  lemma {:induction false} ArrayOutcome(r: Result<Json>, end: Result<Json>, s: Json, t: Json)
    requires s.Array? && t.Array? && NoNaN(t) && !Eq(s, t)
    requires ElementsDone(r, s.a, s.a, t.a, 0)
    requires match r
             case Err(_) => end.Err?
             case Ok(v) =>
               var n, m := |s.a|, |t.a|;
               if (n > m && n - 1 > INT_MAX) || (n < m && m - 1 > INT_MAX) then end.Err?
               else end == Ok(Array(if n >= m then v.a[..m] else v.a + t.a[n..]))
    ensures Outcome(end, s, t)
  {
    IndexableArrays(s, t);
    forall j | 0 <= j < |t.a| ensures Eq(t.a[j], t.a[j]) {
      EqReflexive(t.a[j]);
    }
    hide Indexable, IndexableAt, NoNaN, Eq;
    if Indexable(s, t) {
      forall i | 0 <= i < |t.a| ensures Eq(end.value.a[i], t.a[i]) {
        assert i < |s.a| ==> end.value.a[i] == r.value.a[i];
      }
      EqArrays(end.value, t);
    } else if (forall i | 0 <= i < |s.a| && i < |t.a| :: IndexableAt(s.a, t.a, i)) {
      assert end.Err?;
    } else {
      assert r.Err?;
    }
  }

  lemma {:induction false} ArrayOps(s: Json, t: Json, checkTop: bool)
    requires s.Array? && t.Array? && !Eq(s, t)
    ensures ApplyAll(s, DiffOps(s, t), checkTop) ==
            match ApplyAll(s, ElementOps(s, t, 0), checkTop)
            case Err(id) => Err(id)
            case Ok(k) => ApplyAll(k, RemoveOps(|s.a|, |t.a|) + AddOps(t.a, |s.a|), checkTop)
  {
    hide ApplyAll, ElementOps, RemoveOps, AddOps, Eq;
    var first, remove, add := ElementOps(s, t, 0), RemoveOps(|s.a|, |t.a|), AddOps(t.a, |s.a|);
    ApplyAllConcat(s, first, remove + add, checkTop);
    assert DiffOps(s, t) == first + remove + add;
    assert first + remove + add == first + (remove + add);
  }

  lemma {:induction false} ArrayLaw(s: Json, t: Json, checkTop: bool)
    requires s.Array? && t.Array? && NoNaN(t) && !Eq(s, t)
    ensures Outcome(ApplyAll(s, DiffOps(s, t), checkTop), s, t)
    decreases s, 0, |s.a| + 1
  {
    hide ApplyAll, DiffOps, ElementOps, RemoveOps, AddOps, Indexable, IndexableAt, NoNaN, Eq, Outcome;
    ElementPass(s, t, s.a, 0, checkTop);
    ArrayOps(s, t, checkTop);
    var r := ApplyAll(s, ElementOps(s, t, 0), checkTop);
    if r.Ok? {
      TailPass(r.value.a, t.a, |s.a|, checkTop);
    }
    ArrayOutcome(r, ApplyAll(s, DiffOps(s, t), checkTop), s, t);
  }

  ghost predicate KeysDone(r: Result<Json>, m: map<bytes, Json>, s: map<bytes, Json>, t: map<bytes, Json>, keys: seq<bytes>)
    requires forall k | k in keys :: k in s && k in m
  {
    if forall k | k in keys && k in t :: Indexable(s[k], t[k]) then
      && r.Ok? && r.value.Object?
      && (forall k :: k in r.value.o <==> k in m && (k in keys ==> k in t))
      && (forall k | k in r.value.o :: if k in keys then Eq(r.value.o[k], t[k]) else r.value.o[k] == m[k])
    else r.Err?
  }

  lemma {:induction false} RemoveMember(m: map<bytes, Json>, k: bytes, checkTop: bool)
    requires k in m
    ensures ApplyAll(Object(m), [Remove([k])], checkTop) == Ok(Object(m - {k}))
  {
    var op := Remove([k]);
    assert [op][1..] == [] && op.path[..0] == [];
    assert ApplyOp(Object(m), op, checkTop) == RemoveChild(Object(m), k);
  }

  lemma {:induction false} AddMember(m: map<bytes, Json>, k: bytes, v: Json, checkTop: bool)
    ensures ApplyAll(Object(m), [Add([k], v)], checkTop) == Ok(Object(m[k := v]))
  {
    var op := Add([k], v);
    assert [op][1..] == [] && op.path[..0] == [];
    assert ApplyOp(Object(m), op, checkTop) == AddChild(Object(m), k, v);
  }

  lemma {:induction false} KeyPass(s: Json, t: Json, m: map<bytes, Json>, keys: seq<bytes>, checkTop: bool)
    requires s.Object? && t.Object? && NoNaN(t)
    requires forall k | k in keys :: k in s.o && k in m && m[k] == s.o[k]
    requires Distinct(keys)
    ensures KeysDone(ApplyAll(Object(m), KeyOps(s, t, keys), checkTop), m, s.o, t.o, keys)
    decreases s, 0, |keys|
  {
    if keys != [] {
      var k, rest := keys[0], keys[1..];
      var first := if k in t.o then PrefixAll(k, DiffOps(s.o[k], t.o[k])) else [Remove([k])];
      ApplyAllConcat(Object(m), first, KeyOps(s, t, rest), checkTop);
      var m' := m - {k};
      if k in t.o {
        Law(s.o[k], t.o[k], false);
        OpsNested(s.o[k], t.o[k]);
        LiftAll(Object(m), k, DiffOps(s.o[k], t.o[k]), checkTop);
        var r := ApplyAll(s.o[k], DiffOps(s.o[k], t.o[k]), false);
        if r.Err? {
          assert k in keys && !Indexable(s.o[k], t.o[k]);
          return;
        }
        m' := m[k := r.value];
      } else {
        RemoveMember(m, k, checkTop);
      }
      KeyPass(s, t, m', rest, checkTop);
      KeyStep(ApplyAll(Object(m), KeyOps(s, t, keys), checkTop), m, m', s.o, t.o, keys);
    }
  }

  lemma {:induction false} KeyStep(r: Result<Json>, m: map<bytes, Json>, m': map<bytes, Json>, s: map<bytes, Json>, t: map<bytes, Json>, keys: seq<bytes>)
    requires keys != [] && (forall k | k in keys :: k in s && k in m)
    requires Distinct(keys)
    requires if keys[0] in t then
               keys[0] in m' && m' == m[keys[0] := m'[keys[0]]] && Eq(m'[keys[0]], t[keys[0]]) && Indexable(s[keys[0]], t[keys[0]])
             else m' == m - {keys[0]}
    requires (forall k | k in keys[1..] :: k in s && k in m') && KeysDone(r, m', s, t, keys[1..])
    ensures KeysDone(r, m, s, t, keys)
  {
    hide Eq, Indexable;
    var k0, rest := keys[0], keys[1..];
    assert k0 !in rest;
    assert forall k :: k in keys <==> k == k0 || k in rest;
  }

  lemma {:induction false} NewKeyPass(s: map<bytes, Json>, t: map<bytes, Json>, m: map<bytes, Json>, keys: seq<bytes>, checkTop: bool)
    requires forall k | k in keys :: k in t
    ensures var r := ApplyAll(Object(m), NewKeyOps(s, t, keys), checkTop);
            && r.Ok? && r.value.Object?
            && (forall k :: k in r.value.o <==> k in m || (k in keys && k !in s))
            && (forall k | k in r.value.o :: r.value.o[k] == if k in keys && k !in s then t[k] else m[k])
    decreases |keys|
  {
    if keys != [] {
      var k := keys[0];
      var first := if k in s then [] else [Add([k], t[k])];
      var m' := if k in s then m else m[k := t[k]];
      ApplyAllConcat(Object(m), first, NewKeyOps(s, t, keys[1..]), checkTop);
      AddMember(m, k, t[k], checkTop);
      NewKeyPass(s, t, m', keys[1..], checkTop);
      assert forall l :: l in keys <==> l == k || l in keys[1..];
    }
  }

  lemma {:induction false} IndexableObjects(s: Json, t: Json)
    requires s.Object? && t.Object? && !Eq(s, t)
    ensures Indexable(s, t) <==> forall k | k in s.o && k in t.o :: Indexable(s.o[k], t.o[k])
  {
    hide Eq;
  }

  lemma {:induction false} ObjectOutcome(r: Result<Json>, end: Result<Json>, s: Json, t: Json)
    requires s.Object? && t.Object? && NoNaN(t) && !Eq(s, t)
    requires KeysDone(r, s.o, s.o, t.o, Sorted(s.o.Keys))
    requires match r
             case Err(_) => end.Err?
             case Ok(v) =>
               && end.Ok? && end.value.Object?
               && (forall k :: k in end.value.o <==> k in v.o || (k in t.o && k !in s.o))
               && (forall k | k in end.value.o :: end.value.o[k] == if k in t.o && k !in s.o then t.o[k] else v.o[k])
    ensures Outcome(end, s, t)
  {
    IndexableObjects(s, t);
    forall k | k in t.o ensures Eq(t.o[k], t.o[k]) {
      EqReflexive(t.o[k]);
    }
    if end.Ok? {
      assert end.value.o.Keys == t.o.Keys;
      EqObjects(end.value, t);
    }
    hide NoNaN, Eq, Indexable, Sorted;
  }

  lemma {:induction false} ObjectOps(s: Json, t: Json, checkTop: bool)
    requires s.Object? && t.Object? && !Eq(s, t)
    ensures ApplyAll(s, DiffOps(s, t), checkTop) ==
            match ApplyAll(s, KeyOps(s, t, Sorted(s.o.Keys)), checkTop)
            case Err(id) => Err(id)
            case Ok(k) => ApplyAll(k, NewKeyOps(s.o, t.o, Sorted(t.o.Keys)), checkTop)
  {
    hide KeyOps, NewKeyOps, Sorted, ApplyAll, Eq;
    var first, second := KeyOps(s, t, Sorted(s.o.Keys)), NewKeyOps(s.o, t.o, Sorted(t.o.Keys));
    ApplyAllConcat(s, first, second, checkTop);
    assert DiffOps(s, t) == first + second;
  }

  lemma {:induction false} ObjectLaw(s: Json, t: Json, checkTop: bool)
    requires s.Object? && t.Object? && NoNaN(t) && !Eq(s, t)
    ensures Outcome(ApplyAll(s, DiffOps(s, t), checkTop), s, t)
    decreases s, 0, |s.o.Keys| + 1
  {
    hide ApplyAll, DiffOps, KeyOps, NewKeyOps, Sorted, Indexable, NoNaN, Eq, Outcome;
    var sourceKeys := Sorted(s.o.Keys);
    SortedDistinct(s.o.Keys);
    KeyPass(s, t, s.o, sourceKeys, checkTop);
    ObjectOps(s, t, checkTop);
    var r := ApplyAll(s, KeyOps(s, t, sourceKeys), checkTop);
    if r.Ok? {
      NewKeyPass(s.o, t.o, r.value.o, Sorted(t.o.Keys), checkTop);
    }
    ObjectOutcome(r, ApplyAll(s, DiffOps(s, t), checkTop), s, t);
  }

  /**
    Applying the difference to the source: the outcome is a value equal to the target, or an exception
    exactly when some index on a changed path is no int.
   */
  lemma {:induction false} Law(s: Json, t: Json, checkTop: bool)
    requires NoNaN(t)
    ensures Outcome(ApplyAll(s, DiffOps(s, t), checkTop), s, t)
    decreases s, 1, 0
  {
    if Eq(s, t) {
    } else if Kind(s) != Kind(t) {
      ReplaceRoot(s, t, checkTop);
    } else {
      match s
      case Array(_) => ArrayLaw(s, t, checkTop);
      case Object(_) => ObjectLaw(s, t, checkTop);
      case _ => ReplaceRoot(s, t, checkTop);
    }
  }

  lemma {:induction false} ReplaceRoot(s: Json, t: Json, checkTop: bool)
    requires NoNaN(t)
    ensures ApplyAll(s, [Replace([], t)], checkTop) == Ok(t) && Eq(t, t)
  {
    EqReflexive(t);
    assert [Replace([], t)][1..] == [];
  }

  // ---- patch documents

  /** The element of a patch document that describes an operation. */
  function Encode(op: Op): Json {
    var path := String(ToString(op.path));
    match op
    case Add(_, v) => Object(map[KEY_OP := String(NAME_ADD), KEY_PATH := path, KEY_VALUE := v])
    case Remove(_) => Object(map[KEY_OP := String(NAME_REMOVE), KEY_PATH := path])
    case Replace(_, v) => Object(map[KEY_OP := String(NAME_REPLACE), KEY_PATH := path, KEY_VALUE := v])
    case Move(_, from) =>
      Object(map[KEY_OP := String(NAME_MOVE), KEY_PATH := path, KEY_FROM := String(ToString(from))])
    case Copy(_, from) =>
      Object(map[KEY_OP := String(NAME_COPY), KEY_PATH := path, KEY_FROM := String(ToString(from))])
    case Test(_, v) => Object(map[KEY_OP := String(NAME_TEST), KEY_PATH := path, KEY_VALUE := v])
  }

  lemma {:induction false} KeysDiffer()
    ensures KEY_OP != KEY_PATH && KEY_OP != KEY_FROM && KEY_OP != KEY_VALUE
    ensures KEY_PATH != KEY_FROM && KEY_PATH != KEY_VALUE && KEY_FROM != KEY_VALUE
  {
    assert KEY_PATH[0] != KEY_FROM[0];
  }

  lemma {:induction false} NamesDiffer()
    ensures NAME_ADD != NAME_REPLACE && NAME_ADD != NAME_TEST && NAME_REPLACE != NAME_TEST
    ensures NAME_REMOVE !in [NAME_ADD, NAME_REPLACE, NAME_TEST]
    ensures NAME_MOVE !in [NAME_ADD, NAME_REPLACE, NAME_TEST, NAME_REMOVE]
    ensures NAME_COPY !in [NAME_ADD, NAME_REPLACE, NAME_TEST, NAME_REMOVE, NAME_MOVE]
  {
    assert NAME_MOVE[0] != NAME_TEST[0] && NAME_COPY[0] != NAME_TEST[0] && NAME_MOVE[0] != NAME_COPY[0];
    assert |NAME_REMOVE| == 6 && |NAME_REPLACE| == 7 && |NAME_ADD| == 3;
  }

  /** Every operation, keys with '~' and '/' included, is read back from its description. */
  lemma {:induction false} ParseEncode(op: Op)
    ensures ParseOp(Encode(op)) == Ok(op)
  {
    hide Split, ToString;
    KeysDiffer();
    NamesDiffer();
    SplitToString(op.path);
    if op.Move? || op.Copy? {
      SplitToString(op.from);
    }
  }

  /** The document for a list of operations below a common pointer. */
  function Documents(tokens: seq<bytes>, ops: seq<Op>): (r: seq<Json>)
    ensures |r| == |ops|
    decreases |ops|
  {
    if ops == [] then [] else [Encode(ops[0].(path := tokens + ops[0].path))] + Documents(tokens, ops[1..])
  }

  lemma {:induction false} DocumentsConcat(tokens: seq<bytes>, a: seq<Op>, b: seq<Op>)
    ensures Documents(tokens, a + b) == Documents(tokens, a) + Documents(tokens, b)
    decreases |a|
  {
    hide Encode;
    if a == [] {
      assert a + b == b;
    } else {
      assert (a + b)[1..] == a[1..] + b;
      DocumentsConcat(tokens, a[1..], b);
    }
  }

  lemma {:induction false} DocumentsBelow(tokens: seq<bytes>, tok: bytes, ops: seq<Op>)
    ensures Documents(tokens, PrefixAll(tok, ops)) == Documents(tokens + [tok], ops)
    decreases |ops|
  {
    hide Encode;
    if ops != [] {
      var p := ops[0].path;
      assert tokens + ([tok] + p) == (tokens + [tok]) + p;
      assert PrefixAll(tok, ops)[1..] == PrefixAll(tok, ops[1..]);
      DocumentsBelow(tokens, tok, ops[1..]);
    }
  }

  lemma {:induction false} ApplyDocuments(j: Json, ops: seq<Op>)
    ensures ApplyDocs(j, Documents([], ops)) == ApplyAll(j, ops)
    decreases |ops|
  {
    hide Encode, ParseOp, ApplyOp;
    if ops != [] {
      var root: seq<bytes> := [];
      assert root + ops[0].path == ops[0].path;
      ParseEncode(ops[0]);
      assert Documents([], ops)[1..] == Documents([], ops[1..]);
      var r := ApplyOp(j, ops[0]);
      if r.Ok? {
        ApplyDocuments(r.value, ops[1..]);
      }
    }
  }

  function DiffDocument(s: Json, t: Json): Json {
    Array(Documents([], DiffOps(s, t)))
  }

  /**
    patch() undoes diff(): the result is equal to the target exactly when the target holds no NaN and
    every index on a changed path fits an int; an index that does not fit makes patch() throw.
   */
  lemma {:induction false} PatchOfDiff(s: Json, t: Json)
    ensures var r := ApplyPatch(s, DiffDocument(s, t));
            && (r.Ok? && Eq(r.value, t) <==> NoNaN(t) && Indexable(s, t))
            && (NoNaN(t) && !Indexable(s, t) ==> r.Err?)
  {
    hide ApplyDocs, ApplyAll, Documents, DiffOps, Indexable, NoNaN, Eq;
    ApplyDocuments(s, DiffOps(s, t));
    var r := ApplyPatch(s, DiffDocument(s, t));
    if NoNaN(t) {
      Law(s, t, true);
    } else if r.Ok? && Eq(r.value, t) {
      EqNoNaN(r.value, t);
    }
  }

  predicate ShortArrays(x: Json) {
    match x
    case Array(a) => |a| <= INT_MAX + 1 && forall i | 0 <= i < |a| :: ShortArrays(a[i])
    case Object(o) => forall k | k in o :: ShortArrays(o[k])
    case _ => true
  }

  lemma {:induction false} ShortIsIndexable(s: Json, t: Json)
    requires ShortArrays(s) && ShortArrays(t)
    ensures Indexable(s, t)
  {
    if !Eq(s, t) {
      match (s, t)
      case (Array(a), Array(b)) =>
        forall i | 0 <= i < |a| && i < |b| ensures Indexable(a[i], b[i]) {
          ShortIsIndexable(a[i], b[i]);
        }
      case (Object(o), Object(p)) =>
        forall k | k in o && k in p ensures Indexable(o[k], p[k]) {
          ShortIsIndexable(o[k], p[k]);
        }
      case _ =>
    }
  }

  /** The documented law, for arrays of up to 2^31 elements. */
  lemma {:induction false} PatchOfDiffShort(s: Json, t: Json)
    requires NoNaN(t) && ShortArrays(s) && ShortArrays(t)
    ensures ApplyPatch(s, DiffDocument(s, t)).Ok? && Eq(ApplyPatch(s, DiffDocument(s, t)).value, t)
  {
    ShortIsIndexable(s, t);
    PatchOfDiff(s, t);
  }

  /** The documented law is too strong: no patch makes a value equal to NaN, */
  lemma {:induction false} NaNIsLost(s: Json)
    ensures var t := Float(Doubles.INFINITY + 1);
            var r := ApplyPatch(s, DiffDocument(s, t));
            !(r.Ok? && Eq(r.value, t))
  {
    var t := Float(Doubles.INFINITY + 1);
    assert !NoNaN(t);
    hide DiffDocument, ApplyPatch, Eq;
    PatchOfDiff(s, t);
  }

  /** and the patch that empties an array with an index beyond int is an exception. */
  lemma {:induction false} LongTailIsLost(a: seq<Json>)
    requires |a| > INT_MAX + 1
    ensures ApplyPatch(Array(a), DiffDocument(Array(a), Array([]))).Err?
  {
    hide DiffDocument, ApplyPatch;
    PatchOfDiff(Array(a), Array([]));
  }

  // ---- the loops of diff()

  /** An element of the patch, built from a path text. */
  function Entry(name: bytes, path: bytes, value: Option<Json>): Json {
    match value
    case None => Object(map[KEY_OP := String(name), KEY_PATH := String(path)])
    case Some(v) => Object(map[KEY_OP := String(name), KEY_PATH := String(path), KEY_VALUE := v])
  }

  lemma {:induction false} EntryOf(tokens: seq<bytes>, tok: bytes, path: bytes, v: Json)
    requires path == ToString(tokens + [tok])
    ensures [Entry(NAME_REMOVE, path, None)] == Documents(tokens, [Remove([tok])])
    ensures [Entry(NAME_ADD, path, Some(v))] == Documents(tokens, [Add([tok], v)])
  {}

  method DiffValue(source: Json, target: Json, path: bytes, ghost tokens: seq<bytes>) returns (result: seq<Json>)
    requires path == ToString(tokens)
    ensures result == Documents(tokens, DiffOps(source, target))
    decreases source, 1
  {
    hide Documents, ToString, Escape, Entry, Eq;
    if Eq(source, target) {
      return [];
    }
    if Kind(source) == Kind(target) && source.Array? {
      result := DiffArrays(source, target, path, tokens);
    } else if Kind(source) == Kind(target) && source.Object? {
      result := DiffObjects(source, target, path, tokens);
    } else {
      result := [Entry(NAME_REPLACE, path, Some(target))];
      ReplaceDocument(tokens, target);
    }
  }

  lemma {:induction false} ReplaceDocument(tokens: seq<bytes>, t: Json)
    ensures Documents(tokens, [Replace([], t)]) == [Entry(NAME_REPLACE, ToString(tokens), Some(t))]
  {
    assert tokens + [] == tokens;
  }

  // one step of each loop, as equations between documents

  lemma {:induction false} ElementDocuments(s: Json, t: Json, i: nat, tokens: seq<bytes>, done: seq<Json>, changes: seq<Json>)
    requires s.Array? && t.Array? && i < |s.a| && i < |t.a|
    requires changes == Documents(tokens + [ToDecimal(i)], DiffOps(s.a[i], t.a[i]))
    ensures (done + changes) + Documents(tokens, ElementOps(s, t, i + 1)) == done + Documents(tokens, ElementOps(s, t, i))
  {
    hide Documents, DiffOps;
    var ops := DiffOps(s.a[i], t.a[i]);
    DocumentsBelow(tokens, ToDecimal(i), ops);
    DocumentsConcat(tokens, PrefixAll(ToDecimal(i), ops), ElementOps(s, t, i + 1));
    ConcatAssoc(done, changes, Documents(tokens, ElementOps(s, t, i + 1)));
  }

  lemma {:induction false} RemoveDocuments(i: nat, m: nat, tokens: seq<bytes>, first: seq<Json>, path: bytes)
    requires m <= i && path == ToString(tokens) + [SLASH] + ToDecimal(i)
    ensures var before, entry := first + Documents(tokens, RemoveOps(i, m)), Entry(NAME_REMOVE, path, None);
            before[..|first|] + [entry] + before[|first|..] == first + Documents(tokens, RemoveOps(i + 1, m))
  {
    IndexPath(tokens, i);
    EntryOf(tokens, ToDecimal(i), path, Null);
    hide Documents, Entry, ToString;
    DocumentsConcat(tokens, [Remove([ToDecimal(i)])], RemoveOps(i, m));
    InsertAt(first, Entry(NAME_REMOVE, path, None), Documents(tokens, RemoveOps(i, m)));
  }

  lemma {:induction false} AddDocuments(t: seq<Json>, i: nat, tokens: seq<bytes>, done: seq<Json>, path: bytes)
    requires i < |t| && path == ToString(tokens) + [SLASH] + ToDecimal(i)
    ensures (done + [Entry(NAME_ADD, path, Some(t[i]))]) + Documents(tokens, AddOps(t, i + 1)) ==
            done + Documents(tokens, AddOps(t, i))
  {
    IndexPath(tokens, i);
    EntryOf(tokens, ToDecimal(i), path, t[i]);
    hide Documents, Entry, ToString;
    DocumentsConcat(tokens, [Add([ToDecimal(i)], t[i])], AddOps(t, i + 1));
    ConcatAssoc(done, [Entry(NAME_ADD, path, Some(t[i]))], Documents(tokens, AddOps(t, i + 1)));
  }

  lemma {:induction false} ArrayDocuments(s: Json, t: Json, m: nat, tokens: seq<bytes>, first: seq<Json>, second: seq<Json>, result: seq<Json>)
    requires s.Array? && t.Array?
    requires m == if |s.a| <= |t.a| then |s.a| else |t.a|
    requires first + Documents(tokens, ElementOps(s, t, m)) == Documents(tokens, ElementOps(s, t, 0))
    requires second == first + Documents(tokens, RemoveOps(|s.a|, m))
    requires var end := if |s.a| <= |t.a| then |t.a| else |s.a|;
             result + Documents(tokens, AddOps(t.a, end)) == second + Documents(tokens, AddOps(t.a, |s.a|))
    ensures result == Documents(tokens, ElementOps(s, t, 0) + RemoveOps(|s.a|, |t.a|) + AddOps(t.a, |s.a|))
  {
    hide Documents, DiffOps;
    NoDocuments(tokens);
    DocumentsConcat(tokens, ElementOps(s, t, 0), RemoveOps(|s.a|, |t.a|));
    DocumentsConcat(tokens, ElementOps(s, t, 0) + RemoveOps(|s.a|, |t.a|), AddOps(t.a, |s.a|));
    assert RemoveOps(|s.a|, m) == RemoveOps(|s.a|, |t.a|);
    assert ElementOps(s, t, m) == [] && first + [] == first && result + [] == result && second + [] == second;
    assert AddOps(t.a, if |s.a| <= |t.a| then |t.a| else |s.a|) == [];
  }

  method DiffArrays(source: Json, target: Json, path: bytes, ghost tokens: seq<bytes>) returns (result: seq<Json>)
    requires path == ToString(tokens) && source.Array? && target.Array?
    ensures result ==
            Documents(tokens, ElementOps(source, target, 0) + RemoveOps(|source.a|, |target.a|) + AddOps(target.a, |source.a|))
    decreases source, 0
  {
    hide Documents, ToString, Entry, Eq, DiffOps, ElementOps, AddOps;
    var a, b := source.a, target.a;
    result := [];
    var i := 0;
    while i < |a| && i < |b|
      invariant 0 <= i <= |a| && i <= |b|
      invariant result + Documents(tokens, ElementOps(source, target, i)) == Documents(tokens, ElementOps(source, target, 0))
    {
      IndexPath(tokens, i);
      var changes := DiffValue(a[i], b[i], path + [SLASH] + ToDecimal(i), tokens + [ToDecimal(i)]);
      ElementDocuments(source, target, i, tokens, result, changes);
      result := result + changes;
      i := i + 1;
    }
    NoDocuments(tokens);
    ghost var first, m := result, i;
    var endIndex := |result|;
    while i < |a|
      invariant m <= i <= |a|
      invariant result == first + Documents(tokens, RemoveOps(i, m))
    {
      RemoveDocuments(i, m, tokens, first, path + [SLASH] + ToDecimal(i));
      result := result[..endIndex] + [Entry(NAME_REMOVE, path + [SLASH] + ToDecimal(i), None)] + result[endIndex..];
      i := i + 1;
    }
    ghost var second := result;
    while i < |b|
      invariant |a| <= i && (|a| <= |b| ==> i <= |b|) && (|a| > |b| ==> i == |a|)
      invariant result + Documents(tokens, AddOps(b, i)) == second + Documents(tokens, AddOps(b, |a|))
    {
      AddDocuments(b, i, tokens, result, path + [SLASH] + ToDecimal(i));
      result := result + [Entry(NAME_ADD, path + [SLASH] + ToDecimal(i), Some(b[i]))];
      i := i + 1;
    }
    ArrayDocuments(source, target, m, tokens, first, second, result);
  }

  lemma {:induction false} ConcatAssoc<T>(a: seq<T>, b: seq<T>, c: seq<T>)
    ensures (a + b) + c == a + (b + c)
  {}

  lemma {:induction false} InsertAt<T>(a: seq<T>, x: T, b: seq<T>)
    ensures (a + b)[..|a|] + [x] + (a + b)[|a|..] == a + ([x] + b)
  {}

  lemma {:induction false} NoDocuments(tokens: seq<bytes>)
    ensures Documents(tokens, []) == []
  {}

  lemma {:induction false} MemberDocuments(s: Json, t: Json, keys: seq<bytes>, tokens: seq<bytes>, done: seq<Json>, changes: seq<Json>)
    requires s.Object? && t.Object? && keys != [] && forall k | k in keys :: k in s.o
    requires var k := keys[0];
             changes == if k in t.o then Documents(tokens + [k], DiffOps(s.o[k], t.o[k]))
             else [Entry(NAME_REMOVE, ToString(tokens + [k]), None)]
    ensures (done + changes) + Documents(tokens, KeyOps(s, t, keys[1..])) == done + Documents(tokens, KeyOps(s, t, keys))
  {
    var k, rest := keys[0], keys[1..];
    EntryOf(tokens, k, ToString(tokens + [k]), Null);
    hide Documents, DiffOps, Entry, ToString;
    if k in t.o {
      DocumentsBelow(tokens, k, DiffOps(s.o[k], t.o[k]));
      DocumentsConcat(tokens, PrefixAll(k, DiffOps(s.o[k], t.o[k])), KeyOps(s, t, rest));
    } else {
      DocumentsConcat(tokens, [Remove([k])], KeyOps(s, t, rest));
    }
    ConcatAssoc(done, changes, Documents(tokens, KeyOps(s, t, rest)));
  }

  lemma {:induction false} NewMemberDocuments(s: map<bytes, Json>, t: map<bytes, Json>, keys: seq<bytes>, tokens: seq<bytes>, done: seq<Json>)
    requires keys != [] && forall k | k in keys :: k in t
    ensures var k := keys[0];
            var changes := if k in s then [] else [Entry(NAME_ADD, ToString(tokens + [k]), Some(t[k]))];
            (done + changes) + Documents(tokens, NewKeyOps(s, t, keys[1..])) == done + Documents(tokens, NewKeyOps(s, t, keys))
  {
    var k, rest := keys[0], keys[1..];
    EntryOf(tokens, k, ToString(tokens + [k]), t[k]);
    hide Documents, Entry, ToString;
    if k !in s {
      DocumentsConcat(tokens, [Add([k], t[k])], NewKeyOps(s, t, rest));
      ConcatAssoc(done, [Entry(NAME_ADD, ToString(tokens + [k]), Some(t[k]))], Documents(tokens, NewKeyOps(s, t, rest)));
    } else {
      assert done + [] == done;
      assert [] + NewKeyOps(s, t, rest) == NewKeyOps(s, t, rest);
    }
  }

  lemma {:induction false} SliceFirst<T>(s: seq<T>, i: nat)
    requires i < |s|
    ensures s[i..] != [] && s[i..][0] == s[i] && s[i..][1..] == s[i + 1..] && s[i] in s
    ensures forall x | x in s[i..] :: x in s
  {}

  method DiffObjects(source: Json, target: Json, path: bytes, ghost tokens: seq<bytes>) returns (result: seq<Json>)
    requires path == ToString(tokens) && source.Object? && target.Object?
    ensures result == Documents(tokens, KeyOps(source, target, Sorted(source.o.Keys)) +
                                NewKeyOps(source.o, target.o, Sorted(target.o.Keys)))
    decreases source, 0
  {
    hide Documents, ToString, Escape, Entry, Eq, DiffOps, KeyOps, NewKeyOps, Sorted;
    var o, p := source.o, target.o;
    var keys := Sorted(o.Keys);
    result := [];
    NoDocuments(tokens);
    for i := 0 to |keys|
      invariant result + Documents(tokens, KeyOps(source, target, keys[i..])) == Documents(tokens, KeyOps(source, target, keys))
    {
      var k := keys[i];
      SliceFirst(keys, i);
      ChildPath(tokens, k);
      var key := EscapeToken(k);
      var changes;
      if k in p {
        changes := DiffValue(o[k], p[k], path + [SLASH] + key, tokens + [k]);
      } else {
        changes := [Entry(NAME_REMOVE, path + [SLASH] + key, None)];
      }
      MemberDocuments(source, target, keys[i..], tokens, result, changes);
      result := result + changes;
    }
    EndOfKeys(source, target, keys);
    assert result + [] == result;
    ghost var first := result;
    keys := Sorted(p.Keys);
    for i := 0 to |keys|
      invariant result + Documents(tokens, NewKeyOps(o, p, keys[i..])) == first + Documents(tokens, NewKeyOps(o, p, keys))
    {
      var k := keys[i];
      SliceFirst(keys, i);
      NewMemberDocuments(o, p, keys[i..], tokens, result);
      if k !in o {
        ChildPath(tokens, k);
        var key := EscapeToken(k);
        result := result + [Entry(NAME_ADD, path + [SLASH] + key, Some(p[k]))];
      } else {
        assert result + [] == result;
      }
    }
    EndOfKeys(source, target, keys);
    assert result + [] == result;
    DocumentsConcat(tokens, KeyOps(source, target, Sorted(o.Keys)), NewKeyOps(o, p, keys));
  }

  lemma {:induction false} EndOfKeys(s: Json, t: Json, keys: seq<bytes>)
    requires s.Object? && t.Object?
    ensures keys[|keys|..] == [] && KeyOps(s, t, []) == [] && NewKeyOps(s.o, t.o, []) == []
  {}
}
