/**
  What the patch operations mean, by looking things up: a pointer's tokens select members and elements
  (section 4 of RFC 6901), and each operation of section 4 of RFC 6902 changes what is found where.
 */
module PatchLaws {
  import opened Arith
  import opened Decimal
  import opened Json
  import opened Pointer
  import opened Patch

  // ---- looking up and replacing a part of a document

  /** The child that a token selects, by an index within int. */
  function Child(j: Json, tok: bytes): Option<Json> {
    if HasChild(j, tok) && (j.Array? ==> DigitsValue(tok) <= INT_MAX) then Some(ChildOf(j, tok)) else None
  }

  function Look(j: Json, path: seq<bytes>): Option<Json>
    decreases |path|
  {
    if path == [] then Some(j)
    else
      match Child(j, path[0])
      case None => None
      case Some(c) => Look(c, path[1..])
  }

  function WithChild(j: Json, tok: bytes, c: Json): Json
    requires Child(j, tok).Some?
  {
    if j.Object? then Object(j.o[tok := c]) else Array(j.a[DigitsValue(tok) := c])
  }

  /** The document with another part at the path. */
  function Graft(j: Json, path: seq<bytes>, part: Json): Json
    requires Look(j, path).Some?
    decreases |path|
  {
    if path == [] then part
    else WithChild(j, path[0], Graft(Child(j, path[0]).value, path[1..], part))
  }

  lemma {:induction false} ChildAfter(j: Json, tok: bytes, c: Json, other: bytes)
    requires Child(j, tok).Some?
    ensures Child(WithChild(j, tok, c), other) == if other == tok then Some(c) else Child(j, other)
    ensures WithChild(WithChild(j, tok, c), tok, Child(j, tok).value) == j
  {
    var k := WithChild(j, tok, c);
    if j.Array? {
      assert k.a[DigitsValue(tok) := Child(j, tok).value] == j.a;
    } else {
      assert k.o[tok := Child(j, tok).value] == j.o;
    }
  }

  /** The part is found at the path, and what is beside the path is as before. */
  lemma {:induction false} GraftLooks(j: Json, path: seq<bytes>, part: Json, q: seq<bytes>)
    requires Look(j, path).Some?
    ensures path <= q ==> Look(Graft(j, path, part), q) == Look(part, q[|path|..])
    ensures !(path <= q) && !(q <= path) ==> Look(Graft(j, path, part), q) == Look(j, q)
    decreases |path|
  {
    hide Child, WithChild;
    if path == [] {
      assert q[0..] == q;
    } else if q != [] {
      var c := Child(j, path[0]).value;
      ChildAfter(j, path[0], Graft(c, path[1..], part), q[0]);
      if q[0] == path[0] {
        GraftLooks(c, path[1..], part, q[1..]);
        assert path <= q <==> path[1..] <= q[1..] by {
          PrefixTail(path, q);
        }
        assert q <= path <==> q[1..] <= path[1..] by {
          PrefixTail(q, path);
        }
        assert path <= q ==> q[1..][|path| - 1..] == q[|path|..];
      }
    }
  }

  lemma {:induction false} PrefixTail(p: seq<bytes>, q: seq<bytes>)
    requires p != [] && q != [] && p[0] == q[0]
    ensures p <= q <==> p[1..] <= q[1..]
  {
    if p[1..] <= q[1..] {
      assert p == [p[0]] + p[1..] && q == [q[0]] + q[1..];
    }
  }

  lemma {:induction false} ChildTwice(j: Json, tok: bytes, c: Json, d: Json)
    requires Child(j, tok).Some?
    ensures Child(WithChild(j, tok, c), tok).Some? && WithChild(WithChild(j, tok, c), tok, d) == WithChild(j, tok, d)
  {
    ChildAfter(j, tok, c, tok);
    if j.Array? {
      var i := DigitsValue(tok);
      assert j.a[i := c][i := d] == j.a[i := d];
    } else {
      assert j.o[tok := c][tok := d] == j.o[tok := d];
    }
  }

  /** A part can be replaced again, and the old one put back. */
  lemma {:induction false} GraftTwice(j: Json, path: seq<bytes>, part: Json, other: Json)
    requires Look(j, path).Some?
    ensures var k := Graft(j, path, part);
            && Look(k, path) == Some(part)
            && Graft(k, path, other) == Graft(j, path, other)
            && Graft(k, path, Look(j, path).value) == j
    decreases |path|
  {
    if path != [] {
      var t, c := path[0], Child(j, path[0]).value;
      hide Child, WithChild;
      GraftTwice(c, path[1..], part, other);
      var p := Graft(c, path[1..], part);
      ChildAfter(j, t, p, t);
      ChildTwice(j, t, p, Graft(c, path[1..], other));
      ChildTwice(j, t, p, c);
      GraftSame(c, path[1..]);
    }
  }

  lemma {:induction false} GraftSame(j: Json, path: seq<bytes>)
    requires Look(j, path).Some?
    ensures Graft(j, path, Look(j, path).value) == j
    decreases |path|
  {
    if path != [] {
      var c := Child(j, path[0]).value;
      GraftSame(c, path[1..]);
      ChildAfter(j, path[0], c, path[0]);
      assert WithChild(j, path[0], c) == j by {
        if j.Array? {
          assert j.a[DigitsValue(path[0]) := c] == j.a;
        } else {
          assert j.o[path[0] := c] == j.o;
        }
      }
    }
  }

  // ---- tokens of the code's own lookups

  lemma {:induction false} ChildIsPlace(j: Json, tok: bytes)
    requires Child(j, tok).Some?
    ensures CheckedPlace(j, tok).Ok? && Get(j, CheckedPlace(j, tok).value) == Child(j, tok).value
    ensures OpenPlace(j, tok) == Ok((j, CheckedPlace(j, tok).value))
    ensures forall c :: Put(j, CheckedPlace(j, tok).value, c) == WithChild(j, tok, c)
  {
    if j.Array? {
      IndexToken(DigitsValue(tok));
    }
  }

  lemma {:induction false} AtLooks(j: Json, path: seq<bytes>)
    requires Look(j, path).Some?
    ensures At(j, path) == Ok(Look(j, path).value)
    decreases |path|
  {
    if path != [] {
      ChildIsPlace(j, path[0]);
      hide CheckedPlace, Child;
      AtLooks(Child(j, path[0]).value, path[1..]);
    }
  }

  /** Why a lookup with range check fails. */
  lemma {:induction false} AtFails(j: Json, pre: seq<bytes>, tok: bytes)
    requires Look(j, pre).Some?
    ensures var x, r := Look(j, pre).value, At(j, pre + [tok]);
            && (x.Object? && tok !in x.o ==> r == Err(OUT_OF_RANGE_403))
            && (!x.Object? && !x.Array? ==> r == Err(OUT_OF_RANGE_404))
            && (x.Array? && tok == DASH ==> r == Err(OUT_OF_RANGE_402))
            && (x.Array? && (exists i: nat :: |x.a| <= i <= INT_MAX && tok == ToDecimal(i)) ==> r == Err(OUT_OF_RANGE_401))
    decreases |pre|
  {
    var path := pre + [tok];
    if pre == [] {
      assert path[0] == tok && path[1..] == [];
      forall i: nat | tok == ToDecimal(i) ensures ArrayIndex(tok) == (if i <= INT_MAX then Ok(i) else Err(STD_OUT_OF_RANGE)) {
        IndexToken(i);
      }
    } else {
      assert path[0] == pre[0] && path[1..] == pre[1..] + [tok];
      ChildIsPlace(j, pre[0]);
      hide CheckedPlace, Child, ArrayIndex, ToDecimal;
      AtFails(Child(j, pre[0]).value, pre[1..], tok);
    }
  }

  lemma {:induction false} AlterGrafts(j: Json, path: seq<bytes>, f: Json -> Result<Json>)
    requires Look(j, path).Some?
    ensures Alter(j, path, f) == Grafted(j, path, f(Look(j, path).value))
    ensures AlterOpen(j, path, f) == Grafted(j, path, f(Look(j, path).value))
    decreases |path|
  {
    if path != [] {
      ChildIsPlace(j, path[0]);
      hide CheckedPlace, OpenPlace, Child, WithChild, Get, Put;
      AlterGrafts(Child(j, path[0]).value, path[1..], f);
    }
  }

  function Grafted(j: Json, path: seq<bytes>, r: Result<Json>): Result<Json>
    requires Look(j, path).Some?
  {
    match r
    case Err(id) => Err(id)
    case Ok(part) => Ok(Graft(j, path, part))
  }

  // ---- operations in an array

  /** b is a with v in front of the old element i, or at the end. */
  predicate Inserted(a: seq<Json>, i: nat, v: Json, b: seq<Json>) {
    && i <= |a| && |b| == |a| + 1 && b[i] == v
    && (forall l | 0 <= l < i :: b[l] == a[l])
    && (forall l | i <= l < |a| :: b[l + 1] == a[l])
  }

  lemma {:induction false} LastToken(pre: seq<bytes>, tok: bytes)
    ensures var path := pre + [tok]; path != [] && path[..|path| - 1] == pre && path[|path| - 1] == tok
  {
  }

  /** Adding a child below an existing parent. */
  lemma {:induction false} AddBelow(j: Json, pre: seq<bytes>, tok: bytes, v: Json)
    requires Look(j, pre).Some?
    ensures ApplyOp(j, Add(pre + [tok], v)) == Grafted(j, pre, AddChild(Look(j, pre).value, tok, v))
  {
    LastToken(pre, tok);
    if pre != [] {
      ChildIsPlace(j, pre[0]);
      assert (pre + [tok])[0] == pre[0];
    }
    hide CheckedPlace, AlterOpen, AddChild;
    AlterGrafts(j, pre, p => AddChild(p, tok, v));
  }

  lemma {:induction false} RemoveBelow(j: Json, pre: seq<bytes>, tok: bytes)
    requires Look(j, pre).Some?
    ensures ApplyOp(j, Remove(pre + [tok])) == Grafted(j, pre, RemoveChild(Look(j, pre).value, tok))
  {
    LastToken(pre, tok);
    hide Alter, RemoveChild;
    AlterGrafts(j, pre, p => RemoveChild(p, tok));
  }

  /** `add` at an index inserts, and `remove` there takes it out again. */
  lemma {:induction false} AddElement(j: Json, pre: seq<bytes>, i: nat, v: Json) returns (b: seq<Json>)
    requires Look(j, pre).Some? && Look(j, pre).value.Array? && i <= |Look(j, pre).value.a| && i <= INT_MAX
    ensures Inserted(Look(j, pre).value.a, i, v, b)
    ensures var k, path := Graft(j, pre, Array(b)), pre + [ToDecimal(i)];
            && ApplyOp(j, Add(path, v)) == Ok(k) && ApplyOp(k, Remove(path)) == Ok(j)
            && Look(k, path) == Some(v)
  {
    hide Look, Graft, AddChild, RemoveChild, Inserted, Child, ApplyOp, ToDecimal;
    var a := Look(j, pre).value.a;
    var tok := ToDecimal(i);
    b := InsertChild(a, i, v);
    AddBelow(j, pre, tok, v);
    GraftTwice(j, pre, Array(b), Null);
    RemoveBelow(Graft(j, pre, Array(b)), pre, tok);
    LookBelow(Graft(j, pre, Array(b)), pre, tok);
  }

  lemma {:induction false} InsertChild(a: seq<Json>, i: nat, v: Json) returns (b: seq<Json>)
    requires i <= |a| && i <= INT_MAX
    ensures Inserted(a, i, v, b)
    ensures AddChild(Array(a), ToDecimal(i), v) == Ok(Array(b)) && RemoveChild(Array(b), ToDecimal(i)) == Ok(Array(a))
    ensures Child(Array(b), ToDecimal(i)) == Some(v)
  {
    b := a[..i] + [v] + a[i..];
    IndexToken(i);
    hide ArrayIndex;
    assert b[..i] + b[i + 1..] == a;
  }

  lemma {:induction false} LookBelow(j: Json, pre: seq<bytes>, tok: bytes)
    requires Look(j, pre).Some?
    ensures Look(j, pre + [tok]) == Child(Look(j, pre).value, tok)
    decreases |pre|
  {
    var path := pre + [tok];
    hide Child;
    if pre == [] {
      assert path[0] == tok && path[1..] == [];
    } else {
      assert path[0] == pre[0] && path[1..] == pre[1..] + [tok];
      LookBelow(Child(j, pre[0]).value, pre[1..], tok);
    }
  }

  /** The token "-" stands for the end. */
  lemma {:induction false} AddAtEnd(j: Json, pre: seq<bytes>, v: Json)
    requires Look(j, pre).Some? && Look(j, pre).value.Array?
    ensures var a := Look(j, pre).value.a;
            ApplyOp(j, Add(pre + [DASH], v)) == Ok(Graft(j, pre, Array(a + [v]))) && Inserted(a, |a|, v, a + [v])
  {
    AddBelow(j, pre, DASH, v);
  }

  /** An index beyond the end, or beyond int. */
  lemma {:induction false} AddFails(j: Json, pre: seq<bytes>, i: nat, v: Json)
    requires Look(j, pre).Some? && Look(j, pre).value.Array?
    ensures i > INT_MAX ==> ApplyOp(j, Add(pre + [ToDecimal(i)], v)) == Err(STD_OUT_OF_RANGE)
    ensures |Look(j, pre).value.a| < i <= INT_MAX ==> ApplyOp(j, Add(pre + [ToDecimal(i)], v)) == Err(OUT_OF_RANGE_401)
  {
    IndexToken(i);
    AddBelow(j, pre, ToDecimal(i), v);
  }

  lemma {:induction false} InsertedOnly(a: seq<Json>, i: nat, v: Json, b: seq<Json>, c: seq<Json>)
    requires |b| == |a| + 1 && i <= |a| && b[i] == v && a == b[..i] + b[i + 1..] && Inserted(a, i, v, c)
    ensures b == c && Inserted(a, i, v, b)
  {
    forall l | 0 <= l < |b| ensures b[l] == c[l] {
      if l > i {
        assert b[l] == a[l - 1];
        assert c[l - 1 + 1] == a[l - 1];
      } else if l < i {
        assert b[l] == a[l];
      }
    }
  }

  /** `remove` at an index closes the gap, and `add` there restores the document. */
  lemma {:induction false} RemoveElement(j: Json, pre: seq<bytes>, i: nat) returns (b: seq<Json>)
    requires Look(j, pre).Some? && Look(j, pre).value.Array? && i < |Look(j, pre).value.a| && i <= INT_MAX
    ensures Inserted(b, i, Look(j, pre).value.a[i], Look(j, pre).value.a)
    ensures var k, path := Graft(j, pre, Array(b)), pre + [ToDecimal(i)];
            ApplyOp(j, Remove(path)) == Ok(k) && ApplyOp(k, Add(path, Look(j, pre).value.a[i])) == Ok(j)
  {
    hide Look, Graft, AddChild, RemoveChild, Inserted, Child, ApplyOp, ToDecimal;
    var a := Look(j, pre).value.a;
    var tok := ToDecimal(i);
    b := a[..i] + a[i + 1..];
    var c := InsertChild(b, i, a[i]);
    InsertedOnly(b, i, a[i], a, c);
    RemoveBelow(j, pre, tok);
    GraftTwice(j, pre, Array(b), Null);
    AddBelow(Graft(j, pre, Array(b)), pre, tok, a[i]);
  }

  lemma {:induction false} RemoveFails(j: Json, pre: seq<bytes>, tok: bytes)
    requires Look(j, pre).Some?
    ensures var x, r := Look(j, pre).value, ApplyOp(j, Remove(pre + [tok]));
            && (x.Object? && tok !in x.o ==> r == Err(OUT_OF_RANGE_403))
            && (x.Array? ==> forall i: nat | |x.a| <= i <= INT_MAX && tok == ToDecimal(i) :: r == Err(OUT_OF_RANGE_401))
    ensures ApplyOp(j, Remove([])) == Err(OUT_OF_RANGE_405)
  {
    RemoveBelow(j, pre, tok);
    forall i: nat | tok == ToDecimal(i) ensures ArrayIndex(tok) == (if i <= INT_MAX then Ok(i) else Err(STD_OUT_OF_RANGE)) {
      IndexToken(i);
    }
  }

  // ---- operations in an object, at the root, and in null

  /** `add` sets a member; `remove` takes it out, which restores the document if it is a new one. */
  lemma {:induction false} AddMember(j: Json, pre: seq<bytes>, key: bytes, v: Json)
    requires Look(j, pre).Some? && Look(j, pre).value.Object?
    ensures var o, path := Look(j, pre).value.o, pre + [key];
            var k := Graft(j, pre, Object(o[key := v]));
            && ApplyOp(j, Add(path, v)) == Ok(k) && Look(k, path) == Some(v)
            && ApplyOp(k, Remove(path)) == Ok(Graft(j, pre, Object(o - {key})))
            && (key !in o ==> ApplyOp(k, Remove(path)) == Ok(j))
  {
    var o := Look(j, pre).value.o;
    var k := Graft(j, pre, Object(o[key := v]));
    AddBelow(j, pre, key, v);
    GraftTwice(j, pre, Object(o[key := v]), Object(o - {key}));
    RemoveBelow(k, pre, key);
    assert o[key := v] - {key} == o - {key};
    if key !in o {
      assert o - {key} == o;
    }
    LookBelow(k, pre, key);
  }

  lemma {:induction false} RemoveMember(j: Json, pre: seq<bytes>, key: bytes)
    requires Look(j, pre).Some? && Look(j, pre).value.Object? && key in Look(j, pre).value.o
    ensures var o, path := Look(j, pre).value.o, pre + [key];
            var k := Graft(j, pre, Object(o - {key}));
            ApplyOp(j, Remove(path)) == Ok(k) && ApplyOp(k, Add(path, o[key])) == Ok(j)
  {
    var o := Look(j, pre).value.o;
    var k := Graft(j, pre, Object(o - {key}));
    RemoveBelow(j, pre, key);
    GraftTwice(j, pre, Object(o - {key}), Null);
    AddBelow(k, pre, key, o[key]);
    assert (o - {key})[key := o[key]] == o;
  }

  /** At the root `add` replaces the document; below a null it makes an object. */
  lemma {:induction false} AddElsewhere(j: Json, pre: seq<bytes>, key: bytes, v: Json)
    ensures ApplyOp(j, Add([], v)) == Ok(v)
    ensures Look(j, pre) == Some(Null) ==> ApplyOp(j, Add(pre + [key], v)) == Ok(Graft(j, pre, Object(map[key := v])))
  {
    if Look(j, pre) == Some(Null) {
      AddBelow(j, pre, key, v);
    }
  }

  // ---- replace, move, copy, test

  lemma {:induction false} ReplacePart(j: Json, path: seq<bytes>, v: Json)
    requires Look(j, path).Some?
    ensures ApplyOp(j, Replace(path, v)) == Ok(Graft(j, path, v))
  {
    AlterGrafts(j, path, p => Ok(v));
  }

  /** Every operation on a part that is not there fails as the lookup with range check does. */
  lemma {:induction false} MissingPart(j: Json, path: seq<bytes>, v: Json, other: seq<bytes>)
    requires At(j, path).Err?
    ensures ApplyOp(j, Replace(path, v)) == Err(At(j, path).id)
    ensures ApplyOp(j, Move(other, path)) == Err(At(j, path).id)
    ensures ApplyOp(j, Copy(other, path)) == Err(At(j, path).id)
    ensures ApplyOp(j, Test(path, v)) == Err(if 400 <= At(j, path).id < 500 then OTHER_ERROR_501 else At(j, path).id)
  {
    hide ApplyRemove, ApplyAdd;
    AlterMisses(j, path, p => Ok(v));
  }

  lemma {:induction false} AlterMisses(j: Json, path: seq<bytes>, f: Json -> Result<Json>)
    requires At(j, path).Err?
    ensures Alter(j, path, f) == Err(At(j, path).id)
    decreases |path|
  {
    if path != [] && CheckedPlace(j, path[0]).Ok? {
      AlterMisses(Get(j, CheckedPlace(j, path[0]).value), path[1..], f);
    }
    hide CheckedPlace;
  }

  /** `copy` adds what is found at `from`; nothing else tells it from `add`. */
  lemma {:induction false} CopyPart(j: Json, path: seq<bytes>, from: seq<bytes>)
    requires Look(j, from).Some?
    ensures ApplyOp(j, Copy(path, from)) == ApplyOp(j, Add(path, Look(j, from).value))
  {
    hide At, ApplyAdd;
    AtLooks(j, from);
  }

  /** `move` removes at `from` and adds what was found there. */
  lemma {:induction false} MovePart(j: Json, path: seq<bytes>, from: seq<bytes>)
    requires Look(j, from).Some?
    ensures var k := ApplyOp(j, Remove(from));
            ApplyOp(j, Move(path, from)) == if k.Err? then k else ApplyOp(k.value, Add(path, Look(j, from).value))
  {
    hide At, ApplyAdd, ApplyRemove;
    AtLooks(j, from);
  }

  /** The value leaves its old place and arrives at the new one: taken out there, what is left is as if it had been removed. */
  lemma {:induction false} MoveArrives(j: Json, pre: seq<bytes>, tok: bytes, from: seq<bytes>)
    requires Look(j, from).Some? && ApplyOp(j, Remove(from)).Ok?
    requires var k := ApplyOp(j, Remove(from)).value;
             && Look(k, pre).Some?
             && var x := Look(k, pre).value;
             (x.Object? && tok !in x.o) || (x.Array? && exists i: nat :: i <= |x.a| && i <= INT_MAX && tok == ToDecimal(i))
    ensures var r := ApplyOp(j, Move(pre + [tok], from));
            && r.Ok? && Look(r.value, pre + [tok]) == Look(j, from)
            && ApplyOp(r.value, Remove(pre + [tok])) == ApplyOp(j, Remove(from))
  {
    var k, v := ApplyOp(j, Remove(from)).value, Look(j, from).value;
    hide ApplyOp, Look, ToDecimal;
    MovePart(j, pre + [tok], from);
    var x := Look(k, pre).value;
    if x.Object? {
      AddMember(k, pre, tok, v);
    } else {
      var i: nat :| i <= |x.a| && i <= INT_MAX && tok == ToDecimal(i);
      var b := AddElement(k, pre, i, v);
    }
  }

  /** `test` changes nothing and succeeds exactly on an equal value. */
  lemma {:induction false} TestPart(j: Json, path: seq<bytes>, v: Json)
    requires Look(j, path).Some?
    ensures ApplyOp(j, Test(path, v)) == if Eq(Look(j, path).value, v) then Ok(j) else Err(OTHER_ERROR_501)
  {
    hide At, Eq;
    AtLooks(j, path);
  }
}
