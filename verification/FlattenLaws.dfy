/**
  What flatten() and unflatten() mean for every input, by looking things up: which member a flattened object
  has for which part of a value, and what is found where after a text has been unflattened.
 */
module FlattenLaws {
  import opened Arith
  import opened Decimal
  import opened Json
  import opened Pointer
  import opened Patch
  import opened Places
  import opened Flatten

  // ---- flatten

  /** What a part of a value leaves behind: primitives themselves, and null for an empty array or object. */
  ghost predicate LeavesBehind(part: Json, v: Json) {
    if part.Array? then part.a == [] && v == Null
    else if part.Object? then part.o == map[] && v == Null
    else v == part
  }

  lemma {:induction false} PathsSelect(x: Json, p: seq<bytes>)
    ensures p in Paths(x) <==> Select(x, p).Some? && IsLeaf(Select(x, p).value)
    ensures p in Paths(x) ==> LeafAt(x, p) == Leaf(Select(x, p).value)
    decreases |p|
  {
    hide Pointer.ChildOf, Pointer.HasChild;
    if p == [] {
      RootIsPath(x);
    } else {
      assert p == [p[0]] + p[1..];
      if IsLeaf(x) {
        NothingBelow(x, p[0]);
      } else {
        PathsStep(x, p[0], p[1..]);
        if HasChild(x, p[0]) {
          PathsSelect(ChildOf(x, p[0]), p[1..]);
        }
      }
    }
  }

  lemma {:induction false} RootIsPath(x: Json)
    ensures [] in Paths(x) <==> IsLeaf(x)
    ensures IsLeaf(x) ==> LeafAt(x, []) == Leaf(x)
  {
    if !IsLeaf(x) && [] in Paths(x) {
      PathBelow(x, []);
    }
  }

  lemma {:induction false} NothingBelow(x: Json, t: bytes)
    requires IsLeaf(x)
    ensures !HasChild(x, t) && Paths(x) == {[]}
  {}

  /** A member of the flattened object is the pointer to a primitive or an empty container, and what that leaves behind. */
  lemma {:induction false} FlatExactly(x: Json, k: bytes, v: Json)
    ensures k in Flat(x) && Flat(x)[k] == v <==>
            exists p :: k == ToString(p) && Select(x, p).Some? && LeavesBehind(Select(x, p).value, v)
  {
    hide ToString, Flat, Paths, LeafAt, Select;
    if k in Flat(x) {
      var p := FlatKey(x, k);
      FlatAt(x, p);
      PathsSelect(x, p);
      LeafLeaves(Select(x, p).value, Flat(x)[k]);
    }
    forall p | k == ToString(p) && Select(x, p).Some? && LeavesBehind(Select(x, p).value, v)
      ensures k in Flat(x) && Flat(x)[k] == v
    {
      LeafLeaves(Select(x, p).value, v);
      PathsSelect(x, p);
      FlatAt(x, p);
    }
  }

  lemma {:induction false} LeafLeaves(part: Json, v: Json)
    ensures LeavesBehind(part, v) <==> IsLeaf(part) && v == Leaf(part)
  {}

  // ---- one text

  /** The place that a token leads to, whether or not something is there; an index by every text that converts to one. */
  function Slot(j: Json, t: bytes): Result<Place> {
    match j
    case Object(_) => Ok(Member(t))
    case Array(_) =>
      (match ArrayIndex(t)
       case Err(id) => Err(if id == INVALID_ARGUMENT then 109 else id)
       case Ok(i) => if i < 0 then Err(LENGTH_ERROR) else Ok(Element(i)))
    case _ => Err(313)
  }

  /** The container in which a token is looked up: a new one in place of null, an array only for "0". */
  function Opened(j: Json, t: bytes): Json {
    if !j.Null? then j else if t == ['0' as int] then Array([]) else Object(map[])
  }

  /** One token of a path: an error if it leads nowhere, and otherwise what the rest creates in what is there, or in null. */
  lemma {:induction false} CreateStep(j: Json, path: seq<bytes>, v: Json)
    requires path != []
    ensures var k := Opened(j, path[0]);
            match Slot(k, path[0])
            case Err(id) => Create(j, path, v) == Err(id)
            case Ok(p) => Created(k, p, Create(Found(k, p), path[1..], v), Create(j, path, v))
  {
    hide ArrayIndex, Created, Found;
    var k, t := Opened(j, path[0]), path[0];
    var slot := Slot(k, t);
    if slot.Ok? && k.Array? {
      var i := slot.value.index;
      var a := if i < |k.a| then k.a else k.a + Nulls(i - |k.a| + 1);
      assert CreatePlace(j, t) == Ok((Array(a), slot.value));
      FilledUp(k.a, i, Create(a[i], path[1..], v));
    } else if slot.Ok? {
      var o := if t in k.o then k.o else k.o[t := Null];
      assert CreatePlace(j, t) == Ok((Object(o), slot.value));
      MemberAdded(k.o, t, Create(o[t], path[1..], v));
    }
  }

  /** What is found by following the tokens. */
  function FindPath(j: Json, path: seq<bytes>): Option<Json>
    decreases |path|
  {
    if path == [] then Some(j)
    else
      var p := Slot(j, path[0]);
      if p.Ok? && Has(j, p.value) then FindPath(Get(j, p.value), path[1..]) else None
  }

  /** What is assigned is found at the path, */
  lemma {:induction false} CreateArrives(j: Json, path: seq<bytes>, v: Json)
    ensures var r := Create(j, path, v); r.Ok? ==> FindPath(r.value, path) == Some(v)
    decreases |path|
  {
    hide ArrayIndex;
    if path != [] {
      CreateStep(j, path, v);
      hide Create;
      var k := Opened(j, path[0]);
      var p := Slot(k, path[0]);
      if p.Ok? {
        CreateArrives(Found(k, p.value), path[1..], v);
      }
    }
  }

  /** Two paths part at some container that is there. */
  predicate Parts(j: Json, path: seq<bytes>, q: seq<bytes>)
    decreases |path|
  {
    && path != [] && q != []
    && var p := Slot(j, q[0]);
    && p.Ok? && Has(j, p.value)
    && (Slot(j, path[0]) != p || Parts(Get(j, p.value), path[1..], q[1..]))
  }

  /** and what is found beside the path stays. */
  lemma {:induction false} CreateKeeps(j: Json, path: seq<bytes>, v: Json, q: seq<bytes>)
    requires Parts(j, path, q)
    ensures var r := Create(j, path, v); r.Ok? ==> FindPath(r.value, q) == FindPath(j, q)
    decreases |path|
  {
    hide ArrayIndex, Create;
    CreateStep(j, path, v);
    var p := Slot(j, q[0]).value;
    assert Opened(j, path[0]) == j;
    if Slot(j, path[0]) == Ok(p) {
      CreateKeeps(Get(j, p), path[1..], v, q[1..]);
    }
  }

  // ---- all texts, in the order of the bytes

  /** The key is in the object, and all others come before it. */
  ghost predicate Greatest(o: map<bytes, Json>, g: bytes) {
    g in o && forall k | k in o :: k == g || Before(k, g)
  }

  lemma {:induction false} SortedUnique(a: seq<bytes>, b: seq<bytes>)
    requires forall i, j | 0 <= i < j < |a| :: Less(a[i], a[j])
    requires forall i, j | 0 <= i < j < |b| :: Less(b[i], b[j])
    requires forall k :: k in a <==> k in b
    ensures a == b
    decreases |a|
  {
    hide Less;
    assert (a != [] ==> a[0] in a) && (b != [] ==> b[0] in b);
    if a != [] && b != [] {
      SameFirst(a, b);
      forall k ensures k in a[1..] <==> k in b[1..] {
        FirstElsewhere(a, k);
        FirstElsewhere(b, k);
      }
      SortedUnique(a[1..], b[1..]);
      assert a == [a[0]] + a[1..] && b == [b[0]] + b[1..];
    }
  }

  lemma {:induction false} SameFirst(a: seq<bytes>, b: seq<bytes>)
    requires a != [] && b != [] && forall k :: k in a <==> k in b
    requires forall i, j | 0 <= i < j < |a| :: Less(a[i], a[j])
    requires forall i, j | 0 <= i < j < |b| :: Less(b[i], b[j])
    ensures a[0] == b[0]
  {
    hide Less;
    assert a[0] in b && b[0] in a;
    var i :| 0 <= i < |a| && a[i] == b[0];
    var j :| 0 <= j < |b| && b[j] == a[0];
    LessTotal(a[0], b[0]);
  }

  lemma {:induction false} FirstElsewhere(a: seq<bytes>, k: bytes)
    requires a != [] && forall i, j | 0 <= i < j < |a| :: Less(a[i], a[j])
    ensures k in a[1..] <==> k in a && k != a[0]
  {
    hide Less;
    if k in a[1..] {
      var i :| 0 <= i < |a| - 1 && a[1..][i] == k;
      assert k == a[i + 1];
      LessTotal(a[0], a[i + 1]);
    }
  }

  lemma {:induction false} GreatestIsLast(o: map<bytes, Json>, g: bytes)
    requires Greatest(o, g)
    ensures Sorted(o.Keys) == Sorted((o - {g}).Keys) + [g]
  {
    var init := Sorted((o - {g}).Keys);
    hide Less, Sorted, Before;
    var r := init + [g];
    forall i, j | 0 <= i < j < |r| ensures Less(r[i], r[j]) {
      if j == |init| {
        assert r[i] in init;
        LessExactly(r[i], g);
      }
    }
    forall k ensures k in Sorted(o.Keys) <==> k in r {
      assert k in r <==> k in init || k == g;
    }
    SortedUnique(Sorted(o.Keys), r);
  }

  lemma {:induction false} UnflattenSnoc(j: Json, m: map<bytes, Json>, n: map<bytes, Json>, keys: seq<bytes>, g: bytes)
    requires g in m && forall k | k in keys :: k in m && k in n && m[k] == n[k]
    ensures UnflattenKeys(j, m, keys + [g]) == Assigned(UnflattenKeys(j, n, keys), g, m[g])
    decreases |keys|
  {
    hide Create, Split;
    if keys == [] {
      assert [] + [g] == [g] && [g][1..] == [];
    } else {
      assert (keys + [g])[1..] == keys[1..] + [g] && (keys + [g])[0] == keys[0];
      var path := Split(keys[0]);
      if path.Ok? && Create(j, path.value, m[keys[0]]).Ok? {
        UnflattenSnoc(Create(j, path.value, m[keys[0]]).value, m, n, keys[1..], g);
      }
    }
  }

  /** One member assigned behind all others, where nothing has failed before. */
  function Assigned(before: Result<Json>, k: bytes, v: Json): Result<Json> {
    if before.Err? then before
    else if v.Array? || v.Object? then Err(315)
    else
      match Split(k)
      case Err(id) => Err(id)
      case Ok(path) => Create(before.value, path, v)
  }

  /** Only objects are unflattened; the empty one gives null, and the greatest key of any other is assigned last. */
  lemma {:induction false} UnflattenExactly(x: Json)
    ensures !x.Object? ==> Unflatten(x) == Err(314)
    ensures x == Object(map[]) ==> Unflatten(x) == Ok(Null)
    ensures x.Object? ==> forall g | Greatest(x.o, g) :: Unflatten(x) == Assigned(Unflatten(Object(x.o - {g})), g, x.o[g])
  {
    if x.Object? {
      forall g | Greatest(x.o, g) ensures Unflatten(x) == Assigned(Unflatten(Object(x.o - {g})), g, x.o[g]) {
        hide Create, Split, Sorted, Less, Before;
        GreatestIsLast(x.o, g);
        UnflattenSnoc(Null, x.o, x.o - {g}, Sorted((x.o - {g}).Keys), g);
      }
      if x.o == map[] {
        assert x.o.Keys == {};
      }
    }
  }

  /** There is a greatest key in every object that is not empty. */
  lemma {:induction false} GreatestExists(o: map<bytes, Json>) returns (g: bytes)
    requires o != map[]
    ensures Greatest(o, g)
  {
    var keys := Sorted(o.Keys);
    hide Sorted, Less, Before;
    var k :| k in o;
    assert k in keys;
    g := keys[|keys| - 1];
    assert g in keys;
    forall l | l in o ensures l == g || Before(l, g) {
      assert l in keys;
      var i :| 0 <= i < |keys| && keys[i] == l;
      if i < |keys| - 1 {
        LessExactly(l, g);
      }
    }
  }
}
