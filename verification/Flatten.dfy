/**
  flatten() and unflatten(): a value as an object from JSON Pointer texts to leaves, and back.

  unflatten() visits the texts in byte order and creates missing containers from the first token that
  reaches them, so it restores a value exactly when no object is first reached through the token "0".
 */
module Flatten {
  import opened Arith
  import opened Decimal
  import opened Json
  import opened Pointer
  import opened Patch

  const TOKEN_0: bytes := [ZERO]

  // ---- the leaves of a value

  predicate IsLeaf(x: Json) {
    match x
    case Array(a) => a == []
    case Object(o) => o == map[]
    case _ => true
  }

  predicate IsPrimitive(x: Json) {
    !x.Array? && !x.Object?
  }

  /** Empty containers are flattened to null. */
  function Leaf(x: Json): Json {
    if IsPrimitive(x) then x else Null
  }

  ghost function Paths(x: Json): set<seq<bytes>> {
    if IsLeaf(x) then {[]}
    else
      match x
      case Array(a) => set i, p | 0 <= i < |a| && p in Paths(a[i]) :: [ToDecimal(i)] + p
      case Object(o) => set k, p | k in o && p in Paths(o[k]) :: [k] + p
  }

  lemma {:induction false} PathBelow(x: Json, p: seq<bytes>)
    requires p in Paths(x) && !IsLeaf(x)
    ensures p != []
    ensures x.Array? ==> DecimalToken(p[0]) && DigitsValue(p[0]) < |x.a| && p[1..] in Paths(x.a[DigitsValue(p[0])])
    ensures x.Object? ==> p[0] in x.o && p[1..] in Paths(x.o[p[0]])
  {
    match x
    case Array(a) =>
      var i, q :| 0 <= i < |a| && q in Paths(a[i]) && p == [ToDecimal(i)] + q;
      assert p[1..] == q;
    case Object(o) =>
      var k, q :| k in o && q in Paths(o[k]) && p == [k] + q;
      assert p[1..] == q;
  }

  lemma {:induction false} PathsStep(x: Json, t: bytes, p: seq<bytes>)
    ensures !IsLeaf(x) ==> ([t] + p in Paths(x) <==> HasChild(x, t) && p in Paths(ChildOf(x, t)))
  {
    if !IsLeaf(x) {
      if [t] + p in Paths(x) {
        PathBelow(x, [t] + p);
        assert ([t] + p)[1..] == p;
      }
    }
  }

  ghost function LeafAt(x: Json, p: seq<bytes>): (v: Json)
    requires p in Paths(x)
    ensures IsPrimitive(v)
    decreases |p|
  {
    if IsLeaf(x) then Leaf(x)
    else
      PathBelow(x, p);
      LeafAt(ChildOf(x, p[0]), p[1..])
  }

  lemma {:induction false} PathsExist(x: Json)
    ensures Paths(x) != {}
  {
    if !IsLeaf(x) {
      match x
      case Array(a) =>
        PathsExist(a[0]);
        var p :| p in Paths(a[0]);
        PathsStep(x, ToDecimal(0), p);
      case Object(o) =>
        var k :| k in o;
        PathsExist(o[k]);
        var p :| p in Paths(o[k]);
        PathsStep(x, k, p);
    }
  }

  lemma {:induction false} TextsDistinct()
    ensures forall p, q :: ToString(p) == ToString(q) ==> p == q
  {
    forall p, q | ToString(p) == ToString(q) ensures p == q {
      ToStringInjective(p, q);
    }
  }

  /** The flattened object. */
  ghost function Flat(x: Json): map<bytes, Json> {
    TextsDistinct();
    map p | p in Paths(x) :: ToString(p) := LeafAt(x, p)
  }

  // ---- the recursion of flatten()

  /** The leaves of x, below the given tokens, have been written; everything else is as before. */
  ghost predicate Wrote(before: map<bytes, Json>, after: map<bytes, Json>, tokens: seq<bytes>, x: Json) {
    && (forall p | p in Paths(x) :: ToString(tokens + p) in after && after[ToString(tokens + p)] == LeafAt(x, p))
    && (forall k | k in before :: k in after)
    && (forall k | k in after :: (k in before && after[k] == before[k]) || exists p :: p in Paths(x) && k == ToString(tokens + p))
  }

  /** The same for the children under some first tokens only. */
  ghost predicate WroteUnder(before: map<bytes, Json>, after: map<bytes, Json>, tokens: seq<bytes>, x: Json, firsts: set<bytes>)
    requires !IsLeaf(x)
  {
    && (forall p | p in Paths(x) && Starts(p, firsts) ::
          ToString(tokens + p) in after && after[ToString(tokens + p)] == LeafAt(x, p))
    && (forall k | k in before :: k in after)
    && (forall k | k in after ::
          (k in before && after[k] == before[k]) ||
          exists p :: p in Paths(x) && Starts(p, firsts) && k == ToString(tokens + p))
  }

  predicate Starts(p: seq<bytes>, firsts: set<bytes>) {
    p != [] && p[0] in firsts
  }

  lemma {:induction false} WroteChild(before: map<bytes, Json>, mid: map<bytes, Json>, after: map<bytes, Json>, tokens: seq<bytes>,
                                      x: Json, firsts: set<bytes>, t: bytes)
    requires !IsLeaf(x) && HasChild(x, t) && t !in firsts
    requires WroteUnder(before, mid, tokens, x, firsts)
    requires Wrote(mid, after, tokens + [t], ChildOf(x, t))
    ensures WroteUnder(before, after, tokens, x, firsts + {t})
  {
    hide ToString, Paths, HasChild, IsLeaf;
    var c := ChildOf(x, t);
    forall p | p in Paths(x) && Starts(p, firsts + {t})
      ensures ToString(tokens + p) in after && after[ToString(tokens + p)] == LeafAt(x, p)
    {
      if p[0] == t {
        PathOfChild(tokens, x, p);
      } else {
        assert Starts(p, firsts) && ToString(tokens + p) in mid;
        forall q | q in Paths(c) ensures ToString(tokens + p) != ToString((tokens + [t]) + q) {
          OtherFirst(tokens, t, p, q);
        }
      }
    }
    forall k | k in after
      ensures (k in before && after[k] == before[k]) ||
              exists p :: p in Paths(x) && Starts(p, firsts + {t}) && k == ToString(tokens + p)
    {
      if k in mid && after[k] == mid[k] {
        if !(k in before && mid[k] == before[k]) {
          var p :| p in Paths(x) && Starts(p, firsts) && k == ToString(tokens + p);
          assert Starts(p, firsts + {t});
        }
      } else {
        var q :| q in Paths(c) && k == ToString((tokens + [t]) + q);
        PathsStep(x, t, q);
        assert tokens + ([t] + q) == (tokens + [t]) + q;
        assert Starts([t] + q, firsts + {t});
      }
    }
  }

  lemma {:induction false} OtherFirst(tokens: seq<bytes>, t: bytes, p: seq<bytes>, q: seq<bytes>)
    requires p != [] && p[0] != t
    ensures ToString(tokens + p) != ToString((tokens + [t]) + q)
  {
    hide ToString;
    var a, b := tokens + p, (tokens + [t]) + q;
    assert a[|tokens|] == p[0] && b[|tokens|] == t;
    if ToString(a) == ToString(b) {
      ToStringInjective(a, b);
    }
  }

  lemma {:induction false} PathOfChild(tokens: seq<bytes>, x: Json, p: seq<bytes>)
    requires !IsLeaf(x) && p in Paths(x)
    ensures p != [] && HasChild(x, p[0]) && p[1..] in Paths(ChildOf(x, p[0]))
    ensures tokens + p == (tokens + [p[0]]) + p[1..] && LeafAt(x, p) == LeafAt(ChildOf(x, p[0]), p[1..])
  {
    PathBelow(x, p);
  }

  lemma {:induction false} WroteAllChildren(before: map<bytes, Json>, after: map<bytes, Json>, tokens: seq<bytes>, x: Json, firsts: set<bytes>)
    requires !IsLeaf(x) && WroteUnder(before, after, tokens, x, firsts)
    requires forall t | HasChild(x, t) :: t in firsts
    ensures Wrote(before, after, tokens, x)
  {
    hide ToString, Paths, HasChild, IsLeaf;
    forall p | p in Paths(x) ensures Starts(p, firsts) {
      PathOfChild(tokens, x, p);
    }
  }

  lemma {:induction false} WroteLeaf(before: map<bytes, Json>, tokens: seq<bytes>, x: Json)
    requires IsLeaf(x)
    ensures Wrote(before, before[ToString(tokens) := Leaf(x)], tokens, x)
  {
    hide ToString;
    assert tokens + [] == tokens;
    assert Paths(x) == {[]};
  }

  ghost function IndexTokens(n: nat): set<bytes> {
    set i | 0 <= i < n :: ToDecimal(i)
  }

  lemma {:induction false} IndexTokensStep(n: nat)
    ensures IndexTokens(n + 1) == IndexTokens(n) + {ToDecimal(n)} && ToDecimal(n) !in IndexTokens(n)
  {
    forall i | 0 <= i < n ensures ToDecimal(i) != ToDecimal(n) {
      if ToDecimal(i) == ToDecimal(n) {
        ToDecimalInjective(i, n);
      }
    }
  }

  /** flatten(), writing into the result object. */
  method FlattenInto(reference: bytes, value: Json, result0: map<bytes, Json>, ghost tokens: seq<bytes>)
    returns (result: map<bytes, Json>)
    requires reference == ToString(tokens)
    ensures Wrote(result0, result, tokens, value)
    decreases value
  {
    hide ToString, Wrote, WroteUnder, Escape, Paths;
    result := result0;
    if IsLeaf(value) {
      WroteLeaf(result, tokens, value);
      result := result[reference := Leaf(value)];
      return;
    }
    NothingWritten(result0, tokens, value);
    match value
    case Array(a) =>
      for i := 0 to |a|
        invariant WroteUnder(result0, result, tokens, value, IndexTokens(i))
      {
        IndexPath(tokens, i);
        IndexTokensStep(i);
        ghost var mid := result;
        result := FlattenInto(reference + [SLASH] + ToDecimal(i), a[i], result, tokens + [ToDecimal(i)]);
        WroteChild(result0, mid, result, tokens, value, IndexTokens(i), ToDecimal(i));
      }
      WroteAllChildren(result0, result, tokens, value, IndexTokens(|a|));
    case Object(o) =>
      var keys := Sorted(o.Keys);
      SortedDistinct(o.Keys);
      assert KeySet(keys[..0]) == {};
      for i := 0 to |keys|
        invariant WroteUnder(result0, result, tokens, value, KeySet(keys[..i]))
      {
        var k := keys[i];
        ghost var firsts := KeySet(keys[..i]);
        KeyAppended(keys, i);
        ChildPath(tokens, k);
        ghost var mid := result;
        var key := EscapeToken(k);
        result := FlattenInto(reference + [SLASH] + key, o[k], result, tokens + [k]);
        WroteChild(result0, mid, result, tokens, value, firsts, k);
      }
      assert keys[..|keys|] == keys;
      WroteAllChildren(result0, result, tokens, value, KeySet(keys));
  }

  lemma {:induction false} NothingWritten(before: map<bytes, Json>, tokens: seq<bytes>, x: Json)
    requires !IsLeaf(x)
    ensures WroteUnder(before, before, tokens, x, IndexTokens(0)) && WroteUnder(before, before, tokens, x, {})
  {}

  ghost function KeySet(keys: seq<bytes>): set<bytes> {
    set k | k in keys
  }

  lemma {:induction false} KeyAppended(keys: seq<bytes>, i: nat)
    requires i < |keys| && Distinct(keys)
    ensures KeySet(keys[..i + 1]) == KeySet(keys[..i]) + {keys[i]} && keys[i] !in KeySet(keys[..i])
    ensures keys[i] in keys
  {
    assert keys[..i + 1] == keys[..i] + [keys[i]];
  }

  /** All the leaves, each under the text of its path, and nothing else. */
  method FlattenValue(value: Json) returns (result: map<bytes, Json>)
    ensures result == Flat(value)
  {
    result := FlattenInto([], value, map[], []);
    FlatWritten(result, value);
  }

  lemma {:induction false} FlatAt(x: Json, p: seq<bytes>)
    requires p in Paths(x)
    ensures ToString(p) in Flat(x) && Flat(x)[ToString(p)] == LeafAt(x, p)
  {
    TextsDistinct();
  }

  lemma {:induction false} FlatKey(x: Json, k: bytes) returns (p: seq<bytes>)
    requires k in Flat(x)
    ensures p in Paths(x) && k == ToString(p)
  {
    p :| p in Paths(x) && k == ToString(p);
  }

  lemma {:induction false} FlatWritten(m: map<bytes, Json>, x: Json)
    requires Wrote(map[], m, [], x)
    ensures m == Flat(x)
  {
    hide ToString, Paths, Flat, LeafAt;
    assert forall p: seq<bytes> :: [] + p == p;
    forall k | k in m ensures k in Flat(x) && Flat(x)[k] == m[k] {
      var p :| p in Paths(x) && k == ToString([] + p);
      assert [] + p == p;
      FlatAt(x, p);
    }
    forall k | k in Flat(x) ensures k in m {
      var p := FlatKey(x, k);
      assert ToString([] + p) in m;
    }
  }

  // ---- unflatten(): creating places from tokens

  /** One step of get_and_create: null becomes an array for the token "0", else an object. */
  function CreatePlace(j0: Json, tok: bytes): (r: Result<(Json, Place)>)
    ensures r.Ok? ==> Has(r.value.0, r.value.1)
  {
    var j := if j0.Null? then (if tok == TOKEN_0 then Array([]) else Object(map[])) else j0;
    match j
    case Object(o) => Ok((if tok in o then j else Object(o[tok := Null]), Member(tok)))
    case Array(a) =>
      (match ArrayIndex(tok)
       case Err(id) => Err(if id == INVALID_ARGUMENT then PARSE_ERROR_109 else id)
       case Ok(i) =>
         if i < 0 then Err(LENGTH_ERROR)
         else Ok((if i < |a| then j else Array(a + Nulls(i - |a| + 1)), Element(i))))
    case _ => Err(TYPE_ERROR_313)
  }

  /** get_and_create, followed by the assignment to the reference it returns. */
  function Create(j: Json, path: seq<bytes>, v: Json): Result<Json>
    decreases |path|
  {
    if path == [] then Ok(v)
    else
      match CreatePlace(j, path[0])
      case Err(id) => Err(id)
      case Ok((k, p)) => Lift(k, p, Create(Get(k, p), path[1..], v))
  }

  function UnflattenKeys(j: Json, m: map<bytes, Json>, keys: seq<bytes>): Result<Json>
    requires forall k | k in keys :: k in m
    decreases |keys|
  {
    if keys == [] then Ok(j)
    else if !IsPrimitive(m[keys[0]]) then Err(TYPE_ERROR_315)
    else
      match Split(keys[0])
      case Err(id) => Err(id)
      case Ok(path) =>
        match Create(j, path, m[keys[0]])
        case Err(id) => Err(id)
        case Ok(k) => UnflattenKeys(k, m, keys[1..])
  }

  function Unflatten(x: Json): Result<Json> {
    if !x.Object? then Err(TYPE_ERROR_314) else UnflattenKeys(Null, x.o, Sorted(x.o.Keys))
  }

  lemma {:induction false} UnflattenStep(j: Json, m: map<bytes, Json>, keys: seq<bytes>, i: nat)
    requires i < |keys| && forall k | k in keys :: k in m
    ensures forall k | k in keys[i..] + keys[i + 1..] :: k in m
    ensures var path := Split(keys[i]);
            UnflattenKeys(j, m, keys[i..]) ==
            if !IsPrimitive(m[keys[i]]) then Err(TYPE_ERROR_315)
            else if path.Err? then Err(path.id)
            else
              var next := Create(j, path.value, m[keys[i]]);
              if next.Err? then next else UnflattenKeys(next.value, m, keys[i + 1..])
  {
    hide Create, Split, IsPrimitive;
    assert keys[i..][1..] == keys[i + 1..];
  }

  method UnflattenValue(value: Json) returns (r: Result<Json>)
    ensures r == Unflatten(value)
  {
    if !value.Object? {
      return Err(TYPE_ERROR_314);
    }
    var m := value.o;
    var keys := Sorted(m.Keys);
    var result := Null;
    assert keys[0..] == keys;
    hide Create, Split, Sorted, IsPrimitive, UnflattenKeys;
    for i := 0 to |keys|
      invariant UnflattenKeys(result, m, keys[i..]) == UnflattenKeys(Null, m, keys)
    {
      UnflattenStep(result, m, keys, i);
      var v := m[keys[i]];
      if !IsPrimitive(v) {
        return Err(TYPE_ERROR_315);
      }
      var path := Split(keys[i]);
      if path.Err? {
        return Err(path.id);
      }
      var next := Create(result, path.value, v);
      if next.Err? {
        return next;
      }
      result := next.value;
    }
    NoKeysLeft(result, m, keys);
    return Ok(result);
  }

  lemma {:induction false} NoKeysLeft(j: Json, m: map<bytes, Json>, keys: seq<bytes>)
    ensures UnflattenKeys(j, m, keys[|keys|..]) == Ok(j)
  {}

  // ---- the order in which unflatten() meets the paths

  ghost predicate Increasing(ps: seq<seq<bytes>>) {
    forall i, j | 0 <= i < j < |ps| :: Less(ToString(ps[i]), ToString(ps[j]))
  }

  ghost predicate Lists(ps: seq<seq<bytes>>, x: Json) {
    Increasing(ps) && forall p :: p in ps <==> p in Paths(x)
  }

  /** An increasing list is determined by its elements. */
  lemma {:induction false} IncreasingUnique(a: seq<seq<bytes>>, b: seq<seq<bytes>>)
    requires Increasing(a) && Increasing(b) && forall p :: p in a <==> p in b
    ensures a == b
  {
    hide ToString, Less;
    assert (a != [] ==> a[0] in a) && (b != [] ==> b[0] in b);
    if a != [] && b != [] {
      SameHead(a, b);
      forall p ensures p in a[1..] <==> p in b[1..] {
        HeadElsewhere(a, p);
        HeadElsewhere(b, p);
      }
      IncreasingUnique(a[1..], b[1..]);
      assert a == [a[0]] + a[1..] && b == [b[0]] + b[1..];
    }
  }

  lemma {:induction false} SameHead(a: seq<seq<bytes>>, b: seq<seq<bytes>>)
    requires Increasing(a) && Increasing(b) && (forall p :: p in a <==> p in b) && a != [] && b != []
    ensures a[0] == b[0]
  {
    hide ToString, Less;
    assert a[0] in b && b[0] in a;
    var i :| 0 <= i < |a| && a[i] == b[0];
    var j :| 0 <= j < |b| && b[j] == a[0];
    LessTotal(ToString(a[0]), ToString(b[0]));
  }

  lemma {:induction false} HeadElsewhere(a: seq<seq<bytes>>, p: seq<bytes>)
    requires Increasing(a) && a != []
    ensures p in a[1..] <==> p in a && p != a[0]
  {
    hide ToString, Less;
    if p in a[1..] {
      var i :| 0 <= i < |a| - 1 && a[1..][i] == p;
      assert p == a[i + 1];
      LessTotal(ToString(a[0]), ToString(a[i + 1]));
    }
  }

  ghost function Decoded(keys: seq<bytes>): (ps: seq<seq<bytes>>)
    requires forall k | k in keys :: Split(k).Ok?
    ensures |ps| == |keys|
  {
    if keys == [] then [] else [Split(keys[0]).value] + Decoded(keys[1..])
  }

  lemma {:induction false} FlatKeysSplit(x: Json)
    ensures forall k | k in Flat(x) :: Split(k).Ok? && Split(k).value in Paths(x) && ToString(Split(k).value) == k
  {
    forall k | k in Flat(x) ensures Split(k).Ok? && Split(k).value in Paths(x) && ToString(Split(k).value) == k {
      var p := FlatKey(x, k);
      SplitToString(p);
    }
  }

  lemma {:induction false} DecodedAt(keys: seq<bytes>, i: nat)
    requires (forall k | k in keys :: Split(k).Ok?) && i < |keys|
    ensures Decoded(keys)[i] == Split(keys[i]).value
  {
    if i > 0 {
      DecodedAt(keys[1..], i - 1);
    }
  }

  ghost function Order(x: Json): (ps: seq<seq<bytes>>)
    ensures Lists(ps, x)
  {
    FlatKeysSplit(x);
    OrderLists(x);
    Decoded(Sorted(Flat(x).Keys))
  }

  lemma {:induction false} OrderLists(x: Json)
    requires forall k | k in Flat(x) :: Split(k).Ok? && Split(k).value in Paths(x) && ToString(Split(k).value) == k
    ensures Lists(Decoded(Sorted(Flat(x).Keys)), x)
  {
    var keys := Sorted(Flat(x).Keys);
    hide ToString, Less, Split, Flat, Sorted, Paths;
    var ps := Decoded(keys);
    forall i | 0 <= i < |ps| ensures ps[i] == Split(keys[i]).value && ToString(ps[i]) == keys[i] && ps[i] in Paths(x) {
      DecodedAt(keys, i);
      assert keys[i] in keys;
    }
    forall p | p in Paths(x) ensures p in ps {
      FlatAt(x, p);
      assert ToString(p) in keys;
      var i :| 0 <= i < |keys| && keys[i] == ToString(p);
      SplitToString(p);
      assert ps[i] == p;
    }
  }

  // ---- building the value from a list of its paths

  ghost function Build(j: Json, x: Json, ps: seq<seq<bytes>>): Result<Json>
    requires forall p | p in ps :: p in Paths(x)
    decreases |ps|
  {
    if ps == [] then Ok(j)
    else
      match Create(j, ps[0], LeafAt(x, ps[0]))
      case Err(id) => Err(id)
      case Ok(k) => Build(k, x, ps[1..])
  }

  lemma {:induction false} UnflattenBuilds(j: Json, x: Json, keys: seq<bytes>)
    requires forall k | k in keys :: k in Flat(x) && Split(k).Ok?
    ensures forall p | p in Decoded(keys) :: p in Paths(x)
    ensures UnflattenKeys(j, Flat(x), keys) == Build(j, x, Decoded(keys))
    decreases |keys|
  {
    hide Create, Flat, LeafAt, Paths;
    if keys != [] {
      var p := FlatKey(x, keys[0]);
      SplitToString(p);
      FlatAt(x, p);
      hide Split, ToString;
      assert Decoded(keys)[1..] == Decoded(keys[1..]);
      var r := Create(j, p, LeafAt(x, p));
      UnflattenBuilds(if r.Ok? then r.value else j, x, keys[1..]);
    }
  }

  /** The tails of the paths that start with a token. */
  ghost function Tails(t: bytes, ps: seq<seq<bytes>>): seq<seq<bytes>> {
    if ps == [] then []
    else (if ps[0] != [] && ps[0][0] == t then [ps[0][1..]] else []) + Tails(t, ps[1..])
  }

  lemma {:induction false} TailsMember(t: bytes, ps: seq<seq<bytes>>, q: seq<bytes>)
    ensures q in Tails(t, ps) <==> [t] + q in ps
  {
    if ps != [] {
      TailsMember(t, ps[1..], q);
      assert [t] + q in ps <==> [t] + q == ps[0] || [t] + q in ps[1..];
      if ps[0] != [] {
        assert ps[0] == [ps[0][0]] + ps[0][1..];
      }
    }
  }

  lemma {:induction false} TailsIncreasing(t: bytes, ps: seq<seq<bytes>>)
    requires Increasing(ps)
    ensures Increasing(Tails(t, ps))
  {
    hide ToString, Less;
    if ps != [] {
      TailsIncreasing(t, ps[1..]);
      var rest := Tails(t, ps[1..]);
      if ps[0] != [] && ps[0][0] == t {
        forall j | 0 <= j < |rest| ensures Less(ToString(ps[0][1..]), ToString(rest[j])) {
          assert rest[j] in rest;
          TailsMember(t, ps[1..], rest[j]);
          var i :| 0 <= i < |ps| - 1 && ps[1..][i] == [t] + rest[j];
          assert ps[i + 1] == [t] + rest[j] && ps[0] == [t] + ps[0][1..];
          LessBelow(t, ps[0][1..], rest[j]);
        }
      }
    }
  }

  lemma {:induction false} LessBelow(t: bytes, p: seq<bytes>, q: seq<bytes>)
    ensures Less(ToString([t] + p), ToString([t] + q)) == Less(ToString(p), ToString(q))
  {
    ToStringConcat([t], p);
    ToStringConcat([t], q);
    hide ToString;
    LessPrefix(ToString([t]), ToString(p), ToString(q));
  }

  /** The paths of a child, in the order in which they are met below the parent. */
  lemma {:induction false} TailsOrder(x: Json, t: bytes, ps: seq<seq<bytes>>)
    requires !IsLeaf(x) && Lists(ps, x) && HasChild(x, t)
    ensures Tails(t, ps) == Order(ChildOf(x, t))
  {
    hide ToString, Less, Paths, Order;
    TailsIncreasing(t, ps);
    forall q ensures q in Tails(t, ps) <==> q in Order(ChildOf(x, t)) {
      TailsMember(t, ps, q);
      PathsStep(x, t, q);
    }
    IncreasingUnique(Tails(t, ps), Order(ChildOf(x, t)));
  }

  /** The outcome at a child: nothing there yet counts as null. */
  ghost function ChildBuild(j: Json, x: Json, t: bytes, ps: seq<seq<bytes>>): Result<Json>
    requires !IsLeaf(x) && HasChild(x, t) && forall p | p in ps :: p in Paths(x)
  {
    TailsArePaths(x, t, ps);
    Build(Present(j, t), ChildOf(x, t), Tails(t, ps))
  }

  function Present(j: Json, t: bytes): Json {
    if HasChild(j, t) then ChildOf(j, t) else Null
  }

  lemma {:induction false} TailsArePaths(x: Json, t: bytes, ps: seq<seq<bytes>>)
    requires !IsLeaf(x) && HasChild(x, t) && forall p | p in ps :: p in Paths(x)
    ensures forall q | q in Tails(t, ps) :: q in Paths(ChildOf(x, t))
  {
    forall q | q in Tails(t, ps) ensures q in Paths(ChildOf(x, t)) {
      TailsMember(t, ps, q);
      PathsStep(x, t, q);
    }
  }

  /** The first path acts on its own child only. */
  lemma {:induction false} ChildBuildStep(j: Json, k: Json, x: Json, t: bytes, ps: seq<seq<bytes>>, r: Result<Json>)
    requires !IsLeaf(x) && ps != [] && HasChild(x, t) && forall p | p in ps :: p in Paths(x)
    requires ps[0] != [] && HasChild(x, ps[0][0])
    requires r == Create(Present(j, ps[0][0]), ps[0][1..], LeafAt(x, ps[0]))
    requires r.Ok? && Present(k, t) == if t == ps[0][0] then r.value else Present(j, t)
    ensures ChildBuild(j, x, t, ps) == ChildBuild(k, x, t, ps[1..])
  {
    hide Create, Paths, LeafAt, HasChild, Present, ChildOf;
    TailsArePaths(x, t, ps);
    TailsArePaths(x, t, ps[1..]);
    if t == ps[0][0] {
      PathOfChild([], x, ps[0]);
      assert Tails(t, ps) == [ps[0][1..]] + Tails(t, ps[1..]);
      assert Tails(t, ps)[1..] == Tails(t, ps[1..]);
    } else {
      assert Tails(t, ps) == Tails(t, ps[1..]);
    }
  }

  lemma {:induction false} ChildBuildFails(j: Json, x: Json, ps: seq<seq<bytes>>)
    requires !IsLeaf(x) && ps != [] && forall p | p in ps :: p in Paths(x)
    requires ps[0] != [] && HasChild(x, ps[0][0])
    requires Create(Present(j, ps[0][0]), ps[0][1..], LeafAt(x, ps[0])).Err?
    ensures ChildBuild(j, x, ps[0][0], ps).Err?
  {
    hide Create, Paths, LeafAt, HasChild, Present, ChildOf;
    TailsArePaths(x, ps[0][0], ps);
    PathOfChild([], x, ps[0]);
    assert Tails(ps[0][0], ps) == [ps[0][1..]] + Tails(ps[0][0], ps[1..]);
  }

  // ---- objects

  /** r is the object whose members are the children's outcomes; it is an error if one of them is. */
  ghost predicate ObjectBuilt(r: Result<Json>, j: Json, x: Json, ps: seq<seq<bytes>>)
    requires j.Object? && x.Object? && !IsLeaf(x) && forall p | p in ps :: p in Paths(x)
  {
    if forall t | t in x.o :: ChildBuild(j, x, t, ps).Ok? then
      && r.Ok? && r.value.Object?
      && (forall t :: t in r.value.o <==> t in j.o || FirstOfSome(t, ps))
      && (forall t | t in x.o && t in r.value.o :: r.value.o[t] == ChildBuild(j, x, t, ps).value)
    else r.Err?
  }

  ghost predicate FirstOfSome(t: bytes, ps: seq<seq<bytes>>) {
    exists p :: p in ps && p != [] && p[0] == t
  }

  lemma {:induction false} ObjectBuilds(j: Json, x: Json, ps: seq<seq<bytes>>)
    requires j.Object? && x.Object? && !IsLeaf(x) && forall p | p in ps :: p in Paths(x)
    ensures ObjectBuilt(Build(j, x, ps), j, x, ps)
    decreases |ps|
  {
    hide Paths, LeafAt;
    if ps == [] {
      forall t | t in x.o ensures ChildBuild(j, x, t, ps) == Ok(Present(j, t)) {}
    } else {
      var p := ps[0];
      PathOfChild([], x, p);
      var t0 := p[0];
      var c := Create(Present(j, t0), p[1..], LeafAt(x, p));
      CreateMember(j, p, LeafAt(x, p));
      hide Create;
      if c.Err? {
        ChildBuildFails(j, x, ps);
      } else {
        var k := Object(j.o[t0 := c.value]);
        ObjectBuilds(k, x, ps[1..]);
        ObjectStep(Build(j, x, ps), j, k, x, ps, c);
      }
    }
  }

  lemma {:induction false} CreateMember(j: Json, p: seq<bytes>, v: Json)
    requires j.Object? && p != []
    ensures Create(j, p, v) ==
            match Create(Present(j, p[0]), p[1..], v)
            case Err(id) => Err(id)
            case Ok(c) => Ok(Object(j.o[p[0] := c]))
  {
    if p[0] !in j.o {
      var c := Create(Null, p[1..], v);
      if c.Ok? {
        assert j.o[p[0] := Null][p[0] := c.value] == j.o[p[0] := c.value];
      }
    }
  }

  lemma {:induction false} ObjectStep(r: Result<Json>, j: Json, k: Json, x: Json, ps: seq<seq<bytes>>, c: Result<Json>)
    requires j.Object? && x.Object? && !IsLeaf(x) && ps != [] && forall p | p in ps :: p in Paths(x)
    requires ps[0] != [] && HasChild(x, ps[0][0])
    requires c == Create(Present(j, ps[0][0]), ps[0][1..], LeafAt(x, ps[0])) && c.Ok?
    requires k == Object(j.o[ps[0][0] := c.value]) && ObjectBuilt(r, k, x, ps[1..])
    ensures ObjectBuilt(r, j, x, ps)
  {
    hide Create, LeafAt, Paths, IsLeaf, ChildBuild;
    forall t | t in x.o ensures ChildBuild(j, x, t, ps) == ChildBuild(k, x, t, ps[1..]) {
      ChildBuildStep(j, k, x, t, ps, c);
    }
    forall t ensures FirstOfSome(t, ps) <==> t == ps[0][0] || FirstOfSome(t, ps[1..]) {
      FirstOfRest(t, ps);
    }
  }

  lemma {:induction false} FirstOfRest(t: bytes, ps: seq<seq<bytes>>)
    requires ps != [] && ps[0] != []
    ensures FirstOfSome(t, ps) <==> t == ps[0][0] || FirstOfSome(t, ps[1..])
  {
    if FirstOfSome(t, ps) {
      var p :| p in ps && p != [] && p[0] == t;
      assert p == ps[0] || p in ps[1..];
    }
    if t == ps[0][0] {
      assert ps[0] in ps;
    }
  }

  // ---- arrays

  predicate DecimalPath(p: seq<bytes>) {
    p != [] && DecimalToken(p[0])
  }

  function FirstIndex(p: seq<bytes>): nat
    requires DecimalPath(p)
  {
    DigitsValue(p[0])
  }

  /** The length of an array that had n elements, after the paths have been created. */
  ghost function Reach(n: nat, ps: seq<seq<bytes>>): (r: nat)
    requires forall p | p in ps :: DecimalPath(p)
    ensures r >= n && forall p | p in ps :: r > FirstIndex(p)
    ensures r == n || exists p :: p in ps && r == FirstIndex(p) + 1
    decreases |ps|
  {
    if ps == [] then n
    else
      var i := FirstIndex(ps[0]);
      var r := Reach(if i < n then n else i + 1, ps[1..]);
      assert forall p | p in ps :: p == ps[0] || p in ps[1..];
      assert ps[0] in ps;
      r
  }

  lemma {:induction false} ArrayPaths(x: Json, ps: seq<seq<bytes>>)
    requires x.Array? && !IsLeaf(x) && forall p | p in ps :: p in Paths(x)
    ensures forall p | p in ps :: DecimalPath(p) && FirstIndex(p) < |x.a|
  {
    forall p | p in ps ensures DecimalPath(p) && FirstIndex(p) < |x.a| {
      PathBelow(x, p);
    }
  }

  predicate IntIndices(ps: seq<seq<bytes>>) {
    forall p | p in ps :: DecimalPath(p) && FirstIndex(p) <= INT_MAX
  }

  ghost predicate ArrayBuilt(r: Result<Json>, j: Json, x: Json, ps: seq<seq<bytes>>)
    requires j.Array? && x.Array? && !IsLeaf(x) && forall p | p in ps :: p in Paths(x)
  {
    ArrayPaths(x, ps);
    if IntIndices(ps) && forall i | 0 <= i < |x.a| :: ChildBuild(j, x, ToDecimal(i), ps).Ok? then
      && r.Ok? && r.value.Array? && |r.value.a| == Reach(|j.a|, ps)
      && (forall i | 0 <= i < |x.a| && i < |r.value.a| :: r.value.a[i] == ChildBuild(j, x, ToDecimal(i), ps).value)
    else r.Err?
  }

  function Extended(a: seq<Json>, i: nat): (r: seq<Json>)
    ensures i < |r|
  {
    if i < |a| then a else a + Nulls(i - |a| + 1)
  }

  lemma {:induction false} CreateElement(j: Json, p: seq<bytes>, v: Json)
    requires j.Array? && DecimalPath(p)
    ensures var i := FirstIndex(p);
            Create(j, p, v) ==
            if i > INT_MAX then Err(STD_OUT_OF_RANGE)
            else
              match Create(Present(j, p[0]), p[1..], v)
              case Err(id) => Err(id)
              case Ok(c) => Ok(Array(Extended(j.a, i)[i := c]))
  {
    hide ArrayIndex, Create, CreatePlace, Extended, Present, ToDecimal, DigitsValue, Nulls;
    CreateOnce(j, p, v);
    PlaceOfIndex(j.a, FirstIndex(p), v);
  }

  lemma {:induction false} CreateOnce(j: Json, p: seq<bytes>, v: Json)
    requires p != []
    ensures Create(j, p, v) ==
            match CreatePlace(j, p[0])
            case Err(id) => Err(id)
            case Ok((k, place)) => Lift(k, place, Create(Get(k, place), p[1..], v))
  {
    hide CreatePlace, Lift;
  }

  lemma {:induction false} PlaceOfIndex(a: seq<Json>, i: nat, v: Json)
    ensures CreatePlace(Array(a), ToDecimal(i)) ==
            if i > INT_MAX then Err(STD_OUT_OF_RANGE) else Ok((Array(Extended(a, i)), Element(i)))
    ensures Present(Array(a), ToDecimal(i)) == Extended(a, i)[i]
  {
    IndexToken(i);
    hide ArrayIndex;
  }

  lemma {:induction false} ArrayBuilds(j: Json, x: Json, ps: seq<seq<bytes>>)
    requires j.Array? && x.Array? && !IsLeaf(x) && forall p | p in ps :: p in Paths(x)
    ensures ArrayBuilt(Build(j, x, ps), j, x, ps)
    decreases |ps|
  {
    hide Paths, LeafAt;
    ArrayPaths(x, ps);
    if ps == [] {
      forall i | 0 <= i < |x.a| ensures ChildBuild(j, x, ToDecimal(i), ps) == Ok(Present(j, ToDecimal(i))) {}
    } else {
      var p := ps[0];
      PathOfChild([], x, p);
      var t0, i0 := p[0], FirstIndex(p);
      var c := Create(Present(j, t0), p[1..], LeafAt(x, p));
      CreateElement(j, p, LeafAt(x, p));
      hide Create;
      if i0 > INT_MAX {
        assert p in ps && !IntIndices(ps);
      } else if c.Err? {
        ChildBuildFails(j, x, ps);
      } else {
        var k := Array(Extended(j.a, i0)[i0 := c.value]);
        ArrayBuilds(k, x, ps[1..]);
        ArrayStep(Build(j, x, ps), j, k, x, ps, c);
      }
    }
  }

  lemma {:induction false} PresentExtended(a: seq<Json>, i: nat, c: Json, t: bytes)
    requires DecimalToken(t)
    ensures Present(Array(Extended(a, i)[i := c]), t) == if t == ToDecimal(i) then c else Present(Array(a), t)
  {}

  lemma {:induction false} ArrayStep(r: Result<Json>, j: Json, k: Json, x: Json, ps: seq<seq<bytes>>, c: Result<Json>)
    requires j.Array? && x.Array? && !IsLeaf(x) && ps != [] && forall p | p in ps :: p in Paths(x)
    requires DecimalPath(ps[0]) && HasChild(x, ps[0][0]) && FirstIndex(ps[0]) <= INT_MAX
    requires c == Create(Present(j, ps[0][0]), ps[0][1..], LeafAt(x, ps[0])) && c.Ok?
    requires var i := FirstIndex(ps[0]); k == Array(Extended(j.a, i)[i := c.value])
    requires ArrayBuilt(r, k, x, ps[1..])
    ensures ArrayBuilt(r, j, x, ps)
  {
    hide Create, LeafAt, Paths, IsLeaf, ChildBuild, ToDecimal, DigitsValue, ArrayIndex, Present;
    ArrayPaths(x, ps);
    forall i | 0 <= i < |x.a| ensures ChildBuild(j, x, ToDecimal(i), ps) == ChildBuild(k, x, ToDecimal(i), ps[1..]) {
      PresentExtended(j.a, FirstIndex(ps[0]), c.value, ToDecimal(i));
      ChildBuildStep(j, k, x, ToDecimal(i), ps, c);
    }
    IndicesStep(j.a, c.value, ps);
  }

  lemma {:induction false} IndicesStep(a: seq<Json>, c: Json, ps: seq<seq<bytes>>)
    requires ps != [] && (forall p | p in ps :: DecimalPath(p)) && FirstIndex(ps[0]) <= INT_MAX
    ensures IntIndices(ps) <==> IntIndices(ps[1..])
    ensures Reach(|a|, ps) == Reach(|Extended(a, FirstIndex(ps[0]))|, ps[1..])
  {
    hide DecimalPath, FirstIndex;
    assert forall p | p in ps :: p == ps[0] || p in ps[1..];
    assert ps[0] in ps;
  }

  lemma {:induction false} ArrayStays(j: Json, x: Json, ps: seq<seq<bytes>>)
    requires j.Array? && forall p | p in ps :: p in Paths(x) && p != []
    ensures var r := Build(j, x, ps); r.Ok? ==> r.value.Array?
    decreases |ps|
  {
    hide Paths, LeafAt, ArrayIndex;
    if ps != [] {
      var r := Create(j, ps[0], LeafAt(x, ps[0]));
      if r.Ok? {
        ArrayStays(r.value, x, ps[1..]);
      }
    }
  }

  // ---- the law

  /** The first path of all, by byte order of the texts, starts with the token "0". */
  ghost predicate StartsAtZero(x: Json)
    requires !IsLeaf(x)
  {
    PathsExist(x);
    PathBelow(x, Order(x)[0]);
    Order(x)[0][0] == TOKEN_0
  }

  /**
    In byte order the paths below the key come behind those below the key "0", given whether the value
    at "0" is written as a leaf. A slash in a key is written as "~1" and so counts as a tilde.
   */
  predicate BehindZero(k: bytes, leaf: bool) {
    && k != []
    && (k[0] > ZERO || k[0] == SLASH || (k[0] == ZERO && (leaf || |k| == 1 || k[1] >= SLASH)))
  }

  /** The first path of the object leads through the key "0". */
  predicate ZeroLeads(o: map<bytes, Json>) {
    TOKEN_0 in o && forall k | k in o :: BehindZero(k, IsLeaf(o[TOKEN_0]))
  }

  /** What unflatten() restores. */
  predicate Restorable(x: Json) {
    match x
    case Array(a) => 0 < |a| <= INT_MAX + 1 && forall i | 0 <= i < |a| :: Restorable(a[i])
    case Object(o) => o != map[] && !ZeroLeads(o) && forall k | k in o :: Restorable(o[k])
    case _ => NoNaN(x)
  }

  lemma {:induction false} BuildFromNull(x: Json, ps: seq<seq<bytes>>)
    requires (forall p | p in ps :: p in Paths(x)) && ps != [] && ps[0] != []
    ensures Build(Null, x, ps) == Build(if ps[0][0] == TOKEN_0 then Array([]) else Object(map[]), x, ps)
  {
    hide ArrayIndex, Paths, LeafAt;
  }

  ghost function Rebuilt(x: Json): Result<Json> {
    Build(Null, x, Order(x))
  }

  lemma {:induction false} RebuiltChild(j: Json, x: Json, t: bytes)
    requires !IsLeaf(x) && HasChild(x, t) && !HasChild(j, t)
    ensures ChildBuild(j, x, t, Order(x)) == Rebuilt(ChildOf(x, t))
  {
    hide Paths, Order, HasChild;
    TailsOrder(x, t, Order(x));
  }

  lemma {:induction false} RebuiltLeaf(x: Json)
    requires IsLeaf(x)
    ensures Rebuilt(x) == Ok(Leaf(x))
  {
    hide Order, Leaf;
    var root: seq<bytes> := [];
    assert Paths(x) == {root};
    IncreasingUnique(Order(x), [root]);
    assert Create(Null, root, LeafAt(x, root)) == Ok(Leaf(x));
    assert [root][1..] == [] && Build(Leaf(x), x, []) == Ok(Leaf(x));
  }

  /** In byte order the paths of an array start with index 0. */
  lemma {:induction false} ArrayStartsAtZero(x: Json)
    requires x.Array? && !IsLeaf(x)
    ensures StartsAtZero(x)
  {
    PathsExist(x.a[0]);
    var q :| q in Paths(x.a[0]);
    PathsStep(x, ToDecimal(0), q);
    var ps := Order(x);
    var p := [ToDecimal(0)] + q;
    assert p in ps;
    PathBelow(x, ps[0]);
    if ps[0][0] != ToDecimal(0) {
      var i :| 0 <= i < |ps| && ps[i] == p;
      assert i != 0;
      ZeroFirst(p, ps[0]);
      LessTotal(ToString(p), ToString(ps[0]));
    }
  }

  lemma {:induction false} FirstToken(p: seq<bytes>)
    requires p != [] && AllDigits(p[0])
    ensures ToString(p) == [SLASH] + (p[0] + ToString(p[1..]))
  {
    DigitsEscape(p[0]);
    hide Escape;
    assert [SLASH] + p[0] + ToString(p[1..]) == [SLASH] + (p[0] + ToString(p[1..]));
  }

  lemma {:induction false} ZeroBelow(t: bytes)
    requires DecimalToken(t) && t != TOKEN_0
    ensures t != [] && TOKEN_0 != [] && TOKEN_0[0] < t[0]
  {
  }

  lemma {:induction false} ZeroFirst(p: seq<bytes>, q: seq<bytes>)
    requires p != [] && q != [] && p[0] == TOKEN_0 && DecimalToken(q[0]) && q[0] != TOKEN_0
    ensures Less(ToString(p), ToString(q))
  {
    hide Escape, ToString, ToDecimal, DigitsValue;
    ZeroBelow(q[0]);
    FirstToken(p);
    FirstToken(q);
    LessPrefix([SLASH], p[0] + ToString(p[1..]), q[0] + ToString(q[1..]));
  }

  lemma {:induction false} LeafRebuilt(x: Json)
    requires IsLeaf(x)
    ensures Rebuilt(x).Ok? && Eq(Rebuilt(x).value, x) <==> Restorable(x)
  {
    RebuiltLeaf(x);
    hide Rebuilt, ToString, FloatEq, ZeroLeads;
    if IsPrimitive(x) {
      if NoNaN(x) {
        EqReflexive(x);
      } else if Eq(x, x) {
        EqNoNaN(x, x);
      }
    }
  }

  lemma {:induction false} RebuiltIsEqual(x: Json)
    ensures Rebuilt(x).Ok? && Eq(Rebuilt(x).value, x) <==> Restorable(x)
    decreases x
  {
    hide Rebuilt, Restorable, Eq;
    if IsLeaf(x) {
      LeafRebuilt(x);
    } else if x.Array? {
      ArrayRebuilt(x);
    } else {
      ObjectRebuilt(x);
    }
  }

  /** All indices are met. */
  lemma {:induction false} ArrayOrder(x: Json)
    requires x.Array? && !IsLeaf(x)
    ensures (forall p | p in Order(x) :: DecimalPath(p) && p != [])
    ensures Reach(0, Order(x)) == |x.a| && (IntIndices(Order(x)) <==> |x.a| <= INT_MAX + 1)
  {
    hide Order;
    ArrayPaths(x, Order(x));
    var n := |x.a| - 1;
    PathsExist(x.a[n]);
    var q :| q in Paths(x.a[n]);
    PathsStep(x, ToDecimal(n), q);
    var p := [ToDecimal(n)] + q;
    assert p in Order(x) && FirstIndex(p) == n;
  }

  lemma {:induction false} OrderPaths(x: Json)
    requires !IsLeaf(x)
    ensures Order(x) != [] && forall p | p in Order(x) :: p != [] && p in Paths(x)
  {
    hide Order;
    PathsExist(x);
    forall p | p in Order(x) ensures p != [] {
      PathBelow(x, p);
    }
  }

  lemma {:induction false} RebuiltFromEmpty(x: Json)
    requires !IsLeaf(x)
    ensures Rebuilt(x) == Build(if StartsAtZero(x) then Array([]) else Object(map[]), x, Order(x))
  {
    hide Paths, Order, Build, LeafAt, Create, IsLeaf;
    OrderPaths(x);
    assert Order(x)[0] in Order(x);
    BuildFromNull(x, Order(x));
  }

  lemma {:induction false} ElementPlace(x: Json, i: nat)
    requires x.Array? && i < |x.a|
    ensures HasChild(x, ToDecimal(i)) && ChildOf(x, ToDecimal(i)) == x.a[i] && !HasChild(Array([]), ToDecimal(i))
  {}

  // ---- the object's own keys tell whether its first path leads through "0"

  lemma {:induction false} FirstEscaped(k: bytes)
    ensures k == [] ==> Escape(k) == []
    ensures k != [] ==> Escape(k) != [] && Escape(k)[0] == if k[0] == SLASH then TILDE else k[0]
    ensures k != [] && k[0] == ZERO ==> Escape(k)[1..] == Escape(k[1..])
  {
    EscapeCons(0, []);
    if k != [] {
      EscapeCons(k[0], k[1..]);
      hide Escape;
      assert [k[0]] + k[1..] == k;
      assert Escape(k)[0] == EscapeByte(k[0])[0];
    }
  }

  /** The text of a path is empty or starts with a slash. */
  lemma {:induction false} TextStart(p: seq<bytes>)
    ensures if p == [] then ToString(p) == [] else ToString(p) != [] && ToString(p)[0] == SLASH
  {
    hide Escape;
  }

  lemma {:induction false} ZeroEscaped()
    ensures Escape(TOKEN_0) == TOKEN_0
  {
    assert [ZERO] + [] == TOKEN_0;
    EscapeCons(ZERO, []);
    hide Escape;
  }

  /** Below "0" and below another key, compared by the first bytes in which the texts can differ. */
  lemma {:induction false} ZeroAgainst(q: seq<bytes>, k: bytes, r: seq<bytes>)
    requires k != TOKEN_0
    ensures Less(ToString([TOKEN_0] + q), ToString([k] + r)) <==> BehindZero(k, q == [])
  {
    hide Escape, ToString;
    StringOfOne(TOKEN_0, q);
    StringOfOne(k, r);
    ZeroEscaped();
    var a, b := TOKEN_0 + ToString(q), Escape(k) + ToString(r);
    assert [SLASH] + TOKEN_0 + ToString(q) == [SLASH] + a && [SLASH] + Escape(k) + ToString(r) == [SLASH] + b;
    LessPrefix([SLASH], a, b);
    FirstEscaped(k);
    TextStart(q);
    TextStart(r);
    if k == [] {
      assert b == ToString(r);
    } else {
      assert b[0] == Escape(k)[0];
      if k[0] == ZERO {
        assert |k| > 1 by {
          assert k == [ZERO] + k[1..];
        }
        FirstEscaped(k[1..]);
        assert a[1..] == ToString(q) && b[1..] == Escape(k[1..]) + ToString(r);
      }
    }
  }

  /** The first path comes before every other one. */
  lemma {:induction false} FirstPath(x: Json, p: seq<bytes>)
    requires p in Paths(x)
    ensures Order(x) != [] && Order(x)[0] in Paths(x)
    ensures p != Order(x)[0] ==> Less(ToString(Order(x)[0]), ToString(p)) && !Less(ToString(p), ToString(Order(x)[0]))
  {
    hide ToString, Less, Paths, Order;
    var ps := Order(x);
    assert p in ps && ps[0] in ps;
    var i :| 0 <= i < |ps| && ps[i] == p;
    if p != ps[0] {
      assert i != 0;
      LessTotal(ToString(ps[0]), ToString(p));
    }
  }

  lemma {:induction false} StartsAtZeroExactly(x: Json)
    requires x.Object? && !IsLeaf(x)
    ensures StartsAtZero(x) <==> ZeroLeads(x.o)
  {
    hide Less, ToString, BehindZero, Order;
    OrderPaths(x);
    var p0 := Order(x)[0];
    assert p0 in Order(x);
    PathBelow(x, p0);
    if TOKEN_0 in x.o {
      PathsExist(x.o[TOKEN_0]);
      if StartsAtZero(x) {
        forall k | k in x.o ensures BehindZero(k, IsLeaf(x.o[TOKEN_0])) {
          LeadingZero(x, p0, k);
        }
      } else {
        var q :| q in Paths(x.o[TOKEN_0]);
        PathsStep(x, TOKEN_0, q);
        FirstPath(x, [TOKEN_0] + q);
        LeafPath(x.o[TOKEN_0], q);
        ZeroAgainst(q, p0[0], p0[1..]);
        assert [p0[0]] + p0[1..] == p0;
      }
    }
  }

  lemma {:induction false} LeafPath(x: Json, q: seq<bytes>)
    requires q in Paths(x)
    ensures IsLeaf(x) <==> q == []
  {
    if !IsLeaf(x) {
      PathBelow(x, q);
    }
  }

  lemma {:induction false} LeadingZero(x: Json, p0: seq<bytes>, k: bytes)
    requires x.Object? && TOKEN_0 in x.o && k in x.o
    requires Order(x) != [] && p0 == Order(x)[0] && p0 != [] && p0[0] == TOKEN_0 && p0[1..] in Paths(x.o[TOKEN_0])
    ensures BehindZero(k, IsLeaf(x.o[TOKEN_0]))
  {
    if k != TOKEN_0 {
      hide Less, ToString, BehindZero, Order, Paths, LeafAt;
      PathsExist(x.o[k]);
      var r :| r in Paths(x.o[k]);
      PathsStep(x, k, r);
      FirstPath(x, [k] + r);
      LeafPath(x.o[TOKEN_0], p0[1..]);
      ZeroAgainst(p0[1..], k, r);
      assert [p0[0]] + p0[1..] == p0 && ([k] + r)[0] == k;
    }
  }

  /** An array is rebuilt from its rebuilt elements. */
  lemma {:induction false} RebuiltArray(x: Json)
    requires x.Array? && !IsLeaf(x)
    ensures var r := Rebuilt(x);
            if |x.a| <= INT_MAX + 1 && forall i | 0 <= i < |x.a| :: Rebuilt(x.a[i]).Ok? then
              && r.Ok? && r.value.Array? && |r.value.a| == |x.a|
              && forall i | 0 <= i < |x.a| :: r.value.a[i] == Rebuilt(x.a[i]).value
            else r.Err?
  {
    hide Order, Paths, IntIndices, Reach, ChildBuild, Build, Rebuilt, LeafAt, StartsAtZero, DecimalPath, IsLeaf;
    ArrayOrder(x);
    ArrayStartsAtZero(x);
    RebuiltFromEmpty(x);
    ArrayBuilds(Array([]), x, Order(x));
    forall i | 0 <= i < |x.a| ensures ChildBuild(Array([]), x, ToDecimal(i), Order(x)) == Rebuilt(x.a[i]) {
      ElementPlace(x, i);
      RebuiltChild(Array([]), x, ToDecimal(i));
    }
  }

  lemma {:induction false} ArrayRebuilt(x: Json)
    requires x.Array? && !IsLeaf(x)
    ensures Rebuilt(x).Ok? && Eq(Rebuilt(x).value, x) <==> Restorable(x)
    decreases x, 0
  {
    hide Rebuilt, NoNaN;
    RebuiltArray(x);
    forall i | 0 <= i < |x.a| ensures Rebuilt(x.a[i]).Ok? && Eq(Rebuilt(x.a[i]).value, x.a[i]) <==> Restorable(x.a[i]) {
      RebuiltIsEqual(x.a[i]);
    }
    var r := Rebuilt(x);
    if r.Ok? {
      EqArrays(r.value, x);
      hide Eq;
    }
  }

  /** An object is rebuilt from its rebuilt members, unless its place has become an array. */
  lemma {:induction false} RebuiltObject(x: Json)
    requires x.Object? && !IsLeaf(x)
    ensures var r := Rebuilt(x);
            if StartsAtZero(x) then r.Ok? ==> r.value.Array?
            else if forall k | k in x.o :: Rebuilt(x.o[k]).Ok? then
              && r.Ok? && r.value.Object? && r.value.o.Keys == x.o.Keys
              && forall k | k in x.o :: r.value.o[k] == Rebuilt(x.o[k]).value
            else r.Err?
  {
    hide Paths, Order, Build, Rebuilt, ChildBuild, LeafAt, FirstOfSome, StartsAtZero, IsLeaf;
    OrderPaths(x);
    RebuiltFromEmpty(x);
    if StartsAtZero(x) {
      ArrayStays(Array([]), x, Order(x));
    } else {
      ObjectBuilds(Object(map[]), x, Order(x));
      ObjectOrder(x);
      forall k | k in x.o ensures ChildBuild(Object(map[]), x, k, Order(x)) == Rebuilt(x.o[k]) {
        RebuiltChild(Object(map[]), x, k);
      }
    }
  }

  lemma {:induction false} ObjectRebuilt(x: Json)
    requires x.Object? && !IsLeaf(x)
    ensures Rebuilt(x).Ok? && Eq(Rebuilt(x).value, x) <==> Restorable(x)
    decreases x, 0
  {
    hide Rebuilt, StartsAtZero, ZeroLeads, NoNaN;
    StartsAtZeroExactly(x);
    RebuiltObject(x);
    forall k | k in x.o ensures Rebuilt(x.o[k]).Ok? && Eq(Rebuilt(x.o[k]).value, x.o[k]) <==> Restorable(x.o[k]) {
      RebuiltIsEqual(x.o[k]);
    }
    var r := Rebuilt(x);
    if r.Ok? && r.value.Object? {
      EqObjects(r.value, x);
      hide Eq;
    }
  }

  /** All keys are met. */
  lemma {:induction false} ObjectOrder(x: Json)
    requires x.Object? && !IsLeaf(x)
    ensures forall t :: FirstOfSome(t, Order(x)) <==> t in x.o
  {
    hide Order;
    forall t ensures FirstOfSome(t, Order(x)) <==> t in x.o {
      if FirstOfSome(t, Order(x)) {
        var p :| p in Order(x) && p != [] && p[0] == t;
        PathBelow(x, p);
      }
      if t in x.o {
        PathsExist(x.o[t]);
        var q :| q in Paths(x.o[t]);
        PathsStep(x, t, q);
        assert [t] + q in Order(x);
      }
    }
  }

  /**
    unflatten() undoes flatten() exactly on the restorable values: no NaN, no empty container, indices
    that fit an int, and no object whose keys let a path through the key "0" come first.
   */
  lemma {:induction false} UnflattenFlatten(x: Json)
    ensures var r := Unflatten(Object(Flat(x)));
            r.Ok? && Eq(r.value, x) <==> Restorable(x)
  {
    UnflattenIsRebuilt(x);
    RebuiltIsEqual(x);
  }

  /** No key "0", no empty container, no NaN, and arrays short enough: a sufficient condition. */
  predicate Plain(x: Json) {
    match x
    case Array(a) => 0 < |a| <= INT_MAX + 1 && forall i | 0 <= i < |a| :: Plain(a[i])
    case Object(o) => o != map[] && TOKEN_0 !in o && forall k | k in o :: Plain(o[k])
    case _ => NoNaN(x)
  }

  lemma {:induction false} PlainIsRestorable(x: Json)
    requires Plain(x)
    ensures Restorable(x)
  {
    match x
    case Array(a) =>
      forall i | 0 <= i < |a| ensures Restorable(a[i]) {
        PlainIsRestorable(a[i]);
      }
    case Object(o) =>
      forall k | k in o ensures Restorable(o[k]) {
        PlainIsRestorable(o[k]);
      }
    case _ =>
  }

  lemma {:induction false} SinglePath(x: Json, p: seq<bytes>)
    requires forall q :: q in Paths(x) <==> q == p
    ensures Order(x) == [p] && Rebuilt(x) == Create(Null, p, LeafAt(x, p))
  {
    hide Order, Paths, Create;
    IncreasingUnique(Order(x), [p]);
    assert [p][1..] == [];
    var r := Create(Null, p, LeafAt(x, p));
    if r.Ok? {
      assert Build(r.value, x, []) == r;
    }
  }

  lemma {:induction false} UnflattenIsRebuilt(x: Json)
    ensures Unflatten(Object(Flat(x))) == Rebuilt(x)
  {
    FlatKeysSplit(x);
    hide ToString, Split, Flat, Paths;
    UnflattenBuilds(Null, x, Sorted(Flat(x).Keys));
  }

  /** The documented law is too strong: {"0": null} comes back as [null]. */
  lemma {:induction false} KeyZeroIsLost()
    ensures var x := Object(map[TOKEN_0 := Null]);
            NoNaN(x) && x.o != map[] && Unflatten(Object(Flat(x))) == Ok(Array([Null])) && !Eq(Array([Null]), x)
  {
    var x := Object(map[TOKEN_0 := Null]);
    var root: seq<bytes> := [];
    var p := [TOKEN_0];
    assert p[1..] == root && [TOKEN_0] + root == p && TOKEN_0 in x.o && Paths(Null) == {root};
    forall q ensures q in Paths(x) <==> q == p {
      PathsStep(x, TOKEN_0, root);
      if q in Paths(x) {
        PathBelow(x, q);
        assert q == [q[0]] + q[1..];
      }
    }
    SinglePath(x, p);
    UnflattenIsRebuilt(x);
    PathOfChild(root, x, p);
    hide Paths, Order, Unflatten, Rebuilt, Flat;
    CreateZero();
  }

  lemma {:induction false} CreateZero()
    ensures Create(Null, [TOKEN_0], Null) == Ok(Array([Null]))
  {
    IndexToken(0);
    assert ToDecimal(0) == TOKEN_0;
    var one := Array([Null]);
    assert [] + Nulls(1) == [Null] && [TOKEN_0][1..] == [] && [Null][0 := Null] == [Null];
    assert CreatePlace(Null, TOKEN_0) == Ok((one, Element(0)));
    assert Lift(one, Element(0), Ok(Null)) == Ok(one);
  }
}
