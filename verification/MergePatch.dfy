/** JSON Merge Patch: the mutating loop against the recursive definition of RFC 7396, section 2. */
module MergePatch {
  import opened Arith
  import opened Decimal
  import opened Json

  // ---- the definition of RFC 7396

  function Members(x: Json): map<bytes, Json> {
    if x.Object? then x.o else map[]
  }

  function Member(o: map<bytes, Json>, k: bytes): Json {
    if k in o then o[k] else Null
  }

  function Merge(target: Json, patch: Json): Json
    decreases patch
  {
    if !patch.Object? then patch
    else
      var o, p := Members(target), patch.o;
      Object(map k | k in o.Keys + p.Keys && !(k in p && p[k] == Null) ::
               if k in p then Merge(Member(o, k), p[k]) else o[k])
  }

  // ---- the loop

  /** One turn: a null member erases, any other is merged into what is there, or into a new null. */
  function Turn(o: map<bytes, Json>, k: bytes, v: Json): map<bytes, Json> {
    if v == Null then o - {k} else o[k := Merge(Member(o, k), v)]
  }

  function Turns(o: map<bytes, Json>, p: map<bytes, Json>, keys: seq<bytes>): map<bytes, Json>
    requires forall k | k in keys :: k in p
    decreases |keys|
  {
    if keys == [] then o else Turns(Turn(o, keys[0], p[keys[0]]), p, keys[1..])
  }

  lemma {:induction false} TurnsAt(o: map<bytes, Json>, p: map<bytes, Json>, keys: seq<bytes>, k: bytes)
    requires (forall l | l in keys :: l in p) && Distinct(keys)
    ensures var r := Turns(o, p, keys);
            if k in keys then (k in r <==> p[k] != Null) && (k in r ==> r[k] == Merge(Member(o, k), p[k]))
            else (k in r <==> k in o) && (k in r ==> r[k] == o[k])
    decreases |keys|
  {
    hide Merge;
    if keys != [] {
      TurnsAt(Turn(o, keys[0], p[keys[0]]), p, keys[1..], k);
      assert k in keys <==> k == keys[0] || k in keys[1..];
      assert keys[0] !in keys[1..];
    }
  }

  /** In whatever order the members of the patch are visited, the result is the one defined by the RFC. */
  lemma {:induction false} TurnsMerge(target: Json, patch: Json, keys: seq<bytes>)
    requires patch.Object? && Distinct(keys) && forall k :: k in keys <==> k in patch.o
    ensures Object(Turns(Members(target), patch.o, keys)) == Merge(target, patch)
  {
    var o, p := Members(target), patch.o;
    var r := Turns(o, p, keys);
    forall k ensures (k in r <==> k in Merge(target, patch).o) && (k in r ==> r[k] == Merge(target, patch).o[k]) {
      TurnsAt(o, p, keys, k);
    }
  }

  method MergePatchInto(self: Json, patch: Json) returns (r: Json)
    ensures r == Merge(self, patch)
    decreases patch
  {
    if !patch.Object? {
      return patch;
    }
    var p := patch.o;
    var keys := Sorted(p.Keys);
    var o := Members(self);
    for i := 0 to |keys|
      invariant Turns(o, p, keys[i..]) == Turns(Members(self), p, keys)
    {
      var k := keys[i];
      assert k in keys && keys[i..][1..] == keys[i + 1..];
      if p[k] == Null {
        o := o - {k};
      } else {
        var merged := MergePatchInto(Member(o, k), p[k]);
        o := o[k := merged];
      }
    }
    SortedDistinct(p.Keys);
    TurnsMerge(self, patch, keys);
    return Object(o);
  }

  // ---- applying a patch twice

  lemma {:induction false} Idempotent(target: Json, patch: Json)
    ensures Merge(Merge(target, patch), patch) == Merge(target, patch)
    decreases patch
  {
    if patch.Object? {
      var o, p := Members(target), patch.o;
      var once := Merge(target, patch);
      var twice := Merge(once, patch);
      assert once.o.Keys == twice.o.Keys;
      forall k | k in once.o ensures twice.o[k] == once.o[k] {
        if k in p {
          Idempotent(Member(o, k), p[k]);
        }
      }
    }
  }

  /** No null members, at any depth outside arrays. */
  predicate NullFree(x: Json) {
    x.Object? ==> forall k | k in x.o :: x.o[k] != Null && NullFree(x.o[k])
  }

  /** A patch without nulls and a fresh target: the result is the patch itself. */
  lemma {:induction false} MergeIntoNothing(target: Json, patch: Json)
    requires NullFree(patch) && !target.Object?
    ensures Merge(target, patch) == patch
    decreases patch
  {
    if patch.Object? {
      forall k | k in patch.o ensures Merge(Null, patch.o[k]) == patch.o[k] {
        MergeIntoNothing(Null, patch.o[k]);
      }
      assert Merge(target, patch).o == patch.o;
    }
  }

  /** Merging leaves no null that only the patch could have brought in. */
  lemma {:induction false} MergeKeepsNullFree(target: Json, patch: Json)
    requires NullFree(target)
    ensures NullFree(Merge(target, patch))
    decreases patch
  {
    if patch.Object? {
      var o, p := Members(target), patch.o;
      var r := Merge(target, patch);
      forall k | k in r.o ensures r.o[k] != Null && NullFree(r.o[k]) {
        if k in p {
          MergeKeepsNullFree(Member(o, k), p[k]);
        }
      }
    }
  }

  // ---- the result path by path, without the recursion

  /** What is found along a path of keys. */
  function Look(x: Json, path: seq<bytes>): Option<Json>
    decreases |path|
  {
    if path == [] then Some(x)
    else if x.Object? && path[0] in x.o then Look(x.o[path[0]], path[1..])
    else None
  }

  /** Along the path the patch ends after i keys, in a value that is no object. */
  ghost predicate Ends(patch: Json, path: seq<bytes>, i: nat, v: Json) {
    i <= |path| && Look(patch, path[..i]) == Some(v) && !v.Object?
  }

  /** Along the path the patch consists of objects, but the i-th key is missing. */
  ghost predicate Silent(patch: Json, path: seq<bytes>, i: nat) {
    && 0 < i <= |path|
    && Look(patch, path[..i - 1]).Some? && Look(patch, path[..i - 1]).value.Object?
    && Look(patch, path[..i]).None?
  }

  /**
    Where the patch ends in a value, the result has this value, or nothing for a null below the root;
    where the patch is silent, the result is as the target; where the patch is an object, so is the result.
   */
  ghost predicate Patched(target: Json, patch: Json, r: Json, path: seq<bytes>) {
    && (forall i: nat, v | Ends(patch, path, i, v) ::
          Look(r, path) == if v.Null? && i > 0 then None else Look(v, path[i..]))
    && (forall i: nat | Silent(patch, path, i) :: Look(r, path) == Look(target, path))
    && (Look(patch, path).Some? && Look(patch, path).value.Object? ==>
          Look(r, path).Some? && Look(r, path).value.Object?)
  }

  lemma {:induction false} PathTail(path: seq<bytes>, i: nat)
    requires 0 < i <= |path|
    ensures path[..i][1..] == path[1..][..i - 1] && path[i..] == path[1..][i - 1..] && path[..i][0] == path[0]
  {
  }

  /** Below a key that the patch has, it is the member's patch that ends or is silent. */
  lemma {:induction false} BelowKey(patch: Json, path: seq<bytes>, i: nat, v: Json)
    requires path != [] && patch.Object? && path[0] in patch.o
    ensures Ends(patch, path, i, v) <==> i > 0 && Ends(patch.o[path[0]], path[1..], i - 1, v)
    ensures i != 1 ==> (Silent(patch, path, i) <==> i > 0 && Silent(patch.o[path[0]], path[1..], i - 1))
    ensures !Silent(patch, path, 1)
  {
    if 0 < i <= |path| {
      PathTail(path, i);
      if i > 1 {
        PathTail(path, i - 1);
      }
    }
    PathTail(path, 1);
    assert path[1..][..0] == [] && path[..0] == [];
    assert Look(patch, path[..1]) == Look(patch.o[path[0]], path[..1][1..]) == Some(patch.o[path[0]]);
  }

  /** The merged value at every path. */
  lemma {:induction false} MergedAt(target: Json, patch: Json, path: seq<bytes>)
    ensures Patched(target, patch, Merge(target, patch), path)
    decreases |path|, 1
  {
    if path == [] {
      assert forall i: nat, v | Ends(patch, path, i, v) :: i == 0 && path[..0] == path && path[0..] == path;
    } else if !patch.Object? {
      EndsAtOnce(patch, path);
    } else {
      MergedBelow(target, patch, path);
    }
  }

  lemma {:induction false} EndsAtOnce(patch: Json, path: seq<bytes>)
    requires !patch.Object?
    ensures forall i: nat, v | Ends(patch, path, i, v) :: i == 0 && v == patch && path[i..] == path
    ensures forall i: nat :: !Silent(patch, path, i)
    ensures path != [] ==> Look(patch, path).None?
  {
    forall i: nat, v | Ends(patch, path, i, v) ensures i == 0 && v == patch && path[i..] == path {
      if i > 0 {
        PathTail(path, i);
      }
    }
    forall i: nat | 0 < i <= |path| ensures !Silent(patch, path, i) {
      if i > 1 {
        PathTail(path, i - 1);
      } else {
        assert path[..0] == [];
      }
    }
  }

  lemma {:induction false} KeyMissing(patch: Json, path: seq<bytes>)
    requires path != [] && patch.Object? && path[0] !in patch.o
    ensures forall i: nat, v :: !Ends(patch, path, i, v)
    ensures forall i: nat | Silent(patch, path, i) :: i == 1
  {
    forall i: nat, v ensures !Ends(patch, path, i, v) {
      if 0 < i <= |path| {
        PathTail(path, i);
      }
    }
    forall i: nat | Silent(patch, path, i) ensures i == 1 {
      if 1 < i <= |path| {
        PathTail(path, i - 1);
      }
    }
  }

  lemma {:induction false} NullErases(target: Json, patch: Json, r: Json, path: seq<bytes>)
    requires path != [] && patch.Object? && path[0] in patch.o && patch.o[path[0]] == Null
    requires r.Object? && path[0] !in r.o
    ensures Patched(target, patch, r, path)
  {
    var p, rest := patch.o[path[0]], path[1..];
    EndsAtOnce(p, rest);
    assert Look(r, path).None?;
    forall i: nat, v | Ends(patch, path, i, v) ensures i == 1 && v.Null? {
      BelowKey(patch, path, i, v);
      assert Ends(p, rest, i - 1, v);
    }
    forall i: nat ensures !Silent(patch, path, i) {
      BelowKey(patch, path, i, Null);
      assert i > 1 ==> !Silent(p, rest, i - 1);
    }
    assert !(Look(patch, path).Some? && Look(patch, path).value.Object?);
  }

  lemma {:induction false} PatchedAbove(target: Json, patch: Json, r: Json, path: seq<bytes>)
    requires path != [] && patch.Object? && path[0] in patch.o && r.Object? && path[0] in r.o
    requires !patch.o[path[0]].Null?
    requires Patched(Member(Members(target), path[0]), patch.o[path[0]], r.o[path[0]], path[1..])
    ensures Patched(target, patch, r, path)
  {
    var k, rest := path[0], path[1..];
    var t, p := Member(Members(target), k), patch.o[k];
    assert rest[..0] == [];
    forall i: nat, v | Ends(patch, path, i, v)
      ensures Look(r, path) == if v.Null? && i > 0 then None else Look(v, path[i..])
    {
      BelowKey(patch, path, i, v);
      PathTail(path, i);
      assert Ends(p, rest, i - 1, v);
      assert i == 1 ==> v == p && !v.Null?;
    }
    forall i: nat | Silent(patch, path, i) ensures Look(r, path) == Look(target, path) {
      BelowKey(patch, path, i, Null);
      assert Silent(p, rest, i - 1);
    }
  }

  lemma {:induction false} MergedBelow(target: Json, patch: Json, path: seq<bytes>)
    requires path != [] && patch.Object?
    ensures Patched(target, patch, Merge(target, patch), path)
    decreases |path|, 0
  {
    var k := path[0];
    if k !in patch.o {
      KeyMissing(patch, path);
    } else if patch.o[k] == Null {
      NullErases(target, patch, Merge(target, patch), path);
    } else {
      MergedAt(Member(Members(target), k), patch.o[k], path[1..]);
      hide Patched;
      PatchedAbove(target, patch, Merge(target, patch), path);
    }
  }

  lemma {:induction false} PatchedBelow(target: Json, patch: Json, r: Json, k: bytes, rest: seq<bytes>)
    requires patch.Object? && k in patch.o && !patch.o[k].Null? && r.Object? && k in r.o
    requires Patched(target, patch, r, [k] + rest)
    ensures Patched(Member(Members(target), k), patch.o[k], r.o[k], rest)
  {
    var path := [k] + rest;
    assert path[0] == k && path[1..] == rest;
    var t, p := Member(Members(target), k), patch.o[k];
    forall i: nat, v | Ends(p, rest, i, v)
      ensures Look(r.o[k], rest) == if v.Null? && i > 0 then None else Look(v, rest[i..])
    {
      BelowKey(patch, path, i + 1, v);
      PathTail(path, i + 1);
      assert Ends(patch, path, i + 1, v);
    }
    forall i: nat | Silent(p, rest, i) ensures Look(r.o[k], rest) == Look(t, rest) {
      BelowKey(patch, path, i + 1, Null);
      assert Silent(patch, path, i + 1);
    }
  }

  lemma {:induction false} LookKey(x: Json, k: bytes)
    ensures Look(x, [k]) == if x.Object? && k in x.o then Some(x.o[k]) else None
  {
    assert [k][1..] == [];
    if x.Object? && k in x.o {
      assert Look(x, [k]) == Look(x.o[k], [k][1..]);
    }
  }

  lemma {:induction false} PatchedMember(target: Json, patch: Json, r: Json, k: bytes)
    requires patch.Object? && r.Object? && Patched(target, patch, r, [k])
    ensures k !in patch.o ==> (k in r.o <==> k in Members(target)) && (k in r.o ==> r.o[k] == Members(target)[k])
    ensures k in patch.o ==> (k in r.o <==> patch.o[k] != Null)
  {
    var path := [k];
    assert path[..0] == [] && path[..1] == path && path[1..] == [];
    LookKey(r, k);
    LookKey(target, k);
    LookKey(patch, k);
    if k !in patch.o {
      assert Silent(patch, path, 1);
      assert Look(r, path) == Look(target, path);
    } else if !patch.o[k].Object? {
      assert Ends(patch, path, 1, patch.o[k]);
    }
  }

  /** Nothing but the merged value is as said at all paths. */
  lemma {:induction false} MergedOnly(target: Json, patch: Json, r: Json)
    requires forall path :: Patched(target, patch, r, path)
    ensures r == Merge(target, patch)
    decreases patch
  {
    var root: seq<bytes> := [];
    assert Patched(target, patch, r, root) && root[..0] == root && root[0..] == root;
    if !patch.Object? {
      assert Ends(patch, root, 0, patch);
    } else {
      assert r.Object?;
      var m := Merge(target, patch);
      hide Patched;
      forall k ensures (k in r.o <==> k in m.o) && (k in r.o ==> r.o[k] == m.o[k]) {
        assert Patched(target, patch, r, [k]);
        PatchedMember(target, patch, r, k);
        if k in patch.o && patch.o[k] != Null {
          forall rest ensures Patched(Member(Members(target), k), patch.o[k], r.o[k], rest) {
            assert Patched(target, patch, r, [k] + rest);
            PatchedBelow(target, patch, r, k, rest);
          }
          MergedOnly(Member(Members(target), k), patch.o[k], r.o[k]);
        }
      }
      assert r.o == m.o;
    }
  }

  /** The merged value is the one that is as said at all paths. */
  lemma {:induction false} MergedExactly(target: Json, patch: Json, r: Json)
    ensures r == Merge(target, patch) <==> forall path :: Patched(target, patch, r, path)
  {
    hide Patched, Merge;
    if forall path :: Patched(target, patch, r, path) {
      MergedOnly(target, patch, r);
    }
    forall path ensures Patched(target, patch, Merge(target, patch), path) {
      MergedAt(target, patch, path);
    }
  }
}
