/**
  What `add` and `remove` do where nothing is found yet, where there is no container, and with tokens that
  are not plain indices.
 */
module AddLaws {
  import opened Arith
  import opened Decimal
  import opened Json
  import opened Pointer
  import opened Patch
  import opened Places
  import opened PatchLaws

  /** The container that takes the place of null: an array for digits or a dash, otherwise an object. */
  function OpenedFor(j: Json, t: bytes): Json {
    if !j.Null? then j
    else if t == ['-' as int] || (forall i | 0 <= i < |t| :: '0' as int <= t[i] <= '9' as int) then Array([])
    else Object(map[])
  }

  /** The place that a token leads to, whether or not something is there; a dash leads behind the last element. */
  function OpenSlot(j: Json, t: bytes): Result<Place> {
    match j
    case Object(_) => Ok(Member(t))
    case Array(a) =>
      if t == ['-' as int] then Ok(Element(|a|))
      else if |t| > 1 && t[0] == '0' as int then Err(106)
      else
        (match ArrayIndex(t)
         case Err(id) => Err(if id == INVALID_ARGUMENT then 109 else id)
         case Ok(i) => if i < 0 then Err(LENGTH_ERROR) else Ok(Element(i)))
    case _ => Err(404)
  }

  lemma {:induction false} OpenedIs(j: Json, t: bytes)
    ensures OpenedFor(j, t) == Vivify(j, t)
  {}

  /** One token of a path that is opened: an error if it leads nowhere, and otherwise what happens to what is there, or to null. */
  lemma {:induction false} OpenStep(j: Json, path: seq<bytes>, f: Json -> Result<Json>)
    requires path != []
    ensures var k := OpenedFor(j, path[0]);
            match OpenSlot(k, path[0])
            case Err(id) => AlterOpen(j, path, f) == Err(id)
            case Ok(p) => Created(k, p, AlterOpen(Found(k, p), path[1..], f), AlterOpen(j, path, f))
  {
    hide ArrayIndex, Created, Found;
    OpenedIs(j, path[0]);
    hide Vivify, OpenedFor;
    var k, t := OpenedFor(j, path[0]), path[0];
    var slot := OpenSlot(k, t);
    if slot.Ok? && k.Array? {
      var i := slot.value.index;
      var a := if i < |k.a| then k.a else k.a + Nulls(i - |k.a| + 1);
      assert OpenPlace(j, t) == Ok((Array(a), slot.value));
      FilledUp(k.a, i, AlterOpen(a[i], path[1..], f));
    } else if slot.Ok? {
      var o := if t in k.o then k.o else k.o[t := Null];
      assert OpenPlace(j, t) == Ok((Object(o), slot.value));
      MemberAdded(k.o, t, AlterOpen(o[t], path[1..], f));
    }
  }

  /** Below the first of several tokens, `add` needs what that token selects in the document. */
  lemma {:induction false} AddNeedsTop(j: Json, path: seq<bytes>, v: Json)
    requires |path| > 1
    ensures var top := At(j, path[..1]);
            ApplyOp(j, Add(path, v)) == if top.Err? then Err(top.id) else ApplyOp(j, Add(path, v), false)
  {
    assert path[..1][0] == path[0] && path[..1][1..] == [];
  }

  /** From there on, the tokens in front of the last one are opened one by one. */
  lemma {:induction false} AddOpens(j: Json, path: seq<bytes>, v: Json)
    requires |path| > 1
    ensures var k := OpenedFor(j, path[0]);
            match OpenSlot(k, path[0])
            case Err(id) => ApplyOp(j, Add(path, v), false) == Err(id)
            case Ok(p) => Created(k, p, ApplyOp(Found(k, p), Add(path[1..], v), false), ApplyOp(j, Add(path, v), false))
  {
    hide OpenedFor, OpenSlot, Created, Found, AlterOpen, AddChild;
    var last, pre := path[|path| - 1], path[..|path| - 1];
    var f: Json -> Result<Json> := p => AddChild(p, last, v);
    OpenStep(j, pre, f);
    assert path[1..][|path| - 2] == last && path[1..][..|path| - 2] == pre[1..];
    assert ApplyOp(j, Add(path, v), false) == AlterOpen(j, pre, f);
    var k := OpenedFor(j, path[0]);
    if OpenSlot(k, path[0]).Ok? {
      var c := Found(k, OpenSlot(k, path[0]).value);
      assert ApplyOp(c, Add(path[1..], v), false) == AlterOpen(c, pre[1..], f);
    }
  }

  /** The last token in an array: a number as the conversion takes it, up to the length. */
  lemma {:induction false} LastInArray(j: Json, pre: seq<bytes>, t: bytes, v: Json)
    requires Look(j, pre).Some? && Look(j, pre).value.Array?
    ensures var n, i := |Look(j, pre).value.a|, ArrayIndex(t);
            var add, remove := ApplyOp(j, Add(pre + [t], v)), ApplyOp(j, Remove(pre + [t]));
            match i
            case Err(id) => remove == Err(id) && (t != ['-' as int] ==> add == Err(id))
            case Ok(i) =>
              && remove == (if 0 <= i < n then ApplyOp(j, Remove(pre + [ToDecimal(i)])) else Err(401))
              && add == (if 0 <= i <= n then ApplyOp(j, Add(pre + [ToDecimal(i)], v)) else Err(401))
  {
    hide ArrayIndex, ApplyOp, ToDecimal, Look, Graft;
    AddBelow(j, pre, t, v);
    RemoveBelow(j, pre, t);
    DashIsNoIndex();
    if ArrayIndex(t).Ok? && ArrayIndex(t).value >= 0 {
      var i: nat := ArrayIndex(t).value;
      IndexToken(i);
      IndexBound(t);
      AddBelow(j, pre, ToDecimal(i), v);
      RemoveBelow(j, pre, ToDecimal(i));
      NumberIsNoDash(i);
    }
  }

  lemma {:induction false} DashIsNoIndex()
    ensures ArrayIndex(DASH).Err?
  {}

  lemma {:induction false} IndexBound(t: bytes)
    ensures ArrayIndex(t).Ok? ==> ArrayIndex(t).value <= INT_MAX
  {}

  lemma {:induction false} NumberIsNoDash(i: nat)
    ensures ToDecimal(i) != DASH
  {
    assert IsDigit(ToDecimal(i)[0]);
  }

  /** Nothing can be added below a value that is neither a container nor null, and removing there does nothing. */
  lemma {:induction false} NoContainer(j: Json, pre: seq<bytes>, t: bytes, v: Json)
    requires Look(j, pre).Some?
    requires var x := Look(j, pre).value; !x.Array? && !x.Object?
    ensures !Look(j, pre).value.Null? ==> ApplyOp(j, Add(pre + [t], v)) == Err(ASSERTION_FAILED)
    ensures ApplyOp(j, Remove(pre + [t])) == Ok(j)
  {
    hide ApplyOp, Look, Graft;
    AddBelow(j, pre, t, v);
    RemoveBelow(j, pre, t);
    GraftSame(j, pre);
  }

  /** The last token of a lookup with range check in an array: no dash, no leading zero, and an element that is there. */
  lemma {:induction false} LookupInArray(j: Json, pre: seq<bytes>, t: bytes)
    requires Look(j, pre).Some? && Look(j, pre).value.Array?
    ensures var a, i := Look(j, pre).value.a, ArrayIndex(t);
            At(j, pre + [t]) ==
            if t == ['-' as int] then Err(402)
            else if |t| > 1 && t[0] == '0' as int then Err(106)
            else if i == Err(INVALID_ARGUMENT) then Err(109)
            else if i.Err? then Err(i.id)
            else if 0 <= i.value < |a| then Ok(a[i.value])
            else Err(401)
    decreases |pre|
  {
    hide ArrayIndex;
    if pre == [] {
      assert [] + [t] == [t] && [t][1..] == [];
    } else {
      ChildIsPlace(j, pre[0]);
      assert (pre + [t])[0] == pre[0] && (pre + [t])[1..] == pre[1..] + [t];
      LookupInArray(Child(j, pre[0]).value, pre[1..], t);
    }
  }
}
