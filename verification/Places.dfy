/** What it means that a value is created at one place inside a container, and nothing else changes. */
module Places {
  import opened Json
  import opened Decimal
  import opened Patch

  /** What is at the place, or null. */
  function Found(j: Json, p: Place): Json {
    if Has(j, p) then Get(j, p) else Null
  }

  /** An array has an element i and what it had before; nothing but null fills the gap. */
  predicate Grown(a: seq<Json>, b: seq<Json>, i: nat) {
    && i < |b| && |b| == (if i < |a| then |a| else i + 1)
    && (forall n | 0 <= n < |a| && n != i :: b[n] == a[n])
    && (forall n | |a| <= n < |b| && n != i :: b[n] == Null)
  }

  /** The value is at the place, everything else is as before, and only null is new. */
  predicate PutAt(j: Json, p: Place, c: Json, r: Json) {
    match p
    case Member(k) => j.Object? && r == Object(j.o[k := c])
    case Element(i) => j.Array? && r.Array? && Grown(j.a, r.a, i) && r.a[i] == c
  }

  /** An outcome at the place becomes the outcome of the whole. */
  predicate Created(j: Json, p: Place, more: Result<Json>, r: Result<Json>) {
    match more
    case Err(id) => r == Err(id)
    case Ok(c) => r.Ok? && PutAt(j, p, c, r.value)
  }

  /** Filling up with null and then putting creates at the place. */
  lemma {:induction false} FilledUp(a: seq<Json>, i: nat, more: Result<Json>)
    ensures var b := if i < |a| then a else a + Nulls(i - |a| + 1);
            b[i] == Found(Array(a), Element(i)) && Created(Array(a), Element(i), more, Lift(Array(b), Element(i), more))
  {
    var b := if i < |a| then a else a + Nulls(i - |a| + 1);
    if more.Ok? {
      assert Grown(a, b[i := more.value], i);
    }
  }

  lemma {:induction false} MemberAdded(o: map<bytes, Json>, k: bytes, more: Result<Json>)
    ensures var q := if k in o then o else o[k := Null];
            q[k] == Found(Object(o), Member(k)) && Created(Object(o), Member(k), more, Lift(Object(q), Member(k), more))
  {
    var q := if k in o then o else o[k := Null];
    if more.Ok? {
      assert q[k := more.value] == o[k := more.value];
    }
  }
}
