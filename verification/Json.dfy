/** jsonb values and the containment operator `@>` that every conflict guard uses. */
module Json {

  /** SQL NULL and jsonb null are one value here, as they are after `to_jsonb`. */
  datatype Json =
    | Null
    | Scalar(text: string)
    | Arr(items: seq<Json>)
    | Obj(fields: map<string, Json>)

  /** `a @> b`: recursive on objects and arrays, equality on everything else. */
  predicate Contains(a: Json, b: Json)
    decreases b, 0
  {
    match b
    case Null => a.Null?
    case Scalar(_) => a == b
    case Arr(items) =>
      a.Arr? && forall i | 0 <= i < |items| :: SomeContains(a.items, items[i])
    case Obj(fields) =>
      a.Obj? && forall k | k in fields ::
        k in a.fields && Contains(a.fields[k], fields[k])
  }

  predicate SomeContains(candidates: seq<Json>, b: Json)
    decreases b, 1
  {
    exists j | 0 <= j < |candidates| :: Contains(candidates[j], b)
  }

  /** A value with nothing inside it that containment could overlook. */
  predicate Flat(v: Json) {
    v.Null? || v.Scalar?
  }

  lemma {:induction false} ContainsItself(v: Json)
    ensures Contains(v, v)
    decreases v
  {
    match v
    case Null =>
    case Scalar(_) =>
    case Arr(items) =>
      forall i | 0 <= i < |items|
        ensures SomeContains(items, items[i])
      {
        ContainsItself(items[i]);
      }
    case Obj(fields) =>
      forall k | k in fields {
        ContainsItself(fields[k]);
      }
  }

  /** A captured value pins the live one down exactly when it is flat: for an
      array or object there is always a larger value the guard also accepts. */
  lemma GuardPinsValueIffFlat(captured: Json)
    ensures (forall live :: Contains(live, captured) ==> live == captured) <==> Flat(captured)
  {
    if captured.Arr? {
      var live := Arr(captured.items + [Null]);
      forall i | 0 <= i < |captured.items|
        ensures SomeContains(live.items, captured.items[i])
      {
        ContainsItself(captured.items[i]);
        assert live.items[i] == captured.items[i];
      }
      assert Contains(live, captured) && |live.items| != |captured.items|;
    } else if captured.Obj? {
      var extra := FreshName(captured.fields.Keys);
      var live := Obj(captured.fields[extra := Null]);
      forall k | k in captured.fields ensures Contains(live.fields[k], captured.fields[k]) {
        ContainsItself(captured.fields[k]);
      }
      assert Contains(live, captured) && extra in live.fields;
    }
  }

  lemma {:induction false} ContainsTransitive(a: Json, b: Json, c: Json)
    requires Contains(a, b) && Contains(b, c)
    ensures Contains(a, c)
    decreases c
  {
    match c
    case Null =>
    case Scalar(_) =>
    case Arr(items) =>
      forall i | 0 <= i < |items| ensures SomeContains(a.items, items[i]) {
        assert SomeContains(b.items, items[i]);
        var j :| 0 <= j < |b.items| && Contains(b.items[j], items[i]);
        assert SomeContains(a.items, b.items[j]);
        var k :| 0 <= k < |a.items| && Contains(a.items[k], b.items[j]);
        ContainsTransitive(a.items[k], b.items[j], items[i]);
      }
    case Obj(fields) =>
      forall k | k in fields ensures Contains(a.fields[k], fields[k]) {
        ContainsTransitive(a.fields[k], b.fields[k], fields[k]);
      }
  }

  /** A guard sees neither the order nor the number of an array's elements. */
  lemma RearrangedArrayPasses(captured: seq<Json>, live: seq<Json>)
    requires forall v | v in captured :: v in live
    ensures Contains(Arr(live), Arr(captured))
  {
    forall i | 0 <= i < |captured| ensures SomeContains(live, captured[i]) {
      ContainsItself(captured[i]);
      assert captured[i] in live;
    }
  }

  /** What it overlooks about a value, it overlooks at any depth: within an object, and within an array. */
  lemma OverlookedWithin(captured: Json, live: Json, fields: map<string, Json>, k: string, items: seq<Json>, i: nat)
    requires Contains(live, captured) && i < |items|
    ensures Contains(Obj(fields[k := live]), Obj(fields[k := captured]))
    ensures Contains(Arr(items[i := live]), Arr(items[i := captured]))
  {
    forall n | n in fields ensures Contains(fields[n], fields[n]) { ContainsItself(fields[n]); }
    var was, now := items[i := captured], items[i := live];
    forall j | 0 <= j < |items| ensures SomeContains(now, was[j]) {
      ContainsItself(items[j]);
      assert Contains(now[j], was[j]);
    }
  }

  /** Some name outside a finite set: one longer than every member. */
  lemma FreshName(names: set<string>) returns (name: string)
    ensures name !in names
  {
    var rest := names;
    name := "x";
    while rest != {}
      invariant rest <= names && name != ""
      invariant forall n | n in names && n !in rest :: |n| < |name|
      decreases rest
    {
      var n :| n in rest;
      rest := rest - {n};
      name := name + n;
    }
  }
}
