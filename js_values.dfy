/** The values a description's props object holds, and the structural equality
    `deepEquals` the reconciler uses to decide whether an element can be kept. */
module JsValues {

  /** A JavaScript value as it appears among props. Numbers are restricted to
      integers (no NaN, no fractions). Functions (event handlers) and objects
      carry a reference identity `ref`; everything else is compared by value.
      In JavaScript one reference has one content; this datatype does not tie
      `ref` to `fields`, so two `Obj` values with the same `ref` and different
      fields count as `===` here. The reconciler applies `===` to prop values
      only for `key` and at the head of `deepEquals`. */
  datatype JsValue =
    | Undefined
    | Null
    | Bool(b: bool)
    | Int(n: int)
    | Str(s: string)
    | Fun(ref: nat)
    | Obj(ref: nat, fields: map<string, JsValue>)

  /** `typeof v === 'object' && v !== null` */
  predicate IsObject(v: JsValue)
    ensures IsObject(v) ==> v != Null && v != Undefined && !v.Fun?
  {
    v.Obj?
  }

  /** JavaScript strict equality `a === b`: primitives by value, functions and
      objects by reference. */
  predicate StrictEquals(a: JsValue, b: JsValue)
    ensures StrictEquals(a, b) ==> a.Obj? == b.Obj? && a.Fun? == b.Fun?
    ensures StrictEquals(a, b) && (a.Obj? || a.Fun?) ==> a.ref == b.ref
    ensures !(a.Obj? || a.Fun? || b.Obj? || b.Fun?) ==> (StrictEquals(a, b) <==> a == b)
  {
    if a.Obj? || a.Fun? || b.Obj? || b.Fun? then
      ((a.Obj? && b.Obj?) || (a.Fun? && b.Fun?)) && a.ref == b.ref
    else
      a == b
  }

  /** `deepEquals(a, b)`: identical values are equal; otherwise both must be
      objects with the same number of keys, and every key of `a` must be a key of
      `b` whose value is recursively deep-equal. */
  function DeepEquals(a: JsValue, b: JsValue): (r: bool)
    ensures StrictEquals(a, b) ==> r
    ensures r && !StrictEquals(a, b) ==> IsObject(a) && IsObject(b) && |a.fields| == |b.fields|
    decreases a
  {
    if StrictEquals(a, b) then true
    else if !IsObject(a) || !IsObject(b) then false
    else if |a.fields| != |b.fields| then false
    else forall key :: key in a.fields ==> key in b.fields && DeepEquals(a.fields[key], b.fields[key])
  }

  /** `deepEquals` in terms of key sets: true on `===` values, and otherwise
      exactly for two objects with the same keys whose values are pairwise
      deep-equal. The code checks a key count and a one-way key scan instead. */
  lemma DeepEqualsByKeys(a: JsValue, b: JsValue)
    ensures DeepEquals(a, b) <==>
              || StrictEquals(a, b)
              || (&& IsObject(a) && IsObject(b) && a.fields.Keys == b.fields.Keys
                  && forall key :: key in a.fields ==> DeepEquals(a.fields[key], b.fields[key]))
  {
    if !StrictEquals(a, b) && IsObject(a) && IsObject(b) {
      if DeepEquals(a, b) {
        DeepEqualObjectsHaveSameKeys(a, b);
      }
      if a.fields.Keys == b.fields.Keys {
        assert |a.fields| == |a.fields.Keys| == |b.fields.Keys| == |b.fields|;
      }
    }
  }

  lemma SubsetOfSameSize<T>(a: set<T>, b: set<T>)
    requires a <= b && |a| == |b|
    ensures a == b
  {
    assert b == a + (b - a);
  }

  /** Two distinct objects that are deep-equal have exactly the same keys: the
      count check together with the one-way key scan rules out extra keys in `b`. */
  lemma DeepEqualObjectsHaveSameKeys(a: JsValue, b: JsValue)
    requires IsObject(a) && IsObject(b) && !StrictEquals(a, b)
    requires DeepEquals(a, b)
    ensures a.fields.Keys == b.fields.Keys
  {
    assert a.fields.Keys <= b.fields.Keys;
    assert |a.fields.Keys| == |a.fields| == |b.fields| == |b.fields.Keys|;
    SubsetOfSameSize(a.fields.Keys, b.fields.Keys);
  }

  /** `deepEquals` is symmetric, although its key scan only walks the keys of `a`. */
  lemma {:induction false} DeepEqualsSymmetric(a: JsValue, b: JsValue)
    requires DeepEquals(a, b)
    ensures DeepEquals(b, a)
    decreases a
  {
    if !StrictEquals(a, b) {
      DeepEqualObjectsHaveSameKeys(a, b);
      forall key | key in b.fields
        ensures key in a.fields && DeepEquals(b.fields[key], a.fields[key])
      {
        DeepEqualsSymmetric(a.fields[key], b.fields[key]);
      }
    }
  }

  /** Structural equality that ignores object identities: the reference
      definition of "the same value" for props written out freshly on each render. */
  predicate SameShape(a: JsValue, b: JsValue)
    decreases a
  {
    if a.Obj? && b.Obj? then
      a.fields.Keys == b.fields.Keys &&
      forall key :: key in a.fields ==> SameShape(a.fields[key], b.fields[key])
    else
      StrictEquals(a, b)
  }

  /** Two values of the same shape are deep-equal, whatever their identities. */
  lemma {:induction false} SameShapeIsDeepEqual(a: JsValue, b: JsValue)
    requires SameShape(a, b)
    ensures DeepEquals(a, b)
    decreases a
  {
    if a.Obj? && b.Obj? && !StrictEquals(a, b) {
      assert |a.fields| == |a.fields.Keys| == |b.fields.Keys| == |b.fields|;
      forall key | key in a.fields
        ensures key in b.fields && DeepEquals(a.fields[key], b.fields[key])
      {
        SameShapeIsDeepEqual(a.fields[key], b.fields[key]);
      }
    }
  }

  /** `deepEquals` is reflexive on every value: identical values short-circuit. */
  lemma DeepEqualsReflexive(a: JsValue)
    ensures DeepEquals(a, a)
  {
  }
}
