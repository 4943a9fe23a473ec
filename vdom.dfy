/** Tree descriptions (the virtual DOM) and the reconciler's decision cascade
    over a pair of them, as a pure function. */
module VDom {
  import opened JsValues
  import opened JsText

  /** A bare text child (`TextVDOMNode`): a string or a number written directly
      into a children list. */
  datatype TextValue = StrText(s: string) | NumText(n: int)

  /** One entry of a description tree. `id` stands for the identity of the
      JavaScript object: the model reads two descriptions with equal ids as the
      same object. The datatype does not tie one `id` to one content, so two
      different values with the same `id` are `===` here, as `Identical` says.
      The mutable `current` field of an object description is not part of
      the value; the reconciler keeps it in a table indexed by `id`. */
  datatype Desc =
    | Absent                                   // undefined or null: no description
    | Bare(text: TextValue)                    // TextVDOMNode
    | TextVDom(id: nat, value: string)         // TextVDOM
    | VDom(id: nat, tag: string, props: JsValue, children: seq<Desc>)   // VDOM

  /** Object descriptions, the ones that carry a `current` field. */
  predicate IsObjectDesc(d: Desc) {
    d.TextVDom? || d.VDom?
  }

  /** JavaScript truthiness (`!!d`): absence, `""` and `0` are falsy. */
  predicate Truthy(d: Desc)
    ensures Truthy(d) <==> d != Absent && d != Bare(StrText("")) && d != Bare(NumText(0))
  {
    match d
    case Absent => false
    case Bare(StrText(s)) => s != ""
    case Bare(NumText(n)) => n != 0
    case _ => true
  }

  datatype JsType = UndefinedType | StringType | NumberType | ObjectType

  /** `typeof d`. `Absent` stands for both `undefined` and `null`, and
      `typeof null` is `'object'` in JavaScript; step 4 compares only truthy
      descriptions, so it never sees the difference. */
  function TypeOf(d: Desc): (r: JsType)
    ensures r == UndefinedType <==> d == Absent
    ensures r == ObjectType <==> IsObjectDesc(d)
    ensures d.Bare? ==> (r == StringType <==> d.text.StrText?) && (r == NumberType <==> d.text.NumText?)
  {
    match d
    case Absent => UndefinedType
    case Bare(StrText(_)) => StringType
    case Bare(NumText(_)) => NumberType
    case _ => ObjectType
  }

  /** `a === b` on children: objects by identity, primitives by value. */
  predicate Identical(a: Desc, b: Desc)
    ensures a == b ==> Identical(a, b)
    ensures Identical(a, b) && IsObjectDesc(a) ==> IsObjectDesc(b) && a.id == b.id
    ensures !IsObjectDesc(a) && !IsObjectDesc(b) ==> (Identical(a, b) <==> a == b)
  {
    if IsObjectDesc(a) && IsObjectDesc(b) then a.id == b.id
    else if IsObjectDesc(a) || IsObjectDesc(b) then false
    else a == b
  }

  /** `props?.key` */
  function Key(props: JsValue): (r: JsValue)
    ensures props.Obj? && "key" in props.fields ==> r == props.fields["key"]
    ensures r != Undefined ==> props.Obj? && "key" in props.fields
  {
    if props.Obj? && "key" in props.fields then props.fields["key"] else Undefined
  }

  /** `t.toString()` for a bare text child. */
  function TextOf(t: TextValue): (r: string)
    ensures t.StrText? ==> r == t.s
    ensures t.NumText? ==> r != [] && (r[0] == '-' <==> t.n < 0)
  {
    match t
    case StrText(s) => s
    case NumText(n) => IntToString(n)
  }

  /** The number of object descriptions in a tree: the measure the reconciler's
      recursion decreases. */
  function Size(d: Desc): nat {
    match d
    case VDom(_, _, _, children) => 1 + SizeOfAll(children)
    case TextVDom(_, _) => 1
    case _ => 0
  }

  function SizeOfAll(ds: seq<Desc>): nat {
    if ds == [] then 0 else Size(ds[0]) + SizeOfAll(ds[1..])
  }

  /** The identities of all object descriptions in a tree. */
  function Ids(d: Desc): set<nat> {
    match d
    case VDom(id, _, _, children) => {id} + IdsOfAll(children)
    case TextVDom(id, _) => {id}
    case _ => {}
  }

  function IdsOfAll(ds: seq<Desc>): set<nat> {
    if ds == [] then {} else Ids(ds[0]) + IdsOfAll(ds[1..])
  }

  /** Every entry of a children list is strictly smaller than its parent. */
  lemma {:induction false} ChildIsSmaller(d: Desc, i: nat)
    requires d.VDom? && i < |d.children|
    ensures Size(d.children[i]) < Size(d)
    ensures Ids(d.children[i]) <= Ids(d)
  {
    EntryWithinAll(d.children, i);
  }

  lemma {:induction false} EntryWithinAll(ds: seq<Desc>, i: nat)
    requires i < |ds|
    ensures Size(ds[i]) <= SizeOfAll(ds)
    ensures Ids(ds[i]) <= IdsOfAll(ds)
  {
    if i > 0 {
      EntryWithinAll(ds[1..], i - 1);
    }
  }

  /** `children[i]` in the child loop: the entry at `i` of an element's children,
      and undefined past the end of the list or for a description without
      children. */
  function ChildAt(d: Desc, i: nat): (c: Desc)
    ensures d.VDom? && i < |d.children| ==> c == d.children[i] && Size(c) < Size(d)
    ensures !(d.VDom? && i < |d.children|) ==> c == Absent
    ensures Ids(c) <= Ids(d)
  {
    if d.VDom? && i < |d.children| then
      ChildIsSmaller(d, i);
      d.children[i]
    else
      Absent
  }

  /** Which numbered step of `updateElement` handles a (next, previous) pair. */
  datatype Step =
    | Remove            // 1. no next description
    | Add               // 2. no previous description
    | KeepText          // 3. two text descriptions with equal values
    | ReplaceText       // 3. two text descriptions with different values
    | ReplaceMismatched // 4. `typeof` differs
    | ReplaceElement    // 5. tag, key or props differ
    | InPlace           // 6. update the live element in place

  predicate IsReplacement(s: Step) {
    s == ReplaceText || s == ReplaceMismatched || s == ReplaceElement
  }

  /** Step 5's test: two element descriptions that differ in tag, key or props. */
  predicate ElementsDiffer(prev: Desc, next: Desc)
    requires prev.VDom? && next.VDom?
    ensures prev == next ==> !ElementsDiffer(prev, next)
    ensures prev.tag != next.tag ==> ElementsDiffer(prev, next)
    ensures !ElementsDiffer(prev, next) ==> DeepEquals(prev.props, next.props)
  {
    prev.tag != next.tag
    || !StrictEquals(Key(prev.props), Key(next.props))
    || !DeepEquals(prev.props, next.props)
  }

  /** The decision cascade of `updateElement`, first match wins. */
  function Classify(next: Desc, prev: Desc): (r: Step)
    ensures r == Remove <==> !Truthy(next)
    ensures r == Add <==> Truthy(next) && !Truthy(prev)
    ensures r in {KeepText, ReplaceText} <==>
              Truthy(next) && Truthy(prev) && next.TextVDom? && prev.TextVDom?
    ensures r == KeepText ==> next.value == prev.value
    ensures r == ReplaceMismatched ==> TypeOf(prev) != TypeOf(next)
    ensures r == ReplaceElement ==> prev.VDom? && next.VDom? && ElementsDiffer(prev, next)
    ensures r == InPlace ==>
              && TypeOf(prev) == TypeOf(next) && !(prev.TextVDom? && next.TextVDom?)
              && (prev.VDom? && next.VDom? ==> !ElementsDiffer(prev, next))
  {
    if !Truthy(next) then Remove
    else if !Truthy(prev) then Add
    else if prev.TextVDom? && next.TextVDom? then
      (if prev.value != next.value then ReplaceText else KeepText)
    else if TypeOf(prev) != TypeOf(next) then ReplaceMismatched
    else if prev.VDom? && next.VDom? && ElementsDiffer(prev, next) then ReplaceElement
    else InPlace
  }

  /** An in-place update happens only for two object descriptions that are not
      both text; when both are elements, they agree on tag, key and props. An
      element paired with a text description also lands here, because both are
      `'object'` to `typeof`. */
  lemma InPlaceOnlyForMatchingObjects(next: Desc, prev: Desc)
    requires !next.Bare?
    requires Classify(next, prev) == InPlace
    ensures IsObjectDesc(next) && IsObjectDesc(prev)
    ensures !(next.TextVDom? && prev.TextVDom?)
    ensures next.VDom? && prev.VDom? ==>
              next.tag == prev.tag && StrictEquals(Key(prev.props), Key(next.props))
              && DeepEquals(prev.props, next.props)
  {
  }

  /** An element whose previous description was a text object (the `current`
      of that text may be an element, stamped by an earlier in-place pass) is
      updated in place: both are `'object'`, and step 5 only compares two
      elements, so no props are compared before `setAttributes`. */
  lemma ElementAfterTextIsUpdatedInPlace(next: Desc, prev: Desc)
    requires next.VDom? && prev.TextVDom?
    ensures Classify(next, prev) == InPlace
  {
  }

  /** Two elements with the same tag and different keys are always replaced,
      even when every other prop agrees. */
  lemma KeyChangeForcesReplacement(next: Desc, prev: Desc)
    requires next.VDom? && prev.VDom? && next.tag == prev.tag
    requires !StrictEquals(Key(prev.props), Key(next.props))
    ensures Classify(next, prev) == ReplaceElement
  {
  }

  /** Any prop difference forces a replacement: a pair of elements is updated in
      place only if its props are deep-equal. */
  lemma PropChangeForcesReplacement(next: Desc, prev: Desc)
    requires next.VDom? && prev.VDom?
    requires !DeepEquals(prev.props, next.props)
    ensures Classify(next, prev) == ReplaceElement
  {
  }

  /** Comparing an object description with itself never replaces it: text is
      carried over and elements are updated in place. */
  lemma SameDescriptionIsKept(d: Desc)
    requires IsObjectDesc(d)
    ensures Classify(d, d) == (if d.TextVDom? then KeepText else InPlace)
  {
    if d.VDom? { DeepEqualsReflexive(d.props); }
  }

  /** Two separately written element descriptions with the same tag and props of
      the same shape are updated in place. */
  lemma RewrittenElementIsKept(next: Desc, prev: Desc)
    requires next.VDom? && prev.VDom? && next.tag == prev.tag
    requires SameShape(prev.props, next.props)
    requires StrictEquals(Key(prev.props), Key(next.props))
    ensures Classify(next, prev) == InPlace
  {
    SameShapeIsDeepEqual(prev.props, next.props);
  }

  /** The empty bare texts `""` and `0` count as absent in the cascade. As a
      previous child this matters: the next description is appended at the end
      of the live children instead of taking the place of the old text. */
  lemma EmptyBareTextIsAbsent(empty: Desc, other: Desc)
    requires empty == Bare(StrText("")) || empty == Bare(NumText(0))
    ensures Classify(empty, other) == Remove
    ensures Truthy(other) ==> Classify(other, empty) == Add
  {
  }

  /** `{tag:'span', props:{class:'a'}}` followed by `{tag:'span', props:{class:'b'}}`:
      the props are not deep-equal, so the span is replaced, not updated in place. */
  lemma SpanClassChangeIsReplaced()
    ensures Classify(VDom(2, "span", Obj(20, map["class" := Str("b")]), []),
                     VDom(1, "span", Obj(10, map["class" := Str("a")]), []))
            == ReplaceElement
  {
    var a := Obj(10, map["class" := Str("a")]);
    var b := Obj(20, map["class" := Str("b")]);
    assert "class" in a.fields && a.fields["class"] != b.fields["class"];
    assert !DeepEquals(a.fields["class"], b.fields["class"]);
  }

  /** `{tag:'div', props:{}, children:['hello']}` followed by the same div with
      `['world']`: two empty props objects are deep-equal, so the div is kept. */
  lemma DivWithNewTextIsKept()
    ensures Classify(VDom(2, "div", Obj(20, map[]), [Bare(StrText("world"))]),
                     VDom(1, "div", Obj(10, map[]), [Bare(StrText("hello"))]))
            == InPlace
  {
  }
}
