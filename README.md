# ReactImitation reconciler in Dafny

This project models the virtual-DOM reconciler of ReactImitation
(`src/dom/updateDom.ts`) and proves properties of it. The reconciler compares
the previous tree description with the next one and edits the live document
tree in place to match. It also records in every next description the live
node that now stands for it (the description's `current` field).

The model has five modules:

- `JsValues` holds the prop values as a datatype. It defines strict equality
  `===` (objects and functions by reference) and `deepEquals`. It proves that
  `deepEquals` holds exactly for `===` values and for objects with the same
  keys and pairwise deep-equal values, and that it is reflexive and symmetric. It also proves that props of the same shape are always deep-equal,
  whatever their object identities.
- `JsText` holds `trim()` over ASCII whitespace and the decimal `toString` of an
  integer. It proves that trimming is idempotent and that `toString` is
  injective.
- `VDom` holds the tree descriptions, as a datatype with
  `Absent | Bare | TextVDom | VDom` variants. Each object description carries an
  `id` that stands for its JavaScript identity. This module also holds JS
  truthiness and `typeof`. It states the six-way decision cascade of
  `updateElement` as the pure function `Classify`, with lemmas about which
  pairs are replaced and which are kept.
- `Dom` holds the live nodes: a class `LiveNode` with a mutable attribute value
  and a mutable ordered child list. It also holds the text-child search
  `findChildIndexByTextVDOMNode`, as a loop proved equal to a first-match
  function, and two child-list edits, `removeChild` and `replaceWith`, as
  functions on sequences (an append is `+ [x]`).
- `Reconcile` holds a `Reconciler` session object. It keeps the store's
  previous tree (`vdom`) and the `current` fields of all descriptions as a table
  indexed by description identity (`stamps`). `updateElement` and its child
  loop are mutually recursive methods. Their postconditions state, for each
  step of the cascade, what becomes of the parent's child list and of the
  `current` table. Each outcome is one two-state predicate (`Removed`, `Added`,
  `TextKept`, `Replaced`, `KeptInPlace`, collected in `StepOutcome`; `TextPlaced`
  and `RoundOutcome` for a round of the child loop), shared by every method
  that promises it. A ghost `level` on live nodes (a child is strictly below its
  parent) gives the frame: a nested call never touches nodes at or above the
  level it was given. Rendering the previous tree again, with its bare texts
  already on display, writes only the attributes of the kept root element and
  changes nothing else.

The model follows the code where the two might be read differently. Any prop
difference fails `deepEquals`, so two elements whose props differ are replaced,
never updated in place. This applies even to a class change on a `span` from
`a` to `b` (`VDom.SpanClassChangeIsReplaced`). When both descriptions are
elements, the `setAttributes` call of step 6 therefore only sees props deep-equal
to the previous ones. An element whose previous description is a text object
skips step 5 and reaches `setAttributes` with no props compared
(`VDom.ElementAfterTextIsUpdatedInPlace`).

## Model

| member | source | states |
|---|---|---|
| `JsValues.IsObject` | src/dom/updateDom.ts:160-166 | the object guard of `deepEquals` admits neither `null`, `undefined` nor functions |
| `JsValues.StrictEquals` | src/dom/updateDom.ts:157 | `===`: strictly equal values are both objects, both functions or neither, with the same reference when they have one; values that are neither are strictly equal exactly when they are the same value |
| `JsValues.DeepEquals` | src/dom/updateDom.ts:156-185 | `deepEquals` holds for `===` values; when it holds for values that are not `===`, both are objects with the same number of keys |
| `JsValues.DeepEqualsByKeys` | src/dom/updateDom.ts:156-185 | `deepEquals(a, b)` holds exactly when `a === b`, or when both are objects with the same key set and deep-equal values under every key, although the code only compares key counts and scans the keys of `a` |
| `JsValues.DeepEqualObjectsHaveSameKeys` | src/dom/updateDom.ts:170-182 | two distinct deep-equal objects have exactly the same key set: the count check plus the one-way scan excludes extra keys in `b` |
| `JsValues.DeepEqualsSymmetric` | src/dom/updateDom.ts:156-185 | `deepEquals(a, b)` implies `deepEquals(b, a)`, although the scan only walks the keys of `a` |
| `JsValues.DeepEqualsReflexive` | src/dom/updateDom.ts:157-159 | every value is deep-equal to itself |
| `JsValues.SameShapeIsDeepEqual` | src/dom/updateDom.ts:156-185 | values of the same structure (same keys, same primitives, arbitrary object identities) are deep-equal |
| `JsText.Trim` | src/dom/updateDom.ts:203 | `trim()` never lengthens the text |
| `JsText.TrimIsMiddle` | src/dom/updateDom.ts:203 | `trim()` keeps the contiguous middle of the text; everything dropped before and after it is whitespace, and the result neither starts nor ends with whitespace |
| `JsText.TrimIdempotent` | src/dom/updateDom.ts:203 | trimming a trimmed text changes nothing |
| `JsText.NatToStringRoundTrip` | src/dom/updateDom.ts:129 | reading back the decimal digits of `n.toString()` gives `n` |
| `JsText.IntToString` | src/dom/updateDom.ts:129 | `n.toString()` is non-empty, starts with `-` exactly when `n` is negative, and is decimal digits after that |
| `JsText.IntToStringInjective` | src/dom/updateDom.ts:129-133 | distinct integers have distinct texts, so the text comparison of the bare-text branch notices every change of a numeric child |
| `VDom.TextOf` | src/dom/updateDom.ts:129 | `toString()` of a string child is the string; of a number it is non-empty and starts with `-` exactly when the number is negative |
| `VDom.Truthy` | src/dom/updateDom.ts:48 | a description is falsy exactly when it is absent, `""` or `0` |
| `VDom.TypeOf` | src/dom/updateDom.ts:80 | on the truthy descriptions step 4 compares, `typeof` is `'object'` exactly for object descriptions and `'string'` or `'number'` for bare texts; an absent description, which stands for both `undefined` and `null`, is given `'undefined'`, a difference step 4 never sees |
| `VDom.Identical` | src/dom/updateDom.ts:140 | `===` on children is reflexive; identical objects have the same identity; on primitives it is equality of values |
| `VDom.Key` | src/dom/updateDom.ts:93 | `props?.key` is the `key` field when the props object has one, and `undefined` otherwise |
| `VDom.ElementsDiffer` | src/dom/updateDom.ts:91-95 | step 5's test: an element never differs from itself, a tag change always differs, and elements that do not differ have deep-equal props |
| `VDom.Classify` | src/dom/updateDom.ts:47-103 | step 1 exactly when the next description is falsy; step 2 exactly when only the previous one is; step 3 exactly for two text descriptions, kept only with equal values; step 4 only on a `typeof` mismatch; step 5 only for two elements that differ in tag, key or props; step 6 only for the same `typeof`, not two texts, and elements that do not differ |
| `VDom.InPlaceOnlyForMatchingObjects` | src/dom/updateDom.ts:79-112 | step 6 is reached only by two object descriptions that are not both text; two elements reach it only with the same tag, `===` keys and deep-equal props |
| `VDom.ElementAfterTextIsUpdatedInPlace` | src/dom/updateDom.ts:79-111 | an element whose previous description is a text object reaches step 6, so `setAttributes` runs with no props compared |
| `VDom.KeyChangeForcesReplacement` | src/dom/updateDom.ts:89-101 | two elements with the same tag and keys that are not `===` are replaced |
| `VDom.PropChangeForcesReplacement` | src/dom/updateDom.ts:91-101 | two elements whose props are not deep-equal are replaced |
| `VDom.SameDescriptionIsKept` | src/dom/updateDom.ts:65-112 | a description compared with itself is never replaced: text keeps its node, an element is updated in place |
| `VDom.RewrittenElementIsKept` | src/dom/updateDom.ts:89-112 | a freshly written element with the same tag, same-shaped props and the same key is updated in place |
| `VDom.EmptyBareTextIsAbsent` | src/dom/updateDom.ts:48-63 | `""` and `0` count as absent in the cascade: as the previous description they make the next one be appended at the end instead of replacing the old text (a bare next child never reaches the cascade, the child loop handles it) |
| `VDom.SpanClassChangeIsReplaced` | src/dom/updateDom.ts:89-101 | a `span` whose class changes from `a` to `b` is replaced, not updated in place |
| `VDom.DivWithNewTextIsKept` | src/dom/updateDom.ts:89-112 | a `div` with empty props on both sides is updated in place when only its text child changes |
| `Dom.ShowsText` | src/dom/updateDom.ts:131-132 | the `nodeValue` comparison: an element (whose `nodeValue` is null) never shows a text, and a text node shows exactly its own data |
| `Dom.TextMatches` | src/dom/updateDom.ts:201-204 | a child matches only if it is a text node and the target is a string no longer than its text; a text node matches the trim of its own text |
| `Dom.FirstTextMatch` | src/dom/updateDom.ts:196-209 | the result is -1 exactly when no child is a text node whose trimmed text equals the target; otherwise it is the first such child |
| `Dom.FindChildIndexByText` | src/dom/updateDom.ts:190-210 | a missing parent gives -1; otherwise the index of the first text child whose trimmed text is the target, and -1 exactly when there is none |
| `Dom.NumericTextIsNeverFound` | src/dom/updateDom.ts:201-204 | a numeric target never matches a live text child, because the comparison is strict |
| `Dom.Without` | src/dom/updateDom.ts:50 | `removeChild` drops the first occurrence of the node; the children before it and after it keep their order; a non-child leaves the list as it was |
| `Dom.ReplaceFirst` | src/dom/updateDom.ts:70 | `replaceWith` puts the new node at the old node's position; the length and every other position are unchanged |
| `Reconcile.Restamped` | src/dom/updateDom.ts:147 | `d.current = v` records `v` for `d`, clears the entry when `v` is undefined, and leaves every other description's `current` as it was |
| `Reconcile.Reconciler.CurrentOf` | src/dom/updateDom.ts:38 | `prevVDOM?.current` is nothing for an absent description or a bare text; for an object description it is the recorded node, present exactly when one is recorded |
| `Reconcile.Reconciler.Resolve` | src/dom/updateDom.ts:38-45 | `$current` of an object description is its `current`; for a bare previous text it is a live child of `parent` whose trimmed text equals it, and nothing exactly when no child matches |
| `Reconcile.Reconciler.SetCurrent` | src/dom/updateDom.ts:147 | `d.current = v` updates the session's `current` table as `Restamped` says and keeps the session consistent |
| `Reconcile.Reconciler.RemoveChild` | src/dom/updateDom.ts:50 | `removeChild` drops the node from the parent's child list and leaves its attributes |
| `Reconcile.Reconciler.AppendChild` | src/dom/updateDom.ts:59 | `appendChild` adds the node at the end of the parent's child list |
| `Reconcile.Reconciler.ReplaceChild` | src/dom/updateDom.ts:70 | `replaceWith` puts the new node at the old node's position in the parent's child list |
| `Reconcile.Reconciler.SetAttributes` | src/dom/updateDom.ts:111 | `setAttributes` makes the props the element's attributes and leaves its children |
| `Reconcile.Reconciler.CreateDom` | src/dom/updateDom.ts:57 | the factory's node is fresh, has the description's kind and is null exactly when the factory cannot build the description |
| `Reconcile.Reconciler.ResolveCurrent` | src/dom/updateDom.ts:38-45 | `$current` is `prev.current`, or for a bare previous text the first live child whose trimmed text equals it, or nothing |
| `Reconcile.Reconciler.RemoveCurrent` | src/dom/updateDom.ts:47-53 | with no next description, the resolved node is removed from the parent's children and the rest keep their order; with nothing resolved, nothing changes |
| `Reconcile.Reconciler.AddNew` | src/dom/updateDom.ts:55-63 | with no previous description, the parent's children become the old ones followed by the fresh node, which becomes `next.current`; when the factory returns nothing, nothing changes |
| `Reconcile.Reconciler.Replace` | src/dom/updateDom.ts:67-72 | when `$current` and the factory's node both exist, the fresh node takes `$current`'s position in the parent and becomes `next.current`; otherwise nothing changes |
| `Reconcile.Reconciler.UpdateElement` | src/dom/updateDom.ts:33-148 | for each step of the cascade, the new child list of the parent and the new `current` table as above; only descriptions of the next tree get a new `current`; nothing at or above the ceiling changes except the parent's child list; the same element description again, with its bare texts on display, writes only the kept element's attributes and leaves every `current` and child list as it was |
| `Reconcile.Reconciler.ReconcilePair` | src/dom/updateDom.ts:65-77 | two text descriptions with equal values change no live node and pass `prev.current` on to `next.current`; different values are replaced at `$current`'s position |
| `Reconcile.Reconciler.ReconcileObjects` | src/dom/updateDom.ts:79-147 | a `typeof` mismatch or differing tag, key or props replaces at `$current`'s position; otherwise `next.current` is the kept live node, and a missing or non-element node is only recorded; the same element description again, with its bare texts on display, changes only the kept element's attributes |
| `Reconcile.Reconciler.UpdateInPlace` | src/dom/updateDom.ts:105-145 | the child loop keeps the session consistent, gives only descriptions of the next tree a new `current` and touches nothing at or above the ceiling; for the same element description on both sides, with its bare texts on display, it writes the props as the element's attributes and changes nothing else |
| `VDom.ChildAt` | src/dom/updateDom.ts:124-125 | `children[i]` is the entry at `i` inside the list and undefined past its end; an entry is smaller than its parent and carries only identities of the parent's tree |
| `Reconcile.Reconciler.ChildRound` | src/dom/updateDom.ts:122-143 | one round reconciles the children at `i` of both lists (`ChildAt`, absent past the end of a list): a bare next child is compared with the live child at `i` and left, replaced or appended; the same truthy object on both sides is skipped; any other pair has the removal, addition, text and replacement outcomes of `updateElement` on `el`; the same element description on both sides, with its bare texts on display, changes nothing |
| `Reconcile.Reconciler.UpdateChild` | src/dom/updateDom.ts:123-143 | a bare next child leaves the live child at `i` alone when it already shows the text, replaces it with a fresh text node when not, and appends one when there is no child at `i`; a truthy previous child that is the same object as the next one is skipped; an absent pair changes nothing; any other pair is `updateElement(el, nextChild, prevChild)`, with its removal, addition, text and replacement outcomes on `el`'s child list and the `current` table |
| `Reconcile.Reconciler.UpdateDom` | src/dom/updateDom.ts:18-28 | after the pass, the stored previous tree is the next tree; when the root pair is kept in place under the root, the root's child list is unchanged and `next.current` is the previous root's node; rendering the previous tree again, with its bare texts on display, leaves every `current` and child list as it was and writes only the root element's attributes |
| `Reconcile.TreesAreReplacedOrKept` | src/dom/updateDom.ts:79-112 | two element trees are either replaced or updated in place, never added or removed |

## Left out

- `createDOM` and `setAttributes` (src/dom/createDom and src/dom/setAttributes) are not part of this model. `CreateDom` stands in for the first: it builds a fresh subtree or returns null for descriptions whose identity is in the session's `unbuildable` set. `SetAttributes` stands in for the second and only assigns the element's attribute value.
- `Reconcile.Reconciler.CreateDom`: the stand-in records no `current` for the descriptions it builds, so after an addition or a replacement only `next` itself has a `current`, and the contracts say that the table changes at `next.id` only. Any stamping done inside the real `createDOM` is not part of this model.
- The store (`getRoot`, `getNewVDOM`, `getVDOM`, `setVDOM` and the three index resets) is not part of this model. The defaults of `updateDOM` become explicit arguments, the resets are not modelled, and `setVDOM` assigns the session's `vdom` field.
- The type guards `isTextVDOM`, `isTextVDOMNode` and `isVDOM` (src/utils) are not part of this model. The datatype variants stand in for them, and a bare text child is a string or an integer.
- DOM exceptions are not modelled. `removeChild` of a node that is not a child leaves the child list unchanged instead of throwing. `replaceWith` is applied to the parent's own child list, so a resolved node that sits under another parent is not replaced.
- Numbers are integers. NaN, fractions and JavaScript float formatting in `toString` are not modelled.
- `trim()` removes ASCII whitespace only, not the full Unicode whitespace set.
- Function-valued props such as event handlers are opaque identities compared by reference.
- Reconcile.Reconciler.UpdateElement: in the in-place step, the contract does not describe the kept element's new attributes and children, except when the same description is rendered again. A previous description's `current` may alias any live node below the ceiling, so a nested call can edit that node as well. Only the frame at the ceiling is stated.
- Reconcile.Reconciler.UpdateInPlace: apart from the same-description case, the contract does not compose the rounds into the element's final child list. Each round is described by `ChildRound` and `UpdateChild`, and the loop runs over `max(|prevChildren|, |nextChildren|)` positions. A later round can edit a node that an earlier round placed, because a previous description's `current` may alias any live node below the ceiling.
- Reconcile.Reconciler.UpdateDom: the replacement case is stated only for the root pair, through `old(CurrentOf(prevTree))`. The per-step contracts of `UpdateElement` carry the rest.
