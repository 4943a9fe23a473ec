/** The reconciler: `updateElement` compares a next description with a previous
    one and edits the live tree in place to match, recording in each next
    description the live node it now stands for; `updateDOM` runs one pass from
    the root and stores the next tree as the previous one for the following pass. */
module Reconcile {
  import opened JsValues
  import opened VDom
  import opened Dom

  /** The attributes and child lists of the nodes in `nodes` are as they were. */
  twostate predicate Untouched(nodes: set<LiveNode>)
    reads nodes
  {
    forall n :: n in nodes ==> n.children == old(n.children) && n.attrs == old(n.attrs)
  }

  /** Only the attributes of `el` were written, and they are now `props`; every
      child list in `nodes` and every other node's attributes are as they were. */
  twostate predicate OnlyAttrsWritten(nodes: set<LiveNode>, el: LiveNode, props: JsValue)
    reads nodes, el
  {
    && el.attrs == props
    && forall n :: n in nodes ==> n.children == old(n.children) && (n != el ==> n.attrs == old(n.attrs))
  }

  /** Every bare text among `children` is already shown by the live child of `el`
      at its position. */
  ghost predicate TextsShown(el: LiveNode, children: seq<Desc>)
    reads el
  {
    forall i :: 0 <= i < |children| && children[i].Bare? ==>
      i < |el.children| && ShowsText(el.children[i], TextOf(children[i].text))
  }

  /** The two `current` tables agree on every identity outside `ids`. */
  ghost predicate AgreeOutside(now: map<nat, LiveNode>, before: map<nat, LiveNode>, ids: set<nat>)
  {
    forall id :: id !in ids ==>
      (id in now <==> id in before) && (id in now ==> now[id] == before[id])
  }

  /** The `current` table after `d.current = v` for the description with identity
      `id` (a null `v` clears the entry, as assigning `undefined` does). */
  function Restamped(stamps: map<nat, LiveNode>, id: nat, v: LiveNode?): (r: map<nat, LiveNode>)
    ensures v == null ==> id !in r
    ensures v != null ==> id in r && r[id] == v
    ensures AgreeOutside(r, stamps, {id})
  {
    if v == null then stamps - {id} else stamps[id := v]
  }

  /** Recording for `id` the node already recorded for it changes nothing. */
  lemma RestampedUnchanged(stamps: map<nat, LiveNode>, id: nat)
    ensures Restamped(stamps, id, if id in stamps then stamps[id] else null) == stamps
  {
  }

  /** The live node `createDOM` makes for a description. */
  function KindOf(d: Desc): Kind
    requires d != Absent
  {
    match d
    case Bare(t) => TextNode(TextOf(t))
    case TextVDom(_, value) => TextNode(value)
    case VDom(_, tag, _, _) => ElementNode(tag)
  }

  /** A reconciliation session: the document root, the store's previous tree
      (`vdom`) and the `current` fields of all descriptions (`stamps`, indexed by
      description identity). `Nodes` is every live node the session knows of. */
  class Reconciler {
    const root: LiveNode
    /** The identities of the descriptions the node factory cannot build. */
    const unbuildable: set<nat>
    var stamps: map<nat, LiveNode>
    var vdom: Desc
    ghost var Nodes: set<LiveNode>

    ghost predicate Valid()
      reads this, Nodes
    {
      && root in Nodes
      && root.kind.ElementNode?
      && (forall n, i :: n in Nodes && 0 <= i < |n.children| ==>
            n.children[i] in Nodes && n.children[i].level < n.level)
      && (forall id :: id in stamps ==> stamps[id] in Nodes)
      && StampsBelow(root.level)
    }

    /** Every recorded `current` lies strictly below `ceiling`. */
    ghost predicate StampsBelow(ceiling: int)
      reads this
    {
      forall id :: id in stamps ==> stamps[id].level < ceiling
    }

    constructor (root: LiveNode, unbuildable: set<nat>, ghost nodes: set<LiveNode>)
      requires root in nodes && root.kind.ElementNode?
      requires forall n, i :: n in nodes && 0 <= i < |n.children| ==>
                 n.children[i] in nodes && n.children[i].level < n.level
      ensures Valid()
      ensures this.root == root && this.unbuildable == unbuildable
      ensures stamps == map[] && vdom == Absent && Nodes == nodes
    {
      this.root := root;
      this.unbuildable := unbuildable;
      stamps := map[];
      vdom := Absent;
      Nodes := nodes;
    }

    /** `d?.current` */
    function CurrentOf(d: Desc): (r: LiveNode?)
      reads this
      ensures !IsObjectDesc(d) ==> r == null
      ensures IsObjectDesc(d) ==> (r != null <==> d.id in stamps)
      ensures r != null ==> r == stamps[d.id]
    {
      if IsObjectDesc(d) && d.id in stamps then stamps[d.id] else null
    }

    /** `$current`: the previous description's `current`, or else, for a bare
        text, the first live child of `parent` whose trimmed text equals it. */
    function Resolve(parent: LiveNode, prev: Desc): (r: LiveNode?)
      reads this, parent
      ensures !prev.Bare? ==> r == CurrentOf(prev)
      ensures prev.Bare? ==>
                (r == null <==> forall j :: 0 <= j < |parent.children| ==> !TextMatches(parent.children[j], prev.text))
      ensures prev.Bare? && r != null ==> r in parent.children && TextMatches(r, prev.text)
    {
      var c := CurrentOf(prev);
      if c == null && prev.Bare? then
        var i := FirstTextMatch(parent.children, prev.text);
        if i == -1 then null else parent.children[i]
      else
        c
    }

    /** Whether the node factory returns a node for `d`. */
    predicate Buildable(d: Desc)
    {
      !IsObjectDesc(d) || d.id !in unbuildable
    }

    /** Step 1 on `parent`: `cur` (when there is one) is detached; no other
        node, no `current` and the node set change. */
    twostate predicate Removed(nodes: set<LiveNode>, parent: LiveNode, cur: LiveNode?)
      reads this, nodes, parent
    {
      && Nodes == nodes && stamps == old(stamps)
      && Untouched(nodes - {parent}) && parent.attrs == old(parent.attrs)
      && parent.children == (if cur == null then old(parent.children)
                             else Without(old(parent.children), cur))
    }

    /** Step 2 on `parent`: the node built for `next` is appended and becomes
        `next.current`; when the factory returns nothing, nothing changes. */
    twostate predicate Added(nodes: set<LiveNode>, parent: LiveNode, next: Desc)
      reads this, nodes, parent
    {
      && IsObjectDesc(next)
      && Untouched(nodes - {parent}) && parent.attrs == old(parent.attrs)
      && if Buildable(next) then
           && next.id in stamps && fresh(stamps[next.id]) && stamps[next.id].kind == KindOf(next)
           && parent.children == old(parent.children) + [stamps[next.id]]
           && stamps == old(stamps)[next.id := stamps[next.id]]
         else
           parent.children == old(parent.children) && stamps == old(stamps)
    }

    /** Step 3 with equal values: no live edit, and `prev.current` is carried
        over to `next.current`. */
    twostate predicate TextKept(nodes: set<LiveNode>, next: Desc, prev: Desc)
      reads this, nodes
    {
      && IsObjectDesc(next)
      && Nodes == nodes && Untouched(nodes)
      && stamps == Restamped(old(stamps), next.id, old(CurrentOf(prev)))
    }

    /** Steps 3 to 5: when both `cur` and the node built for `next` exist, the
        new node takes `cur`'s position in `parent` and becomes `next.current`;
        otherwise nothing changes. */
    twostate predicate Replaced(nodes: set<LiveNode>, parent: LiveNode, next: Desc, cur: LiveNode?)
      reads this, nodes, parent
    {
      && IsObjectDesc(next)
      && Untouched(nodes - {parent}) && parent.attrs == old(parent.attrs)
      && if cur != null && Buildable(next) then
           && next.id in stamps && fresh(stamps[next.id]) && stamps[next.id].kind == KindOf(next)
           && parent.children == ReplaceFirst(old(parent.children), cur, stamps[next.id])
           && stamps == old(stamps)[next.id := stamps[next.id]]
         else
           parent.children == old(parent.children) && stamps == old(stamps)
    }

    /** Step 6: `cur` is kept and becomes `next.current`. A missing or non-element
        `cur` is only recorded; a parent at the ceiling keeps its child list. */
    twostate predicate KeptInPlace(nodes: set<LiveNode>, parent: LiveNode, next: Desc, cur: LiveNode?, ceiling: int)
      reads this, nodes, parent
    {
      && IsObjectDesc(next)
      && CurrentOf(next) == cur
      && (cur == null || !cur.kind.ElementNode? ==>
            Nodes == nodes && Untouched(nodes)
            && stamps == Restamped(old(stamps), next.id, cur))
      && (parent.level == ceiling ==> parent.children == old(parent.children))
    }

    /** What `updateElement(parent, next, prev)` does, step by step, when `cur`
        is the `$current` it resolved. */
    twostate predicate StepOutcome(nodes: set<LiveNode>, parent: LiveNode, next: Desc, prev: Desc, cur: LiveNode?)
      reads this, nodes, parent
    {
      && (Classify(next, prev) == Remove ==> Removed(nodes, parent, cur))
      && (Classify(next, prev) == Add ==> Added(nodes, parent, next))
      && (Classify(next, prev) == KeepText ==> TextKept(nodes, next, prev))
      && (IsReplacement(Classify(next, prev)) ==> Replaced(nodes, parent, next, cur))
      && (Classify(next, prev) == InPlace ==> CurrentOf(next) == cur)
    }

    /** The same element description rendered again, its bare texts already on
        display in `cur`: only the attributes of the kept element `cur` are
        written, and no `current` changes. */
    twostate predicate RenderedAgain(nodes: set<LiveNode>, next: Desc, cur: LiveNode?)
      reads this, nodes, cur
    {
      && next.VDom?
      && (cur == null || !cur.kind.ElementNode? || old(TextsShown(cur, next.children)) ==>
            && Nodes == nodes && stamps == old(stamps)
            && if cur != null && cur.kind.ElementNode? then OnlyAttrsWritten(nodes, cur, next.props)
               else Untouched(nodes))
    }

    /** No node, no `current` and the node set change. */
    twostate predicate NothingChanged(nodes: set<LiveNode>)
      reads this, nodes
    {
      Nodes == nodes && stamps == old(stamps) && Untouched(nodes)
    }

    /** A bare text child at position `i` of `el`: a live child that already
        shows `text` is left alone, any other live child at `i` is replaced by a
        fresh text node, and with no child at `i` one is appended. */
    twostate predicate TextPlaced(nodes: set<LiveNode>, el: LiveNode, i: nat, text: string)
      reads this, nodes, el
    {
      && stamps == old(stamps) && Untouched(nodes - {el}) && el.attrs == old(el.attrs)
      && if i < |old(el.children)| then
           if ShowsText(old(el.children)[i], text) then
             el.children == old(el.children) && Nodes == nodes
           else
             && |el.children| == |old(el.children)|
             && fresh(el.children[i]) && ShowsText(el.children[i], text)
             && el.children == old(el.children)[i := el.children[i]]
         else
           && |el.children| == |old(el.children)| + 1
           && fresh(el.children[|el.children| - 1]) && ShowsText(el.children[|el.children| - 1], text)
           && el.children == old(el.children) + [el.children[|el.children| - 1]]
    }

    /** One round of the child loop at position `i` of `el`: a bare next child is
        placed as text; the same truthy object on both sides and an absent pair
        change nothing; any other pair is `updateElement(el, nextChild, prevChild)`. */
    twostate predicate RoundOutcome(nodes: set<LiveNode>, el: LiveNode, i: nat, nextChild: Desc, prevChild: Desc)
      reads this, nodes, el
    {
      && (nextChild.Bare? ==> TextPlaced(nodes, el, i, TextOf(nextChild.text)))
      && (!nextChild.Bare? && Truthy(prevChild) && Identical(nextChild, prevChild) ==> NothingChanged(nodes))
      && (nextChild == Absent && prevChild == Absent ==> NothingChanged(nodes))
      && (!nextChild.Bare? && (!Truthy(prevChild) || !Identical(nextChild, prevChild)) ==>
            StepOutcome(nodes, el, nextChild, prevChild, old(Resolve(el, prevChild))))
    }

    /** Stand-in for `createDOM(d)`: a fresh, unattached node for `d` together with
        its descendants, or null when the factory cannot build `d`. */
    method CreateDom(d: Desc, ghost level: int) returns (n: LiveNode?)
      requires Valid() && d != Absent
      modifies this`Nodes
      ensures Valid()
      ensures old(Nodes) <= Nodes && fresh(Nodes - old(Nodes))
      ensures n == null <==> !Buildable(d)
      ensures n != null ==> fresh(n) && n in Nodes && n.level == level && n.kind == KindOf(d)
    {
      if !Buildable(d) {
        return null;
      }
      if d.Bare? {
        n := new LiveNode(TextNode(TextOf(d.text)), Undefined, [], level);
      } else if d.TextVDom? {
        n := new LiveNode(TextNode(d.value), Undefined, [], level);
      } else {
        var built: seq<LiveNode> := [];
        for j := 0 to |d.children|
          invariant Valid() && old(Nodes) <= Nodes && fresh(Nodes - old(Nodes))
          invariant forall c :: c in built ==> c in Nodes && c.level < level
        {
          if d.children[j] != Absent {
            var c := CreateDom(d.children[j], level - 1);
            if c != null {
              built := built + [c];
            }
          }
        }
        n := new LiveNode(ElementNode(d.tag), d.props, built, level);
      }
      Nodes := Nodes + {n};
    }

    /** `d.current = v` for the description with identity `id`. */
    method SetCurrent(id: nat, v: LiveNode?, ghost ceiling: int)
      requires Valid() && StampsBelow(ceiling) && ceiling <= root.level
      requires v != null ==> v in Nodes && v.level < ceiling
      modifies this`stamps
      ensures Valid() && StampsBelow(ceiling)
      ensures stamps == Restamped(old(stamps), id, v)
    {
      stamps := Restamped(stamps, id, v);
    }

    /** `parent.removeChild(x)` */
    method RemoveChild(parent: LiveNode, x: LiveNode)
      requires Valid() && parent in Nodes
      modifies parent
      ensures Valid()
      ensures parent.children == Without(old(parent.children), x)
      ensures parent.attrs == old(parent.attrs)
    {
      parent.children := Without(parent.children, x);
    }

    /** `parent.appendChild(x)` for a node `x` that is not yet attached. */
    method AppendChild(parent: LiveNode, x: LiveNode)
      requires Valid() && parent in Nodes && x in Nodes && x.level < parent.level
      modifies parent
      ensures Valid()
      ensures parent.children == old(parent.children) + [x]
      ensures parent.attrs == old(parent.attrs)
    {
      parent.children := parent.children + [x];
    }

    /** `x.replaceWith(y)` where `x` is a child of `parent`. */
    method ReplaceChild(parent: LiveNode, x: LiveNode, y: LiveNode)
      requires Valid() && parent in Nodes && y in Nodes && y.level < parent.level
      modifies parent
      ensures Valid()
      ensures parent.children == ReplaceFirst(old(parent.children), x, y)
      ensures parent.attrs == old(parent.attrs)
    {
      parent.children := ReplaceFirst(parent.children, x, y);
    }

    /** Stand-in for `setAttributes(props, el)`: it changes the element's
        attributes and nothing else. */
    method SetAttributes(props: JsValue, el: LiveNode)
      modifies el
      ensures el.attrs == props && el.children == old(el.children)
    {
      el.attrs := props;
    }

    /** Step 1: with no next description, `$current` (when there is one) is
        detached from `parent`. */
    method RemoveCurrent(parent: LiveNode, cur: LiveNode?)
      requires Valid() && parent in Nodes
      modifies parent
      ensures Valid()
      ensures Removed(old(Nodes), parent, cur)
    {
      if cur != null {
        RemoveChild(parent, cur);
      }
    }

    /** Step 2: with no previous description, `createDOM(next)` is appended to
        `parent` and becomes `next.current`; nothing changes when the factory
        returns nothing. */
    method AddNew(parent: LiveNode, next: Desc, ghost ceiling: int)
      requires Valid() && parent in Nodes && IsObjectDesc(next)
      requires parent.level <= ceiling <= root.level && StampsBelow(ceiling)
      modifies this`stamps, this`Nodes, parent
      ensures Valid() && StampsBelow(ceiling)
      ensures old(Nodes) <= Nodes && fresh(Nodes - old(Nodes))
      ensures Added(old(Nodes), parent, next)
    {
      var created := CreateDom(next, parent.level - 1);
      if created != null {
        AppendChild(parent, created);
        SetCurrent(next.id, created, ceiling);
      }
    }

    /** Steps 3 (different text), 4 and 5: `createDOM(next)`; when both the new
        node and `$current` exist, the new node takes `$current`'s place and
        becomes `next.current`, otherwise nothing changes. */
    method Replace(parent: LiveNode, next: Desc, cur: LiveNode?, ghost ceiling: int)
      requires Valid() && parent in Nodes && IsObjectDesc(next)
      requires parent.level <= ceiling <= root.level && StampsBelow(ceiling)
      modifies this`stamps, this`Nodes, parent
      ensures Valid() && StampsBelow(ceiling)
      ensures old(Nodes) <= Nodes && fresh(Nodes - old(Nodes))
      ensures Replaced(old(Nodes), parent, next, cur)
    {
      var created := CreateDom(next, parent.level - 1);
      if cur != null && created != null {
        ReplaceChild(parent, cur, created);
        SetCurrent(next.id, created, ceiling);
      }
    }

    /** `updateElement(parent, next, prev)`. The ghost `ceiling` bounds the live
        nodes the pass may edit: nothing at or above it changes except the child
        list of `parent` itself. */
    method UpdateElement(parent: LiveNode, next: Desc, prev: Desc, ghost ceiling: int)
      requires Valid() && parent in Nodes && parent.kind.ElementNode?
      requires parent.level <= ceiling <= root.level && StampsBelow(ceiling)
      requires !next.Bare?
      modifies this`stamps, this`Nodes, Nodes
      decreases Size(next) + Size(prev), 4
      ensures Valid() && StampsBelow(ceiling)
      ensures old(Nodes) <= Nodes && fresh(Nodes - old(Nodes))
      // only descriptions of the next tree get a new `current`
      ensures AgreeOutside(stamps, old(stamps), Ids(next))
      ensures forall n :: n in old(Nodes) && n.level >= ceiling ==>
                n.attrs == old(n.attrs) && (n != parent ==> n.children == old(n.children))
      // steps 1 to 5 on `parent`, with `$current` resolved before any edit
      ensures StepOutcome(old(Nodes), parent, next, prev, old(Resolve(parent, prev)))
      // 6. in place: the live node is kept and becomes `next.current`
      ensures Classify(next, prev) == InPlace ==>
                KeptInPlace(old(Nodes), parent, next, old(Resolve(parent, prev)), ceiling)
      // the same element tree again, its bare texts already on display: only the
      // kept element's attributes are written
      ensures next == prev && next.VDom? ==> RenderedAgain(old(Nodes), next, old(CurrentOf(prev)))
    {
      var cur := ResolveCurrent(parent, prev, ceiling);

      // 1. no next description: remove the existing node
      if !Truthy(next) {
        RemoveCurrent(parent, cur);
        assert Classify(next, prev) == Remove;
        return;
      }

      // 2. no previous description: add a new node
      if !Truthy(prev) {
        AddNew(parent, next, ceiling);
        assert Classify(next, prev) == Add;
        return;
      }

      ReconcilePair(parent, next, prev, cur, ceiling);
    }

    /** Steps 3 to 6 of `updateElement`, once both descriptions are present and
        `cur` is the live node `$current` resolved to. */
    method ReconcilePair(parent: LiveNode, next: Desc, prev: Desc, cur: LiveNode?, ghost ceiling: int)
      requires Valid() && parent in Nodes && parent.kind.ElementNode?
      requires parent.level <= ceiling <= root.level && StampsBelow(ceiling)
      requires Truthy(next) && Truthy(prev) && !next.Bare?
      requires cur != null ==> cur in Nodes && cur.level < ceiling
      modifies this`stamps, this`Nodes, Nodes
      decreases Size(next) + Size(prev), 3
      ensures Valid() && StampsBelow(ceiling)
      ensures old(Nodes) <= Nodes && fresh(Nodes - old(Nodes))
      ensures AgreeOutside(stamps, old(stamps), Ids(next))
      ensures forall n :: n in old(Nodes) && n.level >= ceiling ==>
                n.attrs == old(n.attrs) && (n != parent ==> n.children == old(n.children))
      ensures StepOutcome(old(Nodes), parent, next, prev, cur)
      ensures Classify(next, prev) == InPlace ==> KeptInPlace(old(Nodes), parent, next, cur, ceiling)
      ensures next == prev && next.VDom? && cur == old(CurrentOf(prev)) ==>
                RenderedAgain(old(Nodes), next, cur)
    {
      // 3. two text descriptions
      if prev.TextVDom? && next.TextVDom? {
        if prev.value != next.value {
          Replace(parent, next, cur, ceiling);
        } else {
          SetCurrent(next.id, CurrentOf(prev), ceiling);
        }
        return;
      }

      ReconcileObjects(parent, next, prev, cur, ceiling);
    }

    /** Steps 4 to 6 of `updateElement`, for a pair that is not two text
        descriptions. */
    method ReconcileObjects(parent: LiveNode, next: Desc, prev: Desc, cur: LiveNode?, ghost ceiling: int)
      requires Valid() && parent in Nodes && parent.kind.ElementNode?
      requires parent.level <= ceiling <= root.level && StampsBelow(ceiling)
      requires Truthy(next) && Truthy(prev) && !next.Bare?
      requires !(prev.TextVDom? && next.TextVDom?)
      requires cur != null ==> cur in Nodes && cur.level < ceiling
      modifies this`stamps, this`Nodes, Nodes
      decreases Size(next) + Size(prev), 2
      ensures Valid() && StampsBelow(ceiling)
      ensures old(Nodes) <= Nodes && fresh(Nodes - old(Nodes))
      ensures AgreeOutside(stamps, old(stamps), Ids(next))
      ensures forall n :: n in old(Nodes) && n.level >= ceiling ==>
                n.attrs == old(n.attrs) && (n != parent ==> n.children == old(n.children))
      ensures StepOutcome(old(Nodes), parent, next, prev, cur)
      ensures Classify(next, prev) == InPlace ==> KeptInPlace(old(Nodes), parent, next, cur, ceiling)
      ensures next == prev && next.VDom? && cur == old(CurrentOf(prev)) ==>
                RenderedAgain(old(Nodes), next, cur)
    {
      // 4. different `typeof`
      if TypeOf(prev) != TypeOf(next) {
        Replace(parent, next, cur, ceiling);
        return;
      }

      // 5. different tag, key or props
      if prev.VDom? && next.VDom? {
        if ElementsDiffer(prev, next) {
          Replace(parent, next, cur, ceiling);
          return;
        }
      }

      // 6. same element: update attributes and reconcile the children
      if cur != null && cur.kind.ElementNode? {
        UpdateInPlace(cur, next, prev, ceiling);
      }
      SetCurrent(next.id, cur, ceiling);
      RestampedUnchanged(old(stamps), next.id);
    }

    /** The lookup of `$current` at the start of `updateElement`: a recorded
        `current` lies below the ceiling, a found child below its parent. */
    method ResolveCurrent(parent: LiveNode, prev: Desc, ghost ceiling: int) returns (cur: LiveNode?)
      requires Valid() && parent in Nodes && parent.level <= ceiling && StampsBelow(ceiling)
      ensures cur == Resolve(parent, prev)
      ensures cur != null ==> cur in Nodes && cur.level < ceiling
    {
      cur := CurrentOf(prev);
      if cur == null && prev.Bare? {
        var childIndex := FindChildIndexByText(parent, prev.text);
        if childIndex != -1 {
          cur := parent.children[childIndex];
        }
      }
    }

    /** Step 6 on the kept live element `el`: its attributes become the next
        props, then every child position up to the longer of the two children
        lists is reconciled in order. */
    method UpdateInPlace(el: LiveNode, next: Desc, prev: Desc, ghost ceiling: int)
      requires Valid() && el in Nodes && el.kind.ElementNode?
      requires el.level < ceiling <= root.level && StampsBelow(ceiling)
      modifies this`stamps, this`Nodes, Nodes
      decreases Size(next) + Size(prev), 1
      ensures Valid() && StampsBelow(ceiling)
      ensures old(Nodes) <= Nodes && fresh(Nodes - old(Nodes))
      ensures AgreeOutside(stamps, old(stamps), Ids(next))
      ensures forall n :: n in old(Nodes) && n.level >= ceiling ==>
                n.attrs == old(n.attrs) && n.children == old(n.children)
      // the same element description again, its bare texts already on display:
      // only the attributes of `el` are written
      ensures next == prev && next.VDom? && old(TextsShown(el, next.children)) ==>
                Nodes == old(Nodes) && stamps == old(stamps) && OnlyAttrsWritten(old(Nodes), el, next.props)
    {
      if next.VDom? {
        SetAttributes(next.props, el);
      }
      var prevChildren := if prev.VDom? then prev.children else [];
      var nextChildren := if next.VDom? then next.children else [];
      var maxChildren := if |prevChildren| < |nextChildren| then |nextChildren| else |prevChildren|;
      for i := 0 to maxChildren
        invariant Valid() && StampsBelow(ceiling) && el in Nodes
        invariant old(Nodes) <= Nodes && fresh(Nodes - old(Nodes))
        invariant AgreeOutside(stamps, old(stamps), Ids(next))
        invariant forall n :: n in old(Nodes) && n.level >= ceiling ==>
                    n.attrs == old(n.attrs) && n.children == old(n.children)
        invariant next == prev && next.VDom? && old(TextsShown(el, next.children)) ==>
                    Nodes == old(Nodes) && stamps == old(stamps) && OnlyAttrsWritten(old(Nodes), el, next.props)
      {
        ChildRound(el, i, next, prev, ceiling);
      }
    }

    /** Round `i` of the child loop: the children at position `i` of the two
        descriptions, each absent past the end of its list, go to `UpdateChild`. */
    method ChildRound(el: LiveNode, i: nat, next: Desc, prev: Desc, ghost ceiling: int)
      requires Valid() && el in Nodes && el.kind.ElementNode?
      requires el.level < ceiling <= root.level && StampsBelow(ceiling)
      requires (next.VDom? && i < |next.children|) || (prev.VDom? && i < |prev.children|)
      modifies this`stamps, this`Nodes, Nodes
      decreases Size(next) + Size(prev), 0
      ensures Valid() && StampsBelow(ceiling)
      ensures old(Nodes) <= Nodes && fresh(Nodes - old(Nodes))
      ensures AgreeOutside(stamps, old(stamps), Ids(next))
      ensures forall n :: n in old(Nodes) && n.level >= ceiling ==>
                n.attrs == old(n.attrs) && n.children == old(n.children)
      ensures RoundOutcome(old(Nodes), el, i, ChildAt(next, i), ChildAt(prev, i))
      // the same element description on both sides, its bare texts on display
      ensures next == prev && next.VDom? && old(TextsShown(el, next.children)) ==> NothingChanged(old(Nodes))
    {
      var prevChild := ChildAt(prev, i);
      var nextChild := ChildAt(next, i);
      UpdateChild(el, i, nextChild, prevChild, ceiling);
    }

    /** One round of the child loop of `updateElement` at position `i`. A bare
        text next child is compared with the live child at `i`: left alone when it
        already shows that text, replaced when it shows something else, appended
        (at the end) when `el` has no child at `i`. Any other next child goes to
        `updateElement`, unless it is the very object of the previous child. */
    method UpdateChild(el: LiveNode, i: nat, nextChild: Desc, prevChild: Desc, ghost ceiling: int)
      requires Valid() && el in Nodes && el.kind.ElementNode?
      requires el.level < ceiling <= root.level && StampsBelow(ceiling)
      modifies this`stamps, this`Nodes, Nodes
      decreases Size(nextChild) + Size(prevChild), 5
      ensures Valid() && StampsBelow(ceiling)
      ensures old(Nodes) <= Nodes && fresh(Nodes - old(Nodes))
      ensures AgreeOutside(stamps, old(stamps), Ids(nextChild))
      ensures forall n :: n in old(Nodes) && n.level >= ceiling ==>
                n.attrs == old(n.attrs) && n.children == old(n.children)
      ensures RoundOutcome(old(Nodes), el, i, nextChild, prevChild)
    {
      if nextChild.Bare? {
        var text := TextOf(nextChild.text);
        if i < |el.children| && !ShowsText(el.children[i], text) {
          var textNode := new LiveNode(TextNode(text), Undefined, [], el.level - 1);
          Nodes := Nodes + {textNode};
          el.children := el.children[i := textNode];
        } else if i >= |el.children| {
          var textNode := new LiveNode(TextNode(text), Undefined, [], el.level - 1);
          Nodes := Nodes + {textNode};
          el.children := el.children + [textNode];
        }
      } else if !Truthy(prevChild) || !Identical(nextChild, prevChild) {
        UpdateElement(el, nextChild, prevChild, ceiling);
      }
    }

    /** `updateDOM(parent, next, prevTree)`: the per-pass resets of the store's
        auxiliary indices, one `updateElement` from `parent`, then `setVDOM(next)`. */
    method UpdateDom(parent: LiveNode, next: Desc, prevTree: Desc)
      requires Valid() && parent in Nodes && parent.kind.ElementNode? && parent.level <= root.level
      requires next.VDom? && prevTree.VDom?
      modifies this, Nodes
      ensures Valid() && vdom == next
      ensures old(Nodes) <= Nodes && fresh(Nodes - old(Nodes))
      ensures AgreeOutside(stamps, old(stamps), Ids(next))
      ensures forall n :: n in old(Nodes) && n.level >= root.level ==>
                n.attrs == old(n.attrs) && (n != parent ==> n.children == old(n.children))
      ensures Classify(next, prevTree) == InPlace ==>
                && CurrentOf(next) == old(CurrentOf(prevTree))
                && (parent == root ==> root.children == old(root.children))
      ensures Classify(next, prevTree) == ReplaceElement ==>
                var cur := old(CurrentOf(prevTree));
                if cur != null && Buildable(next) then
                  && next.id in stamps && fresh(stamps[next.id])
                  && parent.children == ReplaceFirst(old(parent.children), cur, stamps[next.id])
                else
                  parent.children == old(parent.children) && stamps == old(stamps)
      // rendering the previous tree again, its bare texts already on display,
      // writes only the attributes of the root's live node
      ensures next == prevTree ==> RenderedAgain(old(Nodes), next, old(CurrentOf(prevTree)))
    {
      UpdateElement(parent, next, prevTree, root.level);
      vdom := next;
    }
  }

  /** Two element trees are never added or removed by `updateDOM`: the root pair
      is either replaced or updated in place. */
  lemma TreesAreReplacedOrKept(next: Desc, prevTree: Desc)
    requires next.VDom? && prevTree.VDom?
    ensures Classify(next, prevTree) == ReplaceElement || Classify(next, prevTree) == InPlace
  {
  }
}
