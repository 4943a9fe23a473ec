/** The live document nodes the reconciler edits, the search for a text child
    (`findChildIndexByTextVDOMNode`), and the child-list edits as functions on
    sequences. */
module Dom {
  import opened JsValues
  import opened JsText
  import opened VDom

  /** What a live node is: an element (`instanceof HTMLElement`) with its tag, or
      a text node (`nodeType === TEXT_NODE`) with its character data. */
  datatype Kind = ElementNode(tag: string) | TextNode(data: string)

  /** A node of the live document. Only the attributes and the ordered child list
      change; `level` is proof bookkeeping (a child's level is below its
      parent's, so the tree has no cycles). */
  class LiveNode {
    const kind: Kind
    var attrs: JsValue
    var children: seq<LiveNode>
    ghost const level: int

    constructor (kind: Kind, attrs: JsValue, children: seq<LiveNode>, ghost level: int)
      ensures this.kind == kind && this.attrs == attrs && this.children == children
      ensures this.level == level
    {
      this.kind := kind;
      this.attrs := attrs;
      this.children := children;
      this.level := level;
    }
  }

  /** `n.nodeValue === text`: only a text node has a node value, so an element
      (whose `nodeValue` is null) never shows a text. */
  predicate ShowsText(n: LiveNode, text: string)
    ensures n.kind.ElementNode? ==> !ShowsText(n, text)
    ensures ShowsText(n, text) ==> n.kind.TextNode? && n.kind.data == text
  {
    n.kind == TextNode(text)
  }

  /** `n.nodeType === Node.TEXT_NODE && n.nodeValue?.trim() === target`. The
      comparison is strict, so a numeric target never equals a string. */
  predicate TextMatches(n: LiveNode, target: TextValue)
    ensures TextMatches(n, target) ==> n.kind.TextNode? && target.StrText? && |target.s| <= |n.kind.data|
    ensures n.kind.TextNode? && target == StrText(Trim(n.kind.data)) ==> TextMatches(n, target)
  {
    n.kind.TextNode? && target.StrText? && Trim(n.kind.data) == target.s
  }

  /** The position of the first child whose trimmed text is `target`, or -1. */
  function FirstTextMatch(children: seq<LiveNode>, target: TextValue): (r: int)
    ensures -1 <= r < |children|
    ensures r == -1 <==> forall j :: 0 <= j < |children| ==> !TextMatches(children[j], target)
    ensures r != -1 ==> TextMatches(children[r], target)
    ensures forall j :: 0 <= j < r ==> !TextMatches(children[j], target)
  {
    FirstTextMatchFrom(children, target, 0)
  }

  /** The first match at or after position `from`, or -1. */
  function FirstTextMatchFrom(children: seq<LiveNode>, target: TextValue, from: nat): (r: int)
    requires from <= |children|
    ensures r == -1 || from <= r < |children|
    ensures r == -1 <==> forall j :: from <= j < |children| ==> !TextMatches(children[j], target)
    ensures r != -1 ==> TextMatches(children[r], target)
    ensures forall j :: from <= j < r ==> !TextMatches(children[j], target)
    decreases |children| - from
  {
    if from == |children| then -1
    else if TextMatches(children[from], target) then from
    else FirstTextMatchFrom(children, target, from + 1)
  }

  /** `findChildIndexByTextVDOMNode(parent, target)`: a missing parent gives -1;
      otherwise the index of the first text child whose trimmed value is
      `target`, and -1 exactly when there is none. */
  method FindChildIndexByText(parent: LiveNode?, target: TextValue) returns (r: int)
    ensures parent == null ==> r == -1
    ensures parent != null ==> -1 <= r < |parent.children|
    ensures parent != null ==>
              (r == -1 <==> forall j :: 0 <= j < |parent.children| ==> !TextMatches(parent.children[j], target))
    ensures parent != null && r != -1 ==>
              TextMatches(parent.children[r], target)
              && forall j :: 0 <= j < r ==> !TextMatches(parent.children[j], target)
    ensures parent != null ==> r == FirstTextMatch(parent.children, target)
  {
    if parent == null {
      return -1;
    }
    var childNodes := parent.children;
    for i := 0 to |childNodes|
      invariant FirstTextMatchFrom(childNodes, target, i) == FirstTextMatch(childNodes, target)
    {
      if TextMatches(childNodes[i], target) {
        return i;
      }
    }
    return -1;
  }

  /** A numeric bare text is never found among the live children, so its live
      text node can be neither removed nor replaced through this search. */
  lemma NumericTextIsNeverFound(children: seq<LiveNode>, n: int)
    ensures FirstTextMatch(children, NumText(n)) == -1
  {
  }

  /** The position of the first occurrence of `x` in `s`. */
  function IndexOf<T(==)>(s: seq<T>, x: T): (i: nat)
    requires x in s
    ensures i < |s| && s[i] == x
    ensures forall j :: 0 <= j < i ==> s[j] != x
  {
    if s[0] == x then 0 else 1 + IndexOf(s[1..], x)
  }

  /** `parent.removeChild(x)` on the child list: the first occurrence of `x` is
      dropped and every other child keeps its order. */
  function Without<T(==)>(s: seq<T>, x: T): (r: seq<T>)
    ensures x !in s ==> r == s
    ensures x in s ==> |r| == |s| - 1
    ensures x in s ==> forall j :: 0 <= j < IndexOf(s, x) ==> r[j] == s[j]
    ensures x in s ==> forall j :: IndexOf(s, x) <= j < |r| ==> r[j] == s[j + 1]
    ensures forall y :: y in r ==> y in s
  {
    if x in s then s[..IndexOf(s, x)] + s[IndexOf(s, x) + 1..] else s
  }

  /** `x.replaceWith(y)` on the child list: `y` takes the position of the first
      occurrence of `x`; every other child stays where it was. */
  function ReplaceFirst<T(==)>(s: seq<T>, x: T, y: T): (r: seq<T>)
    ensures |r| == |s|
    ensures x !in s ==> r == s
    ensures x in s ==> r[IndexOf(s, x)] == y
    ensures forall j :: 0 <= j < |s| && (x !in s || j != IndexOf(s, x)) ==> r[j] == s[j]
  {
    if x in s then s[IndexOf(s, x) := y] else s
  }
}
