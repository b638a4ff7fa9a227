/**
 * An abstract DOM, as far as the polyfill looks at it. Every element is a
 * handle, its position in shadow-including tree order; it knows the
 * attributes the polyfill reads, its parent element inside its own tree and
 * the root node of that tree (a document, a shadow root with its host, or
 * anything else). The two DOM queries the polyfill relies on, `closest` and
 * the first-in-tree-order searches behind `getElementById` and
 * `querySelector`, are defined here.
 */
module Dom {
  import opened Wrappers

  /** An element handle: the element's position in shadow-including tree order. */
  type Elem = nat

  /** What `getRootNode()` returns for an element. */
  datatype Root =
    | Document                // a Document
    | ShadowRoot(host: Elem)  // the shadow root attached to element `host`
    | OtherRoot(key: nat)     // neither: a disconnected subtree or a fragment

  datatype Element = Element(
    isHtml: bool,                  // an HTMLElement: it has the `popover` getter, showPopover and hidePopover
    popover: Option<string>,       // the `popover` attribute, if present
    id: string,                    // the `id` attribute; "" means no ID
    autofocus: bool,               // the `autofocus` attribute is present
    isButton: bool,                // the element is an HTMLButtonElement
    showTarget: Option<string>,    // `popovershowtarget`
    hideTarget: Option<string>,    // `popoverhidetarget`
    toggleTarget: Option<string>,  // `popovertoggletarget`
    parent: Option<Elem>,          // the parent element, in the same tree
    root: Root)

  /** The elements of a page, indexed by handle. */
  type Tree = seq<Element>

  /** A parent comes before its child and lives in the same tree; a shadow host comes before every element of its shadow tree. */
  predicate ElementOk(t: Tree, e: Elem)
    requires e < |t|
  {
    (t[e].parent.Some? ==> t[e].parent.value < e && t[t[e].parent.value].root == t[e].root) &&
    (t[e].root.ShadowRoot? ==> t[e].root.host < e)
  }

  /** The tree order makes both the parent chains and the host chains finite. */
  predicate WellFormed(t: Tree) {
    forall e: Elem :: e < |t| ==> ElementOk(t, e)
  }

  /** Every handle in c names an element of t. */
  predicate InTree(t: Tree, c: seq<Elem>) {
    forall i :: 0 <= i < |c| ==> c[i] < |t|
  }

  lemma ElementInvariant(t: Tree, e: Elem)
    requires WellFormed(t) && e < |t|
    ensures t[e].parent.Some? ==> t[e].parent.value < e && t[t[e].parent.value].root == t[e].root
    ensures t[e].root.ShadowRoot? ==> t[e].root.host < e
  {
    assert ElementOk(t, e);
  }

  /** The two attribute selectors the dispatcher hands to `closest`. */
  datatype Selector =
    | PopoverAttr  // '[popover]'
    | TriggerAttr  // '[popovertoggletarget],[popoverhidetarget],[popovershowtarget]'

  predicate Matches(x: Element, sel: Selector) {
    match sel
    case PopoverAttr => x.popover.Some?
    case TriggerAttr => x.toggleTarget.Some? || x.hideTarget.Some? || x.showTarget.Some?
  }

  /** The first element of the chain c that matches sel. */
  function FirstMatch(t: Tree, sel: Selector, c: seq<Elem>): (r: Option<Elem>)
    requires InTree(t, c)
    ensures r.Some? ==> r.value in c && r.value < |t| && Matches(t[r.value], sel)
    ensures r.Some? ==> exists i :: 0 <= i < |c| && c[i] == r.value && forall k :: 0 <= k < i ==> !Matches(t[c[k]], sel)
    ensures r.None? <==> forall i :: 0 <= i < |c| ==> !Matches(t[c[i]], sel)
  {
    if c == [] then None
    else if Matches(t[c[0]], sel) then Some(c[0])
    else FirstMatch(t, sel, c[1..])
  }

  /** Searching a concatenation searches the first part, then the second. */
  lemma {:induction false} FirstMatchAppend(t: Tree, sel: Selector, a: seq<Elem>, b: seq<Elem>)
    requires InTree(t, a) && InTree(t, b)
    ensures InTree(t, a + b)
    ensures FirstMatch(t, sel, a + b) == if FirstMatch(t, sel, a).Some? then FirstMatch(t, sel, a) else FirstMatch(t, sel, b)
    decreases |a|
  {
    assert InTree(t, a + b) by {
      forall i | 0 <= i < |a + b| ensures (a + b)[i] < |t| {
        if i < |a| { assert (a + b)[i] == a[i]; } else { assert (a + b)[i] == b[i - |a|]; }
      }
    }
    if a == [] {
      assert a + b == b;
    } else {
      assert (a + b)[0] == a[0];
      assert (a + b)[1..] == a[1..] + b;
      FirstMatchAppend(t, sel, a[1..], b);
    }
  }

  /** The parent chain of e inside e's own tree, nearest first: e, its parent, ..., the top element. */
  function Ancestors(t: Tree, e: Elem): (r: seq<Elem>)
    requires WellFormed(t) && e < |t|
    ensures |r| > 0 && r[0] == e
    ensures forall i :: 0 <= i < |r| ==> r[i] < |t| && t[r[i]].root == t[e].root
    decreases e
  {
    ElementInvariant(t, e);
    match t[e].parent
    case None => [e]
    case Some(p) => [e] + Ancestors(t, p)
  }

  /** `Element.closest(sel)`: the nearest inclusive ancestor of e, within e's own tree, that matches sel. */
  function Closest(t: Tree, sel: Selector, e: Elem): (r: Option<Elem>)
    requires WellFormed(t) && e < |t|
    ensures r == FirstMatch(t, sel, Ancestors(t, e))
    decreases e
  {
    ElementInvariant(t, e);
    if Matches(t[e], sel) then Some(e)
    else match t[e].parent
      case None => None
      case Some(p) =>
        assert Ancestors(t, e)[1..] == Ancestors(t, p);
        Closest(t, sel, p)
  }

  /** `d` lies strictly below `a` on the parent chain. */
  predicate IsDescendant(t: Tree, d: Elem, a: Elem)
    requires WellFormed(t) && d < |t|
    decreases d
  {
    ElementInvariant(t, d);
    match t[d].parent
    case None => false
    case Some(p) => p == a || IsDescendant(t, p, a)
  }

  /** The two tree-order searches the polyfill uses. */
  datatype Query =
    | IdInRoot(root: Root, id: string)  // `root.getElementById(id)`
    | AutofocusBelow(ancestor: Elem)    // `ancestor.querySelector('[autofocus]')`

  predicate Satisfies(t: Tree, q: Query, k: Elem)
    requires WellFormed(t) && k < |t|
  {
    match q
    case IdInRoot(root, id) => id != "" && t[k].root == root && t[k].id == id
    case AutofocusBelow(a) => t[k].autofocus && IsDescendant(t, k, a)
  }

  /** The first element, in tree order and from handle `from` on, that satisfies q. */
  function First(t: Tree, q: Query, from: nat): (r: Option<Elem>)
    requires WellFormed(t) && from <= |t|
    ensures r.Some? ==> from <= r.value < |t| && Satisfies(t, q, r.value)
    ensures r.Some? ==> forall k :: from <= k < r.value ==> !Satisfies(t, q, k)
    ensures r.None? <==> forall k :: from <= k < |t| ==> !Satisfies(t, q, k)
    decreases |t| - from
  {
    if from == |t| then None
    else if Satisfies(t, q, from) then Some(from)
    else First(t, q, from + 1)
  }

  /** `root.getElementById(id)`: the first element of that tree, in tree order, whose ID is id; never one for "". */
  function GetElementById(t: Tree, root: Root, id: string): (r: Option<Elem>)
    requires WellFormed(t)
    ensures r.Some? ==> r.value < |t| && t[r.value].root == root && t[r.value].id == id && id != ""
    ensures r.Some? ==> forall k :: 0 <= k < r.value ==> !Satisfies(t, IdInRoot(root, id), k)
    ensures r.None? <==> forall k :: 0 <= k < |t| ==> !Satisfies(t, IdInRoot(root, id), k)
  {
    First(t, IdInRoot(root, id), 0)
  }
}
