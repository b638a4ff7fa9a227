/**
 * closestElement: `closest` that does not stop at a shadow root but carries
 * on from the shadow host, tree after tree, until it reaches a root that is
 * not a shadow root.
 */
module Traversal {
  import opened Wrappers
  import opened Dom

  /** One step up the shadow-including ancestor chain: the parent, or at the top of a shadow tree its host. */
  function ComposedParent(t: Tree, e: Elem): (r: Option<Elem>)
    requires WellFormed(t) && e < |t|
    ensures r.Some? ==> r.value < e
    ensures t[e].parent.Some? ==> r == t[e].parent
    ensures t[e].parent.None? ==> (r.Some? <==> t[e].root.ShadowRoot?)
  {
    ElementInvariant(t, e);
    match t[e].parent
    case Some(p) => Some(p)
    case None => if t[e].root.ShadowRoot? then Some(t[e].root.host) else None
  }

  /**
   * The whole shadow-including inclusive ancestor chain of e, nearest first.
   * Handles strictly decrease along it, so it is finite and never revisits
   * an element.
   */
  function ComposedAncestors(t: Tree, e: Elem): (r: seq<Elem>)
    requires WellFormed(t) && e < |t|
    ensures |r| > 0 && r[0] == e && InTree(t, r)
    ensures forall i :: 0 < i < |r| ==> r[i] < r[i - 1]
    decreases e
  {
    match ComposedParent(t, e)
    case None => [e]
    case Some(p) => [e] + ComposedAncestors(t, p)
  }

  /** closestElement(selector, target). */
  function ClosestElement(t: Tree, sel: Selector, target: Elem): (r: Option<Elem>)
    requires WellFormed(t) && target < |t|
    ensures r.Some? ==> r.value < |t| && Matches(t[r.value], sel)
    ensures Closest(t, sel, target).Some? ==> r == Closest(t, sel, target)
    ensures !t[target].root.ShadowRoot? ==> r == Closest(t, sel, target)
    decreases target
  {
    var found := Closest(t, sel, target);
    if found.Some? then found
    else
      var root := t[target].root;
      if !root.ShadowRoot? then None
      else
        ElementInvariant(t, target);
        ClosestElement(t, sel, root.host)
  }

  /** The rest of the composed chain once e's own tree is left: the host's chain, or nothing. */
  function BeyondTree(t: Tree, e: Elem): (r: seq<Elem>)
    requires WellFormed(t) && e < |t|
    ensures InTree(t, r)
  {
    ElementInvariant(t, e);
    if t[e].root.ShadowRoot? then ComposedAncestors(t, t[e].root.host) else []
  }

  /** The composed chain is the chain inside e's tree followed by the host's composed chain. */
  lemma {:induction false} ComposedSplit(t: Tree, e: Elem)
    requires WellFormed(t) && e < |t|
    ensures InTree(t, Ancestors(t, e))
    ensures ComposedAncestors(t, e) == Ancestors(t, e) + BeyondTree(t, e)
    decreases e
  {
    ElementInvariant(t, e);
    match t[e].parent
    case None =>
    case Some(p) =>
      ComposedSplit(t, p);
      assert BeyondTree(t, p) == BeyondTree(t, e);
      assert [e] + (Ancestors(t, p) + BeyondTree(t, p)) == ([e] + Ancestors(t, p)) + BeyondTree(t, p);
  }

  /**
   * closestElement finds the first match along the whole shadow-including
   * ancestor chain; it is null exactly when nothing on that chain matches.
   */
  lemma {:induction false} ClosestElementIsFirstOnComposedChain(t: Tree, sel: Selector, e: Elem)
    requires WellFormed(t) && e < |t|
    ensures ClosestElement(t, sel, e) == FirstMatch(t, sel, ComposedAncestors(t, e))
    decreases e
  {
    ComposedSplit(t, e);
    FirstMatchAppend(t, sel, Ancestors(t, e), BeyondTree(t, e));
    ElementInvariant(t, e);
    if t[e].root.ShadowRoot? {
      ClosestElementIsFirstOnComposedChain(t, sel, t[e].root.host);
    }
  }
}
