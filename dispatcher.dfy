/**
 * The click handler as a function of the page, the known popovers, the
 * state and the click target: the trigger a click resolves to, the popover
 * it affects, the trigger's transition and the light-dismiss pass over a
 * snapshot of the known popovers.
 */
module Dispatcher {
  import opened Wrappers
  import opened Dom
  import opened Modes
  import opened Traversal
  import opened StateMachine

  /** `event.target`: an element, or some other event target. */
  datatype ClickTarget = OnElement(e: Elem) | OnNonElement

  /** What a handled click reports: whether it stopped propagation, the popover it spared from dismissal, what it focused. */
  datatype ClickOutcome =
    | Ignored
    | Dispatched(stopPropagation: bool, effected: Option<Elem>, focused: Option<Elem>)

  datatype TriggerKind = ShowTarget | HideTarget | ToggleTarget

  /** A trigger branch that runs, with what its target id resolved to (possibly nothing). */
  datatype Trigger = Trigger(kind: TriggerKind, popover: Option<Elem>)

  /** The attribute a trigger branch reads on the button. */
  function TargetAttr(b: Element, kind: TriggerKind): Option<string> {
    match kind
    case ShowTarget => b.showTarget
    case HideTarget => b.hideTarget
    case ToggleTarget => b.toggleTarget
  }

  predicate TargetInTree(t: Tree, trig: Option<Trigger>) {
    trig.Some? && trig.value.popover.Some? ==> trig.value.popover.value < |t|
  }

  /**
   * The trigger branch a click on e runs: the closest element (plain
   * `closest`, inside e's own tree) carrying any trigger attribute must be a
   * button; then show-target wins over hide-target, which wins over
   * toggle-target, and the id is resolved in e's root.
   */
  function ResolveTrigger(t: Tree, e: Elem): (r: Option<Trigger>)
    requires WellFormed(t) && e < |t|
    ensures TargetInTree(t, r)
    ensures r.Some? <==> Closest(t, TriggerAttr, e).Some? && t[Closest(t, TriggerAttr, e).value].isButton
    ensures r.Some? ==>
      var b := t[Closest(t, TriggerAttr, e).value];
      (r.value.kind == ShowTarget <==> b.showTarget.Some?) &&
      (r.value.kind == HideTarget <==> b.showTarget.None? && b.hideTarget.Some?) &&
      (r.value.kind == ToggleTarget <==> b.showTarget.None? && b.hideTarget.None?) &&
      TargetAttr(b, r.value.kind).Some? &&
      r.value.popover == GetElementById(t, t[e].root, TargetAttr(b, r.value.kind).value)
  {
    var button := Closest(t, TriggerAttr, e);
    if button.None? || !t[button.value].isButton then None
    else
      var b := t[button.value];
      if b.showTarget.Some? then Some(Trigger(ShowTarget, GetElementById(t, t[e].root, b.showTarget.value)))
      else if b.hideTarget.Some? then Some(Trigger(HideTarget, GetElementById(t, t[e].root, b.hideTarget.value)))
      else if b.toggleTarget.Some? then Some(Trigger(ToggleTarget, GetElementById(t, t[e].root, b.toggleTarget.value)))
      else None
  }

  /**
   * effectedPopover: the resolved target (even when the id resolves to
   * nothing) when a trigger branch runs, otherwise the nearest `[popover]`
   * element on the shadow-including ancestor chain.
   */
  function EffectedPopover(t: Tree, e: Elem): (r: Option<Elem>)
    requires WellFormed(t) && e < |t|
    ensures r.Some? ==> r.value < |t|
    ensures ResolveTrigger(t, e).Some? ==> r == ResolveTrigger(t, e).value.popover
    ensures ResolveTrigger(t, e).None? ==> r == FirstMatch(t, PopoverAttr, ComposedAncestors(t, e))
  {
    ClosestElementIsFirstOnComposedChain(t, PopoverAttr, e);
    match ResolveTrigger(t, e)
    case Some(trig) => trig.popover
    case None => ClosestElement(t, PopoverAttr, e)
  }

  /** The trigger branch calls show or hide: it has a target whose mode is valid. */
  predicate Acts(t: Tree, trig: Option<Trigger>)
    requires TargetInTree(t, trig)
  {
    trig.Some? && trig.value.popover.Some? && ModeOf(t, trig.value.popover.value).Some?
  }

  /** A hide's outcome as a show-shaped one that focused nothing. */
  function Unfocused(h: (State, Result<()>)): (r: (State, Result<Option<Elem>>))
    ensures r.0 == h.0
    ensures r.1.Ok? <==> h.1.Ok?
    ensures r.1.Ok? ==> r.1.value.None?
    ensures r.1.Err? ==> r.1.kind == h.1.kind
  {
    (h.0, if h.1.Ok? then Ok(None) else Err(h.1.kind))
  }

  /** The trigger branch's effect on the state, and what it focused. */
  function TriggerStep(t: Tree, s: State, trig: Option<Trigger>): (r: (State, Result<Option<Elem>>))
    requires WellFormed(t) && TargetInTree(t, trig)
    ensures r.1.Ok?
    ensures !Acts(t, trig) ==> r.0 == s
    ensures Acts(t, trig) ==>
      var p := trig.value.popover.value;
      (forall x :: x != p ==> (x in r.0.visible <==> x in s.visible) && (x in r.0.open <==> x in s.open)) &&
      (trig.value.kind == ShowTarget ==> p in r.0.visible) &&
      (trig.value.kind == HideTarget ==> p !in r.0.visible) &&
      (trig.value.kind == ToggleTarget ==> (p in r.0.visible <==> p !in s.visible))
    ensures Acts(t, trig) ==>
      var p := trig.value.popover.value;
      (p in s.visible <==> p in s.open) ==> (p in r.0.visible <==> p in r.0.open)
    ensures Acts(t, trig) ==>
      var p := trig.value.popover.value;
      !(p in s.visible <==> p in s.open) ==> (p in r.0.open <==> p in s.open)
    ensures Acts(t, trig) && trig.value.kind != HideTarget && trig.value.popover.value !in s.visible ==>
      var p := trig.value.popover.value;
      r.1.value == (if ModeOf(t, p) == Some(Auto) then AutofocusTarget(t, p) else None)
    ensures !Acts(t, trig) || trig.value.kind == HideTarget || trig.value.popover.value in s.visible ==>
      r.1.value.None?
  {
    if !Acts(t, trig) then (s, Ok(None))
    else
      var p := trig.value.popover.value;
      match trig.value.kind
      case ShowTarget => if p !in s.visible then Show(t, s, p) else (s, Ok(None))
      case HideTarget => if p in s.visible then Unfocused(Hide(t, s, p)) else (s, Ok(None))
      case ToggleTarget => if p in s.visible then Unfocused(Hide(t, s, p)) else Show(t, s, p)
  }

  /** `popover.matches('[popover="" i].\:open, [popover=auto i].\:open')`. */
  predicate DismissMatches(t: Tree, s: State, p: Elem)
    requires p < |t|
  {
    AutoSelectorMatches(t[p].popover) && p in s.open
  }

  /** One iteration of the dismiss loop. */
  function DismissOne(t: Tree, s: State, p: Elem, effected: Option<Elem>): (r: (State, Result<()>))
    requires p < |t|
    ensures r.0.visible <= s.visible && r.0.open <= s.open
    ensures forall x :: x in s.visible - r.0.visible || x in s.open - r.0.open ==>
      x == p && Some(p) != effected && AutoSelectorMatches(t[p].popover)
  {
    if DismissMatches(t, s, p) && Some(p) != effected then Hide(t, s, p) else (s, Ok(()))
  }

  /**
   * The dismiss loop over the snapshot ps, one element after the other,
   * each test made on the state the earlier hides left; a throwing hide ends
   * the pass. Only open, present-`auto`, snapshot members other than
   * `effected` can lose their state.
   */
  function DismissFold(t: Tree, s: State, ps: seq<Elem>, effected: Option<Elem>): (r: (State, Result<()>))
    requires InTree(t, ps)
    ensures r.0.visible <= s.visible && r.0.open <= s.open
    ensures forall x :: x in s.visible - r.0.visible || x in s.open - r.0.open ==>
      x in ps && Some(x) != effected && x < |t| && AutoSelectorMatches(t[x].popover)
    decreases |ps|
  {
    if ps == [] then (s, Ok(()))
    else
      var (s1, r1) := DismissOne(t, s, ps[0], effected);
      if r1.Err? then (s1, r1)
      else
        var r2 := DismissFold(t, s1, ps[1..], effected);
        assert forall x :: x in ps[1..] ==> x in ps;
        assert forall x :: x in s.visible - r2.0.visible ==> x in s.visible - s1.visible || x in s1.visible - r2.0.visible;
        assert forall x :: x in s.open - r2.0.open ==> x in s.open - s1.open || x in s1.open - r2.0.open;
        r2
  }

  /** The popovers the dismiss pass is supposed to hide, all judged on the state before the pass. */
  function DismissSet(t: Tree, s: State, ps: seq<Elem>, effected: Option<Elem>): set<Elem>
    requires InTree(t, ps)
  {
    set p | p in ps && p < |t| && DismissMatches(t, s, p) && Some(p) != effected
  }

  /**
   * Hiding one snapshot member never changes whether another one matches, so
   * on a consistent state the sequential pass never throws and removes exactly
   * the dismiss set, duplicates in the snapshot included.
   */
  lemma {:induction false} SnapshotDismiss(t: Tree, s: State, ps: seq<Elem>, effected: Option<Elem>)
    requires InTree(t, ps) && Consistent(s) && OpenAreHtml(t, s)
    ensures var d := DismissSet(t, s, ps, effected);
      DismissFold(t, s, ps, effected) == (State(s.visible - d, s.open - d), Ok(()))
    decreases |ps|
  {
    var d := DismissSet(t, s, ps, effected);
    if ps == [] {
      assert d == {};
      assert s.visible - d == s.visible && s.open - d == s.open;
    } else {
      var p := ps[0];
      AutoSelectorIsAutoMode(t[p].popover);
      var s1 := DismissOne(t, s, p, effected).0;
      assert DismissOne(t, s, p, effected).1.Ok?;
      assert Consistent(s1) && OpenAreHtml(t, s1);
      SnapshotDismiss(t, s1, ps[1..], effected);
      var d1 := DismissSet(t, s1, ps[1..], effected);
      assert forall q :: q in ps <==> q == p || q in ps[1..] by {
        assert ps == [p] + ps[1..];
      }
      if DismissMatches(t, s, p) && Some(p) != effected {
        assert s1 == State(s.visible - {p}, s.open - {p});
        assert d == d1 + {p};
        assert s.visible - d == s1.visible - d1;
        assert s.open - d == s1.open - d1;
      } else {
        assert s1 == s;
        assert d == d1;
      }
    }
  }

  /**
   * On a consistent state the pass throws exactly when a member of the
   * dismiss set is not an HTMLElement (it matches the selector by its
   * attribute and class, and then has no hidePopover to call), and what it
   * throws is the TypeError.
   */
  lemma {:induction false} DismissThrowsOnNonHtml(t: Tree, s: State, ps: seq<Elem>, effected: Option<Elem>)
    requires InTree(t, ps) && Consistent(s)
    ensures DismissFold(t, s, ps, effected).1.Err? <==>
      exists p :: p in DismissSet(t, s, ps, effected) && p < |t| && !t[p].isHtml
    ensures DismissFold(t, s, ps, effected).1.Err? ==> DismissFold(t, s, ps, effected).1.kind == TypeError
    decreases |ps|
  {
    var d := DismissSet(t, s, ps, effected);
    if ps != [] {
      var p := ps[0];
      AutoSelectorIsAutoMode(t[p].popover);
      var (s1, r1) := DismissOne(t, s, p, effected);
      assert forall q :: q in ps <==> q == p || q in ps[1..] by {
        assert ps == [p] + ps[1..];
      }
      if DismissMatches(t, s, p) && Some(p) != effected {
        assert p in d;
        if t[p].isHtml {
          assert s1 == State(s.visible - {p}, s.open - {p});
          DismissThrowsOnNonHtml(t, s1, ps[1..], effected);
          assert d == DismissSet(t, s1, ps[1..], effected) + {p};
        } else {
          assert r1 == Err(TypeError);
        }
      } else {
        assert s1 == s;
        DismissThrowsOnNonHtml(t, s1, ps[1..], effected);
        assert d == DismissSet(t, s1, ps[1..], effected);
      }
    }
  }

  /** The whole click handler: its new state, and its outcome or the error it throws. */
  function Click(t: Tree, ps: seq<Elem>, s: State, target: ClickTarget): (r: (State, Result<ClickOutcome>))
    requires WellFormed(t) && InTree(t, ps)
    requires target.OnElement? ==> target.e < |t|
    ensures (target.OnNonElement? || t[target.e].root.OtherRoot?) ==> r == (s, Ok(Ignored))
    ensures r.1.Ok? && r.1.value.Dispatched? ==>
      target.OnElement? &&
      r.1.value.stopPropagation == t[target.e].root.ShadowRoot? &&
      r.1.value.effected == EffectedPopover(t, target.e) &&
      r.1.value.focused == TriggerStep(t, s, ResolveTrigger(t, target.e)).1.value
  {
    match target
    case OnNonElement => (s, Ok(Ignored))
    case OnElement(e) =>
      if t[e].root.OtherRoot? then (s, Ok(Ignored))
      else
        var effected := EffectedPopover(t, e);
        var (s1, r1) := TriggerStep(t, s, ResolveTrigger(t, e));
        var (s2, r2) := DismissFold(t, s1, ps, effected);
        if r2.Err? then (s2, Err(r2.kind))
        else (s2, Ok(Dispatched(t[e].root.ShadowRoot?, effected, r1.value)))
  }

  /** The state a click's trigger branch leaves for the dismiss pass. */
  function AfterTrigger(t: Tree, s: State, e: Elem): State
    requires WellFormed(t) && e < |t|
  {
    TriggerStep(t, s, ResolveTrigger(t, e)).0
  }

  /**
   * On a consistent state a click never throws and stays consistent; a
   * handled click leaves visible exactly the popovers the trigger left
   * visible, minus the open `auto` snapshot members other than effectedPopover.
   */
  lemma ClickOnConsistentState(t: Tree, ps: seq<Elem>, s: State, target: ClickTarget)
    requires WellFormed(t) && InTree(t, ps) && Consistent(s) && OpenAreHtml(t, s)
    requires target.OnElement? ==> target.e < |t|
    ensures Click(t, ps, s, target).1.Ok?
    ensures Consistent(Click(t, ps, s, target).0) && OpenAreHtml(t, Click(t, ps, s, target).0)
    ensures Click(t, ps, s, target).1.value.Dispatched? <==>
      target.OnElement? && !t[target.e].root.OtherRoot?
    ensures Click(t, ps, s, target).1.value.Dispatched? ==>
      var s1 := AfterTrigger(t, s, target.e);
      var d := DismissSet(t, s1, ps, EffectedPopover(t, target.e));
      Click(t, ps, s, target).0 == State(s1.visible - d, s1.open - d)
  {
    if target.OnElement? && !t[target.e].root.OtherRoot? {
      var e := target.e;
      var s1 := AfterTrigger(t, s, e);
      assert Consistent(s1) && OpenAreHtml(t, s1);
      SnapshotDismiss(t, s1, ps, EffectedPopover(t, e));
    }
  }

  /**
   * What the dismiss pass of a handled click spares: manual popovers,
   * invalid or absent attributes, effectedPopover and non-members of the
   * snapshot keep the state the trigger branch left them in; every other
   * snapshot member ends hidden.
   */
  lemma LightDismissOutcome(t: Tree, ps: seq<Elem>, s: State, e: Elem, x: Elem)
    requires WellFormed(t) && InTree(t, ps) && Consistent(s) && OpenAreHtml(t, s)
    requires e < |t| && x < |t| && !t[e].root.OtherRoot?
    ensures var s2 := Click(t, ps, s, OnElement(e)).0;
      var s1 := AfterTrigger(t, s, e);
      if x in ps && AutoSelectorMatches(t[x].popover) && Some(x) != EffectedPopover(t, e)
      then x !in s2.visible
      else (x in s2.visible <==> x in s1.visible)
    ensures ModeOf(t, x) == Some(Manual) ==>
      (x in Click(t, ps, s, OnElement(e)).0.visible <==> x in AfterTrigger(t, s, e).visible)
  {
    ClickOnConsistentState(t, ps, s, OnElement(e));
    AutoSelectorIsAutoMode(t[x].popover);
  }

  /**
   * A click that hits no trigger button and no `[popover]` element on its
   * shadow-including ancestor chain hides every open `auto` popover it knows.
   */
  lemma ClickOutsideHidesAutoPopovers(t: Tree, ps: seq<Elem>, s: State, e: Elem)
    requires WellFormed(t) && InTree(t, ps) && Consistent(s) && OpenAreHtml(t, s)
    requires e < |t| && !t[e].root.OtherRoot?
    requires ResolveTrigger(t, e).None?
    requires forall i :: 0 <= i < |ComposedAncestors(t, e)| ==> !Matches(t[ComposedAncestors(t, e)[i]], PopoverAttr)
    ensures forall i :: 0 <= i < |ps| && AutoSelectorMatches(t[ps[i]].popover) ==>
      ps[i] !in Click(t, ps, s, OnElement(e)).0.visible
  {
    assert EffectedPopover(t, e).None?;
    forall i | 0 <= i < |ps| && AutoSelectorMatches(t[ps[i]].popover)
      ensures ps[i] !in Click(t, ps, s, OnElement(e)).0.visible
    {
      LightDismissOutcome(t, ps, s, e, ps[i]);
    }
  }

  /**
   * A click on a show trigger that shows its hidden target leaves the
   * target shown (the dismiss pass spares it) and hides every other open
   * `auto` popover of the snapshot.
   */
  lemma ShowTriggerKeepsItsTarget(t: Tree, ps: seq<Elem>, s: State, e: Elem, p: Elem)
    requires WellFormed(t) && InTree(t, ps) && Consistent(s) && OpenAreHtml(t, s)
    requires e < |t| && p < |t| && !t[e].root.OtherRoot?
    requires ResolveTrigger(t, e) == Some(Trigger(ShowTarget, Some(p)))
    requires ModeOf(t, p).Some? && p !in s.visible
    ensures p in Click(t, ps, s, OnElement(e)).0.visible
    ensures forall i :: 0 <= i < |ps| && ps[i] != p && AutoSelectorMatches(t[ps[i]].popover) ==>
      ps[i] !in Click(t, ps, s, OnElement(e)).0.visible
  {
    LightDismissOutcome(t, ps, s, e, p);
    forall i | 0 <= i < |ps| && ps[i] != p && AutoSelectorMatches(t[ps[i]].popover)
      ensures ps[i] !in Click(t, ps, s, OnElement(e)).0.visible
    {
      LightDismissOutcome(t, ps, s, e, ps[i]);
    }
  }

  /**
   * A trigger whose id resolves to an element that is not an HTMLElement
   * does nothing: `effectedPopover.popover` is `undefined` there.
   */
  lemma TriggerIgnoresNonHtmlTarget(t: Tree, s: State, e: Elem)
    requires WellFormed(t) && e < |t|
    requires ResolveTrigger(t, e).Some? && ResolveTrigger(t, e).value.popover.Some?
    requires !t[ResolveTrigger(t, e).value.popover.value].isHtml
    ensures AfterTrigger(t, s, e) == s
  {
  }

  /**
   * Precedence on one button: clicking a button whose show-target and
   * hide-target name the same hidden popover shows it.
   */
  lemma ShowTargetWinsOverHideTarget(t: Tree, ps: seq<Elem>, s: State, e: Elem, id: string, p: Elem)
    requires WellFormed(t) && InTree(t, ps) && Consistent(s) && OpenAreHtml(t, s)
    requires e < |t| && p < |t| && !t[e].root.OtherRoot?
    requires t[e].isButton && t[e].showTarget == Some(id) && t[e].hideTarget == Some(id)
    requires GetElementById(t, t[e].root, id) == Some(p)
    requires ModeOf(t, p).Some? && p !in s.visible
    ensures p in Click(t, ps, s, OnElement(e)).0.visible
  {
  }
}
