/**
 * The state `apply` sets up and the three entry points over it:
 * `showPopover`, `hidePopover` and the click listener. The class holds the
 * `visibleElements` set and the `:open` markers of all elements; each method
 * changes them in place and is proved to do what the corresponding function
 * of StateMachine or Dispatcher describes.
 */
module Polyfill {
  import opened Wrappers
  import opened Dom
  import opened Modes
  import opened Traversal
  import opened StateMachine
  import opened Dispatcher

  class Popovers {
    /** `visibleElements`. */
    var visible: set<Elem>
    /** The elements whose class list contains `:open`. */
    var open: set<Elem>

    function Current(): State
      reads this
    {
      State(visible, open)
    }

    /** The `:open` class marks exactly the registered elements. */
    ghost predicate Valid()
      reads this
    {
      Consistent(Current())
    }

    /** Valid(), and on page t only HTMLElements carry `:open`, as the methods alone would leave it. */
    ghost predicate ValidOn(t: Tree)
      reads this
    {
      Valid() && OpenAreHtml(t, Current())
    }

    /**
     * `apply`: the registry starts empty; the `:open` classes belong to the
     * page, which may already carry some, so the object is valid exactly
     * when none does.
     */
    constructor (marked: set<Elem>)
      ensures Current() == State({}, marked)
      ensures Valid() <==> marked == {}
    {
      visible := {};
      open := marked;
    }

    /** `e.showPopover()`: returns the element it focuses, or the error it throws. */
    method ShowPopover(t: Tree, e: Elem) returns (r: Result<Option<Elem>>)
      requires WellFormed(t) && e < |t|
      modifies this
      ensures (Current(), r) == Show(t, old(Current()), e)
      ensures old(Valid()) ==> Valid()
      ensures old(ValidOn(t)) ==> ValidOn(t)
    {
      if !t[e].isHtml {
        return Err(TypeError);
      }
      if PopoverMode(t[e].popover).None? {
        return Err(NotSupported);
      }
      if e in visible {
        return Err(InvalidState);
      }
      open := open + {e};
      visible := visible + {e};
      if PopoverMode(t[e].popover) == Some(Auto) {
        var focusEl := if t[e].autofocus then Some(e) else First(t, AutofocusBelow(e), 0);
        return Ok(focusEl);
      }
      return Ok(None);
    }

    /** `e.hidePopover()`. */
    method HidePopover(t: Tree, e: Elem) returns (r: Result<()>)
      requires e < |t|
      modifies this
      ensures (Current(), r) == Hide(t, old(Current()), e)
      ensures old(Valid()) ==> Valid()
      ensures old(ValidOn(t)) ==> ValidOn(t)
    {
      if !t[e].isHtml {
        return Err(TypeError);
      }
      if PopoverMode(t[e].popover).None? {
        return Err(NotSupported);
      }
      if e !in visible {
        return Err(InvalidState);
      }
      open := open - {e};
      visible := visible - {e};
      return Ok(());
    }

    /**
     * The dismiss loop: walks a copy of the known popovers and hides each open
     * `auto` one other than effected, as it meets it.
     */
    method LightDismiss(t: Tree, popovers: seq<Elem>, effected: Option<Elem>) returns (r: Result<()>)
      requires WellFormed(t) && InTree(t, popovers)
      modifies this
      ensures (Current(), r) == DismissFold(t, old(Current()), popovers, effected)
    {
      var snapshot := popovers;
      var i := 0;
      while i < |snapshot|
        invariant 0 <= i <= |snapshot|
        invariant DismissFold(t, old(Current()), snapshot, effected) ==
                  DismissFold(t, Current(), snapshot[i..], effected)
      {
        var p := snapshot[i];
        assert snapshot[i..][0] == p && snapshot[i..][1..] == snapshot[i + 1..];
        if AutoSelectorMatches(t[p].popover) && p in open && Some(p) != effected {
          var hidden := HidePopover(t, p);
          if hidden.Err? {
            return Err(hidden.kind);
          }
        }
        i := i + 1;
      }
      return Ok(());
    }

    /**
     * The trigger section of the click listener: finds the closest trigger
     * element, and when it is a button runs the first branch whose attribute
     * it carries; `effected` starts as the closestElement result and is
     * overwritten by the id lookup when a branch runs.
     */
    method HandleTrigger(t: Tree, e: Elem, closest: Option<Elem>) returns (effected: Option<Elem>, focused: Option<Elem>)
      requires WellFormed(t) && e < |t|
      requires closest == ClosestElement(t, PopoverAttr, e)
      modifies this
      ensures effected == EffectedPopover(t, e)
      ensures (Current(), Ok(focused)) == TriggerStep(t, old(Current()), ResolveTrigger(t, e))
    {
      var root := t[e].root;
      effected, focused := closest, None;
      var button := Closest(t, TriggerAttr, e);
      var isButton := button.Some? && t[button.value].isButton;
      if isButton && t[button.value].showTarget.Some? {
        effected := GetElementById(t, root, t[button.value].showTarget.value);
        if effected.Some? && ModeOf(t, effected.value).Some? && effected.value !in visible {
          var shown := ShowPopover(t, effected.value);
          focused := shown.value;
        }
      } else if isButton && t[button.value].hideTarget.Some? {
        effected := GetElementById(t, root, t[button.value].hideTarget.value);
        if effected.Some? && ModeOf(t, effected.value).Some? && effected.value in visible {
          var _ := HidePopover(t, effected.value);
        }
      } else if isButton && t[button.value].toggleTarget.Some? {
        effected := GetElementById(t, root, t[button.value].toggleTarget.value);
        if effected.Some? && ModeOf(t, effected.value).Some? {
          if effected.value in visible {
            var _ := HidePopover(t, effected.value);
          } else {
            var shown := ShowPopover(t, effected.value);
            focused := shown.value;
          }
        }
      }
    }

    /** The click listener, given the page, the known popovers and `event.target`. */
    method OnClick(t: Tree, popovers: seq<Elem>, target: ClickTarget) returns (r: Result<ClickOutcome>)
      requires WellFormed(t) && InTree(t, popovers)
      requires target.OnElement? ==> target.e < |t|
      modifies this
      ensures (Current(), r) == Click(t, popovers, old(Current()), target)
      ensures old(ValidOn(t)) ==> r.Ok? && ValidOn(t)
    {
      if ValidOn(t) {
        ClickOnConsistentState(t, popovers, Current(), target);
      }
      if !target.OnElement? {
        return Ok(Ignored);
      }
      var e := target.e;
      var root := t[e].root;
      var stopPropagation := false;
      if root.ShadowRoot? {
        stopPropagation := true;
      } else if !root.Document? {
        return Ok(Ignored);
      }
      var effected, focused := HandleTrigger(t, e, ClosestElement(t, PopoverAttr, e));
      var dismissed := LightDismiss(t, popovers, effected);
      if dismissed.Err? {
        return Err(dismissed.kind);
      }
      return Ok(Dispatched(stopPropagation, effected, focused));
    }
  }
}
