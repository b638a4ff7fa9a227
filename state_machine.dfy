/**
 * showPopover and hidePopover as transitions on the polyfill's bookkeeping:
 * the `visibleElements` set and the set of elements whose class list holds
 * `:open`. Each returns the new state and either the element the show
 * focuses or the kind of DOMException it throws.
 */
module StateMachine {
  import opened Wrappers
  import opened Dom
  import opened Modes

  /**
   * The DOMExceptions showPopover and hidePopover throw, and the TypeError
   * of calling either on an element that is not an HTMLElement, which lacks
   * both methods.
   */
  datatype ErrorKind = NotSupported | InvalidState | TypeError

  /** A call that returns a value or throws a DOMException of some kind. */
  datatype Result<T> = Ok(value: T) | Err(kind: ErrorKind)

  /** Which elements are in `visibleElements` and which carry the `:open` class. */
  datatype State = State(visible: set<Elem>, open: set<Elem>)

  /** The class marker agrees with the registry. */
  predicate Consistent(s: State) {
    s.visible == s.open
  }

  /**
   * What `e.popover` reads: the getter's mode on an HTMLElement; any other
   * element has no getter, and its `undefined` is as falsy as null.
   */
  function ModeOf(t: Tree, e: Elem): (r: Option<Mode>)
    requires e < |t|
    ensures r.Some? ==> t[e].isHtml
  {
    if t[e].isHtml then PopoverMode(t[e].popover) else None
  }

  /** Only HTMLElements carry the `:open` class, as only their showPopover adds it. */
  predicate OpenAreHtml(t: Tree, s: State) {
    forall x :: x in s.open && x < |t| ==> t[x].isHtml
  }

  /** The element an auto show focuses: e itself if it has `autofocus`, else its first `[autofocus]` descendant. */
  function AutofocusTarget(t: Tree, e: Elem): (r: Option<Elem>)
    requires WellFormed(t) && e < |t|
    ensures t[e].autofocus ==> r == Some(e)
    ensures !t[e].autofocus && r.Some? ==>
      r.value < |t| && t[r.value].autofocus && IsDescendant(t, r.value, e) &&
      forall k :: 0 <= k < r.value ==> !Satisfies(t, AutofocusBelow(e), k)
    ensures r.None? <==> !t[e].autofocus && forall k :: 0 <= k < |t| ==> !Satisfies(t, AutofocusBelow(e), k)
  {
    if t[e].autofocus then Some(e) else First(t, AutofocusBelow(e), 0)
  }

  /** showPopover on e: the state afterwards and the element focused (if any), or the error thrown. */
  function Show(t: Tree, s: State, e: Elem): (r: (State, Result<Option<Elem>>))
    requires WellFormed(t) && e < |t|
    ensures r.1 == Err(TypeError) <==> !t[e].isHtml
    ensures r.1 == Err(NotSupported) <==> t[e].isHtml && ModeOf(t, e).None?
    ensures r.1 == Err(InvalidState) <==> ModeOf(t, e).Some? && e in s.visible
    ensures r.1.Err? ==> r.0 == s
    ensures r.1.Ok? ==> e in r.0.visible && e in r.0.open
    ensures r.1.Ok? ==> forall x :: x != e ==> (x in r.0.visible <==> x in s.visible) && (x in r.0.open <==> x in s.open)
    ensures r.1.Ok? && ModeOf(t, e) == Some(Manual) ==> r.1.value.None?
    ensures r.1.Ok? && ModeOf(t, e) == Some(Auto) ==> r.1.value == AutofocusTarget(t, e)
  {
    if !t[e].isHtml then (s, Err(TypeError))
    else if ModeOf(t, e).None? then (s, Err(NotSupported))
    else if e in s.visible then (s, Err(InvalidState))
    else
      var focus := if ModeOf(t, e) == Some(Auto) then AutofocusTarget(t, e) else None;
      (State(s.visible + {e}, s.open + {e}), Ok(focus))
  }

  /** hidePopover on e: the state afterwards, or the error thrown. */
  function Hide(t: Tree, s: State, e: Elem): (r: (State, Result<()>))
    requires e < |t|
    ensures r.1 == Err(TypeError) <==> !t[e].isHtml
    ensures r.1 == Err(NotSupported) <==> t[e].isHtml && ModeOf(t, e).None?
    ensures r.1 == Err(InvalidState) <==> ModeOf(t, e).Some? && e !in s.visible
    ensures r.1.Err? ==> r.0 == s
    ensures r.1.Ok? ==> e !in r.0.visible && e !in r.0.open
    ensures r.1.Ok? ==> forall x :: x != e ==> (x in r.0.visible <==> x in s.visible) && (x in r.0.open <==> x in s.open)
  {
    if !t[e].isHtml then (s, Err(TypeError))
    else if ModeOf(t, e).None? then (s, Err(NotSupported))
    else if e !in s.visible then (s, Err(InvalidState))
    else (State(s.visible - {e}, s.open - {e}), Ok(()))
  }

  /**
   * Both transitions keep the class marker in agreement with the registry,
   * and on HTMLElements only, whatever they return.
   */
  lemma TransitionsKeepConsistency(t: Tree, s: State, e: Elem)
    requires WellFormed(t) && e < |t|
    ensures Consistent(s) ==> Consistent(Show(t, s, e).0) && Consistent(Hide(t, s, e).0)
    ensures OpenAreHtml(t, s) ==> OpenAreHtml(t, Show(t, s, e).0) && OpenAreHtml(t, Hide(t, s, e).0)
  {
  }

  /**
   * A successful show is undone by a hide: the hide succeeds, and it restores
   * the prior state exactly when e did not already carry `:open`
   * (in particular whenever the state was consistent).
   */
  lemma ShowThenHide(t: Tree, s: State, e: Elem)
    requires WellFormed(t) && e < |t|
    requires Show(t, s, e).1.Ok?
    ensures Hide(t, Show(t, s, e).0, e).1.Ok?
    ensures Hide(t, Show(t, s, e).0, e).0 == s <==> e !in s.open
  {
  }

  /** A successful hide is undone by a show, exactly when e carried `:open` before. */
  lemma HideThenShow(t: Tree, s: State, e: Elem)
    requires WellFormed(t) && e < |t|
    requires Hide(t, s, e).1.Ok?
    ensures Show(t, Hide(t, s, e).0, e).1.Ok?
    ensures Show(t, Hide(t, s, e).0, e).0 == s <==> e in s.open
  {
  }

  /** Showing twice fails with InvalidState, as does hiding twice; show, hide, show ends shown. */
  lemma RepeatedTransitions(t: Tree, s: State, e: Elem)
    requires WellFormed(t) && e < |t|
    requires ModeOf(t, e).Some?
    ensures e !in s.visible ==> Show(t, Show(t, s, e).0, e).1 == Err(InvalidState)
    ensures e in s.visible ==> Hide(t, Hide(t, s, e).0, e).1 == Err(InvalidState)
    ensures e !in s.visible ==>
      var s2 := Hide(t, Show(t, s, e).0, e);
      var s3 := Show(t, s2.0, e);
      s2.1.Ok? && s3.1.Ok? && e in s3.0.visible && e in s3.0.open
  {
  }
}
