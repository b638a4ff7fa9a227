# Popover polyfill: visibility state machine and click dispatch

This project models the core of a popover polyfill, `src/popover.ts`, in Dafny. It follows an early draft of the HTML `popover` attribute, with the trigger attributes `popovershowtarget`, `popoverhidetarget` and `popovertoggletarget`. It proves properties of four parts:

- **Mode.** The `popover` getter maps the attribute to `manual`, `auto` or null (module `Modes`).
- **State machine.** `showPopover` and `hidePopover` work over the `visibleElements` registry and the `:open` class marker. They throw two DOMException kinds, NotSupported and InvalidState, and calling them on an element that is not an `HTMLElement` throws a TypeError (module `StateMachine`, and class `Polyfill.Popovers`).
- **Boundary traversal.** `closestElement` is a `closest` that climbs from shadow tree to shadow host (module `Traversal`).
- **Click dispatcher.** `onClick` resolves a trigger button by fixed precedence. It then runs the light-dismiss pass over a snapshot of the known popovers (module `Dispatcher`, and `Polyfill.Popovers.OnClick`).

The page is an abstract DOM (module `Dom`): a sequence of elements indexed by handle.
- Handles follow shadow-including tree order.
- Each element carries:
  - whether it is an `HTMLElement`, the only kind with the `popover` getter, `showPopover` and `hidePopover`;
  - its `popover` attribute (optional);
  - its ID;
  - its `autofocus` flag;
  - whether it is a `<button>`;
  - its three trigger attributes;
  - its parent inside its own tree;
  - its root: a document, a shadow root with its host, or any other root.
- `WellFormed` requires that a parent comes before its child and lives in the same tree. It also requires that a shadow host comes before every element of its shadow tree. This ordering makes the parent chains and host chains finite, and it is what `closestElement`'s recursion decreases on.
- `getElementById` and `querySelector('[autofocus]')` are "first in tree order" searches over the handles. `Element.closest` is the first match on the parent chain.

The state is two sets of handles: `visible` (the registry) and `open` (the elements whose class list holds `:open`). The pure functions `Show`, `Hide`, `TriggerStep`, `DismissFold` and `Click` describe every transition. The class `Polyfill.Popovers` holds the two sets as fields. Its methods `ShowPopover`, `HidePopover`, `HandleTrigger` (the trigger section of `onClick`), `LightDismiss` (a `while` loop over the snapshot) and `OnClick` update the fields in place, and each is proved equal to its function. A thrown DOMException is an `Err(kind)` result, and `onClick` propagates it just as a throw would. The known-popovers collection, maintained by code this model leaves out, is the `popovers` input sequence.

The model follows the code, including where the code departs from the evident intent:
- An absent `popover` attribute reads as `''`, so the getter reports `auto` for every `HTMLElement` without the attribute. `showPopover` therefore succeeds on an element with no attribute (`Modes.AutoSelectorIsAutoMode`). The dismiss selector, by contrast, requires the attribute to be present, so such an element is never light-dismissed.
- The trigger button is found with plain `closest`, inside the target's own tree. It is not found with `closestElement`.
- When a trigger branch runs, `effectedPopover` is overwritten by the id lookup, even when the lookup finds nothing.
- Every root that is not a shadow root stops `closestElement` (a Document, or any other root).
- A trigger whose id names an element that is not an `HTMLElement` does nothing, since `popover` reads as `undefined` there. A snapshot member that is not an `HTMLElement` but carries the attribute and `:open` makes the dismiss pass throw a TypeError, since it has no `hidePopover`. The polyfill never puts `:open` on such an element, so only a page that already carries it, or other code, can reach that throw.

## Model

| member | source | states |
|---|---|---|
| Modes.PopoverMode | src/popover.ts:49-54 | These cases compare ASCII case-insensitively. `manual` gives Manual. `''` or `auto` gives Auto. Anything else gives null. An absent attribute gives Auto. |
| Modes.ModeIgnoresCase | src/popover.ts:50 | Two attribute values that differ only in letter case give the same mode. |
| Modes.AutoSelectorMatches | src/popover.ts:157 | A predicate with no contract of its own. Its body is the attribute part of the dismiss selector: the attribute is present and equals `''` or `auto`, ignoring ASCII case. `Modes.AutoSelectorIsAutoMode` relates it to the getter. |
| Modes.AutoSelectorIsAutoMode | src/popover.ts:157 | The attribute part of the dismiss selector holds exactly when the attribute is present and its mode is Auto. An absent attribute reports Auto but is not matched. |
| StateMachine.ModeOf | src/popover.ts:45-54 | `e.popover` gives a mode only on an `HTMLElement`. Any other element has no getter, and its `undefined` is falsy. |
| StateMachine.AutofocusTarget | src/popover.ts:73-78 | The element to focus is itself when it has `autofocus`. Otherwise it is its first `[autofocus]` descendant in tree order, or nothing when it has none. |
| StateMachine.Show | src/popover.ts:63-79 | TypeError exactly when the element is not an `HTMLElement`. NotSupported exactly when it is one and the mode is null, whatever the state. InvalidState exactly when the mode is valid and the element is already visible. On an error nothing changes. On success the element joins both sets and no other element changes. Manual mode focuses nothing. Auto mode focuses the autofocus target. |
| StateMachine.Hide | src/popover.ts:85-95 | TypeError exactly when the element is not an `HTMLElement`. NotSupported exactly when it is one and the mode is null. InvalidState exactly when the mode is valid and the element is not visible. On an error nothing changes. On success the element leaves both sets and no other element changes. |
| StateMachine.TransitionsKeepConsistency | src/popover.ts:71-72 | When `visible == open` before a show or a hide, it still holds afterwards, whatever the call returns. When only `HTMLElement`s carry `:open` before, the same holds afterwards. |
| StateMachine.ShowThenHide | src/popover.ts:93-94 | After a successful show, hide succeeds. It restores the prior state exactly when the element did not already carry `:open`. |
| StateMachine.HideThenShow | src/popover.ts:71-72 | After a successful hide, show succeeds. It restores the prior state exactly when the element carried `:open`. |
| StateMachine.RepeatedTransitions | src/popover.ts:66-70 | For a valid mode: show then show fails with InvalidState, and hide then hide fails with InvalidState. Show, hide, show succeeds three times and ends shown. |
| Dom.Closest | src/popover.ts:110-112 | `closest` is the first match on the parent chain inside the element's own tree. |
| Dom.GetElementById | src/popover.ts:117-119 | The lookup returns the first element in tree order of the given root with that ID, or nothing exactly when no element of that root has it. An empty id finds nothing. |
| Dom.First | src/popover.ts:76 | The tree-order search returns the first element from a handle on that satisfies the query, or nothing exactly when none does. |
| Traversal.ComposedAncestors | src/popover.ts:33-39 | The shadow-including ancestor chain starts at the element. Its handles strictly decrease, so the host chain is finite and never revisits an element. |
| Traversal.ClosestElement | src/popover.ts:23-40 | Any result matches the selector. A match inside the element's own tree is returned as is. When the root is not a shadow root, the result is that of plain `closest`. |
| Traversal.ClosestElementIsFirstOnComposedChain | src/popover.ts:23-40 | `closestElement` is the first match along the whole shadow-including ancestor chain. By `Dom.FirstMatch`'s contract, it is null exactly when nothing on that chain matches. |
| Dispatcher.ResolveTrigger | src/popover.ts:110-152 | A trigger branch runs exactly when `closest` finds an element with a trigger attribute and that element is a button. Exactly one branch runs: show-target if present, else hide-target, else toggle-target. Its id is resolved in the target's root. |
| Dispatcher.EffectedPopover | src/popover.ts:106-119 | When a trigger branch runs, the result is the resolved target, possibly null. Otherwise it is the first `[popover]` element on the shadow-including ancestor chain. |
| Dispatcher.TriggerStep | src/popover.ts:116-152 | Trigger handling never throws. Without a target of valid mode nothing changes. Only the target changes. Show-target leaves it shown, hide-target leaves it hidden, and toggle-target flips it. If the target's registry entry and `:open` agreed before, they agree after. If they disagreed, the target's `:open` mark stays as it was. A show (show-target or toggle-target on a hidden target) focuses what `Show` focuses. Every other case focuses nothing. |
| Dispatcher.DismissMatches | src/popover.ts:157 | A predicate with no contract of its own. Its body is `popover.matches(...)`: the attribute test of `Modes.AutoSelectorMatches` together with `:open` on the element. |
| Dispatcher.DismissOne | src/popover.ts:156-160 | One loop iteration only removes. Only the member itself can lose its state, and only when it is not `effectedPopover` and carries a present `''`/`auto` attribute. |
| Dispatcher.DismissFold | src/popover.ts:155-161 | The sequential pass only removes. Only snapshot members with a present `''`/`auto` attribute, other than `effectedPopover`, can lose their state. |
| Dispatcher.SnapshotDismiss | src/popover.ts:155-161 | On a consistent state where only `HTMLElement`s carry `:open`, the pass over the snapshot never throws. It removes exactly the open `auto` snapshot members other than `effectedPopover`, judged on the state before the pass, with duplicates included. |
| Dispatcher.DismissThrowsOnNonHtml | src/popover.ts:155-161 | On a consistent state the pass throws exactly when a member of the dismiss set is not an `HTMLElement`, and what it throws is a TypeError. |
| Dispatcher.Click | src/popover.ts:99-105 | A non-element target, or a root that is neither a document nor a shadow root, is ignored and changes nothing. A handled click stops propagation exactly for a shadow root. It reports `effectedPopover`, and the element the trigger step focused. |
| Dispatcher.ClickOnConsistentState | src/popover.ts:99-162 | On a consistent state where only `HTMLElement`s carry `:open`, a click never throws and keeps both facts. It is handled exactly when the target is an element in a document or a shadow root. The end state is the trigger's state minus the dismiss set. |
| Dispatcher.LightDismissOutcome | src/popover.ts:155-161 | A snapshot member with a `''`/`auto` attribute that is not `effectedPopover` ends hidden. Every other element, manual popovers included, keeps the state the trigger left it in. |
| Dispatcher.ClickOutsideHidesAutoPopovers | src/popover.ts:106-109 | A click with no trigger button and no `[popover]` element on its composed ancestor chain hides every `auto` member of the snapshot. |
| Dispatcher.ShowTriggerKeepsItsTarget | src/popover.ts:116-127 | When a show trigger shows its hidden target, the target stays shown after the dismiss pass. Every other `auto` snapshot member ends hidden. |
| Dispatcher.TriggerIgnoresNonHtmlTarget | src/popover.ts:121-125 | A trigger whose id resolves to an element that is not an `HTMLElement` leaves the state unchanged. |
| Dispatcher.ShowTargetWinsOverHideTarget | src/popover.ts:116-139 | Clicking a button whose show-target and hide-target name the same hidden popover shows that popover. |
| Polyfill.Popovers.constructor | src/popover.ts:43 | The registry starts empty. The `:open` classes already on the page are kept, so the object is consistent exactly when no element carries `:open` yet. |
| Polyfill.Popovers.ShowPopover | src/popover.ts:60-80 | The new fields and the result are those of `Show`. The method keeps `visible == open`, and it keeps `:open` on `HTMLElement`s only. |
| Polyfill.Popovers.HidePopover | src/popover.ts:82-96 | The new fields and the result are those of `Hide`. The method keeps `visible == open`, and it keeps `:open` on `HTMLElement`s only. |
| Polyfill.Popovers.LightDismiss | src/popover.ts:154-161 | The loop over a copy of the known popovers ends in the state and with the result of `DismissFold`. |
| Polyfill.Popovers.HandleTrigger | src/popover.ts:110-152 | The trigger section leaves the fields as `TriggerStep` does, without an error, and its `effectedPopover` is that of `EffectedPopover`. |
| Polyfill.Popovers.OnClick | src/popover.ts:99-162 | The handler ends in the state and with the result of `Click`. When `visible == open` held before and only `HTMLElement`s carried `:open`, it returns without an error and keeps both. |

## Left out

- `isSupported` (src/popover.ts:3-9) is a feature check on the host's `HTMLElement` prototype. It holds no logic of the polyfill.
- `patchAttachShadow` and the wiring at the end of `apply` (src/popover.ts:14-21, 164-174) are left out. They patch a global prototype and register listeners, and they are host interception. The model of `onClick` covers one invocation on one root.
- `Object.defineProperties` and the `popover` setter (src/popover.ts:45-58) are left out. The setter is a single `setAttribute`.
- `event.stopPropagation()` is modelled only as the returned `stopPropagation` flag. Propagation between listeners is not modelled. When the dismiss pass throws, the result is a bare error, so it does not record that a click inside a shadow root had already stopped propagation. That throw needs a starting state where some element carries `:open` while it is outside the registry or is not an `HTMLElement` (see `Dispatcher.ClickOnConsistentState` and `Dispatcher.DismissThrowsOnNonHtml`).
- `focus()` is modelled only as the identity of the element that would be focused. Whether the element is focusable is not modelled.
- `observar.js` (`observePopoversMutations`, `popovers`) is not part of this model. The known-popovers collection is an input sequence, and its mutation observer is left out.
- The `WeakSet`'s garbage-collection behaviour is left out. The registry is an ordinary finite set.
- DOMException messages are left out. Only the error kind is kept.
- `toLowerCase` is modelled as ASCII lower-casing. The result is compared only with `manual`, `auto` and `''`.
- Tree order is assumed, not enforced. `WellFormed` requires only that parents and shadow hosts precede their elements. That the handle order is a full preorder, which decides which element `getElementById` and `querySelector` return first, is not required.
- Changes to the page's attributes or structure during a click are not modelled. The tree is a value that stays fixed for the whole call.
