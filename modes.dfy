/**
 * The `popover` getter: the mode an element's `popover` attribute selects,
 * and the attribute part of the light-dismiss selector
 * `[popover="" i].\:open, [popover=auto i].\:open`.
 */
module Modes {
  import opened Wrappers

  datatype Mode = Manual | Auto

  /** ASCII lower-casing of one character. */
  function LowerChar(c: char): char {
    if 'A' <= c <= 'Z' then (c as int + ('a' as int - 'A' as int)) as char else c
  }

  /** `toLowerCase`, restricted to ASCII letters. */
  function Lower(s: string): (r: string)
    ensures |r| == |s|
    ensures forall i :: 0 <= i < |s| ==> r[i] == LowerChar(s[i])
  {
    if s == [] then [] else [LowerChar(s[0])] + Lower(s[1..])
  }

  /** ASCII case-insensitive equality, the comparison CSS's `i` attribute flag makes. */
  predicate EqualsIgnoringCase(a: string, b: string) {
    |a| == |b| && forall i :: 0 <= i < |a| ==> LowerChar(a[i]) == LowerChar(b[i])
  }

  /**
   * The `popover` getter: an absent attribute reads as "", so it reports
   * Auto; otherwise the value, compared ASCII case-insensitively, selects
   * Manual (`manual`), Auto (`''` or `auto`) or nothing.
   */
  function PopoverMode(attr: Option<string>): (r: Option<Mode>)
    ensures attr.None? ==> r == Some(Auto)
    ensures attr.Some? ==> (r == Some(Manual) <==> EqualsIgnoringCase(attr.value, "manual"))
    ensures attr.Some? ==>
      (r == Some(Auto) <==> EqualsIgnoringCase(attr.value, "") || EqualsIgnoringCase(attr.value, "auto"))
    ensures attr.Some? ==>
      (r.None? <==>
         !EqualsIgnoringCase(attr.value, "manual") && !EqualsIgnoringCase(attr.value, "") &&
         !EqualsIgnoringCase(attr.value, "auto"))
  {
    var value := Lower(if attr.Some? then attr.value else "");
    if value == "manual" then Some(Manual)
    else if value == "" || value == "auto" then Some(Auto)
    else None
  }

  /** The attribute test of the dismiss selector: `[popover="" i]` or `[popover=auto i]`; the attribute must be present. */
  predicate AutoSelectorMatches(attr: Option<string>) {
    attr.Some? && (EqualsIgnoringCase(attr.value, "") || EqualsIgnoringCase(attr.value, "auto"))
  }

  /** The mode does not depend on the letter case of the attribute value. */
  lemma ModeIgnoresCase(a: string, b: string)
    requires EqualsIgnoringCase(a, b)
    ensures PopoverMode(Some(a)) == PopoverMode(Some(b))
  {
  }

  /**
   * The dismiss selector picks exactly the present attributes whose mode is
   * Auto; an absent attribute reports Auto but is never matched.
   */
  lemma AutoSelectorIsAutoMode(attr: Option<string>)
    ensures AutoSelectorMatches(attr) <==> attr.Some? && PopoverMode(attr) == Some(Auto)
    ensures PopoverMode(None) == Some(Auto) && !AutoSelectorMatches(None)
  {
  }
}
