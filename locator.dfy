/**
 * Element Locator and Action Primitives: ordered candidate lists tried
 * until the first success (`getEasyApplySelector`, the selector loops of the
 * form driver) and the resilient click `clickElement`, whose page effects are
 * abstract probes.
 */
module Locator {
  import opened Common
  import Text

  /** Index of the first candidate that succeeded, if any. */
  function FirstTrue(outcomes: seq<bool>): (r: Option<nat>)
    ensures r.Some? ==> r.value < |outcomes| && outcomes[r.value]
    ensures r.Some? ==> forall j :: 0 <= j < r.value ==> !outcomes[j]
    ensures r.None? <==> forall j :: 0 <= j < |outcomes| ==> !outcomes[j]
  {
    if |outcomes| == 0 then None
    else if outcomes[0] then Some(0)
    else match FirstTrue(outcomes[1..])
      case None => None
      case Some(k) => Some(k + 1)
  }

  /**
   * Tries the candidates in order and stops at the first that succeeds:
   * given k-1 failures followed by a success, exactly k candidates are tried
   * and the k-th is returned; when all fail, all are tried and None comes back.
   */
  method TryInOrder(outcomes: seq<bool>) returns (r: Option<nat>, tried: nat)
    ensures r == FirstTrue(outcomes)
    ensures tried == (if r.Some? then r.value + 1 else |outcomes|)
  {
    tried := 0;
    while tried < |outcomes|
      invariant tried <= |outcomes|
      invariant forall j :: 0 <= j < tried ==> !outcomes[j]
    {
      if outcomes[tried] {
        r := Some(tried);
        tried := tried + 1;
        return;
      }
      tried := tried + 1;
    }
    r := None;
  }

  /** The filter toggles `getEasyApplySelector` looks for, in priority order. */
  const EASY_APPLY_SELECTORS: seq<string> := [
    "button[aria-label=\"Easy Apply filter\"]",
    "button[aria-label=\"Easy Apply filter.\"]",
    "[type=\"checkbox\"][name=\"f_LF\"]",
    ".search-reusables__filter-binary-toggle"
  ]

  /**
   * `getEasyApplySelector`: the first selector that appears within its wait,
   * or null when none does. `appears` says whether waiting for a selector
   * resolves before its timeout.
   */
  method GetEasyApplySelector(appears: string -> bool) returns (r: Option<string>)
    ensures r.Some? ==> exists k :: 0 <= k < |EASY_APPLY_SELECTORS| && r.value == EASY_APPLY_SELECTORS[k]
                          && appears(EASY_APPLY_SELECTORS[k])
                          && forall j :: 0 <= j < k ==> !appears(EASY_APPLY_SELECTORS[j])
    ensures r.None? <==> forall j :: 0 <= j < |EASY_APPLY_SELECTORS| ==> !appears(EASY_APPLY_SELECTORS[j])
  {
    var waits := seq(|EASY_APPLY_SELECTORS|, i requires 0 <= i < |EASY_APPLY_SELECTORS| => appears(EASY_APPLY_SELECTORS[i]));
    assert forall j :: 0 <= j < |waits| ==> waits[j] == appears(EASY_APPLY_SELECTORS[j]);
    var k, _ := TryInOrder(waits);
    match k
    case Some(i) =>
      r := Some(EASY_APPLY_SELECTORS[i]);
    case None =>
      r := None;
  }

  /**
   * Whether the page's selector engine accepts a selector. The only non-CSS
   * construct in the script's selector lists is jQuery's `:contains(...)`:
   * `waitForSelector` and `document.querySelector` both throw on it.
   */
  predicate IsCssSelector(sel: string)
  {
    !Text.Contains(sel, ":contains(")
  }

  /** A selector in which no colon is followed by a `c` holds no `:contains(`. */
  lemma CssWithoutColonC(sel: string)
    requires forall i | 0 <= i < |sel| - 1 :: !(sel[i] == ':' && sel[i + 1] == 'c')
    ensures IsCssSelector(sel)
  {
    forall i | 0 <= i <= |sel| - |":contains("|
      ensures !(":contains(" <= sel[i..])
    {
      assert sel[i..][0] == sel[i] && sel[i..][1] == sel[i + 1];
    }
  }

  /**
   * What the page does during one `clickElement(selector, timeout)` on a
   * valid selector: whether waiting for the selector resolved in time,
   * whether the element was then found, and whether scrolling to it and
   * clicking it went through without throwing.
   */
  datatype ClickAttempt = ClickAttempt(appeared: bool, found: bool, clicked: bool)

  /**
   * The success flag `clickElement` returns; it never throws. A wait that
   * fails or a direct click that throws leads to the in-page fallback, which
   * clicks the element if there is one and completes unless the selector is
   * not CSS. A non-CSS selector makes the wait throw as well, whatever the
   * probe says. The result: failure exactly for a non-CSS selector, or for
   * an element that vanished between the wait and the lookup; in particular
   * a valid selector that never appears still reports success.
   */
  function ClickElement(sel: string, a: ClickAttempt): (r: bool)
    ensures r ==> IsCssSelector(sel)
    ensures IsCssSelector(sel) ==> (!r <==> a.appeared && !a.found)
  {
    if !IsCssSelector(sel) then false
    else if a.appeared && a.found && a.clicked then true
    else if a.appeared && !a.found then false
    else true
  }

  /** The success flags of clicking each selector of a candidate list, under one page state. */
  function Clicks(selectors: seq<string>, click: string -> ClickAttempt): (r: seq<bool>)
    ensures |r| == |selectors|
    ensures forall i :: 0 <= i < |selectors| ==> r[i] == ClickElement(selectors[i], click(selectors[i]))
  {
    seq(|selectors|, i requires 0 <= i < |selectors| => ClickElement(selectors[i], click(selectors[i])))
  }
}
