/**
 * Result Page Navigator, the decision part: `getNextButton` resolves the
 * control that leads to the next result page from the pagination bar, by
 * the active-indicator rule and then the fallback rule, and answers with a
 * CSS selector or null.
 */
module Pagination {
  import opened Common
  import Locator

  /** A `<button>`: whether it is disabled and its `aria-label` attribute (null when absent). */
  datatype Button = Button(disabled: bool, ariaLabel: Option<string>)

  /** An element next to an indicator: whether it is an `<li>`, and the first `<button>` inside it. */
  datatype Sibling = Sibling(isListItem: bool, button: Option<Button>)

  /**
   * One page indicator of the pagination bar, in document order: whether it
   * carries the `active` class, whether it is a numbered indicator, its next
   * element sibling and the next element sibling of its parent.
   */
  datatype Indicator = Indicator(active: bool, numbered: bool, nextSibling: Option<Sibling>, parentNextSibling: Option<Sibling>)

  /** The pagination bar did not appear within its wait (or reading it threw), or its indicators. */
  datatype PaginationView = Missing | Loaded(indicators: seq<Indicator>)

  /** The label of an enabled button inside `sib`, when it is truthy (present and non-empty). */
  function EnabledLabel(sib: Option<Sibling>, needListItem: bool): Option<string>
  {
    match sib
    case None => None
    case Some(s) =>
      if needListItem && !s.isListItem then None
      else match s.button
        case None => None
        case Some(b) =>
          if b.disabled then None
          else match b.ariaLabel
            case Some(l) => if l != "" then Some(l) else None
            case None => None
  }

  function ActiveFlags(inds: seq<Indicator>): (r: seq<bool>)
    ensures |r| == |inds| && forall i :: 0 <= i < |inds| ==> r[i] == inds[i].active
  {
    seq(|inds|, i requires 0 <= i < |inds| => inds[i].active)
  }

  function NumberedActiveFlags(inds: seq<Indicator>): (r: seq<bool>)
    ensures |r| == |inds| && forall i :: 0 <= i < |inds| ==> r[i] == (inds[i].active && inds[i].numbered)
  {
    seq(|inds|, i requires 0 <= i < |inds| => inds[i].active && inds[i].numbered)
  }

  /** Index of the first active indicator (`find(item => item.classList.contains('active'))`). */
  function FirstActive(inds: seq<Indicator>): Option<nat>
  {
    Locator.FirstTrue(ActiveFlags(inds))
  }

  /** Index of the first numbered active indicator (`querySelector('...--number.active')`). */
  function FirstNumberedActive(inds: seq<Indicator>): Option<nat>
  {
    Locator.FirstTrue(NumberedActiveFlags(inds))
  }

  /** The primary rule: the button in the `<li>` right after the active indicator. */
  function PrimaryLabel(inds: seq<Indicator>): Option<string>
  {
    match FirstActive(inds)
    case None => None
    case Some(a) => EnabledLabel(inds[a].nextSibling, true)
  }

  /** The fallback rule: the button in the element right after the active numbered indicator's parent. */
  function FallbackLabel(inds: seq<Indicator>): Option<string>
  {
    match FirstNumberedActive(inds)
    case None => None
    case Some(a) => EnabledLabel(inds[a].parentNextSibling, false)
  }

  /** `button[aria-label="<aria>"]`. */
  function SelectorFor(aria: string): string
  {
    "button[aria-label=\"" + aria + "\"]"
  }

  function GetNextButton(view: PaginationView): Option<string>
  {
    match view
    case Missing => None
    case Loaded(inds) =>
      match PrimaryLabel(inds)
      case Some(l) => Some(SelectorFor(l))
      case None =>
        match FallbackLabel(inds)
        case Some(l) => Some(SelectorFor(l))
        case None => None
  }

  /** An enabled, labelled button was found next to indicator a by the given rule. */
  predicate LeadsTo(inds: seq<Indicator>, a: nat, primary: bool, aria: string)
  {
    a < |inds| && inds[a].active &&
    if primary then
      (forall j :: 0 <= j < a ==> !inds[j].active) && EnabledLabel(inds[a].nextSibling, true) == Some(aria)
    else
      inds[a].numbered && (forall j :: 0 <= j < a ==> !(inds[j].active && inds[j].numbered))
      && EnabledLabel(inds[a].parentNextSibling, false) == Some(aria)
  }

  /**
   * The selector `getNextButton` answers with always names a non-empty label
   * of an enabled button found by one of the two rules, the primary one when
   * it applies; null comes back exactly when the bar is missing or neither
   * rule finds such a button.
   */
  lemma {:induction false} NextButtonIsEnabled(view: PaginationView)
    ensures GetNextButton(view).None? <==>
              (view.Missing? || (PrimaryLabel(view.indicators).None? && FallbackLabel(view.indicators).None?))
    ensures GetNextButton(view).Some? ==>
              exists a: nat, primary: bool, aria: string :: aria != "" && LeadsTo(view.indicators, a, primary, aria)
                && GetNextButton(view) == Some(SelectorFor(aria))
                && (PrimaryLabel(view.indicators).Some? ==> primary)
  {
    if view.Loaded? {
      var inds := view.indicators;
      var act := ActiveFlags(inds);
      var num := NumberedActiveFlags(inds);
      match PrimaryLabel(inds)
      case Some(l) =>
        var a := FirstActive(inds).value;
        assert forall j :: 0 <= j < a ==> !act[j];
        assert LeadsTo(inds, a, true, l);
      case None =>
        match FallbackLabel(inds)
        case Some(l) =>
          var a := FirstNumberedActive(inds).value;
          assert forall j :: 0 <= j < a ==> !num[j];
          assert num[a];
          assert LeadsTo(inds, a, false, l);
        case None =>
    }
  }

  /** With no active indicator and no active numbered one there is no next page. */
  lemma NoActiveIndicatorNoNextPage(inds: seq<Indicator>)
    requires forall i :: 0 <= i < |inds| ==> !inds[i].active
    ensures GetNextButton(Loaded(inds)) == None
  {
    var act := ActiveFlags(inds);
    var num := NumberedActiveFlags(inds);
    assert forall j :: 0 <= j < |act| ==> !act[j];
    assert forall j :: 0 <= j < |num| ==> !num[j];
  }

  /**
   * On the last page the active indicator is followed by a disabled or
   * missing button on both rules, and the run is told there is no next page.
   */
  lemma LastPageExample()
    ensures GetNextButton(Loaded([
      Indicator(false, true, Some(Sibling(true, Some(Button(false, Some("Page 2"))))), None),
      Indicator(true, true, None, Some(Sibling(false, Some(Button(true, Some("Next"))))))])) == None
    ensures GetNextButton(Loaded([
      Indicator(true, true, Some(Sibling(true, Some(Button(false, Some("Page 2"))))), None),
      Indicator(false, true, None, None)])) == Some("button[aria-label=\"Page 2\"]")
  {
    var inds := [
      Indicator(false, true, Some(Sibling(true, Some(Button(false, Some("Page 2"))))), None),
      Indicator(true, true, None, Some(Sibling(false, Some(Button(true, Some("Next"))))))];
    assert ActiveFlags(inds) == [false, true];
    assert NumberedActiveFlags(inds) == [false, true];
    assert Locator.FirstTrue([false, true]) == Some(1) by {
      assert [false, true][1..] == [true];
    }
    var more := [
      Indicator(true, true, Some(Sibling(true, Some(Button(false, Some("Page 2"))))), None),
      Indicator(false, true, None, None)];
    assert ActiveFlags(more) == [true, false];
    assert FirstActive(more) == Some(0);
    assert PrimaryLabel(more) == Some("Page 2");
    assert SelectorFor("Page 2") == "button[aria-label=\"Page 2\"]";
  }
}
