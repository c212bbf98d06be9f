/**
 * Application Form Driver: `handleApplicationForm`, its wrapper
 * `handleJobApplication`, and the bounded wait for the last screen of a
 * multi-step form that `fillAndApply` runs after filling the fields. Every
 * look at the dialog is an abstract probe indexed by the attempt or poll
 * that makes it.
 */
module FormDriver {
  import opened Common
  import Locator
  import Text

  const MAX_ATTEMPTS: nat := 8

  const NEXT_SELECTORS: seq<string> := [
    "button[aria-label*=\"Next\"]",
    "button[aria-label*=\"Continue\"]",
    "button[aria-label*=\"Submit\"]",
    "button.artdeco-button--primary",
    "div[class*=\"justify-flex-end\"] button:last-child",
    "footer button:last-child"
  ]

  const REVIEW_SELECTORS: seq<string> := [
    "button[aria-label*=\"Review\"]",
    "button:contains(\"Review\")"
  ]

  const SUBMIT_SELECTORS: seq<string> := [
    "button[aria-label*=\"Submit\"]",
    "button:contains(\"Submit\")",
    "button.jobs-apply-button"
  ]

  /**
   * What one attempt of the form loop meets: either looking for a visible
   * submit button threw (the attempt is caught and counted), or a screen on
   * which each selector's button is visible or not, and on which clicking a
   * selector goes as the click probe says.
   */
  datatype FormScreen = Unreadable | Screen(visible: string -> bool, click: string -> Locator.ClickAttempt)

  function VisibleFlags(selectors: seq<string>, visible: string -> bool): (r: seq<bool>)
    ensures |r| == |selectors| && forall i :: 0 <= i < |selectors| ==> r[i] == visible(selectors[i])
  {
    seq(|selectors|, i requires 0 <= i < |selectors| => visible(selectors[i]))
  }

  /** How one attempt ends. */
  datatype AttemptResult =
    | Threw            // the probe threw; the attempt counts and the loop goes on
    | Submitted        // a submit button was visible and one of the submit clicks succeeded
    | SubmitFailed     // a submit button was visible but no submit click succeeded
    | Advanced         // a next or review click succeeded; the loop goes on
    | NothingToClick   // no button could be clicked: the form is taken to be complete

  /** Some submit selector's button is present and rendered (`offsetParent !== null`). */
  predicate SubmitVisible(visible: string -> bool)
  {
    Locator.FirstTrue(VisibleFlags(SUBMIT_SELECTORS, visible)).Some?
  }

  /** Trying the selectors in order, one click reports success. */
  predicate ClickedOne(selectors: seq<string>, click: string -> Locator.ClickAttempt)
  {
    Locator.FirstTrue(Locator.Clicks(selectors, click)).Some?
  }

  predicate Continues(r: AttemptResult)
  {
    r.Threw? || r.Advanced?
  }

  // ---------------------------------------------------------------------
  // Which selectors the page accepts
  // ---------------------------------------------------------------------

  /** The attribute selector for the submit button is valid CSS. */
  lemma FirstSubmitSelectorIsCss()
    ensures Locator.IsCssSelector(SUBMIT_SELECTORS[0])
  {
    ColonFreeIsCss(SUBMIT_SELECTORS[0]);
  }

  /** The jQuery-style `:contains` selector for the submit button is not CSS. */
  lemma SecondSubmitSelectorIsNotCss()
    ensures !Locator.IsCssSelector(SUBMIT_SELECTORS[1])
  {
    var hay := SUBMIT_SELECTORS[1];
    var pre, needle, post := "button", ":contains(", "\"Submit\")";
    assert hay == pre + needle + post;
    assert hay[|pre|..|pre| + |needle|] == needle;
    Text.ContainsAt(hay, needle, |pre|);
  }

  /** The class selector for the apply button is valid CSS. */
  lemma ThirdSubmitSelectorIsCss()
    ensures Locator.IsCssSelector(SUBMIT_SELECTORS[2])
  {
    ColonFreeIsCss(SUBMIT_SELECTORS[2]);
  }

  /** A selector without a colon is CSS as far as `:contains` goes. */
  lemma ColonFreeIsCss(sel: string)
    requires ':' !in sel
    ensures Locator.IsCssSelector(sel)
  {
    Locator.CssWithoutColonC(sel);
  }

  /** A colon-free selector followed by the CSS pseudo-class `:last-child` is CSS. */
  lemma LastChildIsCss(pre: string)
    requires ':' !in pre
    ensures Locator.IsCssSelector(pre + ":last-child")
  {
    var sel := pre + ":last-child";
    forall j | 0 <= j < |sel| - 1
      ensures !(sel[j] == ':' && sel[j + 1] == 'c')
    {
      if j < |pre| {
        assert sel[j] == pre[j];
      } else {
        assert sel[j + 1] == ":last-child"[j + 1 - |pre|];
      }
    }
    Locator.CssWithoutColonC(sel);
  }

  /** The attribute and class selectors among the next/continue selectors are CSS. */
  lemma PlainNextSelectorsAreCss()
    ensures Locator.IsCssSelector(NEXT_SELECTORS[0]) && Locator.IsCssSelector(NEXT_SELECTORS[1])
    ensures Locator.IsCssSelector(NEXT_SELECTORS[2]) && Locator.IsCssSelector(NEXT_SELECTORS[3])
  {
    ColonFreeIsCss(NEXT_SELECTORS[0]);
    ColonFreeIsCss(NEXT_SELECTORS[1]);
    ColonFreeIsCss(NEXT_SELECTORS[2]);
    ColonFreeIsCss(NEXT_SELECTORS[3]);
  }

  /** The two `:last-child` selectors among the next/continue selectors are CSS. */
  lemma LastChildNextSelectorsAreCss()
    ensures Locator.IsCssSelector(NEXT_SELECTORS[4]) && Locator.IsCssSelector(NEXT_SELECTORS[5])
  {
    var flexEnd, footer := "div[class*=\"justify-flex-end\"] button", "footer button";
    LastChildIsCss(flexEnd);
    LastChildIsCss(footer);
    assert NEXT_SELECTORS[4] == flexEnd + ":last-child";
    assert NEXT_SELECTORS[5] == footer + ":last-child";
  }

  /** Every next/continue selector is valid CSS. */
  lemma NextSelectorsAreCss()
    ensures forall i | 0 <= i < |NEXT_SELECTORS| :: Locator.IsCssSelector(NEXT_SELECTORS[i])
  {
    PlainNextSelectorsAreCss();
    LastChildNextSelectorsAreCss();
    forall i | 0 <= i < |NEXT_SELECTORS|
      ensures Locator.IsCssSelector(NEXT_SELECTORS[i])
    {
      if i < 3 {
        if i == 0 {} else if i == 1 {} else {}
      } else {
        if i == 3 {} else if i == 4 {} else {}
      }
    }
  }

  // ---------------------------------------------------------------------
  // One attempt as intended: the submit selectors checked one by one
  // ---------------------------------------------------------------------

  /**
   * One attempt with the submit check the code evidently intends. A valid
   * selector that never appears still "clicks" through the fallback, so a
   * failed submit needs both CSS submit buttons to have appeared and then
   * vanished before they were looked up, and a screen with nothing to click
   * needs the same of the first next button (of every one, see
   * `NothingToClickOnlyByVanishing`).
   */
  function Attempt(screen: FormScreen): (r: AttemptResult)
    ensures r.NothingToClick? ==> (screen.Screen?
      && screen.click(NEXT_SELECTORS[0]).appeared && !screen.click(NEXT_SELECTORS[0]).found)
    ensures r.SubmitFailed? ==> (screen.Screen?
      && screen.click(SUBMIT_SELECTORS[0]).appeared && !screen.click(SUBMIT_SELECTORS[0]).found
      && screen.click(SUBMIT_SELECTORS[2]).appeared && !screen.click(SUBMIT_SELECTORS[2]).found)
  {
    match screen
    case Unreadable => Threw
    case Screen(visible, click) =>
      if SubmitVisible(visible) then
        if ClickedOne(SUBMIT_SELECTORS, click) then Submitted
        else
          FirstSubmitSelectorIsCss();
          ThirdSubmitSelectorIsCss();
          var submit := Locator.Clicks(SUBMIT_SELECTORS, click);
          assert !submit[0] && !submit[2];
          SubmitFailed
      else if ClickedOne(NEXT_SELECTORS, click) then Advanced
      else if ClickedOne(REVIEW_SELECTORS, click) then Advanced
      else
        NextSelectorsAreCss();
        assert !Locator.Clicks(NEXT_SELECTORS, click)[0];
        NothingToClick
  }

  /** A screen with nothing to click: every next button appeared and then vanished before its lookup. */
  lemma NothingToClickOnlyByVanishing(screen: FormScreen)
    requires Attempt(screen).NothingToClick?
    ensures screen.Screen?
    ensures forall i | 0 <= i < |NEXT_SELECTORS| ::
      screen.click(NEXT_SELECTORS[i]).appeared && !screen.click(NEXT_SELECTORS[i]).found
  {
    NextSelectorsAreCss();
    var next := Locator.Clicks(NEXT_SELECTORS, screen.click);
    assert forall i | 0 <= i < |next| :: !next[i];
  }

  /** How each attempt ends, attempt by attempt. */
  function Results(probe: nat -> FormScreen): nat -> AttemptResult
  {
    (j: nat) => Attempt(probe(j))
  }

  /** The loop from attempt `attempts` on: the completion flag and the attempt it stopped at. */
  function DriveFrom(results: nat -> AttemptResult, attempts: nat): (r: (bool, nat))
    requires attempts <= MAX_ATTEMPTS
    ensures attempts <= r.1 <= MAX_ATTEMPTS
    decreases MAX_ATTEMPTS - attempts
  {
    if attempts == MAX_ATTEMPTS then (false, attempts)
    else match results(attempts)
      case Submitted => (true, attempts)
      case NothingToClick => (true, attempts)
      case SubmitFailed => (false, attempts)
      case _ => DriveFrom(results, attempts + 1)
  }

  /**
   * The loop stops at the first attempt that does not continue, or after
   * the eighth; it reports completion exactly when it stopped early on a
   * successful submit click or on a screen with nothing left to click.
   */
  lemma {:induction false} DriveFromMeaning(results: nat -> AttemptResult, a: nat)
    requires a <= MAX_ATTEMPTS
    ensures var r := DriveFrom(results, a);
      && (forall j | a <= j < r.1 :: Continues(results(j)))
      && (r.1 < MAX_ATTEMPTS ==> !Continues(results(r.1)))
      && (r.0 <==> r.1 < MAX_ATTEMPTS && (results(r.1).Submitted? || results(r.1).NothingToClick?))
    decreases MAX_ATTEMPTS - a
  {
    if a < MAX_ATTEMPTS && Continues(results(a)) {
      DriveFromMeaning(results, a + 1);
    }
  }

  /** One turn of the form loop, given how its attempt ended. */
  lemma DriveStep(results: nat -> AttemptResult, attempts: nat, result: AttemptResult)
    requires attempts < MAX_ATTEMPTS && results(attempts) == result
    ensures DriveFrom(results, attempts) ==
      if result.Submitted? || result.NothingToClick? then (true, attempts)
      else if result.SubmitFailed? then (false, attempts)
      else DriveFrom(results, attempts + 1)
  {
  }

  /** Attempts that all continued can be skipped: the loop's outcome is decided after them. */
  lemma {:induction false} DriveSkip(results: nat -> AttemptResult, attempts: nat)
    requires attempts <= MAX_ATTEMPTS
    requires forall j | 0 <= j < attempts :: Continues(results(j))
    ensures DriveFrom(results, 0) == DriveFrom(results, attempts)
  {
    if attempts > 0 {
      DriveSkip(results, attempts - 1);
      assert Continues(results(attempts - 1));
    }
  }

  /** The submit loop: the submit selectors are clicked in order until one succeeds. */
  method SubmitClicks(click: string -> Locator.ClickAttempt) returns (submitted: bool)
    ensures submitted == ClickedOne(SUBMIT_SELECTORS, click)
  {
    var k, _ := Locator.TryInOrder(Locator.Clicks(SUBMIT_SELECTORS, click));
    submitted := k.Some?;
  }

  /** The next/continue loop and, when no next click succeeds, the review loop. */
  method ClickNextOrReview(click: string -> Locator.ClickAttempt) returns (clicked: bool)
    ensures clicked == (ClickedOne(NEXT_SELECTORS, click) || ClickedOne(REVIEW_SELECTORS, click))
  {
    var next, _ := Locator.TryInOrder(Locator.Clicks(NEXT_SELECTORS, click));
    clicked := next.Some?;
    if !clicked {
      var review, _ := Locator.TryInOrder(Locator.Clicks(REVIEW_SELECTORS, click));
      clicked := review.Some?;
    }
  }

  /**
   * One attempt as intended: a visible submit button ends the loop
   * (completed when one of the submit clicks succeeds); otherwise a next
   * click, or failing that a review click, moves on; when neither succeeds
   * the form is taken to be complete.
   */
  method TryAttempt(screen: FormScreen) returns (result: AttemptResult)
    ensures result == Attempt(screen)
  {
    match screen {
      case Unreadable =>
        // the exception is caught and the attempt is counted
        result := Threw;
      case Screen(visible, click) =>
        var submitVisible, _ := Locator.TryInOrder(VisibleFlags(SUBMIT_SELECTORS, visible));
        if submitVisible.Some? {
          var submitted := SubmitClicks(click);
          result := if submitted then Submitted else SubmitFailed;
          return;
        }
        var clicked := ClickNextOrReview(click);
        result := if clicked then Advanced else NothingToClick;
    }
  }

  /**
   * The form loop as intended: at most eight attempts, stopping at the first
   * that submits, fails to submit or finds nothing to click.
   */
  method HandleApplicationForm(probe: nat -> FormScreen) returns (formCompleted: bool, attempts: nat)
    ensures (formCompleted, attempts) == DriveFrom(Results(probe), 0)
    ensures attempts <= MAX_ATTEMPTS
    ensures formCompleted ==> attempts < MAX_ATTEMPTS
  {
    ghost var results := Results(probe);
    formCompleted := false;
    attempts := 0;
    while !formCompleted && attempts < MAX_ATTEMPTS
      invariant attempts <= MAX_ATTEMPTS && !formCompleted
      invariant forall j | 0 <= j < attempts :: Continues(results(j))
      decreases MAX_ATTEMPTS - attempts
    {
      var result := TryAttempt(probe(attempts));
      assert results(attempts) == result;
      if !Continues(result) {
        DriveSkip(results, attempts);
        DriveStep(results, attempts, result);
        formCompleted := result.Submitted? || result.NothingToClick?;
        return;
      }
      attempts := attempts + 1;
    }
    DriveSkip(results, attempts);
  }

  /**
   * As intended, the form is completed exactly when, within eight attempts,
   * it met a screen where a submit button was visible and a submit click
   * succeeded, or where no submit button was visible and neither a next nor
   * a review click succeeded. It fails when the eight attempts run out, or
   * when a submit button was visible and no submit click succeeded.
   */
  lemma FormCompletedMeans(probe: nat -> FormScreen)
    ensures var r := DriveFrom(Results(probe), 0);
      && (r.0 <==> r.1 < MAX_ATTEMPTS && probe(r.1).Screen?
                   && (if SubmitVisible(probe(r.1).visible) then ClickedOne(SUBMIT_SELECTORS, probe(r.1).click)
                       else !ClickedOne(NEXT_SELECTORS, probe(r.1).click) && !ClickedOne(REVIEW_SELECTORS, probe(r.1).click)))
      && (!r.0 <==> r.1 == MAX_ATTEMPTS
                    || (probe(r.1).Screen? && SubmitVisible(probe(r.1).visible) && !ClickedOne(SUBMIT_SELECTORS, probe(r.1).click)))
  {
    DriveFromMeaning(Results(probe), 0);
  }

  /** As intended, a submit button shown on the first screen and clicked completes the form at the first attempt. */
  lemma SubmitOnFirstScreen(probe: nat -> FormScreen)
    requires probe(0).Screen?
    requires SubmitVisible(probe(0).visible) && ClickedOne(SUBMIT_SELECTORS, probe(0).click)
    ensures DriveFrom(Results(probe), 0) == (true, 0)
  {
  }

  /** A form on which every attempt throws or clicks a next or review button exhausts the eight attempts and is not completed. */
  lemma {:induction false} EndlessNextNotCompleted(results: nat -> AttemptResult, a: nat)
    requires a <= MAX_ATTEMPTS
    requires forall j :: a <= j < MAX_ATTEMPTS ==> Continues(results(j))
    ensures DriveFrom(results, a) == (false, MAX_ATTEMPTS)
    decreases MAX_ATTEMPTS - a
  {
    if a < MAX_ATTEMPTS {
      EndlessNextNotCompleted(results, a + 1);
    }
  }

  /**
   * As intended, the form is completed exactly when some attempt within the
   * eight submits or finds nothing to click, every earlier attempt having
   * thrown or advanced.
   */
  lemma CompletedIffSomeAttempt(probe: nat -> FormScreen)
    ensures DriveFrom(Results(probe), 0).0 <==>
      exists a | 0 <= a < MAX_ATTEMPTS ::
        && (Attempt(probe(a)).Submitted? || Attempt(probe(a)).NothingToClick?)
        && forall j | 0 <= j < a :: Continues(Attempt(probe(j)))
  {
    var results := Results(probe);
    DriveFromMeaning(results, 0);
    var r := DriveFrom(results, 0);
    if r.0 {
      assert Attempt(probe(r.1)) == results(r.1);
      forall j | 0 <= j < r.1
        ensures Continues(Attempt(probe(j)))
      {
        assert Attempt(probe(j)) == results(j);
      }
    } else {
      forall a | 0 <= a < MAX_ATTEMPTS && (Attempt(probe(a)).Submitted? || Attempt(probe(a)).NothingToClick?)
        ensures exists j | 0 <= j < a :: !Continues(Attempt(probe(j)))
      {
        assert Attempt(probe(a)) == results(a);
        assert !Continues(results(a));
        assert r.1 <= a;
        assert r.1 != a;
        assert Attempt(probe(r.1)) == results(r.1);
      }
    }
  }

  // ---------------------------------------------------------------------
  // The attempt as written: `handleApplicationForm` and `handleJobApplication`
  // ---------------------------------------------------------------------

  /**
   * `selectors.some(...)` evaluated in the page, where an element counts when
   * it exists and is rendered: None when a selector makes `querySelector`
   * throw before a visible button is met.
   */
  function SomeVisibleInPage(selectors: seq<string>, visible: string -> bool): (r: Option<bool>)
    ensures r == Some(true) ==> exists i | 0 <= i < |selectors| :: visible(selectors[i])
    ensures r.None? ==> exists i | 0 <= i < |selectors| :: !Locator.IsCssSelector(selectors[i])
  {
    if selectors == [] then Some(false)
    else if !Locator.IsCssSelector(selectors[0]) then None
    else if visible(selectors[0]) then Some(true)
    else
      var r := SomeVisibleInPage(selectors[1..], visible);
      assert r.None? ==> exists i | 1 <= i < |selectors| :: !Locator.IsCssSelector(selectors[i]) by {
        if r.None? {
          var i :| 0 <= i < |selectors[1..]| && !Locator.IsCssSelector(selectors[1..][i]);
          assert selectors[1..][i] == selectors[i + 1];
        }
      }
      r
  }

  /** The first submit selector's button is present and rendered. */
  predicate FirstSubmitShown(screen: FormScreen)
  {
    screen.Screen? && screen.visible(SUBMIT_SELECTORS[0])
  }

  /**
   * One attempt as the code is written. The submit check throws unless the
   * first submit selector already finds a rendered button, because the
   * second one is not CSS; the exception is caught and the attempt counted.
   * A submit click is only ever tried under a rendered first submit button.
   */
  function AttemptAsWritten(screen: FormScreen): (r: AttemptResult)
    ensures r.Submitted? || r.SubmitFailed? ==> FirstSubmitShown(screen)
    ensures r.Submitted? ==> ClickedOne(SUBMIT_SELECTORS, screen.click)
  {
    FirstSubmitSelectorIsCss();
    SecondSubmitSelectorIsNotCss();
    assert SUBMIT_SELECTORS[1..][0] == SUBMIT_SELECTORS[1];
    match screen
    case Unreadable => Threw
    case Screen(visible, click) =>
      var submitVisible := SomeVisibleInPage(SUBMIT_SELECTORS, visible);
      if submitVisible.None? then Threw
      else if submitVisible.value then
        if ClickedOne(SUBMIT_SELECTORS, click) then Submitted else SubmitFailed
      else if ClickedOne(NEXT_SELECTORS, click) then Advanced
      else if ClickedOne(REVIEW_SELECTORS, click) then Advanced
      else NothingToClick
  }

  function ResultsAsWritten(probe: nat -> FormScreen): nat -> AttemptResult
  {
    (j: nat) => AttemptAsWritten(probe(j))
  }

  /**
   * As written, an attempt either meets a rendered
   * `button[aria-label*="Submit"]` and clicks submit, or throws: the next
   * and review buttons are never tried.
   */
  lemma AsWrittenOnlyFirstSubmitSelector(screen: FormScreen)
    ensures AttemptAsWritten(screen) ==
      if FirstSubmitShown(screen) then
        (if ClickedOne(SUBMIT_SELECTORS, screen.click) then Submitted else SubmitFailed)
      else Threw
  {
    FirstSubmitSelectorIsCss();
    SecondSubmitSelectorIsNotCss();
    assert SUBMIT_SELECTORS[1..][0] == SUBMIT_SELECTORS[1];
  }

  /**
   * The body of one attempt of `handleApplicationForm`: the in-page submit
   * check, then the submit loop when it answers true, otherwise the next and
   * review loops. An exception from the check is caught by the loop.
   */
  method TryAttemptAsWritten(screen: FormScreen) returns (result: AttemptResult)
    ensures result == AttemptAsWritten(screen)
  {
    match screen {
      case Unreadable =>
        result := Threw;
      case Screen(visible, click) =>
        var submitVisible := SomeVisibleInPage(SUBMIT_SELECTORS, visible);
        if submitVisible.None? {
          // `querySelector` threw inside the page; the attempt is counted
          result := Threw;
          return;
        }
        if submitVisible.value {
          var submitted := SubmitClicks(click);
          result := if submitted then Submitted else SubmitFailed;
          return;
        }
        var clicked := ClickNextOrReview(click);
        result := if clicked then Advanced else NothingToClick;
    }
  }

  /**
   * `handleApplicationForm`: at most eight attempts, stopping at the first
   * that submits, fails to submit or finds nothing to click. The closing
   * dismiss clicks do not affect the result and are not modelled.
   */
  method HandleApplicationFormAsWritten(probe: nat -> FormScreen) returns (formCompleted: bool, attempts: nat)
    ensures (formCompleted, attempts) == DriveFrom(ResultsAsWritten(probe), 0)
    ensures attempts <= MAX_ATTEMPTS
    ensures formCompleted ==> attempts < MAX_ATTEMPTS
  {
    ghost var results := ResultsAsWritten(probe);
    formCompleted := false;
    attempts := 0;
    while !formCompleted && attempts < MAX_ATTEMPTS
      invariant attempts <= MAX_ATTEMPTS && !formCompleted
      invariant forall j | 0 <= j < attempts :: Continues(results(j))
      decreases MAX_ATTEMPTS - attempts
    {
      var result := TryAttemptAsWritten(probe(attempts));
      assert results(attempts) == result;
      if !Continues(result) {
        DriveSkip(results, attempts);
        DriveStep(results, attempts, result);
        formCompleted := result.Submitted? || result.NothingToClick?;
        return;
      }
      attempts := attempts + 1;
    }
    DriveSkip(results, attempts);
  }

  /**
   * `handleJobApplication`: the form driver's verdict. When the form was not
   * completed the discard buttons are clicked; nothing in it throws, so its
   * catch branch is never taken.
   */
  method HandleJobApplication(probe: nat -> FormScreen) returns (applied: bool)
    ensures applied == DriveFrom(ResultsAsWritten(probe), 0).0
  {
    var formSuccess, _ := HandleApplicationFormAsWritten(probe);
    applied := formSuccess;
  }

  /**
   * As written, the form is completed exactly when some attempt within the
   * eight shows a rendered `button[aria-label*="Submit"]` and a submit click
   * succeeds there, no earlier attempt having shown that button.
   */
  lemma CompletedAsWrittenIff(probe: nat -> FormScreen)
    ensures DriveFrom(ResultsAsWritten(probe), 0).0 <==>
      exists a | 0 <= a < MAX_ATTEMPTS ::
        && FirstSubmitShown(probe(a)) && ClickedOne(SUBMIT_SELECTORS, probe(a).click)
        && forall j | 0 <= j < a :: !FirstSubmitShown(probe(j))
  {
    var results := ResultsAsWritten(probe);
    forall j: nat
      ensures results(j) == if FirstSubmitShown(probe(j)) then
        (if ClickedOne(SUBMIT_SELECTORS, probe(j).click) then Submitted else SubmitFailed) else Threw
    {
      AsWrittenOnlyFirstSubmitSelector(probe(j));
    }
    DriveFromMeaning(results, 0);
    var r := DriveFrom(results, 0);
    if r.0 {
      forall j | 0 <= j < r.1
        ensures !FirstSubmitShown(probe(j))
      {
        assert Continues(results(j));
      }
    } else {
      forall a | 0 <= a < MAX_ATTEMPTS && FirstSubmitShown(probe(a)) && ClickedOne(SUBMIT_SELECTORS, probe(a).click)
        ensures exists j | 0 <= j < a :: FirstSubmitShown(probe(j))
      {
        assert results(a).Submitted?;
        assert !Continues(results(a));
        assert r.1 <= a;
        assert r.1 != a;
        assert !Continues(results(r.1));
      }
    }
  }

  /**
   * As written, a form on which that first submit selector never finds a
   * rendered button is never completed: all eight attempts throw.
   */
  lemma AsWrittenNeverCompletesWithoutFirstSubmit(probe: nat -> FormScreen)
    requires forall j :: 0 <= j < MAX_ATTEMPTS ==> !FirstSubmitShown(probe(j))
    ensures DriveFrom(ResultsAsWritten(probe), 0) == (false, MAX_ATTEMPTS)
  {
    forall j | 0 <= j < MAX_ATTEMPTS
      ensures Continues(ResultsAsWritten(probe)(j))
    {
      assert ResultsAsWritten(probe)(j) == AttemptAsWritten(probe(j));
      AsWrittenOnlyFirstSubmitSelector(probe(j));
    }
    EndlessNextNotCompleted(ResultsAsWritten(probe), 0);
  }

  /**
   * The input that shows it: a screen whose only submit button is
   * `button.jobs-apply-button` and on which every click succeeds. As written
   * the form is abandoned after eight attempts; as intended it is submitted
   * on the first.
   */
  lemma JobsApplyButtonOnlyScreen()
    ensures var probe := (j: nat) => Screen((sel: string) => sel == SUBMIT_SELECTORS[2],
                                           (sel: string) => Locator.ClickAttempt(true, true, true));
      && DriveFrom(ResultsAsWritten(probe), 0) == (false, MAX_ATTEMPTS)
      && DriveFrom(Results(probe), 0) == (true, 0)
  {
    var visible := (sel: string) => sel == SUBMIT_SELECTORS[2];
    var click := (sel: string) => Locator.ClickAttempt(true, true, true);
    var probe := (j: nat) => Screen(visible, click);
    assert SUBMIT_SELECTORS[0] != SUBMIT_SELECTORS[2] by {
      assert SUBMIT_SELECTORS[0][7] != SUBMIT_SELECTORS[2][7];
    }
    AsWrittenNeverCompletesWithoutFirstSubmit(probe);
    var flags := VisibleFlags(SUBMIT_SELECTORS, visible);
    assert flags[2];
    assert SubmitVisible(visible);
    FirstSubmitSelectorIsCss();
    assert Locator.Clicks(SUBMIT_SELECTORS, click)[0];
    assert ClickedOne(SUBMIT_SELECTORS, click);
  }

  // ---------------------------------------------------------------------
  // The wait for the last screen (the do-while with `counter`)
  // ---------------------------------------------------------------------

  const WAIT_POLLS: int := 30

  /**
   * The do-while from poll `k` with `counter` left: each poll first looks for
   * the modal overlay button (found: counter becomes -2 and the loop ends),
   * otherwise decrements the counter and clicks the next button if there is
   * one; no next button means the final page was reached. Result: the final
   * page flag, the counter, and the number of polls made.
   */
  function AwaitFrom(modalShown: nat -> bool, nextShown: nat -> bool, counter: int, k: nat): (r: (bool, int, nat))
    requires 0 < counter <= WAIT_POLLS
    decreases counter
  {
    if modalShown(k) then (false, -2, k + 1)
    else if !nextShown(k) then (true, counter - 1, k + 1)
    else if counter - 1 > 0 then AwaitFrom(modalShown, nextShown, counter - 1, k + 1)
    else (false, 0, k + 1)
  }

  /**
   * The wait polls at most `counter` times; it reaches the final page exactly
   * when, before any modal and within the budget, a poll finds no next
   * button; finding the modal sets the counter to -2 and leaves the final
   * page flag false.
   */
  lemma {:induction false} AwaitFromMeaning(modalShown: nat -> bool, nextShown: nat -> bool, counter: int, k: nat)
    requires 0 < counter <= WAIT_POLLS
    ensures var r := AwaitFrom(modalShown, nextShown, counter, k);
      && k < r.2 <= k + counter
      && (forall j | k <= j < r.2 - 1 :: !modalShown(j) && nextShown(j))
      && (r.0 <==> !modalShown(r.2 - 1) && !nextShown(r.2 - 1))
      && (r.1 == -2 <==> modalShown(r.2 - 1))
      && (!r.0 && r.1 != -2 ==> r.2 == k + counter && r.1 == 0)
    decreases counter
  {
    if !modalShown(k) && nextShown(k) && counter - 1 > 0 {
      AwaitFromMeaning(modalShown, nextShown, counter - 1, k + 1);
    }
  }

  /** The do-while at the end of the multi-step branch. */
  method AwaitFinalPage(modalShown: nat -> bool, nextShown: nat -> bool) returns (finalPage: bool, counter: int, polls: nat)
    ensures (finalPage, counter, polls) == AwaitFrom(modalShown, nextShown, WAIT_POLLS, 0)
    ensures 1 <= polls <= WAIT_POLLS
  {
    counter := WAIT_POLLS;
    finalPage := false;
    polls := 0;
    while true
      invariant 0 < counter <= WAIT_POLLS && polls + counter == WAIT_POLLS && !finalPage
      invariant AwaitFrom(modalShown, nextShown, counter, polls) == AwaitFrom(modalShown, nextShown, WAIT_POLLS, 0)
      decreases counter
    {
      if !modalShown(polls) {
        counter := counter - 1;
        finalPage := !nextShown(polls);
      } else {
        counter := -2;
      }
      polls := polls + 1;
      if !(counter > 0 && counter <= WAIT_POLLS && !finalPage) {
        break;
      }
    }
  }

  /** A dialog whose next button never goes away is given up after exactly 30 polls. */
  lemma NeverFinalGivesUp(modalShown: nat -> bool, nextShown: nat -> bool)
    requires forall j :: 0 <= j < WAIT_POLLS ==> !modalShown(j) && nextShown(j)
    ensures AwaitFrom(modalShown, nextShown, WAIT_POLLS, 0) == (false, 0, WAIT_POLLS as nat)
  {
    AwaitFromMeaning(modalShown, nextShown, WAIT_POLLS, 0);
  }

  /**
   * The wait reaches the final page exactly when some poll within the 30
   * finds neither the modal nor a next button, every earlier poll having
   * found the next button and no modal.
   */
  lemma FinalPageIffSomePoll(modalShown: nat -> bool, nextShown: nat -> bool)
    ensures AwaitFrom(modalShown, nextShown, WAIT_POLLS, 0).0 <==>
      exists k | 0 <= k < WAIT_POLLS ::
        && !modalShown(k) && !nextShown(k)
        && forall j | 0 <= j < k :: !modalShown(j) && nextShown(j)
  {
    AwaitFromMeaning(modalShown, nextShown, WAIT_POLLS, 0);
    var r := AwaitFrom(modalShown, nextShown, WAIT_POLLS, 0);
    if !r.0 {
      forall k | 0 <= k < WAIT_POLLS && !modalShown(k) && !nextShown(k)
        ensures exists j | 0 <= j < k :: !(!modalShown(j) && nextShown(j))
      {
        assert r.2 - 1 < k;
      }
    }
  }
}
