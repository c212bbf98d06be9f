/**
 * The field-completion policy of the multi-step application branch: which
 * radio buttons are clicked, which option a drop-down gets, and the value
 * typed into each text or number input. Texts are those the page shows,
 * null where an element has no label, placeholder or attribute.
 */
module FieldPolicy {
  import opened Common
  import opened Text
  import Locator

  /** `x?.toLowerCase() || ''`: lower-cased, a missing text reading as empty. */
  function Normalised(s: Option<string>): string
  {
    match s
    case Some(t) => Lower(t)
    case None => ""
  }

  /** A label that says yes, in English or French. */
  predicate Affirmative(text: Option<string>)
  {
    Contains(Normalised(text), "yes") || Contains(Normalised(text), "oui")
  }

  // ---------------------------------------------------------------------
  // Radio buttons: every radio whose first label says yes is clicked
  // ---------------------------------------------------------------------

  /** Positions of the radios clicked, in document order, given each radio's first label. */
  function ClickedRadios(labels: seq<Option<string>>): (r: seq<nat>)
    ensures forall i: nat :: i in r <==> i < |labels| && Affirmative(labels[i])
    ensures forall a, b :: 0 <= a < b < |r| ==> r[a] < r[b]
  {
    ClickedFrom(labels, 0)
  }

  /** The radios clicked from position `k` on. */
  function ClickedFrom(labels: seq<Option<string>>, k: nat): (r: seq<nat>)
    ensures forall i: nat :: i in r <==> k <= i < |labels| && Affirmative(labels[i])
    ensures forall j :: 0 <= j < |r| ==> k <= r[j]
    ensures forall a, b :: 0 <= a < b < |r| ==> r[a] < r[b]
    decreases |labels| - k
  {
    if k >= |labels| then []
    else
      var rest := ClickedFrom(labels, k + 1);
      if Affirmative(labels[k]) then [k] + rest else rest
  }

  // ---------------------------------------------------------------------
  // Drop-downs: the first yes/oui option, else the first option with a value
  // ---------------------------------------------------------------------

  datatype SelectOption = SelectOption(text: string, value: string)

  predicate IsYesOption(o: SelectOption)
  {
    Contains(Lower(o.text), "yes") || Contains(Lower(o.text), "oui")
  }

  function YesFlags(opts: seq<SelectOption>): (r: seq<bool>)
    ensures |r| == |opts| && forall i :: 0 <= i < |opts| ==> r[i] == IsYesOption(opts[i])
  {
    seq(|opts|, i requires 0 <= i < |opts| => IsYesOption(opts[i]))
  }

  function ValueFlags(opts: seq<SelectOption>): (r: seq<bool>)
    ensures |r| == |opts| && forall i :: 0 <= i < |opts| ==> r[i] == (opts[i].value != "")
  {
    seq(|opts|, i requires 0 <= i < |opts| => opts[i].value != "")
  }

  /**
   * The option a drop-down is set to, or None when it is left unchanged:
   * the first option whose text says yes (whatever its value), otherwise the
   * first option with a non-empty value, otherwise nothing.
   */
  function ChooseOption(opts: seq<SelectOption>): (r: Option<nat>)
    ensures r.Some? ==> r.value < |opts|
    ensures (exists i | 0 <= i < |opts| :: IsYesOption(opts[i])) ==>
              r.Some? && IsYesOption(opts[r.value]) && forall j :: 0 <= j < r.value ==> !IsYesOption(opts[j])
    ensures (forall i | 0 <= i < |opts| :: !IsYesOption(opts[i])) ==>
              (r.None? <==> forall i | 0 <= i < |opts| :: opts[i].value == "")
              && (r.Some? ==> opts[r.value].value != "" && forall j :: 0 <= j < r.value ==> opts[j].value == "")
  {
    var yes := YesFlags(opts);
    match Locator.FirstTrue(yes)
    case Some(k) => Some(k)
    case None =>
      assert forall i | 0 <= i < |opts| :: !yes[i];
      Locator.FirstTrue(ValueFlags(opts))
  }

  /** `select.value` after the policy ran, from its value before. */
  function SelectValue(opts: seq<SelectOption>, current: string): (r: string)
    ensures (forall i | 0 <= i < |opts| :: !IsYesOption(opts[i]) && opts[i].value == "") ==> r == current
    ensures (exists i | 0 <= i < |opts| :: IsYesOption(opts[i]) || opts[i].value != "") ==>
              exists k | 0 <= k < |opts| :: r == opts[k].value
  {
    match ChooseOption(opts)
    case Some(k) => opts[k].value
    case None => current
  }

  /** Neither the placeholder option nor "No" says yes. */
  lemma PlaceholderAndNoAreNotYes()
    ensures !IsYesOption(SelectOption("Select an option", ""))
    ensures !IsYesOption(SelectOption("No", "No"))
  {
    assert Lower("Select an option") == "select an option";
    assert 'y' !in Lower("Select an option") && 'u' !in Lower("Select an option");
    NotContainsFirst(Lower("Select an option"), "yes");
    NotContainsSecond(Lower("Select an option"), "oui");
    assert Lower("No") == "no";
    assert 'y' !in "no" && 'u' !in "no";
    NotContainsFirst("no", "yes");
    NotContainsSecond("no", "oui");
  }

  /** A typical screening question: "Yes" is picked over an earlier "No". */
  lemma YesOptionPicked()
    ensures SelectValue([SelectOption("Select an option", ""), SelectOption("No", "No"), SelectOption("Yes", "Yes")], "") == "Yes"
  {
    var opts := [SelectOption("Select an option", ""), SelectOption("No", "No"), SelectOption("Yes", "Yes")];
    assert Lower("Yes") == "yes";
    ContainsAt(Lower("Yes"), "yes", 0);
    assert IsYesOption(opts[2]);
    PlaceholderAndNoAreNotYes();
    assert !IsYesOption(opts[0]) && !IsYesOption(opts[1]);
    assert ChooseOption(opts) == Some(2);
  }

  /** With no yes option the first option that has a value wins. */
  lemma FirstValuedOptionPicked()
    ensures SelectValue([SelectOption("Select", ""), SelectOption("English", "en"), SelectOption("French", "fr")], "") == "en"
  {
    var opts := [SelectOption("Select", ""), SelectOption("English", "en"), SelectOption("French", "fr")];
    assert Lower("Select") == "select" && Lower("English") == "english" && Lower("French") == "french";
    assert 'y' !in "select" && 'u' !in "select";
    assert 'y' !in "english" && 'u' !in "english";
    assert 'y' !in "french" && 'u' !in "french";
    NotContainsFirst("select", "yes");
    NotContainsSecond("select", "oui");
    NotContainsFirst("english", "yes");
    NotContainsSecond("english", "oui");
    NotContainsFirst("french", "yes");
    NotContainsSecond("french", "oui");
    assert !IsYesOption(opts[0]) && !IsYesOption(opts[1]) && !IsYesOption(opts[2]);
    assert YesFlags(opts) == [false, false, false];
    assert ValueFlags(opts) == [false, true, true];
    assert Locator.FirstTrue([false, true, true]) == Some(1) by {
      assert [false, true, true][1..] == [true, true];
    }
  }

  /**
   * A needle is not contained when its d-th character never occurs in the
   * stretch of the haystack where it would have to sit.
   */
  lemma NotContainsAt(hay: string, needle: string, d: nat)
    requires d < |needle| <= |hay|
    requires needle[d] !in hay[d..|hay| - |needle| + d + 1]
    ensures !Contains(hay, needle)
  {
    forall i | 0 <= i <= |hay| - |needle|
      ensures !(needle <= hay[i..])
    {
      assert hay[i + d] == hay[d..|hay| - |needle| + d + 1][i];
    }
  }

  /** A needle whose first character never occurs is not contained. */
  lemma NotContainsFirst(hay: string, needle: string)
    requires |needle| > 0 && needle[0] !in hay
    ensures !Contains(hay, needle)
  {
  }

  /** A needle whose second character never occurs is not contained. */
  lemma NotContainsSecond(hay: string, needle: string)
    requires |needle| > 1 && needle[1] !in hay
    ensures !Contains(hay, needle)
  {
  }

  // ---------------------------------------------------------------------
  // Text and number inputs
  // ---------------------------------------------------------------------

  datatype InputKind = TextInput | NumberInput

  /** An `input[type="text"]` or `input[type="number"]`: its first label's text, placeholder and aria-label. */
  datatype TextField = TextField(labelText: Option<string>, placeholder: Option<string>, ariaLabel: Option<string>, kind: InputKind)

  /** The word occurs, ignoring case, in the label, the placeholder or the aria-label. */
  predicate Mentions(f: TextField, word: string)
  {
    Contains(Normalised(f.labelText), word) || Contains(Normalised(f.placeholder), word)
    || Contains(Normalised(f.ariaLabel), word)
  }

  /** The value written into the input. */
  function DefaultValue(f: TextField): (v: string)
    ensures v == "5" || v == "85000" || v == " "
  {
    if Mentions(f, "experience") || Mentions(f, "years") then "5"
    else if Mentions(f, "salary") then "85000"
    else if f.kind == NumberInput then "5"
    else " "
  }

  /**
   * The policy table: experience or years give 5 and take precedence over
   * salary, salary gives 85000, other number inputs 5, other text inputs a
   * single space. Every value is non-empty, so a required field is satisfied.
   */
  lemma DefaultValuePolicy(f: TextField)
    ensures (Mentions(f, "experience") || Mentions(f, "years")) ==> DefaultValue(f) == "5"
    ensures DefaultValue(f) == "85000" <==>
              !Mentions(f, "experience") && !Mentions(f, "years") && Mentions(f, "salary")
    ensures DefaultValue(f) == " " <==>
              !Mentions(f, "experience") && !Mentions(f, "years") && !Mentions(f, "salary") && f.kind == TextInput
    ensures DefaultValue(f) == "5" <==>
              Mentions(f, "experience") || Mentions(f, "years") || (!Mentions(f, "salary") && f.kind == NumberInput)
    ensures DefaultValue(f) != ""
  {
  }

  /** Whether an input's texts are written in upper or lower case does not change its value. */
  lemma DefaultValueIgnoresCase(f: TextField)
    ensures DefaultValue(f) == DefaultValue(TextField(LowerAll(f.labelText), LowerAll(f.placeholder), LowerAll(f.ariaLabel), f.kind))
  {
    NormalisedLowerAll(f.labelText);
    NormalisedLowerAll(f.placeholder);
    NormalisedLowerAll(f.ariaLabel);
  }

  function LowerAll(s: Option<string>): Option<string>
  {
    match s
    case Some(t) => Some(Lower(t))
    case None => None
  }

  lemma NormalisedLowerAll(s: Option<string>)
    ensures Normalised(LowerAll(s)) == Normalised(s)
  {
    if s.Some? {
      LowerIdempotent(s.value);
    }
  }

  /** "Years of Experience" on a number input gets 5, even when its placeholder mentions salary. */
  lemma YearsOfExperienceExample()
    ensures DefaultValue(TextField(Some("Years of Experience"), Some("Salary"), None, NumberInput)) == "5"
  {
    var f := TextField(Some("Years of Experience"), Some("Salary"), None, NumberInput);
    assert Lower("Years") == "years";
    assert "Years of Experience" == "Years" + " of Experience";
    LowerAppend("Years", " of Experience");
    assert Normalised(f.labelText) == "years" + Lower(" of Experience");
    ContainsAt(Normalised(f.labelText), "years", 0);
    assert Mentions(f, "years");
  }

  lemma ExpectedSalaryWords()
    ensures !Contains("expected salary", "years") && !Contains("expected salary", "experience")
  {
    var t := "expected salary";
    var years := "years";
    var experience := "experience";
    assert |t| == 15 && |years| == 5 && |experience| == 10;
    assert t[0..11] == "expected sa";
    assert years[0] == 'y' && 'y' !in t[0..11];
    NotContainsAt(t, years, 0);
    assert t[4..10] == "cted s";
    assert experience[4] == 'r' && 'r' !in t[4..10];
    NotContainsAt(t, experience, 4);
  }

  /** "Expected salary" on a text input gets 85000. */
  lemma SalaryExample()
    ensures DefaultValue(TextField(Some("Expected salary"), None, None, TextInput)) == "85000"
  {
    var f := TextField(Some("Expected salary"), None, None, TextInput);
    var t := "expected salary";
    assert Normalised(f.labelText) == t;
    ContainsAt(t, "salary", 9);
    ExpectedSalaryWords();
    ContainsEmpty("");
    assert !Contains("", "experience") && !Contains("", "years") && !Contains("", "salary");
  }
}
