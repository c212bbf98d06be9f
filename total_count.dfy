/**
 * `getTotalJobResult`: the reported number of results, read from the
 * subtitle of the result list as a string, and the way `fillAndApply`
 * compares the job counter with that string.
 */
module TotalCount {
  import opened Text

  /**
   * What the page offers: the subtitle did not appear within its wait (or
   * reading it threw), it appeared but the in-page lookup found nothing, or
   * it is shown with the given `innerText`.
   */
  datatype SubtitleProbe = TimedOut | Absent | Shown(innerText: string)

  /** `text.split(" ")[0]`: everything before the first space. */
  function FirstToken(s: string): (r: string)
    ensures r <= s && ' ' !in r
    ensures |r| == |s| || s[|r|] == ' '
  {
    if |s| == 0 || s[0] == ' ' then "" else [s[0]] + FirstToken(s[1..])
  }

  /** `s.split(",").join("")`. */
  function RemoveCommas(s: string): (r: string)
    ensures ',' !in r && |r| <= |s|
    ensures forall c :: c in r ==> c in s
    ensures ',' !in s ==> r == s
  {
    if |s| == 0 then ""
    else (if s[0] == ',' then "" else [s[0]]) + RemoveCommas(s[1..])
  }

  /** Removing the commas keeps every other character, each as often as before. */
  lemma {:induction false} RemoveCommasKeepsOthers(s: string)
    ensures multiset(RemoveCommas(s)) == multiset(s)[',' := 0]
  {
    if |s| > 0 {
      RemoveCommasKeepsOthers(s[1..]);
      assert s == [s[0]] + s[1..];
      assert multiset(s) == multiset{s[0]} + multiset(s[1..]);
    }
  }

  lemma {:induction false} RemoveCommasAppend(a: string, b: string)
    ensures RemoveCommas(a + b) == RemoveCommas(a) + RemoveCommas(b)
    decreases |a|
  {
    if |a| == 0 {
      assert a + b == b;
    } else {
      var head := if a[0] == ',' then "" else [a[0]];
      assert (a + b)[0] == a[0];
      assert (a + b)[1..] == a[1..] + b;
      assert RemoveCommas(a + b) == head + RemoveCommas(a[1..] + b);
      RemoveCommasAppend(a[1..], b);
      assert RemoveCommas(a) == head + RemoveCommas(a[1..]);
    }
  }

  /** The string `getTotalJobResult` resolves to. */
  function ParseTotal(p: SubtitleProbe): (r: string)
    ensures r != "" && ',' !in r && ' ' !in r
  {
    match p
    case TimedOut => "0"
    case Absent => "0"
    case Shown(innerText) =>
      var text := if innerText == "" then "0" else innerText;
      var first := FirstToken(text);
      var token := if first == "" then "0" else first;
      var digits := RemoveCommas(token);
      if digits == "" then "0" else digits
  }

  /**
   * The total is the first space-separated word of the subtitle with its
   * commas removed, whatever follows that word.
   */
  lemma {:induction false} ParseTotalTakesFirstWord(word: string, rest: string)
    requires ' ' !in word && RemoveCommas(word) != ""
    ensures ParseTotal(Shown(word + " " + rest)) == RemoveCommas(word)
    ensures ParseTotal(Shown(word)) == RemoveCommas(word)
  {
    FirstTokenOfWord(word, " " + rest);
    assert word + " " + rest == word + (" " + rest);
    FirstTokenOfWord(word, "");
    assert word + "" == word;
  }

  lemma {:induction false} FirstTokenOfWord(word: string, rest: string)
    requires ' ' !in word && (rest == "" || rest[0] == ' ')
    ensures FirstToken(word + rest) == word
    decreases |word|
  {
    if |word| == 0 {
      assert word + rest == rest;
    } else {
      assert (word + rest)[0] == word[0];
      assert (word + rest)[1..] == word[1..] + rest;
      FirstTokenOfWord(word[1..], rest);
    }
  }

  /** A missing subtitle, a timeout and an empty or comma-only first word all give "0". */
  lemma ParseTotalFallsBackToZero(text: string)
    requires RemoveCommas(FirstToken(text)) == ""
    ensures ParseTotal(TimedOut) == "0" && ParseTotal(Absent) == "0"
    ensures ParseTotal(Shown(text)) == "0"
  {
    if text != "" && FirstToken(text) == "" {
      assert RemoveCommas("0") == "0";
    }
  }

  /** "1,234" loses its comma and keeps its digits in order. */
  lemma RemoveCommasExample()
    ensures RemoveCommas("1,234") == "1234"
  {
    assert "1,234"[1..] == ",234" && ",234"[1..] == "234";
    assert RemoveCommas("234") == "234";
    assert RemoveCommas(",234") == "234";
  }

  /** "1,234 results" gives "1234". */
  lemma ParseTotalExample()
    ensures ParseTotal(Shown("1,234 results")) == "1234"
  {
    RemoveCommasExample();
    assert "1,234 results" == "1,234" + " " + "results";
    ParseTotalTakesFirstWord("1,234", "results");
  }

  // ---------------------------------------------------------------------
  // `currentJobIndex > totalJobCount`: a number compared with a string
  // ---------------------------------------------------------------------

  /** The number JavaScript converts the total string to, or NaN. */
  datatype JobCount = Count(n: nat) | NotANumber

  function DecimalValue(s: string): nat
    requires forall i :: 0 <= i < |s| ==> IsDigit(s[i])
  {
    if |s| == 0 then 0
    else
      var last := s[|s| - 1];
      assert IsDigit(last);
      10 * DecimalValue(s[..|s| - 1]) + (last as int - '0' as int)
  }

  /** `Number(s)` on strings made of decimal digits; every other string counts as NaN. */
  function ToCount(s: string): JobCount
  {
    if forall i :: 0 <= i < |s| ==> IsDigit(s[i]) then Count(DecimalValue(s)) else NotANumber
  }

  /** The decimal rendering of `n`, without leading zeros. */
  function Decimal(n: nat): (r: string)
    ensures |r| > 0 && forall i :: 0 <= i < |r| ==> IsDigit(r[i])
  {
    var digit := ('0' as int + n % 10) as char;
    if n < 10 then [digit] else Decimal(n / 10) + [digit]
  }

  /** Reading the decimal rendering of any count gives that count back. */
  lemma {:induction false} ToCountOfDecimal(n: nat)
    ensures ToCount(Decimal(n)) == Count(n)
  {
    var d := Decimal(n);
    var digit := ('0' as int + n % 10) as char;
    assert d[|d| - 1] == digit;
    if n < 10 {
      assert d[..|d| - 1] == "";
      assert DecimalValue(d) == 10 * DecimalValue("") + n % 10;
    } else {
      ToCountOfDecimal(n / 10);
      assert d[..|d| - 1] == Decimal(n / 10);
      assert DecimalValue(d) == 10 * DecimalValue(Decimal(n / 10)) + n % 10;
    }
  }

  /** `index > total`: false whenever the total is NaN. */
  predicate Exceeds(index: int, total: JobCount)
  {
    total.Count? && index > total.n
  }

  /** A subtitle that cannot be read yields a count of 0, so the very first job slot ends the run. */
  lemma UnreadableSubtitleCountsZero()
    ensures ToCount(ParseTotal(TimedOut)) == Count(0)
    ensures Exceeds(1, ToCount(ParseTotal(TimedOut)))
  {
    assert DecimalValue("0") == 10 * DecimalValue("") + 0;
  }

  /** A subtitle whose first word is not a number ("No results") yields NaN: the counter never stops the run. */
  lemma WordySubtitleNeverStops(index: int)
    ensures ToCount(ParseTotal(Shown("No matching jobs"))) == NotANumber
    ensures !Exceeds(index, ToCount(ParseTotal(Shown("No matching jobs"))))
  {
    assert "No matching jobs" == "No" + " " + "matching jobs";
    assert RemoveCommas("No") == "No";
    ParseTotalTakesFirstWord("No", "matching jobs");
    assert !IsDigit("No"[0]);
  }

  /** "1,234 results" counts 1234 jobs. */
  lemma CountExample()
    ensures ToCount(ParseTotal(Shown("1,234 results"))) == Count(1234)
  {
    ParseTotalExample();
    DecimalExample();
  }

  lemma DecimalExample()
    ensures ToCount("1234") == Count(1234)
  {
    assert DecimalValue("1") == 1 by { assert "1"[..0] == ""; }
    assert DecimalValue("12") == 12 by { assert "12"[..1] == "1"; }
    assert DecimalValue("123") == 123 by { assert "123"[..2] == "12"; }
    assert DecimalValue("1234") == 1234 by { assert "1234"[..3] == "123"; }
  }
}
