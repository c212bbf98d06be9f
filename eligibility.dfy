/**
 * Job Eligibility Filter: the company check and the avoided-title regular
 * expression that `fillAndApply` applies to every job before its apply
 * button is touched. Company and title are what the page showed, null when
 * the element was missing.
 */
module Eligibility {
  import opened Common
  import opened Text

  // ---------------------------------------------------------------------
  // Company check: some avoided entry, lower-cased, occurs in the lower-cased company name
  // ---------------------------------------------------------------------

  /** The argument `includes` receives for one avoided company: a null entry becomes the string "undefined". */
  function AvoidKey(name: Option<string>): string
  {
    match name
    case Some(n) => Lower(n)
    case None => "undefined"
  }

  /** A company is avoided when its lower-cased name contains some lower-cased avoided name; a null company never is. */
  predicate CompanyAvoided(company: Option<string>, avoid: seq<Option<string>>): (r: bool)
    ensures r ==> company.Some? && |avoid| > 0
  {
    company.Some? && exists k | 0 <= k < |avoid| :: Contains(Lower(company.value), AvoidKey(avoid[k]))
  }

  /** A witness for `CompanyAvoided`: entry k of the avoided companies is found in the name. */
  lemma CompanyAvoidedBy(company: string, avoid: seq<Option<string>>, k: nat)
    requires k < |avoid| && Contains(Lower(company), AvoidKey(avoid[k]))
    ensures CompanyAvoided(Some(company), avoid)
  {
  }

  lemma NullCompanyNeverAvoided(avoid: seq<Option<string>>)
    ensures !CompanyAvoided(None, avoid)
  {
  }

  /** Upper and lower case make no difference on either side of the comparison. */
  lemma CompanyAvoidedIgnoresCase(company: string, entry: string)
    ensures CompanyAvoided(Some(company), [Some(entry)]) <==> Contains(Lower(company), Lower(entry))
    ensures CompanyAvoided(Some(company), [Some(entry)]) == CompanyAvoided(Some(Lower(company)), [Some(Lower(entry))])
  {
    LowerIdempotent(company);
    LowerIdempotent(entry);
    assert [Some(entry)][0] == Some(entry);
    assert [Some(Lower(entry))][0] == Some(Lower(entry));
  }

  /** An empty string among the avoided companies excludes every job whose company name is known. */
  lemma EmptyEntryAvoidsEveryCompany(company: string, avoid: seq<Option<string>>, k: nat)
    requires k < |avoid| && avoid[k] == Some("")
    ensures CompanyAvoided(Some(company), avoid)
  {
    ContainsEmpty(Lower(company));
    assert AvoidKey(avoid[k]) == "";
    CompanyAvoidedBy(company, avoid, k);
  }

  /** "Acme Recruiting Partners" is rejected by the avoided substring "recruiting". */
  lemma RecruitingAgencyAvoided()
    ensures CompanyAvoided(Some("Acme Recruiting Partners"), [Some("recruiting")])
  {
    var pre, word, post := "Acme ", "Recruiting", " Partners";
    var key := "recruiting";
    assert "Acme Recruiting Partners" == pre + word + post;
    LowerAppend(pre + word, post);
    LowerAppend(pre, word);
    assert Lower(word) == key;
    var c := Lower("Acme Recruiting Partners");
    assert c == Lower(pre) + key + Lower(post);
    assert c[|pre|..|pre| + |key|] == key;
    assert AvoidKey(Some(key)) == key;
    ContainsAt(c, key, |pre|);
    CompanyAvoidedBy("Acme Recruiting Partners", [Some("recruiting")], 0);
  }

  // ---------------------------------------------------------------------
  // Title check: a case-insensitive pattern whose group holds one escaped
  // alternative per avoided title, preceded by a word boundary and followed
  // by a word boundary or a character outside [a-zA-Z0-9]
  // ---------------------------------------------------------------------

  /** The characters the title escaping prefixes with a backslash: `. * + ? ^ $ { } ( ) | [ ] \`. */
  predicate IsRegexSpecial(c: char)
  {
    c in ".*+?^${}()|[]\\"
  }

  /** Every metacharacter of a title gets a backslash in front of it; other characters stay as they are. */
  function Escape(t: string): string
  {
    if t == [] then [] else EscapeChar(t[0]) + Escape(t[1..])
  }

  function EscapeChar(c: char): string
  {
    if IsRegexSpecial(c) then ['\\', c] else [c]
  }

  /**
   * Escaping adds at most one backslash per character, and a title without
   * metacharacters is left exactly as it is.
   */
  lemma {:induction false} EscapeBounds(t: string)
    ensures |t| <= |Escape(t)| <= 2 * |t|
    ensures (forall i | 0 <= i < |t| :: !IsRegexSpecial(t[i])) ==> Escape(t) == t
  {
    if t != [] {
      EscapeBounds(t[1..]);
      assert t == [t[0]] + t[1..];
      if forall i | 0 <= i < |t| :: !IsRegexSpecial(t[i]) {
        assert !IsRegexSpecial(t[0]);
        assert forall i | 0 <= i < |t[1..]| :: !IsRegexSpecial(t[1..][i]) by {
          forall i | 0 <= i < |t[1..]| ensures !IsRegexSpecial(t[1..][i]) {
            assert t[1..][i] == t[i + 1];
          }
        }
      }
    }
  }

  /** The escaped titles joined with `|`, the body of the capturing group. */
  function JoinEscaped(titles: seq<string>): string
  {
    if |titles| == 0 then ""
    else if |titles| == 1 then Escape(titles[0])
    else Escape(titles[0]) + "|" + JoinEscaped(titles[1..])
  }

  /**
   * How a regular expression engine reads a group body made only of literal
   * characters, backslash escapes and `|`: the list of literal alternatives.
   * `cur` is the alternative read so far.
   */
  function ReadAlternatives(p: string, cur: string): (r: seq<string>)
    ensures |r| >= 1
    decreases |p|
  {
    if |p| == 0 then [cur]
    else if p[0] == '\\' && |p| >= 2 then ReadAlternatives(p[2..], cur + [p[1]])
    else if p[0] == '|' then [cur] + ReadAlternatives(p[1..], "")
    else ReadAlternatives(p[1..], cur + [p[0]])
  }

  /** The alternatives the pattern holds: joining no titles leaves one empty alternative. */
  function Alternatives(titles: seq<string>): (r: seq<string>)
    ensures |r| >= 1
  {
    if titles == [] then [""] else titles
  }

  /** One escaped character reads back as that character. */
  lemma ReadEscapedChar(c: char, q: string, cur: string)
    ensures ReadAlternatives(EscapeChar(c) + q, cur) == ReadAlternatives(q, cur + [c])
  {
    var p := EscapeChar(c) + q;
    if IsRegexSpecial(c) {
      assert p[0] == '\\' && p[1] == c && p[2..] == q;
    } else {
      assert c != '\\' && c != '|';
      assert p[0] == c && p[1..] == q;
    }
  }

  lemma {:induction false} ReadEscaped(t: string, rest: string, cur: string)
    ensures ReadAlternatives(Escape(t) + rest, cur) == ReadAlternatives(rest, cur + t)
    decreases |t|
  {
    if t == [] {
      assert Escape(t) + rest == rest;
      assert cur + t == cur;
    } else {
      var q := Escape(t[1..]) + rest;
      assert Escape(t) + rest == EscapeChar(t[0]) + q;
      ReadEscapedChar(t[0], q, cur);
      ReadEscaped(t[1..], rest, cur + [t[0]]);
      assert cur + [t[0]] + t[1..] == cur + t;
    }
  }

  /**
   * Escaping does what it is for: read back as a pattern, the joined group
   * body yields exactly the avoided titles, as literal strings, one
   * alternative each, whatever metacharacters they hold.
   */
  lemma {:induction false} EscapedTitlesReadBack(titles: seq<string>)
    ensures ReadAlternatives(JoinEscaped(titles), "") == Alternatives(titles)
    decreases |titles|
  {
    if |titles| == 0 {
    } else if |titles| == 1 {
      ReadEscaped(titles[0], "", "");
      assert Escape(titles[0]) + "" == Escape(titles[0]);
      assert "" + titles[0] == titles[0];
    } else {
      var j := JoinEscaped(titles[1..]);
      ReadEscaped(titles[0], "|" + j, "");
      assert JoinEscaped(titles) == Escape(titles[0]) + ("|" + j);
      assert "" + titles[0] == titles[0];
      assert ("|" + j)[1..] == j;
      EscapedTitlesReadBack(titles[1..]);
      assert [titles[0]] + titles[1..] == titles;
    }
  }

  /** The string `test` examines: a null title is converted to "null". */
  function TitleText(title: Option<string>): string
  {
    match title
    case Some(t) => t
    case None => "null"
  }

  /** `\b` at position i: exactly one of the characters on either side is a word character. */
  predicate WordBoundary(s: string, i: int)
    requires 0 <= i <= |s|
  {
    (i > 0 && IsWordChar(s[i - 1])) != (i < |s| && IsWordChar(s[i]))
  }

  /** `(?=\b|[^a-zA-Z0-9])` at position j; `_` passes the second branch although it is a word character. */
  predicate WordEnd(s: string, j: int)
    requires 0 <= j <= |s|
  {
    WordBoundary(s, j) || (j < |s| && !IsAlnum(s[j]))
  }

  /** Alternative `t` matches, ignoring case, starting at position i of s. */
  predicate MatchesAt(s: string, t: string, i: int)
  {
    0 <= i && i + |t| <= |s| && Lower(s[i..i + |t|]) == Lower(t) && WordBoundary(s, i) && WordEnd(s, i + |t|)
  }

  /** The regular expression test: some alternative matches at some position. */
  predicate TitleAvoided(title: Option<string>, titles: seq<string>): (r: bool)
    ensures r ==> exists j | 0 <= j < |TitleText(title)| :: IsWordChar(TitleText(title)[j])
  {
    var s := TitleText(title);
    var alts := Alternatives(titles);
    exists i, k | 0 <= i <= |s| && 0 <= k < |alts| :: MatchesAt(s, alts[k], i)
  }

  /** A witness for `TitleAvoided`: alternative k matches at position i. */
  lemma TitleAvoidedAt(title: Option<string>, titles: seq<string>, i: int, k: nat)
    requires k < |Alternatives(titles)| && MatchesAt(TitleText(title), Alternatives(titles)[k], i)
    ensures TitleAvoided(title, titles)
  {
  }

  /** No alternative matches where its first character differs, ignoring case. */
  lemma NoMatchAt(s: string, t: string, i: int)
    requires 0 <= i < |s| && |t| > 0 && LowerChar(s[i]) != LowerChar(t[0])
    ensures !MatchesAt(s, t, i)
  {
    if i + |t| <= |s| {
      assert Lower(s[i..i + |t|])[0] == LowerChar(s[i]);
    }
  }

  /**
   * A whole-word occurrence is rejected: an avoided title that begins and
   * ends with a letter or digit, found in any case, with no word character
   * right before or right after it.
   */
  lemma WholeWordAvoided(pre: string, w: string, post: string, titles: seq<string>, k: nat)
    requires k < |titles| && |titles[k]| > 0
    requires IsAlnum(titles[k][0]) && IsAlnum(titles[k][|titles[k]| - 1])
    requires Lower(w) == Lower(titles[k])
    requires pre == [] || !IsWordChar(pre[|pre| - 1])
    requires post == [] || !IsWordChar(post[0])
    ensures TitleAvoided(Some(pre + w + post), titles)
  {
    var s := pre + w + post;
    var t := titles[k];
    var i := |pre|;
    assert s[i..i + |t|] == w;
    assert LowerChar(w[0]) == LowerChar(t[0]);
    assert LowerChar(w[|w| - 1]) == LowerChar(t[|t| - 1]);
    assert s[i] == w[0] && s[i + |t| - 1] == w[|w| - 1];
    assert WordBoundary(s, i);
    assert WordBoundary(s, i + |t|);
    assert Alternatives(titles)[k] == t;
    TitleAvoidedAt(Some(s), titles, i, k);
  }

  /** "Senior Java Engineer" is rejected by the avoided title "Java". */
  lemma SeniorJavaEngineerAvoided()
    ensures TitleAvoided(Some("Senior Java Engineer"), ["Java"])
  {
    assert "Senior Java Engineer" == "Senior " + "Java" + " Engineer";
    WholeWordAvoided("Senior ", "Java", " Engineer", ["Java"], 0);
  }

  /**
   * A title in which the avoided title's first letter (ignoring case) occurs
   * only at one position, where it does not match, is accepted.
   */
  lemma NotAvoidedWithSingleCandidate(s: string, t: string, only: nat)
    requires |t| > 0 && only < |s|
    requires forall i | 0 <= i < |s| && i != only :: LowerChar(s[i]) != LowerChar(t[0])
    requires !MatchesAt(s, t, only)
    ensures !TitleAvoided(Some(s), [t])
  {
    forall i | 0 <= i <= |s|
      ensures !MatchesAt(s, t, i)
    {
      if i < |s| && i != only {
        NoMatchAt(s, t, i);
      }
    }
    assert Alternatives([t]) == [t];
  }

  /** "Javascript Engineer" is accepted: the "s" after "Java" is neither a boundary nor outside [a-zA-Z0-9]. */
  lemma JavascriptEngineerNotAvoided()
    ensures !TitleAvoided(Some("Javascript Engineer"), ["Java"])
  {
    var rest := "avascript Engineer";
    var s := "J" + rest;
    assert 'j' !in rest && 'J' !in rest;
    forall i | 0 <= i < |s| && i != 0
      ensures LowerChar(s[i]) != LowerChar('J')
    {
      assert s[i] == rest[i - 1];
    }
    assert !WordEnd(s, 4) by {
      assert s[3] == 'a' && s[4] == 's';
    }
    NotAvoidedWithSingleCandidate(s, "Java", 0);
  }

  /** "Java_Developer" is rejected: `_` fails `\b` but passes `[^a-zA-Z0-9]`. */
  lemma UnderscoreAfterStillAvoided()
    ensures TitleAvoided(Some("Java_Developer"), ["Java"])
  {
    var s := "Java_Developer";
    assert s[0..4] == "Java" && s[0] == 'J' && s[3] == 'a' && s[4] == '_';
    TitleAvoidedAt(Some(s), ["Java"], 0, 0);
  }

  /** "Senior_Java" is accepted: there is no `\b` between `_` and `J`. */
  lemma UnderscoreBeforeNotAvoided()
    ensures !TitleAvoided(Some("Senior_Java"), ["Java"])
  {
    var head, tail := "Senior_", "ava";
    var s := head + "J" + tail;
    assert 'j' !in head && 'J' !in head && 'j' !in tail && 'J' !in tail;
    forall i | 0 <= i < |s| && i != 7
      ensures LowerChar(s[i]) != LowerChar('J')
    {
      if i < 7 {
        assert s[i] == head[i];
      } else {
        assert s[i] == tail[i - 8];
      }
    }
    assert !WordBoundary(s, 7) by {
      assert s[6] == '_' && s[7] == 'J';
    }
    NotAvoidedWithSingleCandidate(s, "Java", 7);
  }

  /**
   * A title ending in a non-word character is not matched at the very end of
   * the job title: "Senior C++" is accepted with "C++" avoided, while
   * "C++ Developer" is rejected.
   */
  lemma TrailingSymbolTitle()
    ensures !TitleAvoided(Some("Senior C++"), ["C++"])
    ensures TitleAvoided(Some("C++ Developer"), ["C++"])
  {
    var head, tail := "Senior ", "++";
    var s := head + "C" + tail;
    assert 'c' !in head && 'C' !in head && 'c' !in tail && 'C' !in tail;
    forall i | 0 <= i < |s| && i != 7
      ensures LowerChar(s[i]) != LowerChar('C')
    {
      if i < 7 {
        assert s[i] == head[i];
      } else {
        assert s[i] == tail[i - 8];
      }
    }
    assert !WordEnd(s, 10) by {
      assert s[9] == '+';
    }
    NotAvoidedWithSingleCandidate(s, "C++", 7);
    var u := "C++ Developer";
    assert u[0..3] == "C++" && u[0] == 'C' && u[2] == '+' && u[3] == ' ';
    TitleAvoidedAt(Some(u), ["C++"], 0, 0);
  }

  /**
   * With no avoided titles the pattern is `\b()(?=\b|[^a-zA-Z0-9])`: it
   * rejects exactly the titles holding a word character, and so a job whose
   * title is missing ("null") too.
   */
  lemma {:induction false} EmptyTitleListRejectsWords(title: Option<string>)
    ensures TitleAvoided(title, []) <==> exists j | 0 <= j < |TitleText(title)| :: IsWordChar(TitleText(title)[j])
  {
    var s := TitleText(title);
    if exists j | 0 <= j < |s| :: IsWordChar(s[j]) {
      var j :| 0 <= j < |s| && IsWordChar(s[j]);
      var i := FirstWordChar(s, j);
      assert s[i..i] == "";
      TitleAvoidedAt(title, [], i, 0);
    } else {
      forall i | 0 <= i <= |s|
        ensures !WordBoundary(s, i)
      {
      }
    }
  }

  /** As written, an empty list of avoided titles skips the job "Engineer". */
  lemma EmptyTitleListRejectsEngineer()
    ensures TitleAvoided(Some("Engineer"), [])
  {
    assert IsWordChar(TitleText(Some("Engineer"))[0]);
    EmptyTitleListRejectsWords(Some("Engineer"));
  }

  /** The title check as evidently intended: no avoided titles, no title skipped. */
  predicate TitleAvoidedIntended(title: Option<string>, titles: seq<string>)
  {
    |titles| > 0 && TitleAvoided(title, titles)
  }

  /**
   * The intended check skips nothing when no titles are avoided, and agrees
   * with the pattern whenever at least one title is.
   */
  lemma IntendedTitleCheck(title: Option<string>, titles: seq<string>)
    ensures titles == [] ==> !TitleAvoidedIntended(title, titles)
    ensures titles != [] ==> (TitleAvoidedIntended(title, titles) <==> TitleAvoided(title, titles))
  {
  }

  /** The first word character at or before position j, which a `\b` precedes. */
  lemma {:induction false} FirstWordChar(s: string, j: nat) returns (i: nat)
    requires j < |s| && IsWordChar(s[j])
    ensures i <= j && IsWordChar(s[i]) && WordBoundary(s, i)
    decreases j
  {
    if j == 0 || !IsWordChar(s[j - 1]) {
      i := j;
    } else {
      i := FirstWordChar(s, j - 1);
    }
  }

  /** A job title missing from the page is rejected when "null" is avoided. */
  lemma MissingTitleReadsAsNull()
    ensures TitleAvoided(None, ["null"])
  {
    assert "null"[0..4] == "null" && "null"[0] == 'n' && "null"[3] == 'l';
    TitleAvoidedAt(None, ["null"], 0, 0);
  }

  /** A whole-word match is in particular a case-insensitive substring match. */
  lemma AvoidedTitleContainsAlternative(title: Option<string>, titles: seq<string>)
    requires TitleAvoided(title, titles)
    ensures exists k | 0 <= k < |Alternatives(titles)| :: Contains(Lower(TitleText(title)), Lower(Alternatives(titles)[k]))
  {
    var s := TitleText(title);
    var alts := Alternatives(titles);
    var i, k :| 0 <= i <= |s| && 0 <= k < |alts| && MatchesAt(s, alts[k], i);
    LowerSlice(s, i, i + |alts[k]|);
    ContainsAt(Lower(s), Lower(alts[k]), i);
  }
}
