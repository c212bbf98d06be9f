# LinkedIn Easy Apply orchestrator — a verified model of its decision logic

The orchestrator is a Puppeteer script (`index.js`). It logs in and filters a job search. Then its run loop `fillAndApply` goes through the result pages and applies to each job offering Easy Apply, handing one CSV row (`Applied` or `Skipped`) per application it attempts to an unawaited writer. This project models, in Dafny, the decisions the script makes inside that browser plumbing. Every DOM probe (is a button there, what does a label say, did a click go through) is an input of the model:

- `text.dfy` (`Text`): `toLowerCase` on ASCII, `includes`, and the regex character classes `\w` and `[a-zA-Z0-9]`.
- `locator.dfy` (`Locator`): first-success candidate lists (`getEasyApplySelector`, the selector loops of the form driver) and the boolean result of `clickElement`.
- `eligibility.dfy` (`Eligibility`): the avoided-company check and the whole-word avoided-title regular expression, with the escaping of its alternatives.
- `dedup.dfy` (`Dedup`): the duplicate-page guard over the global `previousJobs` set.
- `total_count.dfy` (`TotalCount`): `getTotalJobResult`, and how `currentJobIndex > totalJobCount` compares a number with that string.
- `pagination.dfy` (`Pagination`): the two rules of `getNextButton`.
- `field_policy.dfy` (`FieldPolicy`): the radio, drop-down and text/number defaults of the multi-step branch.
- `form_driver.dfy` (`FormDriver`): `handleApplicationForm` (at most 8 attempts), `handleJobApplication`, and the 30-poll wait for the final page.
- `controller.dfy` (`Controller`): `fillAndApply`. The pure functions `SlotSpec`, `SlotsFrom`, `PagesFrom`, `StartFrom` and `RunSpec` say what a run does. The class `RunController` runs it step by step over its fields and is proved to follow them.

The site is a value `Site`. It holds the subtitle probe, the pagination seen by the start-page loop on each page number, and the page loads the main loop sees, in order. Each load has its job ids, what each job slot shows, and the pagination after the job loop. The two `exit(0)` calls and the exception that escapes `fillAndApply` are terminal outcomes of the run (`RunOutcome`). The rows handed to `writeInCSV` are the ghost field `report` of the controller; the file may hold fewer (see "## Left out").

## Model

Rows marked "Corrected reading" belong to the intended form driver of the first row of "## Findings". The controller itself follows the code as written.

| member | source | states |
|---|---|---|
| Locator.FirstTrue | index.js:150-159 | The index returned is the first candidate that succeeded; None exactly when all failed. |
| Locator.TryInOrder | index.js:150-159 | Trying candidates in order stops at the first success; exactly that many are tried, or all of them when none succeeds. |
| Locator.GetEasyApplySelector | index.js:142-160 | The answer is the first selector, in priority order, whose wait resolves; null exactly when none resolves. |
| Locator.CssWithoutColonC | index.js:89-116 | A selector in which no colon is followed by `c` holds no `:contains(`, so `IsCssSelector` accepts it. For the script's own selector lists this means both the wait and the in-page lookup accept it. |
| Locator.ClickElement | index.js:89-116 | `clickElement` reports success only for a CSS selector. For a CSS selector it reports failure exactly when the element appeared and then vanished before the lookup. A valid selector that never appears, or whose direct click throws, still reports success through the fallback. |
| Text.LowerIdempotent | index.js:685-687 | Lower-casing twice is lower-casing once. |
| Text.LowerAppend | index.js:685-687 | Lower-casing distributes over concatenation. |
| Text.LowerSlice | index.js:697-707 | Lower-casing commutes with taking a slice. |
| Text.ContainsAt | index.js:685-687 | A needle found at an offset is contained. |
| Text.ContainsEmpty | index.js:685-687 | The empty needle is contained in every string. |
| Eligibility.CompanyAvoided | index.js:684-687 | A company is avoided only when its name is known and the avoided list is not empty. |
| Eligibility.CompanyAvoidedBy | index.js:685-687 | A company is avoided as soon as one entry's lower-cased text occurs in its lower-cased name. |
| Eligibility.NullCompanyNeverAvoided | index.js:685-687 | A missing company name is never avoided, because of the optional chaining. |
| Eligibility.CompanyAvoidedIgnoresCase | index.js:685-687 | Avoidance is case-insensitive substring containment on both sides. |
| Eligibility.EmptyEntryAvoidsEveryCompany | index.js:685-687 | An empty string among the avoided companies excludes every job with a known company. |
| Eligibility.RecruitingAgencyAvoided | index.js:685-692 | "Acme Recruiting Partners" is excluded by "recruiting". |
| Eligibility.EscapeBounds | index.js:700 | Escaping adds at most one backslash per character and leaves a title without metacharacters unchanged. |
| Eligibility.ReadAlternatives | index.js:697-703 | Reading a group body yields at least one alternative. |
| Eligibility.Alternatives | index.js:697-703 | The pattern always holds at least one alternative; no titles leave one empty alternative. |
| Eligibility.ReadEscaped | index.js:700 | An escaped title reads back as the same literal characters. |
| Eligibility.ReadEscapedChar | index.js:700 | One escaped character reads back as that literal character, whether or not it needed a backslash. |
| Eligibility.EscapedTitlesReadBack | index.js:697-703 | The escaped titles joined with `|` read back as exactly the avoided titles, as literal alternatives, whatever metacharacters they hold. |
| Eligibility.TitleAvoided | index.js:697-704 | A rejected title holds a word character, because the pattern starts with `\b`. |
| Eligibility.TitleAvoidedAt | index.js:697-704 | A title is rejected when some alternative matches at a position: same text ignoring case, `\b` before, and `\b` or a non-alphanumeric after. |
| Eligibility.NoMatchAt | index.js:697-704 | No alternative matches where its first character differs, ignoring case. |
| Eligibility.NotAvoidedWithSingleCandidate | index.js:697-707 | A title whose only position holding the alternative's first character, ignoring case, does not match there is not rejected. |
| Eligibility.WholeWordAvoided | index.js:697-707 | A whole-word, case-insensitive occurrence of an alphanumeric avoided title rejects the job. |
| Eligibility.SeniorJavaEngineerAvoided | index.js:697-707 | "Senior Java Engineer" is rejected by "Java". |
| Eligibility.JavascriptEngineerNotAvoided | index.js:697-707 | "Javascript Engineer" is not rejected by "Java". |
| Eligibility.UnderscoreAfterStillAvoided | index.js:699-701 | "Java_Developer" is rejected: `_` fails `\b` but passes `[^a-zA-Z0-9]`. |
| Eligibility.UnderscoreBeforeNotAvoided | index.js:699-701 | "Senior_Java" is not rejected: there is no `\b` between `_` and `J`. |
| Eligibility.TrailingSymbolTitle | index.js:699-701 | "C++" rejects "C++ Developer" but not "Senior C++". |
| Eligibility.EmptyTitleListRejectsWords | index.js:697-707 | With no avoided titles, exactly the titles holding a word character are rejected. |
| Eligibility.EmptyTitleListRejectsEngineer | index.js:697-707 | With no avoided titles, the job "Engineer" is rejected. |
| Eligibility.IntendedTitleCheck | index.js:697-707 | Corrected title check: no avoided titles reject nothing, and a non-empty list behaves exactly like the pattern. |
| Eligibility.FirstWordChar | index.js:699 | Before any word character there is a first one, and `\b` holds in front of it. |
| Eligibility.MissingTitleReadsAsNull | index.js:694-704 | A missing title is tested as the string "null". |
| Eligibility.AvoidedTitleContainsAlternative | index.js:697-707 | A rejected title contains some alternative as a case-insensitive substring. |
| Dedup.NewJobs | index.js:655 | The new ids are exactly the page's ids not seen before. |
| Dedup.NothingNewIffAllSeen | index.js:655-658 | A page brings nothing new exactly when all its ids were seen; a page without cards never does. |
| Dedup.RevisitBringsNothing | index.js:655-661 | Once a page's ids are added, the same page brings nothing new. |
| TotalCount.FirstToken | index.js:399 | The token is the longest space-free prefix. |
| TotalCount.RemoveCommas | index.js:402 | The result has no commas and only characters of the input; a string without commas is returned unchanged. |
| TotalCount.RemoveCommasKeepsOthers | index.js:402 | Every character other than a comma is kept, each as often as in the input. |
| TotalCount.RemoveCommasAppend | index.js:402 | Removing commas distributes over concatenation, so the kept characters stay in order. |
| TotalCount.ParseTotal | index.js:390-406 | The total string is never empty and holds no comma and no space. |
| TotalCount.ParseTotalTakesFirstWord | index.js:397-403 | The total is the first space-separated word with its commas removed, whatever follows. |
| TotalCount.FirstTokenOfWord | index.js:399 | The first token of a word followed by a space is that word. |
| TotalCount.ParseTotalFallsBackToZero | index.js:398-406 | A timeout, a missing element, or an empty or comma-only first word give "0". |
| TotalCount.RemoveCommasExample | index.js:402 | "1,234" becomes "1234". |
| TotalCount.ParseTotalExample | index.js:397-403 | "1,234 results" gives "1234". |
| TotalCount.Decimal | index.js:664 | A decimal rendering is a non-empty string of digits. |
| TotalCount.ToCountOfDecimal | index.js:664 | The comparison reads back any count written in decimal as that count. |
| TotalCount.UnreadableSubtitleCountsZero | index.js:404-406 | An unreadable subtitle gives a count of 0, which already stops the first job slot at the check of index.js:664. |
| TotalCount.WordySubtitleNeverStops | index.js:399-402 | A subtitle whose first word is not a number converts to NaN, and the counter check of index.js:664 never stops the run. |
| TotalCount.CountExample | index.js:397-403 | "1,234 results" is compared as 1234 by the check of index.js:664. |
| TotalCount.DecimalExample | index.js:664 | The string "1234" converts to the number 1234. |
| Pagination.NextButtonIsEnabled | index.js:419-469 | `getNextButton` returns a selector only for a non-empty aria-label of an enabled button found by one of the two rules, the primary rule whenever it applies. It returns null exactly when the bar is missing or neither rule finds one. |
| Pagination.NoActiveIndicatorNoNextPage | index.js:427-457 | Without an active indicator there is no next page. |
| Pagination.LastPageExample | index.js:425-464 | A disabled or missing next button gives null; an enabled "Page 2" gives its selector. |
| FieldPolicy.ClickedRadios | index.js:775-781 | The radios clicked are exactly those whose first label says yes or oui, in document order. |
| FieldPolicy.ClickedFrom | index.js:775-781 | From a given radio on, the radios clicked are exactly those whose first label says yes or oui, in increasing position. |
| FieldPolicy.ChooseOption | index.js:786-800 | The drop-down gets the first yes/oui option, else the first option with a non-empty value, else stays unchanged. |
| FieldPolicy.SelectValue | index.js:786-800 | The drop-down keeps its value when no option says yes and none has a value; otherwise it takes the value of one of its options, the one `ChooseOption` picks. |
| FieldPolicy.PlaceholderAndNoAreNotYes | index.js:788-791 | Neither "Select an option" nor "No" counts as a yes option. |
| FieldPolicy.YesOptionPicked | index.js:788-793 | "Yes" is picked over an earlier "No". |
| FieldPolicy.FirstValuedOptionPicked | index.js:794-799 | With no yes option, the first option with a value wins. |
| FieldPolicy.DefaultValue | index.js:810-834 | The value typed is one of "5", "85000" or " ". |
| FieldPolicy.DefaultValuePolicy | index.js:812-834 | Experience or years give 5 and win over salary; salary gives 85000; other number inputs get 5 and other text inputs a space; never empty. |
| FieldPolicy.DefaultValueIgnoresCase | index.js:807-809 | The case of a field's texts does not change its value. |
| FieldPolicy.NormalisedLowerAll | index.js:807-809 | Normalising an already lower-cased text changes nothing. |
| FieldPolicy.YearsOfExperienceExample | index.js:813-819 | "Years of Experience" gets 5 even when the placeholder says salary. |
| FieldPolicy.ExpectedSalaryWords | index.js:813-818 | "expected salary" mentions neither experience nor years. |
| FieldPolicy.SalaryExample | index.js:822-825 | "Expected salary" gets 85000. |
| FormDriver.FirstSubmitSelectorIsCss | index.js:488 | `button[aria-label*="Submit"]` is a valid CSS selector. |
| FormDriver.SecondSubmitSelectorIsNotCss | index.js:489 | `button:contains("Submit")` is not a CSS selector. |
| FormDriver.ThirdSubmitSelectorIsCss | index.js:490 | `button.jobs-apply-button` is a valid CSS selector. |
| FormDriver.NextSelectorsAreCss | index.js:475-482 | Every next-button selector is valid CSS. |
| FormDriver.DriveFrom | index.js:503-555 | The loop stops within the 8 attempts. |
| FormDriver.DriveFromMeaning | index.js:503-555 | The loop stops at the first attempt that does not go on, or after the eighth. It reports completion exactly when it stopped early on a successful submit click or on a screen with nothing to click. |
| FormDriver.DriveSkip | index.js:503-555 | Attempts that all went on can be skipped: the loop's outcome is decided after them. |
| FormDriver.SomeVisibleInPage | index.js:508-513 | The in-page check answers true only for a visible selector, and throws only because of a selector that is not CSS. |
| FormDriver.AttemptAsWritten | index.js:504-553 | As written, a submit result only ever comes from a screen rendering `button[aria-label*="Submit"]`, and success needs a submit click that went through. |
| FormDriver.AsWrittenOnlyFirstSubmitSelector | index.js:508-513 | As written, an attempt either meets a rendered `button[aria-label*="Submit"]` and clicks submit, or throws: next and review are never tried. |
| FormDriver.TryAttemptAsWritten | index.js:504-553 | One attempt of the code as written ends as the as-written attempt says. |
| FormDriver.HandleApplicationFormAsWritten | index.js:499-563 | The loop as written returns the flag and attempt count of the loop specification over as-written attempts: at most 8, completed only before the eighth. |
| FormDriver.HandleJobApplication | index.js:566-588 | The application counts as applied exactly when the as-written form loop completed the form. |
| FormDriver.CompletedAsWrittenIff | index.js:499-563 | As written, a form is completed exactly when, within 8 attempts, a screen renders `button[aria-label*="Submit"]` and a submit click goes through, every earlier screen lacking that button. |
| FormDriver.AsWrittenNeverCompletesWithoutFirstSubmit | index.js:499-563 | As written, a form never showing that first submit selector is never completed. |
| FormDriver.JobsApplyButtonOnlyScreen | index.js:499-563 | A screen whose only submit button is `button.jobs-apply-button` is abandoned as written but submitted as intended. |
| FormDriver.Attempt | index.js:504-553 | Corrected reading: "nothing to click" only when the first next button appeared and vanished; a failed submit only when both CSS submit buttons appeared and vanished. |
| FormDriver.NothingToClickOnlyByVanishing | index.js:526-548 | Corrected reading: an attempt finds nothing to click only when every next button appeared and then vanished before its lookup. |
| FormDriver.SubmitClicks | index.js:515-524 | The submit loop reports success exactly when some submit selector's click went through. |
| FormDriver.ClickNextOrReview | index.js:526-543 | The next and review loops report a click exactly when some next or some review selector's click went through. |
| FormDriver.TryAttempt | index.js:504-553 | Corrected reading: one attempt ends as the attempt specification says. |
| FormDriver.HandleApplicationForm | index.js:499-563 | Corrected reading: the loop returns the flag and attempt count of the loop specification, at most 8 attempts, completed only before the eighth. |
| FormDriver.CompletedIffSomeAttempt | index.js:499-563 | Corrected reading: a form is completed exactly when, within 8 attempts, one attempt submitted or found nothing to click after attempts that all threw or advanced. |
| FormDriver.FormCompletedMeans | index.js:499-563 | Corrected reading: completion within 8 attempts exactly on a successful submit click, or on a screen with no submit button where neither next nor review could be clicked. Failure exactly when the attempts ran out, or a visible submit button could not be clicked. |
| FormDriver.SubmitOnFirstScreen | index.js:515-524 | Corrected reading: a visible, clickable submit on the first screen completes at once. |
| FormDriver.EndlessNextNotCompleted | index.js:503-555 | A form on which every attempt throws or advances exhausts the 8 attempts uncompleted. |
| FormDriver.AwaitFromMeaning | index.js:848-873 | The wait polls at most 30 times. It reaches the final page exactly when a poll, before any modal and within budget, finds no next button. Finding the modal sets the counter to -2 and leaves the final-page flag false. |
| FormDriver.AwaitFinalPage | index.js:846-873 | The do-while computes what the wait specification says, in 1 to 30 polls. |
| FormDriver.NeverFinalGivesUp | index.js:848-886 | A dialog whose next button never goes away is given up after exactly 30 polls. |
| FormDriver.FinalPageIffSomePoll | index.js:848-873 | The wait reaches the final page exactly when, within 30 polls, one poll finds neither modal nor next button after polls that all found the next button and no modal. |
| Controller.SlotSpec | index.js:678-902 | A slot writes a row exactly when it has Easy Apply, an accepted company and title, no limit message and a footer button. The row carries the card's title and link. |
| Controller.SlotStep | index.js:663-902 | One turn of the job loop stops on the count exactly when the counter exceeds the total. Otherwise it raises the counter by one and appends the slot's row if it has one. It stops on the application limit exactly when an eligible slot (Easy Apply offered, company and title not avoided) shows the limit message. It aborts exactly when an eligible slot without that message has no footer button. It stops for no other reason. Page and seen ids stay as they were. |
| Controller.SlotsStopWitness | index.js:663-903 | A job loop that stops on the application limit reached an eligible slot showing the limit message. One that aborts reached an eligible slot without the message and without a footer button. |
| Controller.SlotsFrom | index.js:663-903 | The job loop of a page leaves page and seen ids alone, only appends rows and never lowers the counter. |
| Controller.Advance | index.js:904-963 | No next button or a failed scroll or fallback ends the run. Otherwise the page number rises by exactly one, on the verified path and on the fallback path alike. |
| Controller.PagesFrom | index.js:643-964 | The page loop only adds seen ids and rows and never lowers page or counter. |
| Controller.StartFrom | index.js:596-640 | The start-page loop never goes back and never passes the start page. |
| Controller.RunSpec | index.js:590-965 | A run only adds seen ids and rows and the counter starts at 1. An exception in the start-page loop aborts the run before any job is looked at. |
| Controller.SlotStatusMeaning | index.js:734-902 | A single-step application is Applied exactly when, within 8 attempts, a screen rendered `button[aria-label*="Submit"]` and a submit click went through, every earlier screen lacking that button. A multi-step one is Applied exactly when a poll found neither modal nor next button, after only polls that found the next button and no modal. |
| Controller.SlotsAccounting | index.js:663-903 | The job loop leaves page and seen ids alone and only appends rows. The counter rises by one per slot past the check, with at most one row each, and never passes total + 1. A stop on the count means the counter exceeds the total. |
| Controller.PagesAccounting | index.js:643-964 | The page loop only adds seen ids and rows, never lowers page or counter, writes at most one row per counted slot, and keeps the counter at or below total + 1. |
| Controller.RunAccounting | index.js:590-965 | Over a run, seen ids and rows only grow. With a numeric total n, at most n rows are written. A run ending on the count ends with the counter at exactly n + 1. |
| Controller.StartBounds | index.js:596-640 | The start-page loop moves one page per verified navigation and never past the start page. It stops at the first page without a next button or a verified navigation, and aborts exactly on a scroll failure there. |
| Controller.DefaultStartPage | index.js:596-640 | Without a configured start page (the default 2 of index.js:23) the run starts from page 2 after one verified navigation, and never beyond. |
| Controller.StalledPageStopsRun | index.js:648-658 | A pass showing only seen ids, or none, ends the run at once and changes nothing. |
| Controller.UnreadableTotalEndsAtFirstSlot | index.js:663-667 | With an unreadable subtitle the first slot of the first page with new ids ends the run on the count, before any row. |
| Controller.RecordedSlotStep | index.js:663-671 | A slot passing every check adds one to the counter and one row, the row written at index.js:897-902. |
| Controller.FirstPageOfThree | index.js:663-903 | With a total of 5, a page of three accepted jobs writes three rows and leaves the counter at 4. |
| Controller.SecondPageStopsAtTwo | index.js:663-903 | With a total of 5 and the counter at 4, two accepted jobs are written and the third slot stops the run on the count. |
| Controller.TwoPagesOfThreeWithTotalFive | index.js:590-965 | Two pages of three accepted jobs with "5 results": five rows handed to the writer (the fifth is the lost last row of "## Left out"), one move to page 2, and the run ends on the count at the third slot of page 2. |
| Controller.RunController.constructor | index.js:591-594 | A fresh controller has no seen ids (the global set of index.js:471) and no rows. |
| Controller.RunController.NavigateToStartPage | index.js:596-640 | The start-page loop ends where the start specification says, changing only the page number. |
| Controller.RunController.TrackPage | index.js:648-661 | The method reports new ids exactly when the page has an unseen id, and then adds all of the page's ids. Otherwise it changes nothing. |
| Controller.RunController.ProcessSlot | index.js:663-902 | One iteration of the job loop, with the as-written form driver, ends and changes the state as the slot specification says. |
| Controller.RunController.ProcessPage | index.js:663-903 | The job loop of a page ends and changes the state as the page's slot specification says. |
| Controller.RunController.AdvancePage | index.js:904-963 | The page advance sets the page number and `hasNextPage` as the advance specification says. |
| Controller.RunController.FillAndApply | index.js:590-965 | The whole run ends with the outcome and state of the run specification. |

## Left out

- Browser launch, login, cookies, `page.goto`, and the search filters `filterByKeywords`, `filterByLocation`, `easyApplyFilter`, `filterByTime`, `filterByType` and `filterAndSearch`. They are I/O against Puppeteer. Only `getEasyApplySelector`'s candidate list is modelled.
- `writeInCSV` is a fire-and-forget call into a CSV library. It is modelled as appending the row handed to it to the ghost field `report`; whether and when the file receives the row is not modelled, nor is a failing write.
- Lost last row: the write is not awaited (index.js:345-354), and in the same page the job loop goes from the write at index.js:898-902 straight to the counter check, whose `exit(0)` (index.js:664-666) runs with no await in between. A row handed over just before a `CountReached` stop in the same page is therefore very likely never written to the file, so the file can hold one row fewer than `report`. Rows handed over earlier are followed by awaited steps and are not affected.
- `pause`, all timeouts, `waitForNavigation` and `waitForFunction`. A wait is a probe that succeeded or failed (`NavOutcome`, the `appears` and `ClickAttempt` probes).
- Scrolling, the native value setter, event dispatch, console output, the i18n table and dotenv/configuration loading.
- `exit(0)` does not end a process here. It is the terminal outcome `CountReached` or `ApplyLimitReached`.
- The dismiss and discard clicks after a form and after an abandoned wait, and `closeJobApplicationDialog`. They cannot change a row or the run state.
- Exceptions from infrastructure (a crashed page, a destroyed execution context) are not modelled as a cause of their own. The exceptions the code itself provokes are: the null footer button (`Aborted`), and the jQuery selector `button:contains("Submit")` inside the in-page submit check (`Threw`). A third is the next-button selector `button[aria-label="…"]` built from the button's label (index.js:441, 459): a label holding `"` or ending in `\` makes it invalid. Then `page.click` throws, which ends the start-page loop (a navigation that did not verify) or sends the main loop to its fallback. There `document.querySelector` throws too (index.js:948-951), which is `FallbackFailed`. The navigation probe of a hop stands for these outcomes without deriving them from the label. Otherwise `ScrollFailed` and `FallbackFailed` stand for infrastructure failures of guarded evaluates.
- Locator.ClickElement: the in-page fallback completes exactly when the selector is valid CSS. A fallback that fails for any other reason (a crashed page) is not modelled.
- Controller.Config: the avoided titles are strings. A null entry would make the escaping at index.js:700 throw and abort the run; that case is not modelled.
- The controller does not track the values the field-fill policy writes. `FieldPolicy` models them on their own, because they never change a row or the run state.
- A site is a finite sequence of page loads, and a pass after the last load shows no job cards. The script's `while (hasNextPage)` loop has no bound of its own against a site that keeps producing new ids forever.
- Locator.IsCssSelector: recognises only `:contains(` as making a selector invalid, because it is the only invalid construct among the selectors the script writes itself. Other malformed selectors, such as an unclosed `a[`, count as valid CSS in the model.
- Text.Lower: lower-cases ASCII letters only, not the full Unicode case mapping of `toLowerCase`. The same holds for Eligibility.TitleAvoided and Eligibility.MatchesAt: the `i` flag of the title pattern (index.js:700-703) also matches non-ASCII letters case-insensitively (`É` against `é`), and the model does not.
- TotalCount.ToCount: converts only strings made of decimal digits. Every other string counts as NaN, although `Number()` also accepts forms such as "1e3", "0x10" or "1.5".
- Eligibility.TitleAvoided: models the one pattern the script builds, as a predicate over positions, not a general regular-expression engine. Its letters compare under ASCII case folding only (see the Text.Lower line).
- Pagination.GetNextButton: the page is an abstract list of indicators with their siblings. An exception inside the lookup gives null, like the catch at index.js:465-468.

## Findings

| source | as written | input that shows it | evidently intended | confidence | as-written member | corrected member |
|---|---|---|---|---|---|---|
| index.js:487-491, 508-513 | The submit list holds `button:contains("Submit")`, a jQuery pseudo-class that `document.querySelector` rejects. The in-page `some` throws whenever `button[aria-label*="Submit"]` is not a rendered button. The attempt is then caught and counted, so next and review are never tried and the form is abandoned after 8 attempts. A single-step application that the footer click really submitted is therefore recorded `Skipped`, unless `button[aria-label*="Submit"]` is still rendered afterwards. | A screen whose only submit button is `button.jobs-apply-button`, or one that only shows a Next button | Check the submit selectors in order; otherwise try next, then review | high (not executed) | FormDriver.AttemptAsWritten, with FormDriver.JobsApplyButtonOnlyScreen and FormDriver.AsWrittenNeverCompletesWithoutFirstSubmit | FormDriver.Attempt, with FormDriver.FormCompletedMeans and FormDriver.HandleApplicationForm |
| index.js:697-703 | With an empty list of avoided titles the group is empty, and `\b()(?=\b|[^a-zA-Z0-9])` matches at any word boundary. Every job whose title holds a letter, a digit or `_` is skipped as an avoided title. The corrected check is simply that an empty list rejects nothing. | No avoided titles and the job title "Engineer" | An empty list avoids no title | medium (not executed) | Eligibility.EmptyTitleListRejectsEngineer, with Eligibility.EmptyTitleListRejectsWords | Eligibility.TitleAvoidedIntended, with Eligibility.IntendedTitleCheck |

The controller follows the code as written: `HandleJobApplication` runs `HandleApplicationFormAsWritten`, and the title check is `TitleAvoided`. `Attempt`, `TryAttempt` and `HandleApplicationForm` are the corrected form driver, and the properties of the "Corrected reading" rows are proved about them.
