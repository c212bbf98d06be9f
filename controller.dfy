/**
 * `fillAndApply`: the run loop of the orchestrator. Every DOM probe is an
 * input: the page loads the loop sees one after another, and for each job
 * slot what the detail pane shows. The pure functions below say what a run
 * does; the class `RunController` does it step by step on its own state
 * and is proved to follow them.
 */
module Controller {
  import opened Common
  import Text
  import Dedup
  import Eligibility
  import TotalCount
  import Pagination
  import FormDriver

  /** The part of the configuration the run reads. */
  datatype Config = Config(
    jobsPerPage: int,                       // numberOfJobsPerPage
    avoidCompanies: seq<Option<string>>,    // entries may be null
    avoidJobTitles: seq<string>,
    startPage: Option<int>)                 // absent from the configuration: defaults to 2

  function StartPage(cfg: Config): int
  {
    match cfg.startPage
    case None => 2
    case Some(p) => p
  }

  /**
   * How an attempt to move to the next page goes once a next-button
   * selector is known: the scroll evaluate threw; the click with its
   * navigation wait succeeded and the active indicator then showed the
   * next number; that failed and the in-page fallback click ran (whether or
   * not it found the button); that failed and the fallback evaluate threw too.
   */
  datatype NavOutcome = ScrollFailed | Verified | FallbackClicked | FallbackFailed

  /** The pagination bar as `getNextButton` sees it, and how clicking its selector goes. */
  datatype Hop = Hop(pagination: Pagination.PaginationView, nav: NavOutcome)

  /**
   * What job slot `index` of a page shows once its card is clicked: whether
   * the Easy Apply button is there, the company, title and link read from
   * the top card (null when missing), the inline feedback message (None when
   * absent), the text of the dialog's footer button (None when there is no
   * such button), the single-step form screens attempt by attempt, and for
   * multi-step forms, poll by poll, whether the modal overlay button and the
   * second footer button are shown.
   */
  datatype Slot = Slot(
    hasApplyButton: bool,
    company: Option<string>,
    title: Option<string>,
    link: Option<string>,
    banner: Option<string>,
    footer: Option<string>,
    form: nat -> FormDriver.FormScreen,
    modalShown: nat -> bool,
    nextShown: nat -> bool)

  /** One pass of the page loop: the ids of the job cards, the slots, and the pagination afterwards. */
  datatype PageLoad = PageLoad(jobIds: seq<Dedup.JobId>, slot: nat -> Slot, hop: Hop)

  /**
   * The site as the run meets it: the result-list subtitle, the pagination
   * seen by the start-page loop on each page number, and the page loads of
   * the main loop in order. A pass after the last load shows no job cards.
   */
  datatype Site = Site(subtitle: TotalCount.SubtitleProbe, startHops: nat -> Hop, loads: seq<PageLoad>)

  datatype Status = Applied | Skipped

  /** A CSV row. */
  datatype Record = Record(jobTitle: Option<string>, link: Option<string>, status: Status)

  /** Why a run ended; the first three are the two `exit(0)` calls and an escaping exception. */
  datatype RunOutcome =
    | CountReached       // currentJobIndex > totalJobCount
    | ApplyLimitReached  // the Easy Apply limit message was shown
    | Aborted            // an exception escaped fillAndApply
    | NoNewJobs          // every job id of the page was seen before
    | NoMorePages        // getNextButton found nothing
    | NavigationFailed   // the page advance failed outside its inner try

  /** How one job slot ends, once it is past the counter check. */
  datatype SlotOutcome =
    | AlreadyApplied
    | CompanySkipped
    | TitleSkipped
    | LimitBanner
    | FooterMissing
    | Recorded(rec: Record)

  /** The state the run updates: the page number, the job counter, the seen ids and the rows handed to the CSV writer. */
  datatype RunState = RunState(currentPage: int, currentJobIndex: int, previousJobs: set<Dedup.JobId>, report: seq<Record>)

  // ---------------------------------------------------------------------
  // One job slot
  // ---------------------------------------------------------------------

  /** The application-limit banner is on the page and its text mentions "limit". */
  predicate LimitShown(s: Slot)
  {
    s.banner.Some? && Text.Contains(s.banner.value, "limit")
  }

  /** The footer button's text, lower-cased, mentions "submit". */
  predicate SingleStep(footer: string)
  {
    Text.Contains(Text.Lower(footer), "submit")
  }

  /**
   * The checks of a slot in the order the loop makes them. A single-step
   * application goes through `handleJobApplication`; any other goes through
   * the field fill and the wait for the final page, because the fast-forward
   * loop's evaluate returns nothing and always ends that loop at once.
   */
  function SlotSpec(cfg: Config, s: Slot): (r: SlotOutcome)
    ensures r.Recorded? <==>
      && s.hasApplyButton
      && !Eligibility.CompanyAvoided(s.company, cfg.avoidCompanies)
      && !Eligibility.TitleAvoided(s.title, cfg.avoidJobTitles)
      && !LimitShown(s)
      && s.footer.Some?
    ensures r.Recorded? ==> r.rec.jobTitle == s.title && r.rec.link == s.link
  {
    if !s.hasApplyButton then AlreadyApplied
    else if Eligibility.CompanyAvoided(s.company, cfg.avoidCompanies) then CompanySkipped
    else if Eligibility.TitleAvoided(s.title, cfg.avoidJobTitles) then TitleSkipped
    else if LimitShown(s) then LimitBanner
    else if s.footer.None? then FooterMissing
    else
      var applied :=
        if SingleStep(s.footer.value) then FormDriver.DriveFrom(FormDriver.ResultsAsWritten(s.form), 0).0
        else FormDriver.AwaitFrom(s.modalShown, s.nextShown, FormDriver.WAIT_POLLS, 0).0;
      Recorded(Record(s.title, s.link, if applied then Applied else Skipped))
  }

  /** A job the loop goes on to apply for: Easy Apply offered, company and title not avoided. */
  predicate Eligible(cfg: Config, s: Slot)
  {
    && s.hasApplyButton
    && !Eligibility.CompanyAvoided(s.company, cfg.avoidCompanies)
    && !Eligibility.TitleAvoided(s.title, cfg.avoidJobTitles)
  }

  /** One iteration of the job loop: the counter check, the increment, then the slot. */
  function SlotStep(cfg: Config, total: TotalCount.JobCount, s: Slot, st: RunState): (r: (Option<RunOutcome>, RunState))
    ensures r.0 == Some(CountReached) <==> TotalCount.Exceeds(st.currentJobIndex, total)
    ensures r.1.currentPage == st.currentPage && r.1.previousJobs == st.previousJobs
    ensures r.1.currentJobIndex == if TotalCount.Exceeds(st.currentJobIndex, total) then st.currentJobIndex else st.currentJobIndex + 1
    ensures r.1.report == st.report + (if r.1.currentJobIndex != st.currentJobIndex && SlotSpec(cfg, s).Recorded? then [SlotSpec(cfg, s).rec] else [])
    ensures r.0 == Some(ApplyLimitReached) <==>
      !TotalCount.Exceeds(st.currentJobIndex, total) && Eligible(cfg, s) && LimitShown(s)
    ensures r.0 == Some(Aborted) <==>
      !TotalCount.Exceeds(st.currentJobIndex, total) && Eligible(cfg, s) && !LimitShown(s) && s.footer.None?
    ensures r.0.Some? ==> r.0.value == CountReached || r.0.value == ApplyLimitReached || r.0.value == Aborted
  {
    if TotalCount.Exceeds(st.currentJobIndex, total) then (Some(CountReached), st)
    else
      var st1 := st.(currentJobIndex := st.currentJobIndex + 1);
      match SlotSpec(cfg, s)
      case LimitBanner => (Some(ApplyLimitReached), st1)
      case FooterMissing => (Some(Aborted), st1)
      case Recorded(rec) => (None, st1.(report := st1.report + [rec]))
      case _ => (None, st1)
  }

  /** The job loop of a page from slot `index` on: an outcome when the run ends inside it. */
  function SlotsFrom(cfg: Config, total: TotalCount.JobCount, load: PageLoad, index: nat, st: RunState): (r: (Option<RunOutcome>, RunState))
    ensures r.1.currentPage == st.currentPage && r.1.previousJobs == st.previousJobs
    ensures st.report <= r.1.report && st.currentJobIndex <= r.1.currentJobIndex
    decreases cfg.jobsPerPage - index
  {
    if index >= cfg.jobsPerPage then (None, st)
    else
      var r := SlotStep(cfg, total, load.slot(index), st);
      if r.0.Some? then r else SlotsFrom(cfg, total, load, index + 1, r.1)
  }

  // ---------------------------------------------------------------------
  // Pages
  // ---------------------------------------------------------------------

  /**
   * The page advance after the job loop: no next button ends the run; a
   * verified navigation and a fallback click both move exactly one page on;
   * an exception in the scroll or in the fallback ends the run.
   */
  function Advance(hop: Hop, page: int): (r: (Option<RunOutcome>, int))
    ensures r.0.None? <==> Pagination.GetNextButton(hop.pagination).Some? && (hop.nav.Verified? || hop.nav.FallbackClicked?)
    ensures r.1 == (if r.0.None? then page + 1 else page)
  {
    match Pagination.GetNextButton(hop.pagination)
    case None => (Some(NoMorePages), page)
    case Some(_) =>
      match hop.nav
      case Verified => (None, page + 1)
      case FallbackClicked => (None, page + 1)
      case ScrollFailed => (Some(NavigationFailed), page)
      case FallbackFailed => (Some(NavigationFailed), page)
  }

  /** The job ids pass `visit` of the page loop reads. */
  function JobIdsAt(site: Site, visit: nat): seq<Dedup.JobId>
  {
    if visit < |site.loads| then site.loads[visit].jobIds else []
  }

  /** The page loop from pass `visit` on. */
  function PagesFrom(cfg: Config, total: TotalCount.JobCount, site: Site, visit: nat, st: RunState): (r: (RunOutcome, RunState))
    ensures st.previousJobs <= r.1.previousJobs && st.report <= r.1.report
    ensures st.currentPage <= r.1.currentPage && st.currentJobIndex <= r.1.currentJobIndex
    decreases |site.loads| - visit
  {
    if Dedup.NewJobs(JobIdsAt(site, visit), st.previousJobs) == [] then (NoNewJobs, st)
    else
      var load := site.loads[visit];
      var st1 := st.(previousJobs := st.previousJobs + Dedup.SetOf(load.jobIds));
      var r := SlotsFrom(cfg, total, load, 0, st1);
      if r.0.Some? then (r.0.value, r.1)
      else
        var a := Advance(load.hop, r.1.currentPage);
        if a.0.Some? then (a.0.value, r.1.(currentPage := a.1))
        else PagesFrom(cfg, total, site, visit + 1, r.1.(currentPage := a.1))
  }

  /**
   * The start-page loop from `page`: whether an exception escaped, and the
   * page reached. Only a verified navigation moves on; a missing next button
   * or a failed navigation stops the loop where it is.
   */
  function StartFrom(site: Site, target: int, page: nat): (r: (bool, nat))
    ensures page <= r.1 && (page <= target ==> r.1 <= target)
    decreases target - page
  {
    if page >= target then (false, page)
    else
      var hop := site.startHops(page);
      if Pagination.GetNextButton(hop.pagination).None? then (false, page)
      else if hop.nav.ScrollFailed? then (true, page)
      else if hop.nav.Verified? then StartFrom(site, target, page + 1)
      else (false, page)
  }

  /** The start-page phase: skipped entirely unless the start page is above 1. */
  function Start(cfg: Config, site: Site, page: nat): (bool, nat)
  {
    if StartPage(cfg) > 1 then StartFrom(site, StartPage(cfg), page) else (false, page)
  }

  /** A whole run, from the ids seen and the rows handed to the writer before it. */
  function RunSpec(cfg: Config, site: Site, seen: set<Dedup.JobId>, report: seq<Record>): (r: (RunOutcome, RunState))
    ensures seen <= r.1.previousJobs && report <= r.1.report && 1 <= r.1.currentJobIndex
    ensures Start(cfg, site, 1).0 ==> r == (Aborted, RunState(Start(cfg, site, 1).1, 1, seen, report))
  {
    var total := TotalCount.ToCount(TotalCount.ParseTotal(site.subtitle));
    var start := Start(cfg, site, 1);
    var st := RunState(start.1, 1, seen, report);
    if start.0 then (Aborted, st) else PagesFrom(cfg, total, site, 0, st)
  }

  // ---------------------------------------------------------------------
  // Properties of a run
  // ---------------------------------------------------------------------

  /**
   * The status of a row. A single-step application is Applied exactly when,
   * within eight attempts, the form driver met a screen rendering the
   * attribute-selected submit button and a submit click on it succeeded,
   * every earlier screen having lacked that button; a multi-step one exactly
   * when some poll of the wait, all earlier ones having found the next
   * button and no modal, found neither.
   */
  lemma SlotStatusMeaning(cfg: Config, s: Slot)
    requires SlotSpec(cfg, s).Recorded?
    ensures SingleStep(s.footer.value) ==>
      (SlotSpec(cfg, s).rec.status == Applied <==>
        exists a | 0 <= a < FormDriver.MAX_ATTEMPTS ::
          && FormDriver.FirstSubmitShown(s.form(a))
          && FormDriver.ClickedOne(FormDriver.SUBMIT_SELECTORS, s.form(a).click)
          && forall j | 0 <= j < a :: !FormDriver.FirstSubmitShown(s.form(j)))
    ensures !SingleStep(s.footer.value) ==>
      (SlotSpec(cfg, s).rec.status == Applied <==>
        exists k | 0 <= k < FormDriver.WAIT_POLLS ::
          && !s.modalShown(k) && !s.nextShown(k)
          && forall j | 0 <= j < k :: !s.modalShown(j) && s.nextShown(j))
  {
    FormDriver.CompletedAsWrittenIff(s.form);
    FormDriver.FinalPageIffSomePoll(s.modalShown, s.nextShown);
  }

  /**
   * The job loop of a page stops on the application limit only after
   * reaching a slot it would have applied for whose card showed the limit
   * message, and stops on an abort only at such a slot without a footer
   * button.
   */
  lemma {:induction false} SlotsStopWitness(cfg: Config, total: TotalCount.JobCount, load: PageLoad, index: nat, st: RunState)
    ensures var r := SlotsFrom(cfg, total, load, index, st);
      && (r.0 == Some(ApplyLimitReached) ==>
            exists j :: index <= j < cfg.jobsPerPage && Eligible(cfg, load.slot(j)) && LimitShown(load.slot(j)))
      && (r.0 == Some(Aborted) ==>
            exists j :: index <= j < cfg.jobsPerPage && Eligible(cfg, load.slot(j)) && !LimitShown(load.slot(j)) && load.slot(j).footer.None?)
    decreases cfg.jobsPerPage - index
  {
    if index < cfg.jobsPerPage {
      var step := SlotStep(cfg, total, load.slot(index), st);
      if step.0.None? {
        SlotsStopWitness(cfg, total, load, index + 1, step.1);
      }
    }
  }

  /**
   * The job loop of a page leaves the page number and the seen ids alone,
   * only appends rows, raises the counter by one per slot that passed the
   * counter check and writes at most one row per such slot; the counter
   * never passes total + 1, and a stop on the count happens at exactly
   * total + 1.
   */
  lemma {:induction false} SlotsAccounting(cfg: Config, total: TotalCount.JobCount, load: PageLoad, index: nat, st: RunState)
    ensures var r := SlotsFrom(cfg, total, load, index, st);
      && r.1.currentPage == st.currentPage
      && r.1.previousJobs == st.previousJobs
      && st.report <= r.1.report
      && st.currentJobIndex <= r.1.currentJobIndex
      && |r.1.report| - |st.report| <= r.1.currentJobIndex - st.currentJobIndex
      && (r.0.None? ==> r.1.currentJobIndex - st.currentJobIndex == (if index < cfg.jobsPerPage then cfg.jobsPerPage - index else 0))
      && (r.0 == Some(CountReached) ==> TotalCount.Exceeds(r.1.currentJobIndex, total))
      && (total.Count? && st.currentJobIndex <= total.n + 1 ==> r.1.currentJobIndex <= total.n + 1)
    decreases cfg.jobsPerPage - index
  {
    if index < cfg.jobsPerPage {
      var step := SlotStep(cfg, total, load.slot(index), st);
      if step.0.None? {
        SlotsAccounting(cfg, total, load, index + 1, step.1);
      }
    }
  }

  /**
   * The page loop only adds to the seen ids and the rows, never lowers the
   * page number or the counter, writes at most one row per counted slot,
   * and keeps the counter at or below total + 1.
   */
  lemma {:induction false} PagesAccounting(cfg: Config, total: TotalCount.JobCount, site: Site, visit: nat, st: RunState)
    ensures var r := PagesFrom(cfg, total, site, visit, st);
      && st.previousJobs <= r.1.previousJobs
      && st.report <= r.1.report
      && st.currentPage <= r.1.currentPage
      && st.currentJobIndex <= r.1.currentJobIndex
      && |r.1.report| - |st.report| <= r.1.currentJobIndex - st.currentJobIndex
      && (r.0 == CountReached ==> TotalCount.Exceeds(r.1.currentJobIndex, total))
      && (total.Count? && st.currentJobIndex <= total.n + 1 ==> r.1.currentJobIndex <= total.n + 1)
    decreases |site.loads| - visit
  {
    if Dedup.NewJobs(JobIdsAt(site, visit), st.previousJobs) != [] {
      var load := site.loads[visit];
      var st1 := st.(previousJobs := st.previousJobs + Dedup.SetOf(load.jobIds));
      SlotsAccounting(cfg, total, load, 0, st1);
      var r := SlotsFrom(cfg, total, load, 0, st1);
      if r.0.None? {
        var a := Advance(load.hop, r.1.currentPage);
        if a.0.None? {
          PagesAccounting(cfg, total, site, visit + 1, r.1.(currentPage := a.1));
          assert PagesFrom(cfg, total, site, visit, st) == PagesFrom(cfg, total, site, visit + 1, r.1.(currentPage := a.1));
        } else {
          assert PagesFrom(cfg, total, site, visit, st) == (a.0.value, r.1.(currentPage := a.1));
        }
      } else {
        assert PagesFrom(cfg, total, site, visit, st) == (r.0.value, r.1);
      }
    }
  }

  /**
   * A whole run: the seen ids and the rows only grow; with a numeric total
   * n, at most n rows are written and the counter ends at most at n + 1; a
   * run that ends on the count ends with the counter at exactly n + 1.
   */
  lemma RunAccounting(cfg: Config, site: Site, seen: set<Dedup.JobId>, report: seq<Record>)
    ensures var r := RunSpec(cfg, site, seen, report);
      var total := TotalCount.ToCount(TotalCount.ParseTotal(site.subtitle));
      && seen <= r.1.previousJobs
      && report <= r.1.report
      && |r.1.report| - |report| <= r.1.currentJobIndex - 1
      && (total.Count? ==> r.1.currentJobIndex <= total.n + 1 && |r.1.report| - |report| <= total.n)
      && (r.0 == CountReached ==> total.Count? && r.1.currentJobIndex == total.n + 1)
  {
    var total := TotalCount.ToCount(TotalCount.ParseTotal(site.subtitle));
    var start := Start(cfg, site, 1);
    if !start.0 {
      PagesAccounting(cfg, total, site, 0, RunState(start.1, 1, seen, report));
    }
  }

  /** The start-page loop leaves page `p` by a verified navigation. */
  predicate Advances(site: Site, p: nat)
  {
    Pagination.GetNextButton(site.startHops(p).pagination).Some? && site.startHops(p).nav.Verified?
  }

  /** Every page the start-page loop passes advanced, and the page it stops on did not. */
  lemma {:induction false} StartWalk(site: Site, target: int, page: nat)
    ensures var r := StartFrom(site, target, page);
      && (forall p | page <= p < r.1 :: Advances(site, p))
      && (r.1 < target ==> !Advances(site, r.1))
    decreases target - page
  {
    if page < target && Advances(site, page) {
      StartWalk(site, target, page + 1);
    }
  }

  /** The start-page loop aborts exactly when it stops on a scroll failure. */
  lemma {:induction false} StartAbort(site: Site, target: int, page: nat)
    ensures var r := StartFrom(site, target, page);
      r.0 <==> r.1 < target && Pagination.GetNextButton(site.startHops(r.1).pagination).Some? && site.startHops(r.1).nav.ScrollFailed?
    decreases target - page
  {
    if page < target && Advances(site, page) {
      StartAbort(site, target, page + 1);
    }
  }

  /**
   * The start-page loop moves one page per verified navigation, never past
   * the start page, and stops on the first page whose next button is
   * missing or whose navigation did not verify; it aborts exactly when it
   * stopped on a scroll failure.
   */
  lemma StartBounds(site: Site, target: int, page: nat)
    ensures var r := StartFrom(site, target, page);
      && page <= r.1
      && (page <= target ==> r.1 <= target)
      && (forall p | page <= p < r.1 :: Advances(site, p))
      && (r.1 < target ==> !Advances(site, r.1))
      && (r.0 <==> r.1 < target && Pagination.GetNextButton(site.startHops(r.1).pagination).Some? && site.startHops(r.1).nav.ScrollFailed?)
  {
    StartWalk(site, target, page);
    StartAbort(site, target, page);
  }

  /**
   * Without a configured start page the run starts on page 2: one verified
   * navigation from page 1, and no further.
   */
  lemma DefaultStartPage(cfg: Config, site: Site)
    requires cfg.startPage.None?
    ensures Start(cfg, site, 1).1 <= 2
    ensures Pagination.GetNextButton(site.startHops(1).pagination).Some? && site.startHops(1).nav.Verified? ==>
      Start(cfg, site, 1) == (false, 2)
  {
    StartBounds(site, 2, 1);
  }

  /** A pass that shows only ids seen before (or no job cards) ends the run at once, changing nothing. */
  lemma StalledPageStopsRun(cfg: Config, total: TotalCount.JobCount, site: Site, visit: nat, st: RunState)
    requires Dedup.SetOf(JobIdsAt(site, visit)) <= st.previousJobs
    ensures PagesFrom(cfg, total, site, visit, st) == (NoNewJobs, st)
  {
    Dedup.NothingNewIffAllSeen(JobIdsAt(site, visit), st.previousJobs);
  }

  /**
   * When the subtitle cannot be read the total is "0", and the first slot of
   * the first page that brings new ids ends the run on the count, before any
   * row is written.
   */
  lemma UnreadableTotalEndsAtFirstSlot(cfg: Config, site: Site, seen: set<Dedup.JobId>, report: seq<Record>)
    requires site.subtitle.TimedOut? || site.subtitle.Absent?
    requires cfg.jobsPerPage > 0
    ensures var r := RunSpec(cfg, site, seen, report);
      && r.0 == (if Start(cfg, site, 1).0 then Aborted
                 else if Dedup.NewJobs(JobIdsAt(site, 0), seen) == [] then NoNewJobs
                 else CountReached)
      && r.1.report == report
      && r.1.currentJobIndex == 1
  {
    assert TotalCount.ParseTotal(site.subtitle) == "0";
    assert TotalCount.ToCount("0") == TotalCount.Count(0) by {
      assert TotalCount.DecimalValue("0") == 10 * TotalCount.DecimalValue("") + 0;
    }
  }

  /** A slot that passes the counter check and its own checks adds one to the counter and one row. */
  lemma RecordedSlotStep(cfg: Config, total: TotalCount.JobCount, load: PageLoad, index: nat, st: RunState)
    requires index < cfg.jobsPerPage
    requires SlotSpec(cfg, load.slot(index)).Recorded?
    requires !TotalCount.Exceeds(st.currentJobIndex, total)
    ensures SlotsFrom(cfg, total, load, index, st)
         == SlotsFrom(cfg, total, load, index + 1,
              st.(currentJobIndex := st.currentJobIndex + 1, report := st.report + [SlotSpec(cfg, load.slot(index)).rec]))
  {
  }

  /** With a total of five, a first page of three recorded slots writes three rows and goes on. */
  lemma FirstPageOfThree(cfg: Config, total: TotalCount.JobCount, load: PageLoad, st: RunState) returns (end: RunState)
    requires cfg.jobsPerPage == 3 && total == TotalCount.Count(5) && st.currentJobIndex == 1
    requires forall i | 0 <= i < 3 :: SlotSpec(cfg, load.slot(i)).Recorded?
    ensures end == st.(currentJobIndex := 4, report := end.report)
    ensures |end.report| == |st.report| + 3
    ensures SlotsFrom(cfg, total, load, 0, st) == (None, end)
  {
    var r0, r1, r2 := SlotSpec(cfg, load.slot(0)).rec, SlotSpec(cfg, load.slot(1)).rec, SlotSpec(cfg, load.slot(2)).rec;
    RecordedSlotStep(cfg, total, load, 0, st);
    RecordedSlotStep(cfg, total, load, 1, st.(currentJobIndex := 2, report := st.report + [r0]));
    RecordedSlotStep(cfg, total, load, 2, st.(currentJobIndex := 3, report := st.report + [r0] + [r1]));
    end := st.(currentJobIndex := 4, report := st.report + [r0] + [r1] + [r2]);
  }

  /** With a total of five and four slots counted, two recorded slots are written and the third stops the run. */
  lemma SecondPageStopsAtTwo(cfg: Config, total: TotalCount.JobCount, load: PageLoad, st: RunState) returns (end: RunState)
    requires cfg.jobsPerPage == 3 && total == TotalCount.Count(5) && st.currentJobIndex == 4
    requires forall i | 0 <= i < 2 :: SlotSpec(cfg, load.slot(i)).Recorded?
    ensures end == st.(currentJobIndex := 6, report := end.report)
    ensures |end.report| == |st.report| + 2
    ensures SlotsFrom(cfg, total, load, 0, st) == (Some(CountReached), end)
  {
    var r0, r1 := SlotSpec(cfg, load.slot(0)).rec, SlotSpec(cfg, load.slot(1)).rec;
    RecordedSlotStep(cfg, total, load, 0, st);
    RecordedSlotStep(cfg, total, load, 1, st.(currentJobIndex := 5, report := st.report + [r0]));
    end := st.(currentJobIndex := 6, report := st.report + [r0] + [r1]);
    assert SlotsFrom(cfg, total, load, 2, end) == (Some(CountReached), end);
  }

  /** A pass with new ids whose job loop stops ends the run with that stop. */
  lemma PageStops(cfg: Config, total: TotalCount.JobCount, site: Site, visit: nat, st: RunState, stop: RunOutcome, end: RunState)
    requires visit < |site.loads|
    requires Dedup.NewJobs(site.loads[visit].jobIds, st.previousJobs) != []
    requires SlotsFrom(cfg, total, site.loads[visit], 0,
               st.(previousJobs := st.previousJobs + Dedup.SetOf(site.loads[visit].jobIds))) == (Some(stop), end)
    ensures PagesFrom(cfg, total, site, visit, st) == (stop, end)
  {
    assert JobIdsAt(site, visit) == site.loads[visit].jobIds;
  }

  /** A pass with new ids whose job loop runs through and whose advance succeeds goes on to the next pass. */
  lemma PageGoesOn(cfg: Config, total: TotalCount.JobCount, site: Site, visit: nat, st: RunState, end: RunState)
    requires visit < |site.loads|
    requires Dedup.NewJobs(site.loads[visit].jobIds, st.previousJobs) != []
    requires SlotsFrom(cfg, total, site.loads[visit], 0,
               st.(previousJobs := st.previousJobs + Dedup.SetOf(site.loads[visit].jobIds))) == (None, end)
    requires Advance(site.loads[visit].hop, end.currentPage).0.None?
    ensures PagesFrom(cfg, total, site, visit, st) == PagesFrom(cfg, total, site, visit + 1, end.(currentPage := end.currentPage + 1))
  {
    assert JobIdsAt(site, visit) == site.loads[visit].jobIds;
  }

  /**
   * Two pages of three jobs, a subtitle of "5 results", every job passing
   * its checks and the first advance succeeding: five rows are written, the
   * run moves to page 2 once and ends on the count at the third slot of
   * the second page.
   */
  lemma TwoPagesOfThreeWithTotalFive(cfg: Config, site: Site, seen: set<Dedup.JobId>, report: seq<Record>)
    requires cfg.jobsPerPage == 3 && cfg.startPage == Some(1)
    requires site.subtitle == TotalCount.Shown("5 results")
    requires |site.loads| >= 2
    requires forall v, i | 0 <= v < 2 && 0 <= i < 3 :: SlotSpec(cfg, site.loads[v].slot(i)).Recorded?
    requires Dedup.NewJobs(site.loads[0].jobIds, seen) != []
    requires Dedup.NewJobs(site.loads[1].jobIds, seen + Dedup.SetOf(site.loads[0].jobIds)) != []
    requires Advance(site.loads[0].hop, 1).0.None?
    ensures var r := RunSpec(cfg, site, seen, report);
      && r.0 == CountReached
      && |r.1.report| == |report| + 5
      && r.1.currentPage == 2
      && r.1.currentJobIndex == 6
  {
    var total := TotalCount.ToCount(TotalCount.ParseTotal(site.subtitle));
    assert total == TotalCount.Count(5) by {
      assert "5 results" == "5" + " " + "results";
      TotalCount.ParseTotalTakesFirstWord("5", "results");
      assert TotalCount.RemoveCommas("5") == "5";
      assert TotalCount.DecimalValue("5") == 10 * TotalCount.DecimalValue("") + 5;
    }
    var load0, load1 := site.loads[0], site.loads[1];
    var seen0 := seen + Dedup.SetOf(load0.jobIds);
    var end0 := FirstPageOfThree(cfg, total, load0, RunState(1, 1, seen0, report));
    var seen1 := seen0 + Dedup.SetOf(load1.jobIds);
    var end1 := SecondPageStopsAtTwo(cfg, total, load1, end0.(currentPage := 2, previousJobs := seen1));

    PageStops(cfg, total, site, 1, end0.(currentPage := 2), CountReached, end1);
    PageGoesOn(cfg, total, site, 0, RunState(1, 1, seen, report), end0);
    assert Start(cfg, site, 1) == (false, 1);
  }

  // ---------------------------------------------------------------------
  // The controller
  // ---------------------------------------------------------------------

  class RunController {
    const config: Config
    var totalJobCount: string
    var currentPage: int
    var currentJobIndex: int
    var hasNextPage: bool
    var previousJobs: set<Dedup.JobId>
    /** The rows handed to the CSV writer. */
    ghost var report: seq<Record>

    ghost function State(): RunState
      reads this
    {
      RunState(currentPage, currentJobIndex, previousJobs, report)
    }

    constructor(config: Config)
      ensures this.config == config
      ensures previousJobs == {} && report == []
    {
      this.config := config;
      totalJobCount := "0";
      currentPage := 1;
      currentJobIndex := 1;
      hasNextPage := true;
      previousJobs := {};
      report := [];
    }

    /** The start-page loop. */
    method NavigateToStartPage(site: Site) returns (aborted: bool)
      requires currentPage >= 1
      modifies this
      ensures (aborted, currentPage) == Start(config, site, old(currentPage))
      ensures State() == old(State()).(currentPage := currentPage)
      ensures hasNextPage == old(hasNextPage) && totalJobCount == old(totalJobCount)
    {
      aborted := false;
      var startPage := StartPage(config);
      if startPage > 1 {
        while currentPage < startPage
          invariant currentPage >= 1
          invariant StartFrom(site, startPage, currentPage) == StartFrom(site, startPage, old(currentPage))
          invariant State() == old(State()).(currentPage := currentPage)
          invariant hasNextPage == old(hasNextPage) && totalJobCount == old(totalJobCount)
          decreases startPage - currentPage
        {
          var hop := site.startHops(currentPage);
          var nextButtonSelector := Pagination.GetNextButton(hop.pagination);
          if nextButtonSelector.None? {
            break;
          }
          if hop.nav.ScrollFailed? {
            // the scroll evaluate is outside the try
            aborted := true;
            return;
          }
          if !hop.nav.Verified? {
            break;
          }
          currentPage := currentPage + 1;
        }
      }
    }

    /** The duplicate check and the recording of a page's ids. */
    method TrackPage(ids: seq<Dedup.JobId>) returns (hasNew: bool)
      modifies this
      ensures hasNew <==> Dedup.NewJobs(ids, old(previousJobs)) != []
      ensures State() == old(State()).(previousJobs := if hasNew then old(previousJobs) + Dedup.SetOf(ids) else old(previousJobs))
      ensures hasNextPage == old(hasNextPage) && totalJobCount == old(totalJobCount)
    {
      var newJobs := Dedup.NewJobs(ids, previousJobs);
      if |newJobs| == 0 {
        return false;
      }
      hasNew := true;
      var i := 0;
      while i < |ids|
        invariant 0 <= i <= |ids|
        invariant State() == old(State()).(previousJobs := old(previousJobs) + Dedup.SetOf(ids[..i]))
        invariant hasNextPage == old(hasNextPage) && totalJobCount == old(totalJobCount)
      {
        previousJobs := previousJobs + {ids[i]};
        i := i + 1;
      }
      assert ids[..|ids|] == ids;
    }

    /** One iteration of the job loop. */
    method ProcessSlot(s: Slot) returns (stop: Option<RunOutcome>)
      modifies this
      ensures (stop, State()) == SlotStep(config, TotalCount.ToCount(totalJobCount), s, old(State()))
      ensures hasNextPage == old(hasNextPage) && totalJobCount == old(totalJobCount)
    {
      if TotalCount.Exceeds(currentJobIndex, TotalCount.ToCount(totalJobCount)) {
        return Some(CountReached);
      }
      currentJobIndex := currentJobIndex + 1;
      stop := None;
      if !s.hasApplyButton {
        return;
      }
      if Eligibility.CompanyAvoided(s.company, config.avoidCompanies) {
        return;
      }
      if Eligibility.TitleAvoided(s.title, config.avoidJobTitles) {
        return;
      }
      if LimitShown(s) {
        return Some(ApplyLimitReached);
      }
      if s.footer.None? {
        // reading the footer button's text throws
        return Some(Aborted);
      }
      var isSingleStepApplication := SingleStep(s.footer.value);
      var skipped := false;
      var firstPage := true;
      if !isSingleStepApplication {
        // the fast-forward evaluate returns nothing, so its loop stops after one pass
        firstPage := false;
      }
      if !firstPage && !isSingleStepApplication {
        var finalPage, _, _ := FormDriver.AwaitFinalPage(s.modalShown, s.nextShown);
        skipped := !finalPage;
      } else {
        var applied := FormDriver.HandleJobApplication(s.form);
        skipped := !applied;
      }
      assert SlotSpec(config, s) == Recorded(Record(s.title, s.link, if skipped then Skipped else Applied));
      report := report + [Record(s.title, s.link, if skipped then Skipped else Applied)];
    }

    /** The job loop of one page. */
    method ProcessPage(load: PageLoad) returns (stop: Option<RunOutcome>)
      modifies this
      ensures (stop, State()) == SlotsFrom(config, TotalCount.ToCount(totalJobCount), load, 0, old(State()))
      ensures hasNextPage == old(hasNextPage) && totalJobCount == old(totalJobCount)
    {
      stop := None;
      ghost var total := TotalCount.ToCount(totalJobCount);
      var index: nat := 0;
      while index < config.jobsPerPage
        invariant stop.None?
        invariant totalJobCount == old(totalJobCount)
        invariant SlotsFrom(config, total, load, index, State()) == SlotsFrom(config, total, load, 0, old(State()))
        invariant hasNextPage == old(hasNextPage)
        decreases config.jobsPerPage - index
      {
        ghost var before := State();
        stop := ProcessSlot(load.slot(index));
        assert (stop, State()) == SlotStep(config, total, load.slot(index), before);
        assert SlotsFrom(config, total, load, index, before)
            == (if stop.Some? then (stop, State()) else SlotsFrom(config, total, load, index + 1, State()));
        if stop.Some? {
          return;
        }
        index := index + 1;
      }
    }

    /** The page advance after the job loop. */
    method AdvancePage(hop: Hop) returns (stop: Option<RunOutcome>)
      modifies this
      ensures (stop, currentPage) == Advance(hop, old(currentPage))
      ensures hasNextPage == stop.None?
      ensures State() == old(State()).(currentPage := currentPage)
      ensures totalJobCount == old(totalJobCount)
    {
      var nextButtonSelector := Pagination.GetNextButton(hop.pagination);
      if nextButtonSelector.Some? {
        match hop.nav {
          case ScrollFailed =>
            hasNextPage := false;
            stop := Some(NavigationFailed);
          case Verified =>
            currentPage := currentPage + 1;
            hasNextPage := true;
            stop := None;
          case FallbackClicked =>
            currentPage := currentPage + 1;
            hasNextPage := true;
            stop := None;
          case FallbackFailed =>
            hasNextPage := false;
            stop := Some(NavigationFailed);
        }
      } else {
        hasNextPage := false;
        stop := Some(NoMorePages);
      }
    }

    /** `fillAndApply`. */
    method FillAndApply(site: Site) returns (outcome: RunOutcome)
      modifies this
      ensures (outcome, State()) == RunSpec(config, site, old(previousJobs), old(report))
    {
      totalJobCount := TotalCount.ParseTotal(site.subtitle);
      currentJobIndex := 1;
      hasNextPage := true;
      currentPage := 1;
      var aborted := NavigateToStartPage(site);
      if aborted {
        return Aborted;
      }
      ghost var total := TotalCount.ToCount(totalJobCount);
      ghost var start := State();
      outcome := NoNewJobs;
      var visit: nat := 0;
      while hasNextPage
        invariant totalJobCount == TotalCount.ParseTotal(site.subtitle)
        invariant hasNextPage ==> PagesFrom(config, total, site, visit, State()) == PagesFrom(config, total, site, 0, start)
        invariant !hasNextPage ==> (outcome, State()) == PagesFrom(config, total, site, 0, start)
        decreases |site.loads| - visit
      {
        ghost var before := State();
        var ids := if visit < |site.loads| then site.loads[visit].jobIds else [];
        var hasNew := TrackPage(ids);
        if !hasNew {
          outcome := NoNewJobs;
          assert PagesFrom(config, total, site, visit, before) == (NoNewJobs, before);
          break;
        }
        var load := site.loads[visit];
        ghost var tracked := State();
        assert tracked == before.(previousJobs := before.previousJobs + Dedup.SetOf(load.jobIds));
        var stop := ProcessPage(load);
        ghost var r := SlotsFrom(config, total, load, 0, tracked);
        assert (stop, State()) == r;
        if stop.Some? {
          outcome := stop.value;
          assert PagesFrom(config, total, site, visit, before) == (r.0.value, r.1);
          break;
        }
        stop := AdvancePage(load.hop);
        assert PagesFrom(config, total, site, visit, before)
            == (if stop.Some? then (stop.value, State()) else PagesFrom(config, total, site, visit + 1, State()));
        if stop.Some? {
          outcome := stop.value;
        }
        visit := visit + 1;
      }
    }
  }
}
