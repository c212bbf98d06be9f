/**
 * The duplicate-page guard of the run loop: the job ids read from the cards
 * of a page are compared with the ids of every page seen before.
 */
module Dedup {
  import opened Common

  /** A card's `data-job-id` attribute; a card without one yields null. */
  type JobId = Option<string>

  /** The ids of the page that are not yet in `seen`, in page order. */
  function NewJobs(ids: seq<JobId>, seen: set<JobId>): (r: seq<JobId>)
    ensures |r| <= |ids|
    ensures forall x :: x in r <==> x in ids && x !in seen
  {
    if ids == [] then []
    else if ids[0] in seen then NewJobs(ids[1..], seen)
    else [ids[0]] + NewJobs(ids[1..], seen)
  }

  /** The ids of a page as a set. */
  function SetOf(ids: seq<JobId>): (r: set<JobId>)
    ensures forall x :: x in r <==> x in ids
  {
    set x | x in ids
  }

  /**
   * A page brings nothing new exactly when all of its ids were seen before;
   * in particular a page without job cards never brings anything new.
   */
  lemma NothingNewIffAllSeen(ids: seq<JobId>, seen: set<JobId>)
    ensures NewJobs(ids, seen) == [] <==> SetOf(ids) <= seen
    ensures ids == [] ==> NewJobs(ids, seen) == []
  {
    var r := NewJobs(ids, seen);
    if r != [] {
      assert r[0] in r;
    }
  }

  /** After a page's ids are added, the same page brings nothing new. */
  lemma RevisitBringsNothing(ids: seq<JobId>, seen: set<JobId>)
    ensures NewJobs(ids, seen + SetOf(ids)) == []
  {
    NothingNewIffAllSeen(ids, seen + SetOf(ids));
  }
}
