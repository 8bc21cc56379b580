/** What one render of the application shows: on the `/` route, one card
    per job the search keeps, each linking to `/job/${job.id}`; on the
    `/job/:id` route, the detail page, which is handed the whole, unfiltered
    collection; and, on every route, the "No jobs found" notice when the
    search keeps nothing (it sits after the routes, not inside the list
    page). */
module App {
  import opened JsValues
  import opened Jobs
  import opened JobSearch
  import opened JobDetails
  import opened Wrappers
  import opened JsParseInt

  /** What one render of the application shows: the jobs that get a card
      on `/`, in display order; the collection the detail route looks jobs
      up in; and whether the "No jobs found" notice is shown, which is the
      same on every route. */
  datatype Page = Page(cards: seq<Job>, detailJobs: seq<Job>, noJobsNotice: bool)

  /** The `:id` part of the card's address `/job/${job.id}`. */
  function LinkParam(job: Job): (p: string)
    ensures IdOf(job).Num? ==> ParseInt(p) == Some(IdOf(job).n)
  {
    var id := IdOf(job);
    if id.Num? then ParseIntRoundTrip(id.n); ToStr(id) else ToStr(id)
  }

  /** Renders the page for the collection `jobs` and the current search
      term. The notice is shown exactly when there are no cards, and the
      detail route always receives the whole collection. */
  function Render(jobs: seq<Job>, term: string): (p: Page)
    ensures forall i :: 0 <= i < |p.cards| ==> p.cards[i] in jobs
    ensures p.noJobsNotice <==> |p.cards| == 0
    ensures p.detailJobs == jobs
  {
    var shown := Search(jobs, term);
    SearchMembers(jobs, term);
    Page(shown, jobs, |shown| == 0)
  }

  /** The cards are the matching jobs, in collection order, each as often
      as it occurs in the collection. */
  lemma CardsAreTheMatches(jobs: seq<Job>, term: string)
    ensures var p := Render(jobs, term);
      && IsSubsequence(p.cards, jobs)
      && (forall i :: 0 <= i < |p.cards| ==> JobMatches(p.cards[i], term))
      && (forall i :: 0 <= i < |jobs| && JobMatches(jobs[i], term) ==> jobs[i] in p.cards)
      && ExactlyTheMatches(p.cards, jobs, term)
  {
    SearchIsSubsequence(jobs, term);
    SearchMembers(jobs, term);
    SearchCountsMatches(jobs, term);
  }

  /** "No jobs found" is shown exactly when no job of the collection
      matches the term. */
  lemma NoticeIffNothingMatches(jobs: seq<Job>, term: string)
    ensures Render(jobs, term).noJobsNotice <==>
      forall i :: 0 <= i < |jobs| ==> !JobMatches(jobs[i], term)
  {
    var shown := Search(jobs, term);
    SearchMembers(jobs, term);
    if |shown| > 0 {
      assert shown[0] in jobs;
    }
  }

  /** Following a card's link shows that card's job, whatever the search
      term, provided the job's id is a number and numeric ids are
      distinct. */
  lemma CardLinkShowsItsJob(jobs: seq<Job>, term: string, i: nat)
    requires DistinctNumericIds(jobs)
    requires i < |Render(jobs, term).cards|
    requires IdOf(Render(jobs, term).cards[i]).Num?
    ensures var p := Render(jobs, term);
      Lookup(p.detailJobs, LinkParam(p.cards[i])) == Found(p.cards[i])
  {
    LookupByOwnIdText(jobs, Render(jobs, term).cards[i]);
  }

  /** The detail route does not depend on the search: a job the search
      hides has no card, yet its address still shows it. */
  lemma HiddenJobStillReachable(jobs: seq<Job>, term: string, k: nat)
    requires DistinctNumericIds(jobs)
    requires k < |jobs| && IdOf(jobs[k]).Num?
    requires !JobMatches(jobs[k], term)
    ensures var p := Render(jobs, term);
      && jobs[k] !in p.cards
      && Lookup(p.detailJobs, LinkParam(jobs[k])) == Found(jobs[k])
  {
    SearchMembers(jobs, term);
    LookupByOwnIdText(jobs, jobs[k]);
  }
}
