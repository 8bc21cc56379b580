/** The job detail page's lookup: `jobs.find(job => job.id === parseInt(id))`,
    with "Job not found." when nothing is found. */
module JobDetails {
  import opened Wrappers
  import opened Numerals
  import opened JsValues
  import opened Jobs
  import opened JsParseInt

  /** What the detail page shows: the found job, or the not-found message. */
  datatype Detail = NotFound | Found(job: Job)

  /** `v === x` where `x` is the number `parseInt` returned (`None` for
      `NaN`): only a number with the same value is strictly equal, never a
      string, and nothing equals `NaN`. */
  predicate StrictEqualsNumber(v: Value, x: Option<int>) {
    x.Some? && v == Num(x.value)
  }

  /** `jobs.findIndex(job => job.id === x)`, with `None` for -1. */
  function FirstWithId(jobs: seq<Job>, x: Option<int>): (r: Option<nat>)
    ensures r.Some? ==> r.value < |jobs| && StrictEqualsNumber(IdOf(jobs[r.value]), x)
    ensures r.Some? ==> forall k :: 0 <= k < r.value ==> !StrictEqualsNumber(IdOf(jobs[k]), x)
    ensures r.None? <==> forall k :: 0 <= k < |jobs| ==> !StrictEqualsNumber(IdOf(jobs[k]), x)
  {
    if |jobs| == 0 then None
    else if StrictEqualsNumber(IdOf(jobs[0]), x) then Some(0)
    else
      var r := FirstWithId(jobs[1..], x);
      assert forall k :: 1 <= k < |jobs| ==> jobs[k] == jobs[1..][k - 1];
      if r.None? then None else Some(r.value + 1)
  }

  /** The detail page for route parameter `param`: the first job, in
      collection order, whose `id` is the number `param` parses to. */
  function Lookup(jobs: seq<Job>, param: string): (d: Detail)
    ensures d.Found? ==> StrictEqualsNumber(IdOf(d.job), ParseInt(param))
    ensures d.Found? ==>
      exists i :: 0 <= i < |jobs| && jobs[i] == d.job &&
        forall k :: 0 <= k < i ==> !StrictEqualsNumber(IdOf(jobs[k]), ParseInt(param))
    ensures d.NotFound? <==>
      forall k :: 0 <= k < |jobs| ==> !StrictEqualsNumber(IdOf(jobs[k]), ParseInt(param))
  {
    match FirstWithId(jobs, ParseInt(param))
    case None => NotFound
    case Some(i) => Found(jobs[i])
  }

  /** First match wins: when `jobs[i]` is the earliest job whose id equals
      the parsed parameter, it is the one shown, whatever comes after it. */
  lemma LookupFirstMatchWins(jobs: seq<Job>, param: string, i: nat)
    requires i < |jobs| && StrictEqualsNumber(IdOf(jobs[i]), ParseInt(param))
    requires forall k :: 0 <= k < i ==> !StrictEqualsNumber(IdOf(jobs[k]), ParseInt(param))
    ensures Lookup(jobs, param) == Found(jobs[i])
  {
  }

  /** A parameter that parses to `NaN` is never found. */
  lemma NaNIsNotFound(jobs: seq<Job>, param: string)
    requires ParseInt(param).None?
    ensures Lookup(jobs, param) == NotFound
  {
  }

  /** Strict equality never equates a string id with a number: a job whose
      id is a string, such as "3", is never shown, not even for "3". */
  lemma StringIdIsNeverFound(jobs: seq<Job>, param: string, job: Job)
    requires IdOf(job).Str?
    ensures Lookup(jobs, param) != Found(job)
  {
  }

  /** Text after the numeral does not change the outcome: "12abc" shows the
      same page as "12". */
  lemma LookupIgnoresTrailingText(jobs: seq<Job>, n: int, rest: string)
    requires |rest| == 0 || !IsDecimalDigit(rest[0])
    requires n == 0 && |rest| > 0 ==> rest[0] != 'x' && rest[0] != 'X'
    ensures Lookup(jobs, NumberToString(n) + rest) == Lookup(jobs, NumberToString(n))
  {
    ParseIntOfNumberText(n, rest);
    ParseIntRoundTrip(n);
  }

  /** The collection's numeric ids are pairwise different. */
  predicate DistinctNumericIds(jobs: seq<Job>) {
    forall i, j :: 0 <= i < j < |jobs| && IdOf(jobs[i]).Num? ==> IdOf(jobs[i]) != IdOf(jobs[j])
  }

  /** Every job with a numeric id is reachable through the text of its id,
      which is what a job card's link `/job/${job.id}` carries; when the
      numeric ids are distinct the page shows exactly that job. */
  lemma LookupByIdText(jobs: seq<Job>, i: nat, n: int)
    requires i < |jobs| && IdOf(jobs[i]) == Num(n)
    ensures Lookup(jobs, NumberToString(n)).Found?
    ensures IdOf(Lookup(jobs, NumberToString(n)).job) == Num(n)
    ensures DistinctNumericIds(jobs) ==> Lookup(jobs, NumberToString(n)) == Found(jobs[i])
  {
    ParseIntRoundTrip(n);
    assert StrictEqualsNumber(IdOf(jobs[i]), ParseInt(NumberToString(n)));
  }

  /** With distinct numeric ids, the text of a job's numeric id shows that
      very job. */
  lemma LookupByOwnIdText(jobs: seq<Job>, job: Job)
    requires DistinctNumericIds(jobs)
    requires job in jobs && IdOf(job).Num?
    ensures Lookup(jobs, ToStr(IdOf(job))) == Found(job)
  {
    var k :| 0 <= k < |jobs| && jobs[k] == job;
    var n := IdOf(job).n;
    assert ToStr(IdOf(job)) == NumberToString(n);
    LookupByIdText(jobs, k, n);
  }
}
