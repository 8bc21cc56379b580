/** The free-text job search of the job list page: `filteredJobs` keeps the
    jobs that have at least one truthy property value whose lower-cased text
    includes the lower-cased search term, in their original order. */
module JobSearch {
  import opened JsStrings
  import opened JsValues
  import opened Jobs

  /** The test inside `some`: `val && val.toString().toLowerCase()
      .includes(searchTerm.toLowerCase())`. */
  predicate AttrMatches(v: Value, term: string) {
    Truthy(v) && Includes(ToLowerCase(ToStr(v)), ToLowerCase(term))
  }

  /** `vals.some(val => AttrMatches(val, term))`. */
  function SomeMatches(vals: seq<Value>, term: string): (r: bool)
    ensures r <==> exists i :: 0 <= i < |vals| && AttrMatches(vals[i], term)
  {
    if |vals| == 0 then false
    else if AttrMatches(vals[0], term) then true
    else
      var r := SomeMatches(vals[1..], term);
      assert forall i :: 0 < i < |vals| ==> vals[i] == vals[1..][i - 1];
      r
  }

  /** The `filter` callback: some property value of `job` matches. */
  predicate JobMatches(job: Job, term: string) {
    SomeMatches(Values(job), term)
  }

  /** Every matching job of `jobs` occurs in `r` as often as in `jobs`, and
      no other job occurs in `r` at all. */
  ghost predicate ExactlyTheMatches(r: seq<Job>, jobs: seq<Job>, term: string) {
    forall j :: multiset(r)[j] == if JobMatches(j, term) then multiset(jobs)[j] else 0
  }

  /** `xs` is `ys` with some elements left out, the rest in the same order. */
  predicate IsSubsequence<T(==)>(xs: seq<T>, ys: seq<T>)
    decreases |ys|
  {
    if |xs| == 0 then true
    else if |ys| == 0 then false
    else (xs[0] == ys[0] && IsSubsequence(xs[1..], ys[1..])) || IsSubsequence(xs, ys[1..])
  }

  /** `jobs.filter(job => JobMatches(job, term))`. */
  function Search(jobs: seq<Job>, term: string): (r: seq<Job>)
    ensures |r| <= |jobs|
    ensures forall i :: 0 <= i < |r| ==> r[i] in jobs && JobMatches(r[i], term)
  {
    if |jobs| == 0 then []
    else (if JobMatches(jobs[0], term) then [jobs[0]] else []) + Search(jobs[1..], term)
  }

  /** The elements of `xs` that satisfy `keep`, in order. */
  function FilterBy<T>(xs: seq<T>, keep: T -> bool): seq<T> {
    if |xs| == 0 then []
    else (if keep(xs[0]) then [xs[0]] else []) + FilterBy(xs[1..], keep)
  }

  /** A filter keeps each element as often as it occurs when the element
      satisfies the test, and never otherwise. */
  lemma {:induction false} FilterByCount<T>(xs: seq<T>, keep: T -> bool, x: T)
    ensures multiset(FilterBy(xs, keep))[x] == if keep(x) then multiset(xs)[x] else 0
    decreases |xs|
  {
    if |xs| > 0 {
      FilterByCount(xs[1..], keep, x);
      assert xs == [xs[0]] + xs[1..];
    }
  }

  /** `Search` is the filter whose test is `JobMatches`. */
  lemma {:induction false} SearchIsFilterBy(jobs: seq<Job>, term: string)
    ensures Search(jobs, term) == FilterBy(jobs, j => JobMatches(j, term))
    decreases |jobs|
  {
    if |jobs| > 0 {
      SearchIsFilterBy(jobs[1..], term);
    }
  }

  /** No job is duplicated or invented: each matching job is kept exactly as
      often as it occurs in `jobs`, and every other job is dropped. */
  lemma SearchCountsMatches(jobs: seq<Job>, term: string)
    ensures ExactlyTheMatches(Search(jobs, term), jobs, term)
  {
    SearchIsFilterBy(jobs, term);
    forall j: Job
      ensures multiset(Search(jobs, term))[j] ==
        if JobMatches(j, term) then multiset(jobs)[j] else 0
    {
      FilterByCount(jobs, j => JobMatches(j, term), j);
    }
  }

  /** The job has a property whose value is truthy. */
  predicate HasTruthyAttr(job: Job) {
    exists i :: 0 <= i < |job.attrs| && Truthy(job.attrs[i].value)
  }

  /** The jobs kept are the jobs of the collection that match. */
  lemma SearchMembers(jobs: seq<Job>, term: string)
    ensures forall j :: j in Search(jobs, term) <==> j in jobs && JobMatches(j, term)
  {
    var r := Search(jobs, term);
    SearchCountsMatches(jobs, term);
    forall j
      ensures j in r <==> j in jobs && JobMatches(j, term)
    {
      assert j in r <==> multiset(r)[j] > 0;
      assert j in jobs <==> multiset(jobs)[j] > 0;
    }
  }

  /** A job is kept exactly when one of its property values is truthy and its
      lower-cased text includes the lower-cased term; falsy values (`false`,
      `0`, `""`, `null`, `undefined`) never make a job match. */
  lemma SearchKeepsExactlyMatchingJobs(jobs: seq<Job>, term: string)
    ensures forall i :: 0 <= i < |jobs| ==>
      (jobs[i] in Search(jobs, term) <==>
        exists k :: 0 <= k < |jobs[i].attrs| &&
          Truthy(jobs[i].attrs[k].value) &&
          Includes(ToLowerCase(ToStr(jobs[i].attrs[k].value)), ToLowerCase(term)))
  {
    SearchMembers(jobs, term);
  }

  /** A job whose every property value is falsy is dropped whatever the term. */
  lemma AllFalsyJobIsDropped(jobs: seq<Job>, term: string, job: Job)
    requires forall k :: 0 <= k < |job.attrs| ==> !Truthy(job.attrs[k].value)
    ensures job !in Search(jobs, term)
  {
  }

  /** `xs` being a subsequence of `ys` means it takes no element more often. */
  lemma {:induction false} SubsequenceMultiset<T>(xs: seq<T>, ys: seq<T>)
    requires IsSubsequence(xs, ys)
    ensures multiset(xs) <= multiset(ys)
    decreases |ys|
  {
    if |xs| == 0 {
    } else if xs[0] == ys[0] && IsSubsequence(xs[1..], ys[1..]) {
      SubsequenceMultiset(xs[1..], ys[1..]);
      assert xs == [xs[0]] + xs[1..];
      assert ys == [ys[0]] + ys[1..];
    } else {
      SubsequenceMultiset(xs, ys[1..]);
      assert ys == [ys[0]] + ys[1..];
    }
  }

  /** The result keeps the input order: it is a subsequence of `jobs`. */
  lemma {:induction false} SearchIsSubsequence(jobs: seq<Job>, term: string)
    ensures IsSubsequence(Search(jobs, term), jobs)
    decreases |jobs|
  {
    if |jobs| > 0 {
      var rest := Search(jobs[1..], term);
      SearchIsSubsequence(jobs[1..], term);
      if JobMatches(jobs[0], term) {
        var r := [jobs[0]] + rest;
        assert r[1..] == rest;
        assert Search(jobs, term) == r;
      } else {
        assert Search(jobs, term) == rest;
      }
    }
  }

  /** The order-preserving subsequence of `jobs` holding exactly the matching
      jobs is unique, and it is what the search returns. */
  lemma {:induction false} SearchIsTheOrderedMatches(jobs: seq<Job>, term: string, r: seq<Job>)
    ensures IsSubsequence(r, jobs) && ExactlyTheMatches(r, jobs, term) <==> r == Search(jobs, term)
  {
    if r == Search(jobs, term) {
      SearchIsSubsequence(jobs, term);
      SearchCountsMatches(jobs, term);
    }
    if IsSubsequence(r, jobs) && ExactlyTheMatches(r, jobs, term) {
      OrderedMatchesAreUnique(jobs, term, r);
    }
  }

  lemma {:induction false} OrderedMatchesAreUnique(jobs: seq<Job>, term: string, r: seq<Job>)
    requires IsSubsequence(r, jobs)
    requires ExactlyTheMatches(r, jobs, term)
    ensures r == Search(jobs, term)
    decreases |jobs|
  {
    if |jobs| > 0 {
      var first, rest := jobs[0], jobs[1..];
      assert jobs == [first] + rest;
      if |r| > 0 && r[0] == first && IsSubsequence(r[1..], rest) {
        assert r == [r[0]] + r[1..];
        assert multiset(r)[first] > 0;
        assert JobMatches(first, term);
        assert ExactlyTheMatches(r[1..], rest, term);
        OrderedMatchesAreUnique(rest, term, r[1..]);
      } else {
        assert IsSubsequence(r, rest);
        SubsequenceMultiset(r, rest);
        assert multiset(r)[first] <= multiset(rest)[first];
        assert !JobMatches(first, term);
        OrderedMatchesAreUnique(rest, term, r);
      }
    }
  }

  /** Terms that lower-case alike give the same result. */
  lemma {:induction false} SearchIsCaseInsensitive(jobs: seq<Job>, t1: string, t2: string)
    requires ToLowerCase(t1) == ToLowerCase(t2)
    ensures Search(jobs, t1) == Search(jobs, t2)
    decreases |jobs|
  {
    if |jobs| > 0 {
      assert JobMatches(jobs[0], t1) == JobMatches(jobs[0], t2);
      SearchIsCaseInsensitive(jobs[1..], t1, t2);
    }
  }

  /** Searching for the lower-cased term finds the same jobs. */
  lemma SearchWithLoweredTerm(jobs: seq<Job>, term: string)
    ensures Search(jobs, ToLowerCase(term)) == Search(jobs, term)
  {
    ToLowerCaseIdempotent(term);
    SearchIsCaseInsensitive(jobs, ToLowerCase(term), term);
  }

  /** Searching the result again with the same term changes nothing. */
  lemma {:induction false} SearchIsIdempotent(jobs: seq<Job>, term: string)
    ensures Search(Search(jobs, term), term) == Search(jobs, term)
    decreases |jobs|
  {
    if |jobs| > 0 {
      var rest := Search(jobs[1..], term);
      SearchIsIdempotent(jobs[1..], term);
      if JobMatches(jobs[0], term) {
        var r := [jobs[0]] + rest;
        assert r[1..] == rest;
        assert Search(jobs, term) == r;
      } else {
        assert Search(jobs, term) == rest;
      }
    }
  }

  /** With the empty term a job matches exactly when it has a truthy
      property value, since every string includes "". */
  lemma EmptyTermMatchesTruthy(job: Job)
    ensures JobMatches(job, "") <==> HasTruthyAttr(job)
  {
    var vals := Values(job);
    assert ToLowerCase("") == "";
    forall i | 0 <= i < |vals| && Truthy(vals[i])
      ensures AttrMatches(vals[i], "")
    {
      IncludesEmpty(ToLowerCase(ToStr(vals[i])));
    }
  }

  /** The empty term keeps the whole collection, in order, when every job
      has a truthy property value. */
  lemma {:induction false} EmptyTermKeepsAll(jobs: seq<Job>)
    requires forall i :: 0 <= i < |jobs| ==> HasTruthyAttr(jobs[i])
    ensures Search(jobs, "") == jobs
    decreases |jobs|
  {
    if |jobs| > 0 {
      EmptyTermMatchesTruthy(jobs[0]);
      EmptyTermKeepsAll(jobs[1..]);
      assert jobs == [jobs[0]] + jobs[1..];
    }
  }

  /** A property holding an array is found by every term that one of its
      elements' text includes, ignoring case. This holds also for elements
      such as `false` or `0` that would not be searched on their own, since
      the array around them is truthy. */
  lemma ArrayPropertyFoundByElement(v: Value, i: nat, term: string)
    requires v.Arr? && i < |v.items|
    requires !v.items[i].Undefined? && !v.items[i].Null?
    requires Includes(ToLowerCase(ToStr(v.items[i])), ToLowerCase(term))
    ensures AttrMatches(v, term)
  {
    var item := ToStr(v.items[i]);
    JoinContainsEachElement(v.items, i);
    var m :| OccursAt(Join(v.items), item, m);
    var k :| OccursAt(ToLowerCase(item), ToLowerCase(term), k);
    OccursUnderLowerCase(Join(v.items), item, m);
    OccursTransitive(ToLowerCase(Join(v.items)), ToLowerCase(item), ToLowerCase(term), m, k);
    assert ToStr(v) == Join(v.items);
  }

  /** A sample posting with a falsy `id` (0) and a falsy `remote` (false). */
  const SampleJob: Job :=
    Record([Attr("id", Num(0)), Attr("title", Str("Dev")), Attr("remote", Bool(false))])

  /** A falsy `remote` is not searched: "false" does not find the sample,
      although `String(false)` is "false". */
  lemma FalseIsNotSearched()
    ensures Search([SampleJob], "false") == []
  {
    assert ToLowerCase("Dev") == "dev";
  }

  /** A falsy `id` is not searched: "0" does not find the sample, although
      `String(0)` is "0". */
  lemma ZeroIsNotSearched()
    ensures Search([SampleJob], "0") == []
  {
    assert ToLowerCase("Dev") == "dev";
    assert !Includes("", "0");
    assert "v"[..1] == "v" && "v"[1..] == "";
    assert !Includes("v", "0");
    assert !Includes("ev", "0");
    assert !Includes("dev", "0");
  }

  /** The truthy title is searched, ignoring case: "DEV" finds "Dev". */
  lemma TitleIsSearchedIgnoringCase()
    ensures Search([SampleJob], "DEV") == [SampleJob]
  {
    assert ToLowerCase("Dev") == "dev";
    assert ToLowerCase("DEV") == "dev";
    assert Includes("dev", "dev");
  }
}
