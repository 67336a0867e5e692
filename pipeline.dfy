/**
 * `fetch_adp_jobs`: the base listing page and three keyword pages are
 * scraped, the records merged, filtered again by role, de-duplicated and
 * capped at `MAX_RESULTS`. The HTTP requests are a parameter: `fetch`
 * answers, for a URL, what `requests.get` produced.
 */
module Pipeline {
  import opened Wrappers
  import opened Calendar
  import opened DateParser
  import opened Jobs
  import opened Deduplication
  import opened Extraction

  /** `CAREERS_URL`. */
  const CareersUrl: string := "https://amazon.jobs/content/en/job-categories/software-development"

  /** The keyword pages tried after the base listing, in order. */
  const Queries: seq<string> := ["software", "engineer", "developer"]

  /** `f"{CAREERS_URL}?q={q}"`. */
  function QueryUrl(q: string): string {
    CareersUrl + "?q=" + q
  }

  /**
   * What one `requests.get` gave: a page (given by its anchors), a response
   * with an error status (`ok` false, so `raise_for_status` raises), or an
   * exception from the request itself.
   */
  datatype PageFetch = Page(candidates: seq<Candidate>) | NotOk | RequestFailed

  /** The exceptions `fetch_adp_jobs` lets escape. */
  datatype FetchError =
    | BaseUnavailable
    | DateFailure(error: DateError)

  type Fetcher = string -> PageFetch

  /**
   * The records a keyword page contributes: its extraction when the request
   * succeeded with an ok status and the extraction raised nothing, and none
   * otherwise (the `try`/`except Exception: pass` around each page).
   */
  function QueryJobs(page: PageFetch, join: (string, string) -> string, parse: Parser): seq<Job> {
    match page
    case Page(cs) =>
      (match ExtractFrom(cs, CareersUrl, join, parse)
       case Ok(jobs) => jobs
       case Err(_) => [])
    case _ => []
  }

  /** The records the keyword pages `qs` contribute, in order. */
  function Gathered(qs: seq<string>, fetch: Fetcher, join: (string, string) -> string, parse: Parser): seq<Job> {
    if qs == [] then []
    else Gathered(qs[..|qs| - 1], fetch, join, parse) + QueryJobs(fetch(QueryUrl(qs[|qs| - 1])), join, parse)
  }

  /** The tail of `fetch_adp_jobs`: filter by role, de-duplicate, keep the first `MAX_RESULTS`. */
  function FinalSelection(all: seq<Job>): seq<Job> {
    Cap(Dedup(FilterRole(all)), MaxResults)
  }

  /** `fetch_adp_jobs` with the requests answered by `fetch` and dates parsed by `parse`. */
  function FetchFrom(fetch: Fetcher, join: (string, string) -> string, parse: Parser): Result<seq<Job>, FetchError> {
    match fetch(CareersUrl)
    case Page(cs) =>
      (match ExtractFrom(cs, CareersUrl, join, parse)
       case Err(e) => Err(DateFailure(e))
       case Ok(jobs) => Ok(FinalSelection(jobs + Gathered(Queries, fetch, join, parse))))
    case _ => Err(BaseUnavailable)
  }

  /** `fetch_adp_jobs`, with the clock reading `now`. */
  method FetchAdpJobs(fetch: Fetcher, join: (string, string) -> string, now: Instant)
    returns (r: Result<seq<Job>, FetchError>)
    ensures r == FetchFrom(fetch, join, ParseAt(now))
  {
    FetchFromCases(fetch, join, ParseAt(now));
    var base := fetch(CareersUrl);
    if !base.Page? {
      return Err(BaseUnavailable);
    }
    var first := ExtractJobs(base.candidates, CareersUrl, join, now);
    if first.Err? {
      return Err(DateFailure(first.error));
    }
    var more := KeywordPages(fetch, join, now);
    var all := first.value + more;
    var filtered := FilterRole(all);
    var unique := Dedup(filtered);
    r := Ok(Cap(unique, MaxResults));
  }

  /** The loop over the keyword pages: their records, in order. */
  method KeywordPages(fetch: Fetcher, join: (string, string) -> string, now: Instant)
    returns (found: seq<Job>)
    ensures found == Gathered(Queries, fetch, join, ParseAt(now))
  {
    found := [];
    for i := 0 to |Queries|
      invariant found == Gathered(Queries[..i], fetch, join, ParseAt(now))
    {
      var page := QueryPage(fetch, Queries[i], join, now);
      GatheredStep(Queries, i, fetch, join, ParseAt(now));
      found := found + page;
    }
    assert Queries[..|Queries|] == Queries;
  }

  /**
   * One keyword page inside its `try`: the records of a page fetched with an
   * ok status, and none when the request failed, the status was an error,
   * or the extraction raised.
   */
  method QueryPage(fetch: Fetcher, q: string, join: (string, string) -> string, now: Instant)
    returns (found: seq<Job>)
    ensures found == QueryJobs(fetch(QueryUrl(q)), join, ParseAt(now))
  {
    found := [];
    var page := fetch(QueryUrl(q));
    if page.Page? {
      var extracted := ExtractJobs(page.candidates, CareersUrl, join, now);
      if extracted.Ok? {
        found := extracted.value;
      }
    }
  }

  /**
   * The three outcomes: the base page unavailable, a date error on the base
   * page, or the final selection over the base page's records followed by
   * the keyword pages' records.
   */
  lemma FetchFromCases(fetch: Fetcher, join: (string, string) -> string, parse: Parser)
    ensures !fetch(CareersUrl).Page? ==> FetchFrom(fetch, join, parse) == Err(BaseUnavailable)
    ensures fetch(CareersUrl).Page? && ExtractFrom(fetch(CareersUrl).candidates, CareersUrl, join, parse).Err? ==>
              FetchFrom(fetch, join, parse) ==
              Err(DateFailure(ExtractFrom(fetch(CareersUrl).candidates, CareersUrl, join, parse).error))
    ensures fetch(CareersUrl).Page? && ExtractFrom(fetch(CareersUrl).candidates, CareersUrl, join, parse).Ok? ==>
              FetchFrom(fetch, join, parse) ==
              Ok(FinalSelection(ExtractFrom(fetch(CareersUrl).candidates, CareersUrl, join, parse).value +
                                Gathered(Queries, fetch, join, parse)))
  {
  }

  /** One more keyword page appends its contribution. */
  lemma GatheredStep(qs: seq<string>, i: nat, fetch: Fetcher, join: (string, string) -> string, parse: Parser)
    requires i < |qs|
    ensures Gathered(qs[..i + 1], fetch, join, parse) ==
            Gathered(qs[..i], fetch, join, parse) + QueryJobs(fetch(QueryUrl(qs[i])), join, parse)
  {
    assert qs[..i + 1][..i] == qs[..i];
  }

  /** A prefix of a list without repeated keys has none either. */
  lemma DistinctKeysPrefix(xs: seq<Job>, ys: seq<Job>)
    requires DistinctKeys(xs) && ys <= xs
    ensures DistinctKeys(ys)
  {
    forall p, q | 0 <= p < q < |ys| ensures KeyOf(ys[p]) != KeyOf(ys[q]) {
      assert ys[p] == xs[p] && ys[q] == xs[q];
    }
  }

  /**
   * The final selection: every title names a role, no two records share
   * title and link, every record is one of the merged records, and it is
   * the first `min(n, 200)` of the `n` de-duplicated matching records.
   */
  lemma FinalSelectionProperties(all: seq<Job>)
    ensures forall j :: j in FinalSelection(all) ==> MatchesRole(j.title) && j in all
    ensures DistinctKeys(FinalSelection(all))
    ensures |FinalSelection(all)| <= MaxResults
    ensures |FinalSelection(all)| == if |Dedup(FilterRole(all))| < MaxResults then |Dedup(FilterRole(all))| else MaxResults
    ensures FinalSelection(all) <= Dedup(FilterRole(all))
  {
    var unique := Dedup(FilterRole(all));
    DedupCharacterization(FilterRole(all));
    DedupRecordsFromInput(FilterRole(all));
    DistinctKeysPrefix(unique, FinalSelection(all));
    forall j | j in FinalSelection(all) ensures j in unique {
      var p :| 0 <= p < |FinalSelection(all)| && FinalSelection(all)[p] == j;
      assert unique[p] == j;
    }
  }

  /** Every record a keyword page contributes names a role. */
  lemma QueryJobsMatch(page: PageFetch, join: (string, string) -> string, parse: Parser)
    ensures forall j :: j in QueryJobs(page, join, parse) ==> MatchesRole(j.title)
  {
    if page.Page? && ExtractFrom(page.candidates, CareersUrl, join, parse).Ok? {
      ExtractedJobs(page.candidates, CareersUrl, join, parse);
    }
  }

  /** Every record the keyword pages contribute names a role. */
  lemma {:induction false} GatheredMatch(qs: seq<string>, fetch: Fetcher, join: (string, string) -> string, parse: Parser)
    ensures forall k :: 0 <= k < |Gathered(qs, fetch, join, parse)| ==> MatchesRole(Gathered(qs, fetch, join, parse)[k].title)
  {
    if qs != [] {
      var n := |qs| - 1;
      GatheredMatch(qs[..n], fetch, join, parse);
      var page := QueryJobs(fetch(QueryUrl(qs[n])), join, parse);
      QueryJobsMatch(fetch(QueryUrl(qs[n])), join, parse);
      var g := Gathered(qs, fetch, join, parse);
      forall k | 0 <= k < |g| ensures MatchesRole(g[k].title) {
        if k >= |Gathered(qs[..n], fetch, join, parse)| {
          assert g[k] in page;
        }
      }
    }
  }

  /**
   * The re-filter after merging removes nothing: every merged record came
   * from an extraction that already kept only role-matching titles.
   */
  lemma RefilterIsRedundant(fetch: Fetcher, join: (string, string) -> string, parse: Parser)
    requires FetchFrom(fetch, join, parse).Ok?
    ensures FetchFrom(fetch, join, parse) ==
            Ok(Cap(Dedup(ExtractFrom(fetch(CareersUrl).candidates, CareersUrl, join, parse).value +
                         Gathered(Queries, fetch, join, parse)), MaxResults))
  {
    var base: seq<Job> := ExtractFrom(fetch(CareersUrl).candidates, CareersUrl, join, parse).value;
    var rest: seq<Job> := Gathered(Queries, fetch, join, parse);
    ExtractedJobs(fetch(CareersUrl).candidates, CareersUrl, join, parse);
    GatheredMatch(Queries, fetch, join, parse);
    forall k | 0 <= k < |base + rest| ensures MatchesRole((base + rest)[k].title) {
      if k < |base| {
        assert base[k] in base;
      }
    }
    FilterRoleKeepsMatching(base + rest);
  }

  /**
   * Whether the scan succeeds depends on the base page alone: the keyword
   * pages' failures and date errors are swallowed.
   */
  lemma OnlyBasePageCanFail(fetch1: Fetcher, fetch2: Fetcher, join: (string, string) -> string, parse: Parser)
    requires fetch1(CareersUrl) == fetch2(CareersUrl)
    ensures FetchFrom(fetch1, join, parse).Ok? <==> FetchFrom(fetch2, join, parse).Ok?
    ensures FetchFrom(fetch1, join, parse).Err? ==> FetchFrom(fetch1, join, parse) == FetchFrom(fetch2, join, parse)
  {
  }

  /** Keyword pages that all fail contribute nothing. */
  lemma {:induction false} GatheredNothing(qs: seq<string>, fetch: Fetcher, join: (string, string) -> string, parse: Parser)
    requires forall k :: 0 <= k < |qs| ==> !fetch(QueryUrl(qs[k])).Page?
    ensures Gathered(qs, fetch, join, parse) == []
  {
    if qs != [] {
      GatheredNothing(qs[..|qs| - 1], fetch, join, parse);
    }
  }

  /**
   * With every keyword page unavailable, the result is the base page's
   * records, which are already distinct, cut to the first 200.
   */
  lemma BasePageOnly(fetch: Fetcher, join: (string, string) -> string, parse: Parser)
    requires forall k :: 0 <= k < |Queries| ==> !fetch(QueryUrl(Queries[k])).Page?
    requires FetchFrom(fetch, join, parse).Ok?
    ensures FetchFrom(fetch, join, parse) ==
            Ok(Cap(ExtractFrom(fetch(CareersUrl).candidates, CareersUrl, join, parse).value, MaxResults))
  {
    var cs := fetch(CareersUrl).candidates;
    var base: seq<Job> := ExtractFrom(cs, CareersUrl, join, parse).value;
    GatheredNothing(Queries, fetch, join, parse);
    RefilterIsRedundant(fetch, join, parse);
    assert base + [] == base;
    ExtractedJobs(cs, CareersUrl, join, parse);
    DedupOfDistinct(base);
  }
}
