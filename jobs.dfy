/**
 * The job record the scraper produces, the role-keyword filter applied to
 * titles, and the configuration constants they use.
 */
module Jobs {
  import opened Wrappers
  import opened Text
  import opened Calendar

  /** `COMPANY_NAME`. */
  const CompanyName: string := "ADP"

  /** `ROLE_KEYWORDS`, matched against the lower-cased title. */
  const RoleKeywords: seq<string> := ["software", "developer", "engineer"]

  /** `MAX_RESULTS`. */
  const MaxResults: nat := 200

  /**
   * One scraped posting. `postedAt` is the instant whose ISO-8601 text the
   * source stores; `None` is the source's `None`.
   */
  datatype Job = Job(title: string, company: string, location: string, link: string,
                     postedText: string, postedAt: Option<Instant>)

  /** The identity used for de-duplication: title and link. */
  type Key = (string, string)

  function KeyOf(j: Job): Key {
    (j.title, j.link)
  }

  /** `any(k in title.lower() for k in ROLE_KEYWORDS)`. */
  predicate MatchesRole(title: string) {
    exists i :: 0 <= i < |RoleKeywords| && Contains(Lower(title), RoleKeywords[i])
  }

  /**
   * The role filter ignores the case of ASCII letters: a title matches
   * exactly when any re-casing of it matches.
   */
  lemma MatchesRoleIgnoresCase(s: string, t: string)
    requires CaseVariant(s, t)
    ensures MatchesRole(s) <==> MatchesRole(t)
  {
    LowerIgnoresCase(s, t);
  }

  /** A keyword occurring anywhere in the lower-cased title makes the title match. */
  lemma OccurrenceMatchesRole(title: string, i: int, p: int)
    requires 0 <= i < |RoleKeywords| && OccursAt(Lower(title), RoleKeywords[i], p)
    ensures MatchesRole(title)
  {
    ContainsIff(Lower(title), RoleKeywords[i]);
    assert Contains(Lower(title), RoleKeywords[i]);
  }

  /** A matching title has some keyword at some position of its lower-cased form. */
  lemma MatchesRoleOccurs(title: string)
    requires MatchesRole(title)
    ensures exists i, p :: 0 <= i < |RoleKeywords| && OccursAt(Lower(title), RoleKeywords[i], p)
  {
    var i :| 0 <= i < |RoleKeywords| && Contains(Lower(title), RoleKeywords[i]);
    ContainsIff(Lower(title), RoleKeywords[i]);
    var p :| OccursAt(Lower(title), RoleKeywords[i], p);
    assert 0 <= i < |RoleKeywords| && OccursAt(Lower(title), RoleKeywords[i], p);
  }

  /** A title matches exactly when one of the keywords occurs somewhere in its lower-cased form. */
  lemma MatchesRoleIff(title: string)
    ensures MatchesRole(title) <==>
              exists i, p :: 0 <= i < |RoleKeywords| && OccursAt(Lower(title), RoleKeywords[i], p)
  {
    if MatchesRole(title) {
      MatchesRoleOccurs(title);
    } else {
      forall i, p | 0 <= i < |RoleKeywords| && OccursAt(Lower(title), RoleKeywords[i], p)
        ensures false
      {
        OccurrenceMatchesRole(title, i, p);
      }
    }
  }

  /** An empty title never matches: every keyword is longer than it. */
  lemma EmptyTitleNeverMatches()
    ensures !MatchesRole("")
  {
    assert Lower("") == "";
  }

  /** `[j for j in jobs if any(k in j["title"].lower() for k in ROLE_KEYWORDS)]`. */
  function FilterRole(jobs: seq<Job>): (r: seq<Job>)
    ensures |r| <= |jobs|
    ensures forall j :: j in r <==> j in jobs && MatchesRole(j.title)
  {
    if jobs == [] then []
    else
      var rest := FilterRole(jobs[..|jobs| - 1]);
      var last := jobs[|jobs| - 1];
      assert jobs == jobs[..|jobs| - 1] + [last];
      if MatchesRole(last.title) then rest + [last] else rest
  }

  /** Filtering keeps every record, in order, when every title already matches. */
  lemma {:induction false} FilterRoleKeepsMatching(jobs: seq<Job>)
    requires forall k :: 0 <= k < |jobs| ==> MatchesRole(jobs[k].title)
    ensures FilterRole(jobs) == jobs
  {
    if jobs != [] {
      FilterRoleKeepsMatching(jobs[..|jobs| - 1]);
      assert jobs == jobs[..|jobs| - 1] + [jobs[|jobs| - 1]];
    }
  }

  /** Filtering a single record keeps it exactly when its title matches. */
  lemma FilterRoleSingleton(j: Job)
    ensures FilterRole([j]) == if MatchesRole(j.title) then [j] else []
  {
    assert [j][..0] == [];
  }

  /**
   * Filtering distributes over concatenation; with `FilterRoleSingleton`
   * this fixes the order and the multiplicity of the records kept.
   */
  lemma {:induction false} FilterRoleAppend(a: seq<Job>, b: seq<Job>)
    ensures FilterRole(a + b) == FilterRole(a) + FilterRole(b)
    decreases |b|
  {
    if b == [] {
      assert a + b == a;
    } else {
      var last := b[|b| - 1];
      var front := b[..|b| - 1];
      assert (a + b)[..|a + b| - 1] == a + front;
      assert (a + b)[|a + b| - 1] == last;
      FilterRoleAppend(a, front);
      if MatchesRole(last.title) {
        assert FilterRole(a) + (FilterRole(front) + [last]) == (FilterRole(a) + FilterRole(front)) + [last];
      }
    }
  }

  /** `jobs[:n]`: the first `n` records, or all of them when there are fewer. */
  function Cap(jobs: seq<Job>, n: nat): (r: seq<Job>)
    ensures |r| == if |jobs| < n then |jobs| else n
    ensures r <= jobs
  {
    if |jobs| <= n then jobs else jobs[..n]
  }
}
