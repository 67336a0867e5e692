/**
 * The per-anchor decisions of `extract_jobs_from_html`. The HTML parsing that
 * finds the anchors is not modelled: a page is given as the list of its
 * candidate anchors, each with its text, its `href` and the text of its
 * parent element.
 */
module Extraction {
  import opened Wrappers
  import opened Text
  import opened Calendar
  import opened DateParser
  import opened Jobs
  import opened Deduplication

  /**
   * One anchor: `a.get_text(strip=True)`, `a["href"]`, and
   * `parent.get_text(" ", strip=True)` when the anchor has a parent.
   */
  datatype Candidate = Candidate(title: string, href: string, parentText: Option<string>)

  /**
   * A date parser: `parse_possible_date` with its clock reading fixed. The
   * extraction functions take it as a parameter, so that what is proved
   * about them holds whatever the parser answers.
   */
  type Parser = string -> Result<Posted, DateError>

  /** `parse_possible_date` with the clock reading `now`. */
  function ParseAt(now: Instant): Parser {
    text => ParsePossibleDate(text, now)
  }

  /** The location keywords, in the order they are tried. */
  const Locations: seq<string> := ["United States", "India", "Canada", "Remote", "Hybrid"]

  /** An anchor is turned into a record only when its title is non-empty and names a role. */
  predicate Keep(c: Candidate) {
    c.title != [] && MatchesRole(c.title)
  }

  /** The text searched for location and date: the parent's text, or the title without a parent. */
  function BlockText(c: Candidate): string {
    if c.parentText.Some? then c.parentText.value else c.title
  }

  /**
   * The link: an `href` starting with `http` as it is, any other resolved
   * against the page URL by `join` (`urljoin`).
   */
  function LinkFor(href: string, base: string, join: (string, string) -> string): (link: string)
    ensures StartsWith(href, "http") ==> link == href
    ensures !StartsWith(href, "http") ==> link == join(base, href)
  {
    if StartsWith(href, "http") then href else join(base, href)
  }

  /** The first location keyword, from position `i` of the list on, that occurs in `block`. */
  function FirstLocationFrom(block: string, i: nat): string
    requires i <= |Locations|
    decreases |Locations| - i
  {
    if i == |Locations| then ""
    else if Contains(block, Locations[i]) then Locations[i]
    else FirstLocationFrom(block, i + 1)
  }

  /**
   * The location of a posting: the first of "United States", "India",
   * "Canada", "Remote", "Hybrid" that occurs in the block text, or "" when
   * none does.
   */
  function FirstLocation(block: string): string {
    FirstLocationFrom(block, 0)
  }

  /**
   * The search from position `i` of the keyword list finds nothing exactly
   * when no keyword from `i` on occurs in `block`, and otherwise the
   * earliest-listed keyword that occurs.
   */
  lemma {:induction false} FirstLocationFromIsFirst(block: string, i: nat)
    requires i <= |Locations|
    ensures FirstLocationFrom(block, i) == "" <==> forall j :: i <= j < |Locations| ==> !Contains(block, Locations[j])
    ensures FirstLocationFrom(block, i) != "" ==>
              exists j :: i <= j < |Locations| && FirstLocationFrom(block, i) == Locations[j] &&
                          Contains(block, Locations[j]) && forall k :: i <= k < j ==> !Contains(block, Locations[k])
    decreases |Locations| - i
  {
    if i < |Locations| {
      assert Locations[i] != "";
      FirstLocationFromIsFirst(block, i + 1);
    }
  }

  /** The location is "" when no keyword occurs, and otherwise the first keyword in list order that does. */
  lemma LocationIsFirstMatch(block: string)
    ensures FirstLocation(block) == "" <==> forall j :: 0 <= j < |Locations| ==> !Contains(block, Locations[j])
    ensures FirstLocation(block) != "" ==>
              exists j :: 0 <= j < |Locations| && FirstLocation(block) == Locations[j] &&
                          Contains(block, Locations[j]) && forall k :: 0 <= k < j ==> !Contains(block, Locations[k])
  {
    FirstLocationFromIsFirst(block, 0);
  }

  /** The loop over the location keywords, stopping at the first that occurs in `block`. */
  method FindLocation(block: string) returns (location: string)
    ensures location == FirstLocation(block)
  {
    location := "";
    for i := 0 to |Locations|
      invariant location == "" && FirstLocation(block) == FirstLocationFrom(block, i)
    {
      if Contains(block, Locations[i]) {
        location := Locations[i];
        break;
      }
    }
  }

  /** The record built from a kept anchor, or the error of its date parse. */
  function BuildJob(c: Candidate, base: string, join: (string, string) -> string, parse: Parser): (r: Result<Job, DateError>)
  {
    var block := BlockText(c);
    match parse(block)
    case Err(e) => Err(e)
    case Ok(p) =>
      Ok(Job(c.title, CompanyName, FirstLocation(block), LinkFor(c.href, base, join),
             if p.Posted? then p.text else "", if p.Posted? then Some(p.at) else None))
  }

  /** The records of the kept anchors, in order; the first date error ends the scan. */
  function Collect(cs: seq<Candidate>, base: string, join: (string, string) -> string, parse: Parser): (r: Result<seq<Job>, DateError>)
  {
    if cs == [] then Ok([])
    else
      var c := cs[|cs| - 1];
      match Collect(cs[..|cs| - 1], base, join, parse)
      case Err(e) => Err(e)
      case Ok(jobs) =>
        if !Keep(c) then Ok(jobs)
        else match BuildJob(c, base, join, parse)
          case Err(e) => Err(e)
          case Ok(j) => Ok(jobs + [j])
  }

  /** `extract_jobs_from_html` over a page's anchors: the kept records, de-duplicated. */
  function ExtractFrom(cs: seq<Candidate>, base: string, join: (string, string) -> string, parse: Parser): Result<seq<Job>, DateError> {
    match Collect(cs, base, join, parse)
    case Err(e) => Err(e)
    case Ok(jobs) => Ok(Dedup(jobs))
  }

  /** `extract_jobs_from_html`: one pass over the anchors, then de-duplication. */
  method ExtractJobs(cs: seq<Candidate>, base: string, join: (string, string) -> string, now: Instant)
    returns (r: Result<seq<Job>, DateError>)
    ensures r == ExtractFrom(cs, base, join, ParseAt(now))
  {
    var jobs: seq<Job> := [];
    for i := 0 to |cs|
      invariant Collect(cs[..i], base, join, ParseAt(now)) == Ok(jobs)
    {
      var c := cs[i];
      assert cs[..i + 1] == cs[..i] + [c];
      CollectSnoc(cs[..i], c, base, join, ParseAt(now));
      if c.title == [] {
        continue;
      }
      if !MatchesRole(c.title) {
        continue;
      }
      var built := BuildKeptJob(c, base, join, now);
      if built.Err? {
        CollectStopsAtError(cs[..i + 1], cs[i + 1..], base, join, ParseAt(now));
        assert cs[..i + 1] + cs[i + 1..] == cs;
        return Err(built.error);
      }
      var job := built.value;
      jobs := jobs + [job];
    }
    assert cs[..|cs|] == cs;
    r := Ok(Dedup(jobs));
  }

  /** The body of the scan for an anchor that is kept: its record, or its date error. */
  method BuildKeptJob(c: Candidate, base: string, join: (string, string) -> string, now: Instant)
    returns (r: Result<Job, DateError>)
    requires Keep(c)
    ensures r == BuildJob(c, base, join, ParseAt(now))
  {
    var link := if StartsWith(c.href, "http") then c.href else join(base, c.href);
    var block := if c.parentText.Some? then c.parentText.value else c.title;
    var location := FindLocation(block);
    var posted := ParseAt(now)(block);
    if posted.Err? {
      return Err(posted.error);
    }
    r := Ok(Job(c.title, CompanyName, location, link,
                if posted.value.Posted? then posted.value.text else "",
                if posted.value.Posted? then Some(posted.value.at) else None));
  }

  /** Once the scan has failed, later anchors change nothing. */
  lemma {:induction false} CollectStopsAtError(cs: seq<Candidate>, ds: seq<Candidate>, base: string,
                                               join: (string, string) -> string, parse: Parser)
    requires Collect(cs, base, join, parse).Err?
    ensures Collect(cs + ds, base, join, parse) == Collect(cs, base, join, parse)
    decreases |ds|
  {
    if ds != [] {
      var n := |ds| - 1;
      CollectStopsAtError(cs, ds[..n], base, join, parse);
      assert (cs + ds)[..|cs + ds| - 1] == cs + ds[..n];
    } else {
      assert cs + ds == cs;
    }
  }

  /** The date parse of an anchor that is kept and whose date parse fails. */
  predicate Fails(c: Candidate, parse: Parser) {
    Keep(c) && parse(BlockText(c)).Err?
  }

  /** The scan succeeds exactly when no kept anchor's date parse fails. */
  lemma {:induction false} CollectOk(cs: seq<Candidate>, base: string, join: (string, string) -> string, parse: Parser)
    ensures Collect(cs, base, join, parse).Ok? <==> forall i :: 0 <= i < |cs| ==> !Fails(cs[i], parse)
  {
    if cs != [] {
      var n := |cs| - 1;
      var prefix := cs[..n];
      CollectOk(prefix, base, join, parse);
      CollectSnoc(prefix, cs[n], base, join, parse);
      assert cs == prefix + [cs[n]];
      assert forall k :: 0 <= k < n ==> prefix[k] == cs[k];
    }
  }

  /** A failed scan fails with the error of the first kept anchor whose date parse fails. */
  lemma {:induction false} CollectError(cs: seq<Candidate>, base: string, join: (string, string) -> string, parse: Parser)
    requires Collect(cs, base, join, parse).Err?
    ensures exists i :: 0 <= i < |cs| && Fails(cs[i], parse) &&
                        Collect(cs, base, join, parse).error == parse(BlockText(cs[i])).error &&
                        forall k :: 0 <= k < i ==> !Fails(cs[k], parse)
  {
    var n := |cs| - 1;
    var prefix := cs[..n];
    BuildJobOutcome(cs[n], base, join, parse);
    if Collect(prefix, base, join, parse).Err? {
      assert Collect(cs, base, join, parse) == Collect(prefix, base, join, parse);
      CollectError(prefix, base, join, parse);
      var i :| 0 <= i < n && Fails(prefix[i], parse) &&
               Collect(prefix, base, join, parse).error == parse(BlockText(prefix[i])).error &&
               forall k :: 0 <= k < i ==> !Fails(prefix[k], parse);
      assert prefix[i] == cs[i];
      forall k | 0 <= k < i ensures !Fails(cs[k], parse) {
        assert prefix[k] == cs[k];
      }
    } else {
      assert Fails(cs[n], parse) && Collect(cs, base, join, parse).error == parse(BlockText(cs[n])).error;
      CollectOk(prefix, base, join, parse);
      forall k | 0 <= k < n ensures !Fails(cs[k], parse) {
        assert prefix[k] == cs[k];
      }
    }
  }

  /** One more anchor: an earlier failure stands, a failing anchor fails the scan, any other keeps it going. */
  lemma CollectSnoc(prefix: seq<Candidate>, c: Candidate, base: string, join: (string, string) -> string, parse: Parser)
    ensures Collect(prefix, base, join, parse).Err? ==>
              Collect(prefix + [c], base, join, parse) == Collect(prefix, base, join, parse)
    ensures Collect(prefix, base, join, parse).Ok? && Fails(c, parse) ==>
              Collect(prefix + [c], base, join, parse) == Err(parse(BlockText(c)).error)
    ensures Collect(prefix, base, join, parse).Ok? && !Keep(c) ==>
              Collect(prefix + [c], base, join, parse) == Collect(prefix, base, join, parse)
    ensures Collect(prefix, base, join, parse).Ok? && Keep(c) && BuildJob(c, base, join, parse).Ok? ==>
              Collect(prefix + [c], base, join, parse) ==
              Ok(Collect(prefix, base, join, parse).value + [BuildJob(c, base, join, parse).value])
  {
    BuildJobOutcome(c, base, join, parse);
    assert (prefix + [c])[..|prefix|] == prefix;
  }

  /** Building a record fails exactly when the date parse of its block text fails, with that error. */
  lemma BuildJobOutcome(c: Candidate, base: string, join: (string, string) -> string, parse: Parser)
    ensures BuildJob(c, base, join, parse).Err? <==> parse(BlockText(c)).Err?
    ensures BuildJob(c, base, join, parse).Err? ==>
              BuildJob(c, base, join, parse).error == parse(BlockText(c)).error
  {
  }

  /**
   * A successful scan turns exactly the kept anchors into records: each
   * record comes from a kept anchor, and each kept anchor gives a record.
   */
  lemma {:induction false} CollectRecords(cs: seq<Candidate>, base: string, join: (string, string) -> string, parse: Parser)
    requires Collect(cs, base, join, parse).Ok?
    ensures forall j :: j in Collect(cs, base, join, parse).value ==>
              exists c :: c in cs && Keep(c) && BuildJob(c, base, join, parse) == Ok(j)
    ensures forall c :: c in cs && Keep(c) ==>
              BuildJob(c, base, join, parse).Ok? &&
              BuildJob(c, base, join, parse).value in Collect(cs, base, join, parse).value
  {
    if cs != [] {
      var n := |cs| - 1;
      assert cs == cs[..n] + [cs[n]];
      CollectRecords(cs[..n], base, join, parse);
      forall c | c in cs ensures c in cs[..n] || c == cs[n] {
      }
    }
  }

  /** A successful build keeps the anchor's title and the company name, and follows the link rule. */
  lemma BuildJobFields(c: Candidate, base: string, join: (string, string) -> string, parse: Parser)
    requires BuildJob(c, base, join, parse).Ok?
    ensures BuildJob(c, base, join, parse).value.title == c.title
    ensures BuildJob(c, base, join, parse).value.company == CompanyName
    ensures BuildJob(c, base, join, parse).value.link == LinkFor(c.href, base, join)
    ensures BuildJob(c, base, join, parse).value.location == FirstLocation(BlockText(c))
  {
  }

  /**
   * The posting fields of a built record: the parser's fragment and instant
   * when it found a date, and an empty text and no instant when it did not.
   */
  lemma BuildJobPosted(c: Candidate, base: string, join: (string, string) -> string, parse: Parser)
    requires parse(BlockText(c)).Ok?
    ensures BuildJob(c, base, join, parse).Ok?
    ensures parse(BlockText(c)).value.Posted? ==>
              BuildJob(c, base, join, parse).value.postedText == parse(BlockText(c)).value.text &&
              BuildJob(c, base, join, parse).value.postedAt == Some(parse(BlockText(c)).value.at)
    ensures parse(BlockText(c)).value.Unknown? ==>
              BuildJob(c, base, join, parse).value.postedText == "" &&
              BuildJob(c, base, join, parse).value.postedAt == None
  {
  }

  /**
   * What `extract_jobs_from_html` returns on success: records with non-empty
   * role-matching titles, the company name and the link rule; no two with
   * the same title and link; and a record for every kept anchor's key.
   */
  lemma ExtractedJobs(cs: seq<Candidate>, base: string, join: (string, string) -> string, parse: Parser)
    requires ExtractFrom(cs, base, join, parse).Ok?
    ensures DistinctKeys(ExtractFrom(cs, base, join, parse).value)
    ensures forall j :: j in ExtractFrom(cs, base, join, parse).value ==>
              j.title != [] && MatchesRole(j.title) && j.company == CompanyName &&
              exists c :: c in cs && Keep(c) && c.title == j.title && j.link == LinkFor(c.href, base, join)
    ensures forall c :: c in cs && Keep(c) ==>
              (c.title, LinkFor(c.href, base, join)) in KeysOf(ExtractFrom(cs, base, join, parse).value)
  {
    var jobs := Collect(cs, base, join, parse).value;
    var out := ExtractFrom(cs, base, join, parse).value;
    CollectRecords(cs, base, join, parse);
    DedupCharacterization(jobs);
    forall j | j in out
      ensures j.title != [] && MatchesRole(j.title) && j.company == CompanyName
      ensures exists c :: c in cs && Keep(c) && c.title == j.title && j.link == LinkFor(c.href, base, join)
    {
      var p :| 0 <= p < |out| && out[p] == j;
      assert out[p] in out;
      assert j in jobs;
      var c :| c in cs && Keep(c) && BuildJob(c, base, join, parse) == Ok(j);
      BuildJobFields(c, base, join, parse);
    }
    forall c | c in cs && Keep(c)
      ensures (c.title, LinkFor(c.href, base, join)) in KeysOf(out)
    {
      var j := BuildJob(c, base, join, parse).value;
      BuildJobFields(c, base, join, parse);
      assert KeyOf(j) in KeysOf(jobs);
    }
  }
}
