# ADP job scraper: date parsing, extraction and selection

This project models the core of a small job-tracking function in Dafny. The
function scrapes a careers listing page and three keyword pages. It keeps
anchors whose titles name a software role and builds one record per kept
anchor. Each record has a title, company, location, link, posted text and
posted instant. The records are de-duplicated by title and link, and at
most 200 are returned. The source is `function/main.py`.

The model has four parts:

- `parse_possible_date` (modules `DateParser` and `DateProperties`).
  - It searches free text for the leftmost `M/D/YYYY` fragment. If that
    fragment is a real calendar date, the result is midnight of that day.
  - Otherwise it searches for the leftmost `<n> <unit> ago` phrase, in any
    letter case. The result is `now` minus `n` hours, days, weeks (7 days)
    or months (30 days).
  - The two regular expressions are modelled by what Python's `re.search`
    does: the leftmost start, greedy repetition, and alternatives tried in
    the order written.
  - Each pattern also has an independent description of the text it
    matches. `DateShape` describes the date pattern and `RelShape` the
    relative pattern, position by position. Each matcher is proved sound and
    complete against its description. The leftmost match is then proved to
    be what the search returns.
  - The relative matcher takes its unit alternatives as a parameter
    `units`. The properties hold for any list of distinct, non-empty,
    lower-case words, and `UnitAlternatives` (the eight words of the
    pattern) is proved to be such a list.
  - The exceptions the function lets escape are modelled as errors. The
    timedelta overflows when `30*n` days is out of range, whatever the unit,
    because the whole table of deltas is built before it is indexed.
    `now - delta` overflows when the instant would fall before year 1.
    A unit spelled with the long s `ſ` raises `KeyError`: the case-insensitive
    pattern accepts it, but `.lower()` keeps it, so it is not a key of the table.
  - Instants are whole seconds since 0001-01-01 00:00 (module `Calendar`).
    The clock reading `now` is a parameter.
- `extract_jobs_from_html` (module `Extraction`). A page is the list of its
  candidate anchors. Each anchor is given by its text, its `href` and the
  text of its parent element, if it has one.
  - The method `ExtractJobs` runs the source's loop:
    - it skips an empty title and a title with no role keyword;
    - it builds the link, finds the first location keyword, and parses the date;
    - a date error ends the scan;
    - at the end it de-duplicates.
  - The function `ExtractFrom` is its specification. It is generic in the
    date parser, so the lemmas about it hold whatever the parser answers.
- The title filter and the configuration constants (module `Jobs`).
  De-duplication (module `Deduplication`) is an insertion-ordered dictionary
  keyed by `(title, link)`. It is proved equal to an independent description:
  - every key appears once;
  - it sits at the position of its first occurrence;
  - it holds the last record with that key.
- `fetch_adp_jobs` (module `Pipeline`).
  - The HTTP requests are a parameter `fetch`, which maps a URL to a page,
    an error status or a failed request.
  - The method `FetchAdpJobs` runs the source's accumulation loop and then
    the filter, de-duplication and cap.
  - A failure on the base page, or a date error on it, escapes.
  - Failures and date errors on the keyword pages are swallowed.

De-duplication does not keep the first record of each key. The dict
comprehension keeps each key at the position where it first occurs, but
stores the LAST record with that key. The model does the same
(`Deduplication.DedupCharacterization`).

## Model

| member | source | states |
|---|---|---|
| Text.LowerIgnoresCase | function/main.py:100 | Re-casing ASCII letters does not change `str.lower()` of a string |
| Text.ContainsIff | function/main.py:100 | Substring `in` holds exactly when the needle occurs at some position |
| Calendar.Midnight | function/main.py:43-44 | The instant `strptime` gives for a valid date is a whole number of days, and that day count is the date's ordinal minus one |
| Calendar.OrdinalBound | function/main.py:43 | Every valid date with a year in 1..9999 has an ordinal inside `datetime`'s range |
| Calendar.MidnightChronological | function/main.py:43-44 | Midnights are ordered as their dates are, and two dates share a midnight only when they are equal |
| Calendar.OrdinalIncreasing | function/main.py:43 | A chronologically earlier date has a smaller ordinal |
| DateParser.DigitsThenSlash | function/main.py:28 | `\d{1,2}/` from a position: it succeeds exactly when one or two digits followed by `/` are there, taking the longest run |
| DateParser.SlashDateAt | function/main.py:28 | A `DATE_RE` match starting at a position has the date shape and the values of its three digit groups |
| DateParser.DateShapeOfSlashes | function/main.py:28 | Two slashes found by the `\d{1,2}/` scans, then four digits and a word boundary, form the date shape |
| DateParser.SlashDateAtComplete | function/main.py:28 | Every date-shaped fragment at a position is the match found there |
| DateParser.FirstSlashDate | function/main.py:40 | `DATE_RE.search` finds the leftmost position where the pattern matches, and no match means no position matches |
| DateParser.DigitRunEnd | function/main.py:29 | `\d+` is greedy: the run ends at the first non-digit |
| DateParser.SpaceRunEnd | function/main.py:29 | `\s+` is greedy: the run ends at the first non-space |
| DateParser.WordAtSlice | function/main.py:29 | What matches a word under `re.I` is that word in some letter case |
| DateParser.NoRepeatsDiffer | function/main.py:29 | In a list without repeats, two positions hold different words |
| DateParser.UnitAlternativesWellFormed | function/main.py:29 | The eight unit alternatives are non-empty lower-case words, none listed twice |
| DateParser.AgoAt | function/main.py:29 | `\s+ago` after the unit ends inside the text |
| DateParser.AgoAtSound | function/main.py:29 | What `AgoAt` accepts is one or more spaces followed by `ago` in some case |
| DateParser.AgoAtComplete | function/main.py:29 | Wherever spaces and `ago` follow, `AgoAt` accepts and ends after `ago` |
| DateParser.UnitAt | function/main.py:29 | The unit group accepts an alternative only when `\s+ago` follows it, and ends inside the text |
| DateParser.UnitAtOnly | function/main.py:29 | When exactly one alternative fits, the unit group ends after that alternative |
| DateParser.FitExcludesLonger | function/main.py:29 | When a word fits, no other lower-case word at least as long matches at that position |
| DateParser.UnitFitsUnique | function/main.py:29 | At most one alternative of a well-formed unit group is followed by `\s+ago` |
| DateParser.UnitAtFinds | function/main.py:29 | The unit group picks the alternative that is followed by `\s+ago` |
| DateParser.UnitAtWhich | function/main.py:29 | A unit the group accepts is one of the alternatives, matched in some case, ending where that word ends |
| DateParser.RelPhraseAt | function/main.py:29 | A `RELATIVE_RE` match at a position starts there and ends inside the text |
| DateParser.RelPhraseAtSound | function/main.py:29 | A match has the relative shape, its count is the value of its digits and its unit is the matched word |
| DateParser.RelPhraseAtShape | function/main.py:29 | The same, naming the shape's positions |
| DateParser.RelShapeRuns | function/main.py:29 | In the relative shape, the digit and space runs are the greedy ones |
| DateParser.RelShapeFound | function/main.py:29 | On a relative shape, the matcher's scans find the greedy runs, the shape's unit and its `ago` |
| DateParser.RelPhraseAtComplete | function/main.py:29 | Wherever the relative shape occurs, the pattern matches there with that count, unit and end |
| DateParser.FirstRelPhrase | function/main.py:49 | `RELATIVE_RE.search` finds the leftmost matching position, and no match means none matches |
| DateParser.Resolve | function/main.py:51-59 | A resolved phrase is posted with its own fragment, at or before `now` |
| DateParser.RelativeOutcome | function/main.py:48-61 | The relative branch posts only a fragment that occurs in the text |
| DateParser.ParsePossibleDate | function/main.py:31-61 | Any posted fragment occurs in the text |
| DateProperties.EmptyTextHasNoDate | function/main.py:36-37 | Empty text gives no fragment and no instant |
| DateProperties.LeftmostSlashDate | function/main.py:28-40 | The search returns the leftmost date-shaped fragment with its three numbers |
| DateProperties.CalendarDateWins | function/main.py:39-44 | When the leftmost date-shaped fragment is a real date, the result is that fragment and midnight of that day, whatever relative phrase the text holds |
| DateProperties.CalendarBranch | function/main.py:40-44 | A first date match that `strptime` accepts is the result: its fragment at midnight of its day |
| DateProperties.InvalidDateFallsThrough | function/main.py:40-49 | When the leftmost date-shaped fragment is not a real date, later fragments are not tried and the relative search decides |
| DateProperties.NoDateShapeFallsThrough | function/main.py:40-49 | Without a date-shaped fragment the relative search decides |
| DateProperties.NeitherPatternIsUnknown | function/main.py:40-61 | Text matching neither pattern gives no fragment, no instant and no error |
| DateProperties.LeftmostRelPhrase | function/main.py:29-49 | The leftmost relative shape is the phrase the search returns, with its count, unit and end |
| DateProperties.LeftmostRelPhraseFound | function/main.py:29-49 | The same, naming the phrase: its unit is the shape's word in some letter case |
| DateProperties.LeftmostUnitPhrase | function/main.py:29-49 | The same for the eight unit alternatives of the pattern |
| DateProperties.NoDigitsNoDate | function/main.py:28-61 | Text without digits gives no fragment and no instant |
| DateProperties.LowerOfMatchedUnit | function/main.py:52 | The lower-cased matched unit is the alternative it matched unless it holds a long s, which lower-casing keeps |
| DateProperties.LowerOfPlainMatch | function/main.py:52 | Without a long s, lower-casing what matched a lower-case word gives back that word |
| DateProperties.LowerOfMatchedChar | function/main.py:52 | A character other than the long s that matches a lower-case letter lower-cases to it |
| DateProperties.LongSKeptByLower | function/main.py:52 | Lower-casing keeps a long s |
| DateProperties.UnitLookup | function/main.py:52-58 | Any accepted spelling of a unit finds its delta in the table, and a spelling with a long s finds none |
| DateProperties.LongSIsNoKey | function/main.py:53-58 | No key of the delta table holds a long s |
| DateProperties.UnitSecondsOfAlternative | function/main.py:53-58 | Each unit word maps to an hour, a day, 7 days or 30 days |
| DateProperties.RelativeBranch | function/main.py:48-59 | Without a calendar date, the result is the resolution of the leftmost relative phrase |
| DateProperties.ResolveKnownUnit | function/main.py:53-59 | A known unit within range resolves to `now` minus `n` times its delta |
| DateProperties.RelativePhraseResolved | function/main.py:49-59 | Without a calendar date, the leftmost relative shape `n unit ago` posts the whole phrase at `now` minus `n` units, in any letter case |
| DateProperties.PhraseResolved | function/main.py:49-59 | The same for the phrase the search returns |
| DateProperties.ResolvedFromShape | function/main.py:49-59 | That result written with the shape's fragment and digit value |
| DateProperties.RelativePhraseErrors | function/main.py:51-59 | The relative branch fails with an overflow when `30*n` days exceeds the timedelta range or the delta reaches before year 1, and with a missing key for a long-s unit |
| Jobs.MatchesRoleIgnoresCase | function/main.py:100 | The role filter ignores the case of ASCII letters |
| Jobs.OccurrenceMatchesRole | function/main.py:100 | A role keyword occurring in the lower-cased title makes it match |
| Jobs.MatchesRoleOccurs | function/main.py:100 | A matching title has a role keyword occurring in its lower-cased form |
| Jobs.MatchesRoleIff | function/main.py:100 | A title matches exactly when some role keyword occurs in its lower-cased form |
| Jobs.EmptyTitleNeverMatches | function/main.py:97-101 | An empty title never matches a role |
| Jobs.FilterRole | function/main.py:151 | The filter keeps exactly the records whose titles match, and never lengthens the list |
| Jobs.FilterRoleKeepsMatching | function/main.py:150-151 | Filtering a list whose titles all match returns it unchanged |
| Jobs.FilterRoleSingleton | function/main.py:151 | One record is kept exactly when its title matches |
| Jobs.FilterRoleAppend | function/main.py:151 | Filtering a concatenation filters each part and keeps their order |
| Jobs.Cap | function/main.py:156 | `jobs[:200]` is the prefix of length `min(len, 200)` |
| Deduplication.ComprehendRepresents | function/main.py:128 | The dict comprehension holds each key's last record, with keys in first-occurrence order |
| Deduplication.DedupRecordsFromInput | function/main.py:128-129 | Every de-duplicated record is one of the input records |
| Deduplication.DedupCharacterization | function/main.py:127-129 | De-duplication keeps every key once, at its first occurrence's position, holding its last record, and never lengthens the list |
| Deduplication.DedupOfUnique | function/main.py:127-129 | Two lists that both meet that description are equal |
| Deduplication.DedupIff | function/main.py:127-129 | A list meets that description exactly when it is the de-duplication |
| Deduplication.DedupOfDistinct | function/main.py:128-129 | A list with distinct keys comes back unchanged |
| Deduplication.DedupIdempotent | function/main.py:154-155 | De-duplicating twice is de-duplicating once |
| Extraction.LinkFor | function/main.py:103-104 | An `href` starting with `http` is the link as it is, any other is joined to the page URL |
| Extraction.FirstLocationFromIsFirst | function/main.py:110-114 | The location search from a keyword onward finds the first keyword present, or none when none is present |
| Extraction.LocationIsFirstMatch | function/main.py:110-114 | The location is the first of the five keywords that occurs in the block text, and empty exactly when none does |
| Extraction.FindLocation | function/main.py:110-114 | The `for`/`break` loop returns that first keyword |
| Extraction.BuildKeptJob | function/main.py:103-124 | The loop body for a kept anchor returns that anchor's record, or its date error |
| Extraction.BuildJobOutcome | function/main.py:116 | Building a record fails exactly when the date parse fails, with its error |
| Extraction.BuildJobFields | function/main.py:96-125 | A built record has the anchor's title, the company name, the link rule and the first location |
| Extraction.BuildJobPosted | function/main.py:116-124 | A built record carries the parser's fragment and instant, or an empty text and no instant when no date was found |
| Extraction.CollectStopsAtError | function/main.py:95-116 | Once a date error has occurred, further anchors change nothing |
| Extraction.CollectSnoc | function/main.py:95-125 | One more anchor keeps the error, skips, fails or appends its record |
| Extraction.CollectOk | function/main.py:95-125 | The scan succeeds exactly when no kept anchor's date parse fails |
| Extraction.CollectError | function/main.py:95-125 | A failed scan fails with the error of the first kept anchor whose date parse fails |
| Extraction.CollectRecords | function/main.py:95-125 | A successful scan yields a record for each kept anchor and only for kept anchors |
| Extraction.ExtractedJobs | function/main.py:95-129 | Extracted records have non-empty matching titles, the company name and the link rule, no two share title and link, and every kept anchor's key is present |
| Extraction.ExtractJobs | function/main.py:95-129 | The loop computes the scan over all anchors followed by de-duplication, with the real date parser |
| Pipeline.QueryPage | function/main.py:143-148 | One keyword page inside its `try` yields its extracted records, or none when the request fails, the status is an error or the extraction raises |
| Pipeline.KeywordPages | function/main.py:142-148 | The loop over the three keyword pages appends their contributions in order |
| Pipeline.FetchFromCases | function/main.py:136-156 | The scan fails when the base page is unavailable, fails with the base page's date error, or returns the final selection over the base records followed by the keyword records |
| Pipeline.GatheredStep | function/main.py:142-148 | Each keyword page appends what it contributes |
| Pipeline.GatheredNothing | function/main.py:142-148 | Keyword pages that all fail contribute nothing |
| Pipeline.QueryJobsMatch | function/main.py:143-148 | Every record a keyword page contributes names a role |
| Pipeline.GatheredMatch | function/main.py:142-148 | Every record the keyword pages contribute names a role |
| Pipeline.DistinctKeysPrefix | function/main.py:156 | A prefix of a list with distinct keys has distinct keys |
| Pipeline.FinalSelectionProperties | function/main.py:150-156 | The result has matching titles, only merged records, distinct keys, at most 200 records, and is the first `min(n, 200)` of the de-duplicated matches |
| Pipeline.RefilterIsRedundant | function/main.py:139-151 | The re-filter after merging removes nothing |
| Pipeline.OnlyBasePageCanFail | function/main.py:136-148 | Success and the error depend on the base page alone |
| Pipeline.BasePageOnly | function/main.py:136-156 | With every keyword page failing, the result is the base page's records cut to 200 |
| Pipeline.FetchAdpJobs | function/main.py:132-156 | The method computes the merge of the base and keyword pages, then filter, de-duplication and cap, with the base page's errors escaping |

## Left out

- HTML parsing with BeautifulSoup is not modelled (`function/main.py:75-92`). This covers choosing the title nodes, the anchor fallback, `get_text`, and `find_parent`. A page is given as its list of candidate anchors.
- `urljoin` is a function parameter `join`. Its own behaviour and errors are not modelled.
- HTTP is a function parameter `fetch` from URL to outcome. Headers, the timeout, the response body and exceptions other than a failed request are not modelled. So are exceptions raised while parsing a page's HTML.
- The email helper, the CSV attachment, environment variables and the HTTP entry point are not modelled. These are the parts of `function/main.py` after `fetch_adp_jobs`, and none of them is part of the scraping logic.
- `static/script.js` is not part of this model. It is a browser-side page script.
- `datetime.utcnow()` is the parameter `now`, in whole seconds. Microseconds are not modelled.
- One `now` serves a whole scan. The source reads the clock anew for each relative phrase (`function/main.py:59`), so records parsed later in a real run can carry a slightly later instant.
- The ISO-8601 text `isoformat() + "Z"` is not modelled. A record holds the instant it would print.
- `\d` and `\w` are restricted to ASCII digits and word characters. Python's Unicode-aware classes also accept other scripts' digits and letters.
- `str.lower()` is modelled only for ASCII capitals, the Kelvin sign and the capital I with dot above. Every other character is unchanged, which differs from Python for other non-ASCII capitals.
- The case-insensitive match of `re.I` is modelled for ASCII letters, the long s and the Kelvin sign. Those are the only characters that can match the unit words.
- The limit of 4300 digits that `int()` puts on a string is not modelled. A longer digit run in a phrase would raise `ValueError`.
- `None` as the text given to `parse_possible_date` is not modelled. The block text is always a string here.
- DateParser.ParsePossibleDate: its own contract states only that a posted fragment occurs in the text. The full behaviour is stated by the `DateProperties` lemmas.
