/**
 * `parse_possible_date`: find a posting date in free text, first as an
 * `M/D/YYYY` date checked against the calendar, then as a phrase
 * `<n> <unit> ago`, and resolve it to an instant.
 *
 * The two regular expressions are modelled by what Python's `re.search`
 * does with them: the match is the one starting at the leftmost position
 * where the pattern can match, with greedy repetitions and alternatives
 * tried in the order they are written.
 */
module DateParser {
  import opened Wrappers
  import opened Text
  import opened Calendar

  /** What the parser found: nothing, or the matched fragment and its instant. */
  datatype Posted = Unknown | Posted(text: string, at: Instant)

  /** The exceptions `parse_possible_date` lets escape. */
  datatype DateError =
    | Overflow                 // OverflowError from `timedelta(...)` or `utcnow() - delta`
    | UnknownUnit(key: string) // KeyError from the unit table

  // ---------------------------------------------------------------------
  // DATE_RE = \b(\d{1,2}/\d{1,2}/\d{4})\b
  // ---------------------------------------------------------------------

  /** `\b` at position `i`: exactly one of the two neighbours is a word character. */
  predicate AtBoundary(s: string, i: int)
    requires 0 <= i <= |s|
  {
    (i > 0 && IsWordChar(s[i - 1])) != (i < |s| && IsWordChar(s[i]))
  }

  predicate AllDigits(s: string, i: int, j: int)
    requires 0 <= i <= j <= |s|
  {
    forall k :: i <= k < j ==> IsDigit(s[k])
  }

  /**
   * The date pattern matches at `i` with its slashes at `a` and `b`:
   * one or two digits, `/`, one or two digits, `/`, four digits, with a
   * word boundary before and after.
   */
  predicate DateShape(s: string, i: int, a: int, b: int) {
    && 0 <= i < a <= i + 2 && a < |s| && AllDigits(s, i, a) && s[a] == '/'
    && a + 1 < b <= a + 3 && b + 5 <= |s| && AllDigits(s, a + 1, b) && s[b] == '/'
    && AllDigits(s, b + 1, b + 5)
    && AtBoundary(s, i) && AtBoundary(s, b + 5)
  }

  /** A match of the date pattern: the fragment is `s[start..end]`. */
  datatype SlashDate = SlashDate(start: nat, slash1: nat, slash2: nat, end: nat,
                                 month: nat, day: nat, year: nat)

  /**
   * `\d{1,2}` at `p` followed by `/`: two digits are tried before one.
   * The result is the position of the slash.
   */
  function DigitsThenSlash(s: string, p: nat): (r: Option<nat>)
    ensures r.Some? ==> p < r.value <= p + 2 && r.value < |s| && AllDigits(s, p, r.value) && s[r.value] == '/'
    ensures forall a :: p < a <= p + 2 && a < |s| && AllDigits(s, p, a) && s[a] == '/' ==> r == Some(a)
  {
    if p + 2 < |s| && IsDigit(s[p]) && IsDigit(s[p + 1]) && s[p + 2] == '/' then Some(p + 2)
    else if p + 1 < |s| && IsDigit(s[p]) && s[p + 1] == '/' then Some(p + 1)
    else None
  }

  /** The date pattern tried at position `i` only. */
  function SlashDateAt(s: string, i: nat): (r: Option<SlashDate>)
    requires i <= |s|
    ensures r.Some? ==> r.value.start == i && r.value.end == r.value.slash2 + 5
    ensures r.Some? ==> DateShape(s, i, r.value.slash1, r.value.slash2)
    ensures r.Some? ==>
      && r.value.month == DecimalValue(s[i..r.value.slash1])
      && r.value.day == DecimalValue(s[r.value.slash1 + 1..r.value.slash2])
      && r.value.year == DecimalValue(s[r.value.slash2 + 1..r.value.end])
  {
    if !AtBoundary(s, i) then None
    else match DigitsThenSlash(s, i)
      case None => None
      case Some(a) =>
        match DigitsThenSlash(s, a + 1)
        case None => None
        case Some(b) =>
          if b + 5 <= |s| && AllDigits(s, b + 1, b + 5) && AtBoundary(s, b + 5) then
            DateShapeOfSlashes(s, i, a, b);
            Some(DateOfShape(s, i, a, b))
          else None
  }

  /** The match whose fields are the date shape's three digit runs read as numbers. */
  function DateOfShape(s: string, i: int, a: int, b: int): (d: SlashDate)
    requires DateShape(s, i, a, b)
    ensures d.start == i && d.slash1 == a && d.slash2 == b && d.end == b + 5
    ensures d.month == DecimalValue(s[i..a]) && d.day == DecimalValue(s[a + 1..b])
    ensures d.year == DecimalValue(s[b + 1..b + 5])
  {
    SlashDate(i, a, b, b + 5, DecimalValue(s[i..a]), DecimalValue(s[a + 1..b]), DecimalValue(s[b + 1..b + 5]))
  }

  /** Two slashes found by `DigitsThenSlash` and a good year field make the date shape. */
  lemma DateShapeOfSlashes(s: string, i: nat, a: nat, b: nat)
    requires i <= |s| && AtBoundary(s, i)
    requires DigitsThenSlash(s, i) == Some(a) && DigitsThenSlash(s, a + 1) == Some(b)
    requires b + 5 <= |s| && AllDigits(s, b + 1, b + 5) && AtBoundary(s, b + 5)
    ensures DateShape(s, i, a, b)
  {
  }

  /** Wherever the date pattern can match at `i`, the backtracking search finds that match. */
  lemma SlashDateAtComplete(s: string, i: nat, a: int, b: int)
    requires i <= |s| && DateShape(s, i, a, b)
    ensures SlashDateAt(s, i) == Some(SlashDate(i, a, b, b + 5, DecimalValue(s[i..a]),
                                                DecimalValue(s[a + 1..b]), DecimalValue(s[b + 1..b + 5])))
  {
    assert DigitsThenSlash(s, i) == Some(a);
    assert DigitsThenSlash(s, a + 1) == Some(b);
  }

  /** `DATE_RE.search(s)`, scanning from position `from`. */
  function FirstSlashDate(s: string, from: nat): (r: Option<SlashDate>)
    requires from <= |s| + 1
    ensures r.Some? ==> from <= r.value.start <= |s| && SlashDateAt(s, r.value.start) == r
    ensures r.Some? ==> forall j :: from <= j < r.value.start ==> SlashDateAt(s, j).None?
    ensures r.None? ==> forall j :: from <= j <= |s| ==> SlashDateAt(s, j).None?
    decreases |s| + 1 - from
  {
    if from > |s| then None
    else if SlashDateAt(s, from).Some? then SlashDateAt(s, from)
    else FirstSlashDate(s, from + 1)
  }

  /**
   * `datetime.strptime(fragment, "%m/%d/%Y")`: the month field must be 1 to
   * 12 and the day field 1 to 31 (one or two digits, a leading zero
   * allowed), and the date must exist (no year 0, no 31st of April, no
   * 29th of February outside leap years).
   */
  predicate StrptimeAccepts(d: SlashDate) {
    ValidDate(d.year, d.month, d.day)
  }

  // ---------------------------------------------------------------------
  // RELATIVE_RE = (\d+)\s+(day|days|hour|hours|week|weeks|month|months)\s+ago, re.I
  // ---------------------------------------------------------------------

  /** The end of the run of digits starting at `i`. */
  function DigitRunEnd(s: string, i: nat): (j: nat)
    requires i <= |s|
    ensures i <= j <= |s| && AllDigits(s, i, j) && (j == |s| || !IsDigit(s[j]))
    decreases |s| - i
  {
    if i < |s| && IsDigit(s[i]) then DigitRunEnd(s, i + 1) else i
  }

  /** The end of the run of `\s` characters starting at `i`. */
  function SpaceRunEnd(s: string, i: nat): (j: nat)
    requires i <= |s|
    ensures i <= j <= |s| && (forall k :: i <= k < j ==> IsSpace(s[k])) && (j == |s| || !IsSpace(s[j]))
    decreases |s| - i
  {
    if i < |s| && IsSpace(s[i]) then SpaceRunEnd(s, i + 1) else i
  }

  /**
   * Under `re.I`, character `c` matches the lower-case letter `l` when it is
   * `l` or its capital; sre also lets the long s match `s` and the Kelvin
   * sign match `k`.
   */
  predicate MatchesIgnoringCase(c: char, l: char) {
    FoldAscii(c) == l || (l == 's' && c == '\U{17F}') || (l == 'k' && c == '\U{212A}')
  }

  predicate WordAtIgnoringCase(s: string, i: nat, w: string) {
    i + |w| <= |s| && forall k :: 0 <= k < |w| ==> MatchesIgnoringCase(s[i + k], w[k])
  }

  /** `u` is the word `w` as `re.I` matches it. */
  predicate EqualIgnoringCase(u: string, w: string) {
    |u| == |w| && forall k :: 0 <= k < |w| ==> MatchesIgnoringCase(u[k], w[k])
  }

  /** What a word matches at `i` is that word, ignoring case. */
  lemma WordAtSlice(s: string, i: nat, w: string)
    requires WordAtIgnoringCase(s, i, w)
    ensures EqualIgnoringCase(s[i..i + |w|], w)
  {
  }

  /** The alternatives of the unit group, in the order the pattern lists them. */
  const UnitAlternatives: seq<string> := ["day", "days", "hour", "hours", "week", "weeks", "month", "months"]
  /** Every character of `s[i..j]` is `\s`. */
  predicate AllSpaces(s: string, i: int, j: int)
    requires 0 <= i <= j <= |s|
  {
    forall k :: i <= k < j ==> IsSpace(s[k])
  }

  /** `\s+ago` matches `s[e..m + 3]`, with `ago` (in any case) at `m`. */
  predicate SpacesThenAgo(s: string, e: int, m: int) {
    0 <= e < m && m + 3 <= |s| && AllSpaces(s, e, m) && WordAtIgnoringCase(s, m, "ago")
  }

  /**
   * The relative pattern `(\d+)\s+(u0|u1|…)\s+ago`, with unit alternatives
   * `units`, matches at `i`: digits in `s[i..j]`, spaces in `s[j..k]`,
   * alternative `a` (in any case) at `k`, then spaces and `ago` at `m`; the
   * match ends at `m + 3`.
   */
  predicate RelShape(s: string, units: seq<string>, i: int, j: int, k: int, a: int, m: int) {
    && 0 <= i < j < k <= |s| && AllDigits(s, i, j) && AllSpaces(s, j, k)
    && 0 <= a < |units| && WordAtIgnoringCase(s, k, units[a])
    && SpacesThenAgo(s, k + |units[a]|, m)
  }

  predicate LowerWord(w: string) {
    |w| > 0 && forall q :: 0 <= q < |w| ==> IsLowerAscii(w[q])
  }

  /** No word is listed twice: the last one is not among the others, and so on. */
  predicate NoRepeats(units: seq<string>)
    decreases |units|
  {
    |units| == 0 || (units[|units| - 1] !in units[..|units| - 1] && NoRepeats(units[..|units| - 1]))
  }

  /** Two positions of a list without repeats hold different words. */
  lemma {:induction false} NoRepeatsDiffer(units: seq<string>, a: int, b: int)
    requires NoRepeats(units) && 0 <= a < b < |units|
    ensures units[a] != units[b]
    decreases |units|
  {
    var init := units[..|units| - 1];
    if b == |units| - 1 {
      assert units[a] == init[a];
    } else {
      NoRepeatsDiffer(init, a, b);
    }
  }

  /** The unit alternatives are non-empty lower-case words, none listed twice. */
  predicate WellFormedUnits(units: seq<string>) {
    (forall a :: 0 <= a < |units| ==> LowerWord(units[a])) && NoRepeats(units)
  }

  /** The unit group of the relative pattern is well formed. */
  lemma UnitAlternativesWellFormed()
    ensures WellFormedUnits(UnitAlternatives)
  {
    assert NoRepeats(["day"]);
    assert ["day", "days"][..1] == ["day"];
    assert NoRepeats(["day", "days"]);
    assert ["day", "days", "hour"][..2] == ["day", "days"];
    assert NoRepeats(["day", "days", "hour"]);
    assert ["day", "days", "hour", "hours"][..3] == ["day", "days", "hour"];
    assert NoRepeats(["day", "days", "hour", "hours"]);
    assert ["day", "days", "hour", "hours", "week"][..4] == ["day", "days", "hour", "hours"];
    assert NoRepeats(["day", "days", "hour", "hours", "week"]);
    assert ["day", "days", "hour", "hours", "week", "weeks"][..5] == ["day", "days", "hour", "hours", "week"];
    assert NoRepeats(["day", "days", "hour", "hours", "week", "weeks"]);
    assert ["day", "days", "hour", "hours", "week", "weeks", "month"][..6] == ["day", "days", "hour", "hours", "week", "weeks"];
    assert NoRepeats(["day", "days", "hour", "hours", "week", "weeks", "month"]);
    assert ["day", "days", "hour", "hours", "week", "weeks", "month", "months"][..7] == ["day", "days", "hour", "hours", "week", "weeks", "month"];
    assert NoRepeats(["day", "days", "hour", "hours", "week", "weeks", "month", "months"]);
  }

  /** A character that matches a lower-case letter is neither `\s` nor `\d`. */
  lemma LetterNotSpace(c: char, l: char)
    requires IsLowerAscii(l)
    ensures MatchesIgnoringCase(c, l) ==> !IsSpace(c) && !IsDigit(c)
  {
  }

  /** Under `re.I` one character matches at most one lower-case letter. */
  lemma SameLetter(c: char, l1: char, l2: char)
    requires IsLowerAscii(l1) && IsLowerAscii(l2)
    ensures MatchesIgnoringCase(c, l1) && MatchesIgnoringCase(c, l2) ==> l1 == l2
  {
  }

  /** The greedy run of `\d` from `i` stops at `j` when a non-digit follows it. */
  lemma DigitRunEndAt(s: string, i: nat, j: int)
    requires i <= j < |s| && AllDigits(s, i, j) && !IsDigit(s[j])
    ensures DigitRunEnd(s, i) == j
  {
  }

  /** The greedy run of `\s` from `i` stops at `j` when a non-space follows it. */
  lemma SpaceRunEndAt(s: string, i: nat, j: int)
    requires i <= j < |s| && AllSpaces(s, i, j) && !IsSpace(s[j])
    ensures SpaceRunEnd(s, i) == j
  {
  }

  /** `\s+ago` at `e` (the run of spaces is greedy); the result is the end of `ago`. */
  function AgoAt(s: string, e: nat): (r: Option<nat>)
    requires e <= |s|
    ensures r.Some? ==> e < r.value <= |s|
  {
    var m := SpaceRunEnd(s, e);
    if m > e && WordAtIgnoringCase(s, m, "ago") then Some(m + 3) else None
  }

  /** What `AgoAt` finds is spaces followed by `ago`, in any case. */
  lemma AgoAtSound(s: string, e: nat)
    requires e <= |s| && AgoAt(s, e).Some?
    ensures 3 <= AgoAt(s, e).value && SpacesThenAgo(s, e, AgoAt(s, e).value - 3)
  {
  }

  /** `\s+ago` is found wherever it occurs: the run of spaces cannot stop early. */
  lemma AgoAtComplete(s: string, e: nat, m: int)
    requires e <= |s| && SpacesThenAgo(s, e, m)
    ensures AgoAt(s, e) == Some(m + 3)
  {
    assert MatchesIgnoringCase(s[m + 0], "ago"[0]);
    LetterNotSpace(s[m], 'a');
    SpaceRunEndAt(s, e, m);
  }

  /** Word `w` matches at `k`, in any case, and is followed by `\s+ago`. */
  predicate UnitFits(s: string, k: nat, w: string)
    requires k <= |s|
  {
    WordAtIgnoringCase(s, k, w) && AgoAt(s, k + |w|).Some?
  }

  /**
   * The unit group at `k`: the first of the alternatives `units`, from index
   * `idx` on, that matches and is followed by `\s+ago`. The result is the
   * end of the unit.
   */
  function UnitAt(s: string, k: nat, units: seq<string>, idx: nat): (r: Option<nat>)
    requires k <= |s|
    ensures r.Some? ==> k <= r.value <= |s| && AgoAt(s, r.value).Some?
    decreases |units| - idx
  {
    if idx >= |units| then None
    else if UnitFits(s, k, units[idx]) then Some(k + |units[idx]|)
    else UnitAt(s, k, units, idx + 1)
  }

  /**
   * `UnitAt` from `idx` returns the end of alternative `a` when `a` fits and
   * no other alternative from `idx` on does.
   */
  lemma {:induction false} UnitAtOnly(s: string, k: nat, units: seq<string>, idx: nat, a: int)
    requires k <= |s| && idx <= a < |units| && UnitFits(s, k, units[a])
    requires forall b :: idx <= b < |units| && b != a ==> !UnitFits(s, k, units[b])
    ensures UnitAt(s, k, units, idx) == Some(k + |units[a]|)
    decreases a - idx
  {
    if idx < a {
      UnitAtOnly(s, k, units, idx + 1, a);
    }
  }

  /**
   * When word `u` fits at `k`, no other lower-case word `w` at least as long
   * matches there: either they differ at a letter, or `w` goes on with a
   * letter where `u` is followed by a space.
   */
  lemma FitExcludesLonger(s: string, k: nat, u: string, w: string)
    requires k <= |s| && LowerWord(u) && LowerWord(w) && |u| <= |w| && u != w
    requires UnitFits(s, k, u)
    ensures !WordAtIgnoringCase(s, k, w)
  {
    if u == w[..|u|] {
      var p := k + |u|;
      AgoAtSound(s, p);
      assert IsSpace(s[p]);
      LetterNotSpace(s[p], w[|u|]);
      assert !MatchesIgnoringCase(s[k + |u|], w[|u|]);
    } else {
      var q :| 0 <= q < |u| && u[q] != w[q];
      assert MatchesIgnoringCase(s[k + q], u[q]);
      SameLetter(s[k + q], u[q], w[q]);
      assert !MatchesIgnoringCase(s[k + q], w[q]);
    }
  }

  /** At most one alternative of a well-formed unit group is followed by `\s+ago`. */
  lemma UnitFitsUnique(s: string, k: nat, units: seq<string>, a: int, b: int)
    requires k <= |s| && WellFormedUnits(units)
    requires 0 <= a < |units| && UnitFits(s, k, units[a])
    requires 0 <= b < |units| && UnitFits(s, k, units[b])
    ensures a == b
  {
    if a != b {
      assert units[a] != units[b] by {
        if a < b { NoRepeatsDiffer(units, a, b); } else { NoRepeatsDiffer(units, b, a); }
      }
      if |units[a]| <= |units[b]| {
        FitExcludesLonger(s, k, units[a], units[b]);
      } else {
        FitExcludesLonger(s, k, units[b], units[a]);
      }
      assert false;
    }
  }

  /** `UnitAt` picks the alternative that is followed by `\s+ago`. */
  lemma UnitAtFinds(s: string, k: nat, units: seq<string>, a: int)
    requires k <= |s| && WellFormedUnits(units)
    requires 0 <= a < |units| && UnitFits(s, k, units[a])
    ensures UnitAt(s, k, units, 0) == Some(k + |units[a]|)
  {
    forall b | 0 <= b < |units| && b != a
      ensures !UnitFits(s, k, units[b])
    {
      if UnitFits(s, k, units[b]) {
        UnitFitsUnique(s, k, units, a, b);
        assert false;
      }
    }
    UnitAtOnly(s, k, units, 0, a);
  }

  /** A match of the relative pattern: the fragment is `s[start..end]`. */
  datatype RelPhrase = RelPhrase(start: nat, end: nat, count: nat, unit: string)

  /** The relative pattern, with unit alternatives `units`, tried at position `i` only. */
  function RelPhraseAt(s: string, units: seq<string>, i: nat): (r: Option<RelPhrase>)
    requires i <= |s|
    ensures r.Some? ==> r.value.start == i < r.value.end <= |s|
  {
    if i < |s| && IsDigit(s[i]) then
      var j := DigitRunEnd(s, i);
      var k := SpaceRunEnd(s, j);
      if k == j then None
      else match UnitAt(s, k, units, 0)
        case None => None
        case Some(ue) => Some(RelPhrase(i, AgoAt(s, ue).value, DecimalValue(s[i..j]), s[k..ue]))
    else None
  }

  /** `RelPhraseAt` once its digit run, space run and unit are known. */
  lemma RelPhraseAtOf(s: string, units: seq<string>, i: nat, j: nat, k: nat, ue: nat)
    requires i < |s| && IsDigit(s[i])
    requires j == DigitRunEnd(s, i) && k == SpaceRunEnd(s, j) && k != j
    requires UnitAt(s, k, units, 0) == Some(ue)
    ensures i < j < k <= ue <= |s| && AgoAt(s, ue).Some?
    ensures RelPhraseAt(s, units, i) == Some(RelPhrase(i, AgoAt(s, ue).value, DecimalValue(s[i..j]), s[k..ue]))
  {
  }

  /** The runs and the unit behind a phrase that `RelPhraseAt` finds. */
  lemma RelPhraseAtParts(s: string, units: seq<string>, i: nat) returns (j: nat, k: nat, ue: nat)
    requires i <= |s| && RelPhraseAt(s, units, i).Some?
    ensures i < |s| && IsDigit(s[i])
    ensures j == DigitRunEnd(s, i) && k == SpaceRunEnd(s, j) && k != j
    ensures UnitAt(s, k, units, 0) == Some(ue)
  {
    j := DigitRunEnd(s, i);
    k := SpaceRunEnd(s, j);
    ue := UnitAt(s, k, units, 0).value;
  }

  /**
   * Soundness of `RelPhraseAt`: a phrase it finds has the relative shape;
   * its count is the value of the digits and its unit the matched word.
   */
  lemma RelPhraseAtSound(s: string, units: seq<string>, i: nat)
    requires i <= |s| && RelPhraseAt(s, units, i).Some?
    ensures exists j, k, a, m :: RelShape(s, units, i, j, k, a, m) &&
              RelPhraseAt(s, units, i) == Some(RelPhrase(i, m + 3, DecimalValue(s[i..j]), s[k..k + |units[a]|]))
  {
    var j, k, a, m := RelPhraseAtShape(s, units, i);
  }

  /** `RelPhraseAtSound`, with the positions of the shape as results. */
  lemma RelPhraseAtShape(s: string, units: seq<string>, i: nat) returns (j: nat, k: nat, a: nat, m: nat)
    requires i <= |s| && RelPhraseAt(s, units, i).Some?
    ensures RelShape(s, units, i, j, k, a, m)
    ensures RelPhraseAt(s, units, i) == Some(RelPhrase(i, m + 3, DecimalValue(s[i..j]), s[k..k + |units[a]|]))
  {
    var ue;
    j, k, ue := RelPhraseAtParts(s, units, i);
    a := UnitAtWhich(s, k, units, 0, ue);
    AgoAtSound(s, ue);
    m := AgoAt(s, ue).value - 3;
    RelShapeOfRuns(s, units, i, j, k, a, m);
    RelPhraseAtOfUnit(s, units, i, j, k, a, m);
  }

  /** The alternative, from `idx` on, behind a unit that `UnitAt` finds. */
  lemma {:induction false} UnitAtWhich(s: string, k: nat, units: seq<string>, idx: nat, ue: nat) returns (a: nat)
    requires k <= |s| && UnitAt(s, k, units, idx) == Some(ue)
    ensures idx <= a < |units| && ue == k + |units[a]| && WordAtIgnoringCase(s, k, units[a])
    decreases |units| - idx
  {
    if UnitFits(s, k, units[idx]) {
      a := idx;
    } else {
      a := UnitAtWhich(s, k, units, idx + 1, ue);
    }
  }

  /** Greedy runs followed by a unit and `\s+ago` form the relative shape. */
  lemma RelShapeOfRuns(s: string, units: seq<string>, i: nat, j: nat, k: nat, a: int, m: int)
    requires i < |s| && IsDigit(s[i]) && j == DigitRunEnd(s, i) && k == SpaceRunEnd(s, j) && k != j
    requires 0 <= a < |units| && WordAtIgnoringCase(s, k, units[a]) && SpacesThenAgo(s, k + |units[a]|, m)
    ensures RelShape(s, units, i, j, k, a, m)
  {
  }

  /** In the relative shape, the digit and space runs are the greedy ones. */
  lemma RelShapeRuns(s: string, units: seq<string>, i: nat, j: int, k: int, a: int, m: int)
    requires RelShape(s, units, i, j, k, a, m) && LowerWord(units[a])
    ensures i < |s| && IsDigit(s[i]) && j == DigitRunEnd(s, i) && k == SpaceRunEnd(s, j) && k != j
  {
    var w := units[a];
    assert IsSpace(s[j]);
    DigitRunEndAt(s, i, j);
    assert MatchesIgnoringCase(s[k + 0], w[0]);
    LetterNotSpace(s[k], w[0]);
    SpaceRunEndAt(s, j, k);
  }

  /**
   * What the scan inside `RelPhraseAt` finds on a relative shape: the greedy
   * runs, alternative `a` as the unit and `ago` where the shape has it.
   */
  lemma RelShapeFound(s: string, units: seq<string>, i: nat, j: int, k: int, a: int, m: int)
    requires WellFormedUnits(units) && RelShape(s, units, i, j, k, a, m)
    ensures i < |s| && IsDigit(s[i]) && j == DigitRunEnd(s, i) && k == SpaceRunEnd(s, j) && k != j
    ensures UnitAt(s, k, units, 0) == Some(k + |units[a]|) && AgoAt(s, k + |units[a]|) == Some(m + 3)
  {
    RelShapeRuns(s, units, i, j, k, a, m);
    AgoAtComplete(s, k + |units[a]|, m);
    UnitAtFinds(s, k, units, a);
  }

  /** `RelPhraseAt` once its runs, its unit alternative and its `ago` are known. */
  lemma RelPhraseAtOfUnit(s: string, units: seq<string>, i: nat, j: nat, k: nat, a: int, m: int)
    requires i < |s| && IsDigit(s[i]) && j == DigitRunEnd(s, i) && k == SpaceRunEnd(s, j) && k != j
    requires 0 <= a < |units| && UnitAt(s, k, units, 0) == Some(k + |units[a]|)
    requires AgoAt(s, k + |units[a]|) == Some(m + 3)
    ensures RelPhraseAt(s, units, i) == Some(RelPhrase(i, m + 3, DecimalValue(s[i..j]), s[k..k + |units[a]|]))
  {
    var ue := k + |units[a]|;
    RelPhraseAtOf(s, units, i, j, k, ue);
    SliceToWordEnd(s, k, ue, units[a]);
  }

  /** The slice up to the end of a word, written with its length. */
  lemma SliceToWordEnd(s: string, k: nat, e: nat, w: string)
    requires k <= e == k + |w| <= |s|
    ensures s[k..e] == s[k..k + |w|]
  {
  }

  /**
   * Completeness of `RelPhraseAt`: wherever the relative shape occurs at
   * `i`, the pattern matches there, with exactly that count, unit and end.
   */
  lemma RelPhraseAtComplete(s: string, units: seq<string>, i: nat, j: int, k: int, a: int, m: int)
    requires i <= |s| && WellFormedUnits(units) && RelShape(s, units, i, j, k, a, m)
    ensures RelPhraseAt(s, units, i) == Some(RelPhrase(i, m + 3, DecimalValue(s[i..j]), s[k..k + |units[a]|]))
  {
    RelShapeFound(s, units, i, j, k, a, m);
    RelPhraseAtOfUnit(s, units, i, j, k, a, m);
  }

  /** `RELATIVE_RE.search(s)`, scanning from position `from`. */
  function FirstRelPhrase(s: string, units: seq<string>, from: nat): (r: Option<RelPhrase>)
    requires from <= |s| + 1
    ensures r.Some? ==> from <= r.value.start <= |s| && RelPhraseAt(s, units, r.value.start) == r
    ensures r.Some? ==> forall j :: from <= j < r.value.start ==> RelPhraseAt(s, units, j).None?
    ensures r.None? ==> forall j :: from <= j <= |s| ==> RelPhraseAt(s, units, j).None?
    decreases |s| + 1 - from
  {
    if from > |s| then None
    else if RelPhraseAt(s, units, from).Some? then RelPhraseAt(s, units, from)
    else FirstRelPhrase(s, units, from + 1)
  }

  // ---------------------------------------------------------------------
  // Resolution
  // ---------------------------------------------------------------------

  /** `timedelta.max.days`. */
  const MaxTimedeltaDays: nat := 999999999

  /** The table of deltas, as seconds per unit, keyed by the lower-cased unit. */
  function UnitSeconds(key: string): Option<nat> {
    if key == "hour" || key == "hours" then Some(SecondsPerHour)
    else if key == "day" || key == "days" then Some(SecondsPerDay)
    else if key == "week" || key == "weeks" then Some(7 * SecondsPerDay)
    else if key == "month" || key == "months" then Some(30 * SecondsPerDay)
    else None
  }

  /**
   * `now - delta` for `n` units named `unit`. All four deltas are built
   * before the table is indexed, so `timedelta(days=30*n)` overflowing is an
   * error whatever the unit; a unit whose lower-cased form is not a key is a
   * `KeyError`; an instant before `datetime.min` is an overflow.
   */
  function Resolve(fragment: string, n: nat, unit: string, now: Instant): (r: Result<Posted, DateError>)
    ensures r.Ok? ==> r.value.Posted? && r.value.text == fragment && r.value.at <= now
  {
    if 30 * n > MaxTimedeltaDays then Err(Overflow)
    else match UnitSeconds(Lower(unit))
      case None => Err(UnknownUnit(Lower(unit)))
      case Some(secs) => if n * secs > now then Err(Overflow) else Ok(Posted(fragment, now - n * secs))
  }

  /** The second half of the parser: `RELATIVE_RE.search` and its resolution. */
  function RelativeOutcome(text: string, now: Instant): (r: Result<Posted, DateError>)
    ensures r.Ok? && r.value.Posted? ==> exists i :: OccursAt(text, r.value.text, i)
  {
    match FirstRelPhrase(text, UnitAlternatives, 0)
    case None => Ok(Unknown)
    case Some(p) =>
      assert OccursAt(text, text[p.start..p.end], p.start);
      Resolve(text[p.start..p.end], p.count, p.unit, now)
  }

  /** `parse_possible_date(text)` with the clock reading `now`. */
  function ParsePossibleDate(text: string, now: Instant): (r: Result<Posted, DateError>)
    ensures r.Ok? && r.value.Posted? ==> exists i :: OccursAt(text, r.value.text, i)
  {
    if text == [] then Ok(Unknown)
    else
      var m := FirstSlashDate(text, 0);
      if m.Some? && StrptimeAccepts(m.value) then
        assert OccursAt(text, text[m.value.start..m.value.end], m.value.start);
        Ok(Posted(text[m.value.start..m.value.end], Midnight(m.value.year, m.value.month, m.value.day)))
      else
        RelativeOutcome(text, now)
  }
}
