/**
 * What `parse_possible_date` promises, stated against the shape of the two
 * patterns rather than against the search functions that implement them.
 */
module DateProperties {
  import opened Wrappers
  import opened Text
  import opened Calendar
  import opened DateParser

  /** Seconds in one unit named by alternative `a` of the unit group. */
  function DeltaSeconds(a: nat): nat
    requires a < |UnitAlternatives|
  {
    [86400, 86400, 3600, 3600, 604800, 604800, 2592000, 2592000][a]
  }

  /** Empty text has no date: no fragment, no instant. */
  lemma EmptyTextHasNoDate(now: Instant)
    ensures ParsePossibleDate("", now) == Ok(Unknown)
  {
  }

  /** The leftmost date-shaped fragment is the one the search finds. */
  lemma {:induction false} LeftmostSlashDate(text: string, i: nat, a: int, b: int)
    requires i <= |text| && DateShape(text, i, a, b)
    requires forall j, a', b' :: 0 <= j < i ==> !DateShape(text, j, a', b')
    ensures FirstSlashDate(text, 0) == SlashDateAt(text, i) == Some(DateOfShape(text, i, a, b))
  {
    SlashDateAtComplete(text, i, a, b);
    var m := FirstSlashDate(text, 0);
    assert m.Some?;
    if m.value.start < i {
      assert false;
    }
  }

  /**
   * A calendar-valid date wins over any relative phrase: when the leftmost
   * date-shaped fragment `M/D/YYYY` names a real day, the result is exactly
   * that fragment and midnight of that day.
   */
  lemma CalendarDateWins(text: string, now: Instant, i: nat, a: int, b: int)
    requires i <= |text| && DateShape(text, i, a, b)
    requires forall j, a', b' :: 0 <= j < i ==> !DateShape(text, j, a', b')
    requires ValidDate(DecimalValue(text[b + 1..b + 5]), DecimalValue(text[i..a]), DecimalValue(text[a + 1..b]))
    ensures ParsePossibleDate(text, now) ==
      Ok(Posted(text[i..b + 5], Midnight(DecimalValue(text[b + 1..b + 5]), DecimalValue(text[i..a]),
                                         DecimalValue(text[a + 1..b]))))
  {
    LeftmostSlashDate(text, i, a, b);
    CalendarBranch(text, now, DateOfShape(text, i, a, b));
  }

  /** A calendar-valid first match is the result: its fragment at midnight of its day. */
  lemma CalendarBranch(text: string, now: Instant, d: SlashDate)
    requires FirstSlashDate(text, 0) == Some(d) && StrptimeAccepts(d)
    ensures d.start <= d.end <= |text|
    ensures ParsePossibleDate(text, now) == Ok(Posted(text[d.start..d.end], Midnight(d.year, d.month, d.day)))
  {
  }

  /**
   * When the leftmost date-shaped fragment is not a real date, later
   * date-shaped fragments are not tried: the parser goes on to the relative
   * phrase search.
   */
  lemma InvalidDateFallsThrough(text: string, now: Instant, i: nat, a: int, b: int)
    requires i <= |text| && DateShape(text, i, a, b)
    requires forall j, a', b' :: 0 <= j < i ==> !DateShape(text, j, a', b')
    requires !ValidDate(DecimalValue(text[b + 1..b + 5]), DecimalValue(text[i..a]), DecimalValue(text[a + 1..b]))
    ensures ParsePossibleDate(text, now) == RelativeOutcome(text, now)
  {
    LeftmostSlashDate(text, i, a, b);
  }

  /** Text with no date-shaped fragment goes straight to the relative phrase search. */
  lemma NoDateShapeFallsThrough(text: string, now: Instant)
    requires forall j, a, b :: !DateShape(text, j, a, b)
    ensures ParsePossibleDate(text, now) == RelativeOutcome(text, now)
  {
    var m := FirstSlashDate(text, 0);
    if m.Some? {
      assert false;
    }
  }

  /** Text matching neither pattern yields no fragment and no instant, and no error. */
  lemma NeitherPatternIsUnknown(text: string, now: Instant)
    requires forall j, a, b :: !DateShape(text, j, a, b)
    requires forall j :: 0 <= j <= |text| ==> RelPhraseAt(text, UnitAlternatives, j).None?
    ensures ParsePossibleDate(text, now) == Ok(Unknown)
  {
    NoDateShapeFallsThrough(text, now);
    var p := FirstRelPhrase(text, UnitAlternatives, 0);
    if p.Some? {
      assert false;
    }
  }

  /** The leftmost phrase of the relative shape is the one the search finds. */
  lemma {:induction false} LeftmostRelPhrase(text: string, units: seq<string>, i: nat, j: int, k: int, a: int, m: int)
    requires i <= |text| && WellFormedUnits(units) && RelShape(text, units, i, j, k, a, m)
    requires forall i', j', k', a', m' :: 0 <= i' < i ==> !RelShape(text, units, i', j', k', a', m')
    ensures FirstRelPhrase(text, units, 0) == Some(RelPhrase(i, m + 3, DecimalValue(text[i..j]),
                                                             text[k..k + |units[a]|]))
  {
    RelPhraseAtComplete(text, units, i, j, k, a, m);
    var p := FirstRelPhrase(text, units, 0);
    assert p.Some?;
    if p.value.start < i {
      var st := p.value.start;
      RelPhraseAtSound(text, units, st);
      assert false;
    }
    if p.value.start > i {
      assert false;
    }
    assert p == RelPhraseAt(text, units, i);
  }

  /** `LeftmostRelPhrase`, naming the phrase found; its unit is alternative `a` in some letter case. */
  lemma LeftmostRelPhraseFound(text: string, units: seq<string>, i: nat, j: int, k: int, a: int, m: int)
    returns (p: RelPhrase)
    requires i <= |text| && WellFormedUnits(units) && RelShape(text, units, i, j, k, a, m)
    requires forall i', j', k', a', m' :: 0 <= i' < i ==> !RelShape(text, units, i', j', k', a', m')
    ensures FirstRelPhrase(text, units, 0) == Some(p)
    ensures p.start == i && p.end == m + 3 && p.count == DecimalValue(text[i..j])
    ensures p.unit == text[k..k + |units[a]|] && EqualIgnoringCase(p.unit, units[a])
  {
    LeftmostRelPhrase(text, units, i, j, k, a, m);
    WordAtSlice(text, k, units[a]);
    p := FirstRelPhrase(text, units, 0).value;
  }

  /** A digit-free text names no date at all. */
  lemma NoDigitsNoDate(text: string, now: Instant)
    requires forall k :: 0 <= k < |text| ==> !IsDigit(text[k])
    ensures ParsePossibleDate(text, now) == Ok(Unknown)
  {
    forall j, a, b ensures !DateShape(text, j, a, b) {
      if DateShape(text, j, a, b) {
        assert false;
      }
    }
    NeitherPatternIsUnknown(text, now);
  }

  /** The unit as matched, lower-cased, is a key of the delta table unless it holds a long s. */
  lemma LowerOfMatchedUnit(u: string, w: string)
    requires EqualIgnoringCase(u, w)
    requires forall k :: 0 <= k < |w| ==> IsLowerAscii(w[k])
    ensures '\U{17F}' !in u ==> Lower(u) == w
    ensures '\U{17F}' in u ==> '\U{17F}' in Lower(u)
  {
    if '\U{17F}' in u {
      LongSKeptByLower(u);
    } else {
      LowerOfPlainMatch(u, w);
    }
  }

  /** Without a long s, lower-casing what matched a lower-case word gives back the word. */
  lemma {:induction false} LowerOfPlainMatch(u: string, w: string)
    requires EqualIgnoringCase(u, w) && '\U{17F}' !in u
    requires forall k :: 0 <= k < |w| ==> IsLowerAscii(w[k])
    ensures Lower(u) == w
  {
    if u != [] {
      var n := |u| - 1;
      assert u == u[..n] + [u[n]];
      assert EqualIgnoringCase(u[..n], w[..n]);
      LowerOfPlainMatch(u[..n], w[..n]);
      LowerOfMatchedChar(u[n], w[n]);
      assert w == w[..n] + [w[n]];
    }
  }

  /** A character other than the long s that matches a lower-case letter lower-cases to it. */
  lemma LowerOfMatchedChar(c: char, l: char)
    requires IsLowerAscii(l) && MatchesIgnoringCase(c, l) && c != '\U{17F}'
    ensures LowerChar(c) == [l]
  {
  }

  /** `str.lower` keeps a long s. */
  lemma {:induction false} LongSKeptByLower(u: string)
    requires '\U{17F}' in u
    ensures '\U{17F}' in Lower(u)
  {
    var n := |u| - 1;
    assert u == u[..n] + [u[n]];
    if u[n] == '\U{17F}' {
      assert LowerChar(u[n]) == [u[n]];
      assert Lower(u)[|Lower(u)| - 1] == '\U{17F}';
    } else {
      assert '\U{17F}' in u[..n];
      LongSKeptByLower(u[..n]);
      var q :| 0 <= q < |Lower(u[..n])| && Lower(u[..n])[q] == '\U{17F}';
      assert Lower(u)[q] == '\U{17F}';
    }
  }

  /**
   * Looking the matched unit up in the delta table: any spelling the pattern
   * accepts, in any letter case, finds its unit's delta (an hour, a day, 7
   * days, 30 days); a spelling with a long s, which the pattern also accepts,
   * is a `KeyError`.
   */
  lemma UnitLookup(u: string, a: nat)
    requires a < |UnitAlternatives| && EqualIgnoringCase(u, UnitAlternatives[a])
    ensures '\U{17F}' !in u ==> UnitSeconds(Lower(u)) == Some(DeltaSeconds(a))
    ensures '\U{17F}' in u ==> UnitSeconds(Lower(u)) == None
  {
    var w := UnitAlternatives[a];
    assert forall k :: 0 <= k < |w| ==> IsLowerAscii(w[k]);
    LowerOfMatchedUnit(u, w);
    if '\U{17F}' in u {
      LongSIsNoKey(Lower(u));
    } else {
      UnitSecondsOfAlternative(a);
    }
  }

  lemma LongSIsNoKey(key: string)
    requires '\U{17F}' in key
    ensures UnitSeconds(key) == None
  {
    var q :| 0 <= q < |key| && key[q] == '\U{17F}';
    assert !IsLowerAscii(key[q]);
  }

  lemma UnitSecondsOfAlternative(a: nat)
    requires a < |UnitAlternatives|
    ensures UnitSeconds(UnitAlternatives[a]) == Some(DeltaSeconds(a))
  {
    if a == 0 { assert UnitAlternatives[a] == "day"; }
    else if a == 1 { assert UnitAlternatives[a] == "days"; }
    else if a == 2 { assert UnitAlternatives[a] == "hour"; }
    else if a == 3 { assert UnitAlternatives[a] == "hours"; }
    else if a == 4 { assert UnitAlternatives[a] == "week"; }
    else if a == 5 { assert UnitAlternatives[a] == "weeks"; }
    else if a == 6 { assert UnitAlternatives[a] == "month"; }
    else { assert UnitAlternatives[a] == "months"; }
  }

  /** Without a calendar date, the result is the resolution of the leftmost relative phrase. */
  lemma RelativeBranch(text: string, now: Instant, p: RelPhrase)
    requires FirstSlashDate(text, 0).None? || !StrptimeAccepts(FirstSlashDate(text, 0).value)
    requires FirstRelPhrase(text, UnitAlternatives, 0) == Some(p)
    ensures p.start < p.end <= |text|
    ensures ParsePossibleDate(text, now) == Resolve(text[p.start..p.end], p.count, p.unit, now)
  {
    assert RelPhraseAt(text, UnitAlternatives, p.start) == Some(p);
    assert ParsePossibleDate(text, now) == RelativeOutcome(text, now);
  }

  /**
   * Resolution of the leftmost relative phrase when there is no calendar
   * date: the fragment is the whole phrase, digits to `ago`, and the instant
   * is `now` minus `n` hours, days, weeks (7 days) or months (30 days),
   * whatever the case of the unit's letters.
   */
  lemma {:induction false} RelativePhraseResolved(text: string, now: Instant, i: nat, j: int, k: int, a: int, m: int)
    requires FirstSlashDate(text, 0).None? || !StrptimeAccepts(FirstSlashDate(text, 0).value)
    requires i <= |text| && RelShape(text, UnitAlternatives, i, j, k, a, m)
    requires forall i', j', k', a', m' :: 0 <= i' < i ==> !RelShape(text, UnitAlternatives, i', j', k', a', m')
    requires '\U{17F}' !in text[k..k + |UnitAlternatives[a]|]
    requires 30 * DecimalValue(text[i..j]) <= MaxTimedeltaDays
    requires 0 <= DecimalValue(text[i..j]) * DeltaSeconds(a) <= now
    ensures ParsePossibleDate(text, now) == Ok(Posted(text[i..m + 3], now - DecimalValue(text[i..j]) * DeltaSeconds(a)))
  {
    var p := LeftmostUnitPhrase(text, i, j, k, a, m);
    PhraseResolved(text, now, p, a);
    ResolvedFromShape(ParsePossibleDate(text, now), text, now, p, i, j, m, a);
  }

  /** A result of `PhraseResolved`, with the fragment and the count written from the phrase's shape. */
  lemma ResolvedFromShape(r: Result<Posted, DateError>, text: string, now: Instant, p: RelPhrase,
                          i: nat, j: int, m: int, a: int)
    requires i <= j <= |text| && AllDigits(text, i, j) && p.start == i <= p.end == m + 3 <= |text|
    requires 0 <= a < |UnitAlternatives| && p.count == DecimalValue(text[i..j])
    requires 0 <= p.count * DeltaSeconds(a) <= now
    requires r == Ok(Posted(text[p.start..p.end], now - p.count * DeltaSeconds(a)))
    ensures r == Ok(Posted(text[i..m + 3], now - DecimalValue(text[i..j]) * DeltaSeconds(a)))
  {
  }

  /** `LeftmostRelPhraseFound` for the unit group of the relative pattern. */
  lemma LeftmostUnitPhrase(text: string, i: nat, j: int, k: int, a: int, m: int) returns (p: RelPhrase)
    requires i <= |text| && RelShape(text, UnitAlternatives, i, j, k, a, m)
    requires forall i', j', k', a', m' :: 0 <= i' < i ==> !RelShape(text, UnitAlternatives, i', j', k', a', m')
    ensures FirstRelPhrase(text, UnitAlternatives, 0) == Some(p)
    ensures p.start == i && p.end == m + 3 && p.count == DecimalValue(text[i..j])
    ensures p.unit == text[k..k + |UnitAlternatives[a]|] && EqualIgnoringCase(p.unit, UnitAlternatives[a])
  {
    UnitAlternativesWellFormed();
    p := LeftmostRelPhraseFound(text, UnitAlternatives, i, j, k, a, m);
  }

  /** `RelativePhraseResolved` for the phrase the search returns. */
  lemma PhraseResolved(text: string, now: Instant, p: RelPhrase, a: int)
    requires FirstSlashDate(text, 0).None? || !StrptimeAccepts(FirstSlashDate(text, 0).value)
    requires FirstRelPhrase(text, UnitAlternatives, 0) == Some(p)
    requires 0 <= a < |UnitAlternatives| && EqualIgnoringCase(p.unit, UnitAlternatives[a]) && '\U{17F}' !in p.unit
    requires 30 * p.count <= MaxTimedeltaDays && 0 <= p.count * DeltaSeconds(a) <= now
    ensures p.start < p.end <= |text|
    ensures ParsePossibleDate(text, now) == Ok(Posted(text[p.start..p.end], now - p.count * DeltaSeconds(a)))
  {
    RelativeBranch(text, now, p);
    UnitLookup(p.unit, a);
    ResolveKnownUnit(text[p.start..p.end], p.count, p.unit, now, DeltaSeconds(a));
  }

  lemma ResolveKnownUnit(fragment: string, n: nat, unit: string, now: Instant, secs: nat)
    requires UnitSeconds(Lower(unit)) == Some(secs)
    requires 30 * n <= MaxTimedeltaDays && n * secs <= now
    ensures Resolve(fragment, n, unit, now) == Ok(Posted(fragment, now - n * secs))
  {
  }

  /**
   * The errors of the relative branch, which `parse_possible_date` does not
   * catch: more than 33333333 units overflow the 30-day delta whatever the
   * unit; a delta reaching back before year 1 overflows; a unit spelled with
   * a long s is missing from the table.
   */
  lemma RelativePhraseErrors(text: string, now: Instant, p: RelPhrase, a: nat)
    requires FirstSlashDate(text, 0).None? || !StrptimeAccepts(FirstSlashDate(text, 0).value)
    requires FirstRelPhrase(text, UnitAlternatives, 0) == Some(p)
    requires a < |UnitAlternatives| && EqualIgnoringCase(p.unit, UnitAlternatives[a])
    ensures 30 * p.count > MaxTimedeltaDays ==> ParsePossibleDate(text, now) == Err(Overflow)
    ensures 30 * p.count <= MaxTimedeltaDays && '\U{17F}' in p.unit ==>
              ParsePossibleDate(text, now) == Err(UnknownUnit(Lower(p.unit)))
    ensures 30 * p.count <= MaxTimedeltaDays && '\U{17F}' !in p.unit && p.count * DeltaSeconds(a) > now ==>
              ParsePossibleDate(text, now) == Err(Overflow)
  {
    RelativeBranch(text, now, p);
    UnitLookup(p.unit, a);
  }
}
