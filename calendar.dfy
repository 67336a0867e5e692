/**
 * The proleptic Gregorian calendar of Python's `datetime`, and instants
 * counted in whole seconds from 0001-01-01T00:00:00 (`datetime.min`).
 */
module Calendar {

  const SecondsPerHour: nat := 3600
  const SecondsPerDay: nat := 86400

  /** `datetime.MAXYEAR`. */
  const MaxYear: nat := 9999

  predicate IsLeapYear(y: int) {
    y % 4 == 0 && (y % 100 != 0 || y % 400 == 0)
  }

  function DaysInYear(y: int): nat {
    if IsLeapYear(y) then 366 else 365
  }

  function DaysInMonth(y: int, m: int): nat
    requires 1 <= m <= 12
  {
    if m == 2 then (if IsLeapYear(y) then 29 else 28)
    else if m == 4 || m == 6 || m == 9 || m == 11 then 30
    else 31
  }

  /** Days in the months of year `y` before month `m`. */
  function DaysBeforeMonth(y: int, m: int): nat
    requires 1 <= m <= 13
  {
    if m == 1 then 0 else DaysBeforeMonth(y, m - 1) + DaysInMonth(y, m - 1)
  }

  /** Days from 0001-01-01 to January 1st of year `y`. */
  function DaysBeforeYear(y: int): int
    requires y >= 1
  {
    var p := y - 1;
    p * 365 + p / 4 - p / 100 + p / 400
  }

  /** What `datetime(y, m, d)` accepts. */
  predicate ValidDate(y: int, m: int, d: int) {
    1 <= y <= MaxYear && 1 <= m <= 12 && 1 <= d <= DaysInMonth(y, m)
  }

  /** `date(y, m, d).toordinal()`: 0001-01-01 is day 1. */
  function Ordinal(y: int, m: int, d: int): int
    requires ValidDate(y, m, d)
  {
    DaysBeforeYear(y) + DaysBeforeMonth(y, m) + d
  }

  /** One second past the last representable instant, 9999-12-31T23:59:59. */
  const InstantLimit: nat := 3652059 * 86400

  /** A `datetime` as whole seconds since `datetime.min`. */
  type Instant = t: int | 0 <= t < InstantLimit

  /** Lexicographic order of dates: the order of the calendar. */
  predicate Before(y1: int, m1: int, d1: int, y2: int, m2: int, d2: int) {
    y1 < y2 || (y1 == y2 && (m1 < m2 || (m1 == m2 && d1 < d2)))
  }

  lemma DaysBeforeNextYear(y: int)
    requires y >= 1
    ensures DaysBeforeYear(y + 1) == DaysBeforeYear(y) + DaysInYear(y)
  {
    var p := y - 1;
    assert (p + 1) / 4 - p / 4 == if y % 4 == 0 then 1 else 0;
    assert (p + 1) / 100 - p / 100 == if y % 100 == 0 then 1 else 0;
    assert (p + 1) / 400 - p / 400 == if y % 400 == 0 then 1 else 0;
  }

  lemma {:induction false} DaysBeforeYearGrows(y1: int, y2: int)
    requires 1 <= y1 < y2
    ensures DaysBeforeYear(y1) + DaysInYear(y1) <= DaysBeforeYear(y2)
    decreases y2 - y1
  {
    DaysBeforeNextYear(y1);
    if y1 + 1 < y2 {
      DaysBeforeYearGrows(y1 + 1, y2);
    }
  }

  lemma WholeYear(y: int)
    ensures DaysBeforeMonth(y, 13) == DaysInYear(y)
  {
    var feb := DaysInMonth(y, 2);
    assert DaysBeforeMonth(y, 2) == 31;
    assert DaysBeforeMonth(y, 3) == 31 + feb;
    assert DaysBeforeMonth(y, 4) == 62 + feb;
    assert DaysBeforeMonth(y, 5) == 92 + feb;
    assert DaysBeforeMonth(y, 6) == 123 + feb;
    assert DaysBeforeMonth(y, 7) == 153 + feb;
    assert DaysBeforeMonth(y, 8) == 184 + feb;
    assert DaysBeforeMonth(y, 9) == 215 + feb;
    assert DaysBeforeMonth(y, 10) == 245 + feb;
    assert DaysBeforeMonth(y, 11) == 276 + feb;
    assert DaysBeforeMonth(y, 12) == 306 + feb;
  }

  lemma {:induction false} DaysBeforeMonthGrows(y: int, m1: int, m2: int)
    requires 1 <= m1 < m2 <= 13
    ensures DaysBeforeMonth(y, m1) + DaysInMonth(y, m1) <= DaysBeforeMonth(y, m2)
    decreases m2 - m1
  {
    if m1 + 1 < m2 {
      DaysBeforeMonthGrows(y, m1 + 1, m2);
    }
  }

  /** The day of the year of a valid date lies within its year. */
  lemma DayOfYearBound(y: int, m: int, d: int)
    requires ValidDate(y, m, d)
    ensures DaysBeforeMonth(y, m) + d <= DaysInYear(y)
  {
    WholeYear(y);
    if m < 12 {
      DaysBeforeMonthGrows(y, m, 13);
    }
  }

  /** Midnight at the start of a valid date. */
  function Midnight(y: int, m: int, d: int): (t: Instant)
    requires ValidDate(y, m, d)
    ensures t % SecondsPerDay == 0
    ensures t / SecondsPerDay + 1 == Ordinal(y, m, d)
  {
    OrdinalBound(y, m, d);
    (Ordinal(y, m, d) - 1) * SecondsPerDay
  }

  /** Ordinals run from 1 (0001-01-01) to 3652059 (9999-12-31). */
  lemma OrdinalBound(y: int, m: int, d: int)
    requires ValidDate(y, m, d)
    ensures 1 <= Ordinal(y, m, d) <= 3652059
  {
    DayOfYearBound(y, m, d);
    if y < MaxYear {
      DaysBeforeYearGrows(y, MaxYear);
    }
    DaysBeforeNextYear(MaxYear);
  }

  /**
   * Midnights follow the calendar: one date comes before another exactly
   * when its midnight is the earlier instant; in particular distinct dates
   * have distinct midnights.
   */
  lemma MidnightChronological(y1: int, m1: int, d1: int, y2: int, m2: int, d2: int)
    requires ValidDate(y1, m1, d1) && ValidDate(y2, m2, d2)
    ensures Before(y1, m1, d1, y2, m2, d2) <==> Midnight(y1, m1, d1) < Midnight(y2, m2, d2)
    ensures (y1, m1, d1) == (y2, m2, d2) <==> Midnight(y1, m1, d1) == Midnight(y2, m2, d2)
  {
    if Before(y1, m1, d1, y2, m2, d2) {
      OrdinalIncreasing(y1, m1, d1, y2, m2, d2);
    } else if Before(y2, m2, d2, y1, m1, d1) {
      OrdinalIncreasing(y2, m2, d2, y1, m1, d1);
    }
  }

  lemma OrdinalIncreasing(y1: int, m1: int, d1: int, y2: int, m2: int, d2: int)
    requires ValidDate(y1, m1, d1) && ValidDate(y2, m2, d2)
    requires Before(y1, m1, d1, y2, m2, d2)
    ensures Ordinal(y1, m1, d1) < Ordinal(y2, m2, d2)
  {
    if y1 < y2 {
      DayOfYearBound(y1, m1, d1);
      DaysBeforeYearGrows(y1, y2);
    } else if m1 < m2 {
      DaysBeforeMonthGrows(y1, m1, m2);
    }
  }
}
