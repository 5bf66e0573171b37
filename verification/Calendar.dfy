/**
 The Gregorian calendar written the naive way: a leap-year rule, month lengths, and
 day counts that add up one year and one month at a time. It is the reference the
 closed-form arithmetic in Timestamp is checked against.
 */
module Calendar {

  predicate IsLeap(year: int) {
    year % 4 == 0 && (year % 100 != 0 || year % 400 == 0)
  }

  function YearLength(year: int): int {
    if IsLeap(year) then 366 else 365
  }

  function MonthLength(year: int, month: int): (n: int)
    ensures 28 <= n <= 31
  {
    if month == 2 then (if IsLeap(year) then 29 else 28)
    else if month in {4, 6, 9, 11} then 30
    else 31
  }

  /** Days from 1970-01-01 to the first day of the year. */
  function YearStart(year: int): int
    decreases if year < 1970 then 1970 - year else year - 1970
  {
    if year == 1970 then 0
    else if year > 1970 then YearStart(year - 1) + YearLength(year - 1)
    else YearStart(year + 1) - YearLength(year)
  }

  /** Days from the first day of the year to the first day of the month. */
  function MonthStart(year: int, month: int): int
    requires 1 <= month <= 13
    decreases month
  {
    if month == 1 then 0 else MonthStart(year, month - 1) + MonthLength(year, month - 1)
  }

  /** Days from 1970-01-01, for a day number that may run past the end of the month. */
  function DayNumber(year: int, month: int, day: int): int
    requires 1 <= month <= 12
  {
    YearStart(year) + MonthStart(year, month) + day - 1
  }

  predicate ValidDate(year: int, month: int, day: int) {
    1 <= month <= 12 && 1 <= day <= MonthLength(year, month)
  }

  /** Year starts in closed form: 365 days a year plus the leap days so far. */
  function LeapsBefore(year: int): int {
    (year + 3) / 4 - (year + 99) / 100 + (year + 399) / 400
  }

  lemma LeapsBeforeNext(year: int)
    ensures LeapsBefore(year + 1) == LeapsBefore(year) + if IsLeap(year) then 1 else 0
  {
    NextMultiple4(year);
    NextMultiple100(year);
    NextMultiple400(year);
    MultiplesNest(year);
    assert LeapsBefore(year + 1) == (year + 4) / 4 - (year + 100) / 100 + (year + 400) / 400;
  }

  lemma MultiplesNest(year: int)
    ensures year % 400 == 0 ==> year % 100 == 0
    ensures year % 100 == 0 ==> year % 4 == 0
  {
    if year % 100 == 0 {
      assert year == 4 * (25 * (year / 100));
    }
    if year % 400 == 0 {
      assert year == 100 * (4 * (year / 400));
    }
  }

  lemma NextMultiple4(year: int)
    ensures (year + 4) / 4 == (year + 3) / 4 + if year % 4 == 0 then 1 else 0
  {}

  lemma NextMultiple100(year: int)
    ensures (year + 100) / 100 == (year + 99) / 100 + if year % 100 == 0 then 1 else 0
  {}

  lemma NextMultiple400(year: int)
    ensures (year + 400) / 400 == (year + 399) / 400 + if year % 400 == 0 then 1 else 0
  {}

  lemma {:induction false} YearStartClosed(year: int)
    ensures YearStart(year) == 365 * year + LeapsBefore(year) - 719_528
    decreases if year < 1970 then 1970 - year else year - 1970
  {
    if year > 1970 {
      YearStartClosed(year - 1);
      LeapsBeforeNext(year - 1);
    } else if year < 1970 {
      YearStartClosed(year + 1);
      LeapsBeforeNext(year);
    }
  }

  lemma YearStartNext(year: int)
    ensures YearStart(year + 1) == YearStart(year) + YearLength(year)
  {
    YearStartClosed(year);
    YearStartClosed(year + 1);
    LeapsBeforeNext(year);
  }

  lemma {:induction false} YearStartMonotone(y1: int, y2: int)
    requires y1 <= y2
    ensures YearStart(y1) + 365 * (y2 - y1) <= YearStart(y2)
    decreases y2 - y1
  {
    if y1 < y2 {
      YearStartNext(y1);
      YearStartMonotone(y1 + 1, y2);
    }
  }

  lemma {:induction false} MonthStartMonotone(year: int, m1: int, m2: int)
    requires 1 <= m1 <= m2 <= 13
    ensures MonthStart(year, m1) + 28 * (m2 - m1) <= MonthStart(year, m2)
    decreases m2
  {
    if m1 < m2 {
      MonthStartMonotone(year, m1, m2 - 1);
    }
  }

  lemma YearHasItsDays(year: int)
    ensures MonthStart(year, 13) == YearLength(year)
  {
    MonthStartTable(year);
  }

  /** The cumulative month lengths, unrolled. */
  lemma MonthStartTable(year: int)
    ensures var leap := if IsLeap(year) then 1 else 0;
            && MonthStart(year, 1) == 0
            && MonthStart(year, 2) == 31
            && MonthStart(year, 3) == 59 + leap
            && MonthStart(year, 4) == 90 + leap
            && MonthStart(year, 5) == 120 + leap
            && MonthStart(year, 6) == 151 + leap
            && MonthStart(year, 7) == 181 + leap
            && MonthStart(year, 8) == 212 + leap
            && MonthStart(year, 9) == 243 + leap
            && MonthStart(year, 10) == 273 + leap
            && MonthStart(year, 11) == 304 + leap
            && MonthStart(year, 12) == 334 + leap
            && MonthStart(year, 13) == 365 + leap
  {
    assert MonthStart(year, 3) == 59 + if IsLeap(year) then 1 else 0;
    assert MonthStart(year, 5) == MonthStart(year, 3) + 61;
    assert MonthStart(year, 7) == MonthStart(year, 5) + 61;
    assert MonthStart(year, 9) == MonthStart(year, 7) + 62;
    assert MonthStart(year, 11) == MonthStart(year, 9) + 61;
    assert MonthStart(year, 13) == MonthStart(year, 11) + 61;
  }

  lemma WithinYear(year: int, month: int, day: int)
    requires ValidDate(year, month, day)
    ensures YearStart(year) <= DayNumber(year, month, day) < YearStart(year + 1)
  {
    MonthStartMonotone(year, 1, month);
    MonthStartMonotone(year, month + 1, 13);
    YearHasItsDays(year);
    YearStartNext(year);
  }

  /** Calendar-valid dates in chronological order get strictly increasing day numbers. */
  lemma DayNumberStrict(y1: int, m1: int, d1: int, y2: int, m2: int, d2: int)
    requires ValidDate(y1, m1, d1) && ValidDate(y2, m2, d2)
    requires y1 < y2 || (y1 == y2 && (m1 < m2 || (m1 == m2 && d1 < d2)))
    ensures DayNumber(y1, m1, d1) < DayNumber(y2, m2, d2)
  {
    if y1 < y2 {
      WithinYear(y1, m1, d1);
      WithinYear(y2, m2, d2);
      YearStartMonotone(y1 + 1, y2);
    } else if m1 < m2 {
      MonthStartMonotone(y1, m1 + 1, m2);
    }
  }

  /** A day number past the end of a month names a day of the following month. */
  lemma Rollover(year: int, month: int, day: int)
    requires 1 <= month <= 12 && MonthLength(year, month) < day <= 31
    ensures month < 12
    ensures ValidDate(year, month + 1, day - MonthLength(year, month))
    ensures DayNumber(year, month, day) == DayNumber(year, month + 1, day - MonthLength(year, month))
  {}
}
