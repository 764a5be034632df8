/** The proleptic Gregorian calendar between the years 1 and 9999. */
module CivilDate {

  datatype Date = Date(year: int, month: int, day: int)

  predicate IsLeap(y: int) {
    y % 4 == 0 && (y % 100 != 0 || y % 400 == 0)
  }

  function DaysInMonth(y: int, m: int): int {
    if m == 2 then (if IsLeap(y) then 29 else 28)
    else if m == 4 || m == 6 || m == 9 || m == 11 then 30
    else 31
  }

  predicate Valid(d: Date) {
    1 <= d.year <= 9999 && 1 <= d.month <= 12 && 1 <= d.day <= DaysInMonth(d.year, d.month)
  }

  const MIN_DATE := Date(1, 1, 1)
  const MAX_DATE := Date(9999, 12, 31)

  /** The order of dates: year, month, day. */
  predicate Before(d: Date, e: Date) {
    d.year < e.year
    || (d.year == e.year && (d.month < e.month || (d.month == e.month && d.day < e.day)))
  }

  function DaysBeforeYear(y: int): int {
    (y - 1) * 365 + (y - 1) / 4 - (y - 1) / 100 + (y - 1) / 400
  }

  function DaysBeforeMonth(y: int, m: int): int
    requires 1 <= m <= 13
    decreases m
  {
    if m == 1 then 0 else DaysBeforeMonth(y, m - 1) + DaysInMonth(y, m - 1)
  }

  /** The day number; 1 January of year 1 is day one. */
  function Ordinal(d: Date): int
    requires 1 <= d.month <= 12
  {
    DaysBeforeYear(d.year) + DaysBeforeMonth(d.year, d.month) + d.day
  }

  function LeapDay(y: int): int {
    if IsLeap(y) then 1 else 0
  }

  lemma FourStep(y: int)
    ensures y / 4 - (y - 1) / 4 == if y % 4 == 0 then 1 else 0
  {
  }

  lemma CenturyStep(y: int)
    ensures y / 100 - (y - 1) / 100 == if y % 100 == 0 then 1 else 0
  {
  }

  lemma CycleStep(y: int)
    ensures y / 400 - (y - 1) / 400 == if y % 400 == 0 then 1 else 0
  {
  }

  lemma Multiples(y: int)
    ensures y % 400 == 0 ==> y % 100 == 0
    ensures y % 100 == 0 ==> y % 4 == 0
  {
    if y % 400 == 0 {
      var q, k, r := y / 400, y / 100, y % 100;
      assert r == 100 * (4 * q - k);
    }
    if y % 100 == 0 {
      var q, k, r := y / 100, y / 4, y % 4;
      assert r == 4 * (25 * q - k);
    }
  }

  lemma YearLength(y: int)
    ensures DaysBeforeYear(y + 1) == DaysBeforeYear(y) + 365 + LeapDay(y)
  {
    FourStep(y);
    CenturyStep(y);
    CycleStep(y);
    Multiples(y);
  }

  lemma MonthStarts(y: int, m: int)
    requires 1 <= m <= 13
    ensures DaysBeforeMonth(y, m) == [0, 31, 59, 90, 120, 151, 181, 212, 243, 273, 304, 334, 365][m - 1]
                                     + if m > 2 then LeapDay(y) else 0
  {
    if m > 1 {
      MonthStarts(y, m - 1);
    }
  }

  /** The day after; none after the last representable date. */
  function NextDay(d: Date): Date
    requires Valid(d) && d != MAX_DATE
  {
    if d.day < DaysInMonth(d.year, d.month) then Date(d.year, d.month, d.day + 1)
    else if d.month < 12 then Date(d.year, d.month + 1, 1)
    else Date(d.year + 1, 1, 1)
  }

  /** The day after has the next day number. */
  lemma NextDayIsNext(d: Date)
    requires Valid(d) && d != MAX_DATE
    ensures Valid(NextDay(d)) && Ordinal(NextDay(d)) == Ordinal(d) + 1
  {
    if d.month == 12 && d.day == 31 {
      YearLength(d.year);
      MonthStarts(d.year, 12);
    }
  }

  lemma {:induction false} YearsAscend(y: int, z: int)
    requires y < z
    ensures DaysBeforeYear(y) + 365 + LeapDay(y) <= DaysBeforeYear(z)
    decreases z - y
  {
    YearLength(y);
    if y + 1 < z {
      YearsAscend(y + 1, z);
    }
  }

  lemma MonthsAscend(y: int, m: int, n: int)
    requires 1 <= m < n <= 13
    ensures DaysBeforeMonth(y, m) + DaysInMonth(y, m) <= DaysBeforeMonth(y, n)
    decreases n
  {
    if m < n - 1 {
      MonthsAscend(y, m, n - 1);
    }
  }

  /** A date falls inside its year. */
  lemma WithinYear(d: Date)
    requires Valid(d)
    ensures DaysBeforeYear(d.year) < Ordinal(d) <= DaysBeforeYear(d.year) + 365 + LeapDay(d.year)
  {
    MonthStarts(d.year, d.month);
  }

  lemma LaterIsGreater(d: Date, e: Date)
    requires Valid(d) && Valid(e) && Before(d, e)
    ensures Ordinal(d) < Ordinal(e)
  {
    if d.year < e.year {
      WithinYear(d);
      WithinYear(e);
      YearsAscend(d.year, e.year);
    } else if d.month < e.month {
      MonthsAscend(d.year, d.month, e.month);
    }
  }

  /** Comparing dates field by field is comparing day numbers. */
  lemma OrdinalOrder(d: Date, e: Date)
    requires Valid(d) && Valid(e)
    ensures Before(d, e) <==> Ordinal(d) < Ordinal(e)
    ensures d == e <==> Ordinal(d) == Ordinal(e)
  {
    if Before(d, e) {
      LaterIsGreater(d, e);
    } else if Before(e, d) {
      LaterIsGreater(e, d);
    }
  }

  /** The day number of the last representable date. */
  lemma LastOrdinal(last: Date)
    requires last == MAX_DATE
    ensures Ordinal(last) == 3652059
  {
    MonthStarts(last.year, last.month);
    var y := last.year - 1;
    assert y / 4 == 2499 && y / 100 == 99 && y / 400 == 24;
  }

  /** How far back the same day of the previous year lies. */
  lemma SameDayLastYear(d: Date)
    requires Valid(d) && d.year >= 2 && Valid(Date(d.year - 1, d.month, d.day))
    ensures Ordinal(d) - Ordinal(Date(d.year - 1, d.month, d.day))
            == 365 + if d.month > 2 then LeapDay(d.year) else LeapDay(d.year - 1)
  {
    YearLength(d.year - 1);
    MonthStarts(d.year, d.month);
    MonthStarts(d.year - 1, d.month);
  }
}
