/** The proleptic Gregorian calendar as Python's `datetime.date` implements
    it: years 1 to 9999, the leap-year rule, and the day ordinal that date
    subtraction `(t1 - t0).days` is computed from. */
module Calendar {

  import opened Numeric

  const MinYear: int := 1
  const MaxYear: int := 9999

  datatype Date = Date(year: int, month: int, day: int)

  /** Gregorian leap rule: every fourth year, except centuries, except every
      fourth century. Only multiples of four are leap years; among them a
      century year is one exactly when it is a multiple of 400. */
  function IsLeap(y: int): (leap: bool)
    ensures leap ==> y % 4 == 0
    ensures y % 4 == 0 && y % 100 != 0 ==> leap
    ensures y % 100 == 0 ==> (leap <==> y % 400 == 0)
  {
    CenturiesDivide(y);
    (y % 4 == 0 && y % 100 != 0) || y % 400 == 0
  }

  function DaysInYear(y: int): int
  {
    if IsLeap(y) then 366 else 365
  }

  function DaysInMonth(y: int, m: int): int
    requires 1 <= m <= 12
  {
    if m == 2 then (if IsLeap(y) then 29 else 28)
    else if m == 4 || m == 6 || m == 9 || m == 11 then 30
    else 31
  }

  predicate Valid(d: Date)
  {
    && MinYear <= d.year <= MaxYear
    && 1 <= d.month <= 12
    && 1 <= d.day <= DaysInMonth(d.year, d.month)
  }

  /** A date that `datetime.date` accepts. */
  type CalDate = d: Date | Valid(d) witness Date(1, 1, 1)

  /** Strict chronological order: lexicographic on (year, month, day). */
  predicate Before(a: Date, b: Date)
  {
    a.year < b.year
    || (a.year == b.year && a.month < b.month)
    || (a.year == b.year && a.month == b.month && a.day < b.day)
  }

  function YearStart(y: int): CalDate
    requires MinYear <= y <= MaxYear
  {
    Date(y, 1, 1)
  }

  function YearEnd(y: int): CalDate
    requires MinYear <= y <= MaxYear
  {
    Date(y, 12, 31)
  }

  /** Days of the year y that precede the first of month m. */
  function DaysBeforeMonth(y: int, m: int): int
    requires 1 <= m <= 12
  {
    [0, 31, 59, 90, 120, 151, 181, 212, 243, 273, 304, 334][m - 1]
    + (if m > 2 && IsLeap(y) then 1 else 0)
  }

  /** Days in all years before y, counting from 0001-01-01. */
  function DaysBeforeYear(y: int): int
    requires y >= MinYear
  {
    var p := y - 1;
    p * 365 + p / 4 - p / 100 + p / 400
  }

  /** The proleptic Gregorian ordinal: 0001-01-01 is day 1. Python's date
      subtraction is the difference of these ordinals. The days of a year
      take the DaysInYear numbers after those of all earlier years. */
  function Ordinal(d: CalDate): (o: int)
    ensures DaysBeforeYear(d.year) < o <= DaysBeforeYear(d.year) + DaysInYear(d.year)
    ensures d == Date(1, 1, 1) ==> o == 1
  {
    DayOfYearWithin(d);
    DaysBeforeYear(d.year) + DayOfYear(d)
  }

  /** A date's position in its year is between 1 and the length of the year. */
  lemma DayOfYearWithin(d: CalDate)
    ensures 1 <= DayOfYear(d) <= DaysInYear(d.year)
  {
    if d.month < 12 {
      MonthEndBeforeLater(d.year, d.month, 12);
    }
  }

  /** Position of a date inside its own year: 1 January is day 1. */
  function DayOfYear(d: CalDate): int
  {
    DaysBeforeMonth(d.year, d.month) + d.day
  }

  /** Calendar successor of a date, the partner of Ordinal. */
  function NextDay(d: CalDate): CalDate
    requires d != YearEnd(MaxYear)
  {
    if d.day < DaysInMonth(d.year, d.month) then Date(d.year, d.month, d.day + 1)
    else if d.month < 12 then Date(d.year, d.month + 1, 1)
    else Date(d.year + 1, 1, 1)
  }

  lemma LeapYearExamples()
    ensures IsLeap(2020) && IsLeap(2000)
    ensures !IsLeap(2021) && !IsLeap(1900)
  {
  }

  /** a/k steps up by one exactly at the multiples of k. */
  lemma DivStep(a: int, k: int)
    requires a >= 1 && k > 0
    ensures a / k - (a - 1) / k == (if a % k == 0 then 1 else 0)
  {
    var q, r := (a - 1) / k, (a - 1) % k;
    if r == k - 1 {
      DivUnique(a, k, q + 1, 0);
    } else {
      DivUnique(a, k, q, r + 1);
    }
  }

  lemma DivUnique(a: int, k: int, q: int, r: int)
    requires k > 0 && 0 <= r < k
    requires a == q * k + r
    ensures a / k == q && a % k == r
  {
    var q', r' := a / k, a % k;
    assert a == q' * k + r' && 0 <= r' < k;
    if q' > q {
      assert q' * k - q * k == (q' - q) * k;
      MulAtLeast(q' - q, k);
      assert false;
    } else if q' < q {
      assert q * k - q' * k == (q - q') * k;
      MulAtLeast(q - q', k);
      assert false;
    }
  }

  /** The closed-form year offset grows by exactly the length of each year,
      so it agrees with the leap rule. */
  lemma DaysBeforeYearStep(y: int)
    requires y >= MinYear
    ensures DaysBeforeYear(y + 1) == DaysBeforeYear(y) + DaysInYear(y)
  {
    var a, b, c := y / 4 - (y - 1) / 4, y / 100 - (y - 1) / 100, y / 400 - (y - 1) / 400;
    assert DaysBeforeYear(y + 1) - DaysBeforeYear(y) == 365 + a - b + c;
    DivStep(y, 4);
    DivStep(y, 100);
    DivStep(y, 400);
    CenturiesDivide(y);
  }

  /** 31 December is followed by the next 1 January, and a year spans
      DaysInYear days from its first to its last day inclusive. */
  lemma YearBoundary(y: int)
    requires MinYear <= y < MaxYear
    ensures Ordinal(YearStart(y + 1)) == Ordinal(YearEnd(y)) + 1
    ensures Ordinal(YearEnd(y)) - Ordinal(YearStart(y)) + 1 == DaysInYear(y)
  {
    DaysBeforeYearStep(y);
  }

  /** A multiple of 400 is a multiple of 100, and a multiple of 100 one of 4. */
  lemma CenturiesDivide(y: int)
    ensures y % 400 == 0 ==> y % 100 == 0
    ensures y % 100 == 0 ==> y % 4 == 0
  {
    if y % 400 == 0 {
      DivUnique(y, 100, 4 * (y / 400), 0);
    }
    if y % 100 == 0 {
      DivUnique(y, 4, 25 * (y / 100), 0);
    }
  }

  lemma {:induction false} DaysBeforeYearMonotone(y1: int, y2: int)
    requires MinYear <= y1 <= y2
    ensures DaysBeforeYear(y2) >= DaysBeforeYear(y1) + 365 * (y2 - y1)
    decreases y2 - y1
  {
    if y1 < y2 {
      DaysBeforeYearMonotone(y1, y2 - 1);
      DaysBeforeYearStep(y2 - 1);
    }
  }

  /** Every day of a year lies between its 1 January and its 31 December. */
  lemma DayOfYearBounds(d: CalDate)
    ensures Ordinal(YearStart(d.year)) <= Ordinal(d) <= Ordinal(YearEnd(d.year))
    ensures Ordinal(YearEnd(d.year)) - Ordinal(YearStart(d.year)) + 1 == DaysInYear(d.year)
  {
    if d.month < 12 {
      MonthEndBeforeLater(d.year, d.month, 12);
    }
    assert DayOfYear(d) <= DayOfYear(YearEnd(d.year));
  }

  /** Every day of month m1 comes before the first of a later month m2. */
  lemma {:induction false} MonthEndBeforeLater(y: int, m1: int, m2: int)
    requires 1 <= m1 < m2 <= 12
    ensures DaysBeforeMonth(y, m1) + DaysInMonth(y, m1) <= DaysBeforeMonth(y, m2)
    decreases m2 - m1
  {
    if m2 > m1 + 1 {
      MonthEndBeforeLater(y, m1, m2 - 1);
      DaysBeforeMonthStep(y, m2 - 1);
    } else {
      DaysBeforeMonthStep(y, m1);
    }
  }

  /** Within one year the ordinal difference is the day-of-year difference;
      1 January is day 1 and 31 December is the last day. */
  lemma SameYearOrdinal(a: CalDate, b: CalDate)
    requires a.year == b.year
    ensures Ordinal(b) - Ordinal(a) == DayOfYear(b) - DayOfYear(a)
    ensures DayOfYear(YearStart(a.year)) == 1
    ensures DayOfYear(YearEnd(a.year)) == DaysInYear(a.year)
  {
  }

  /** The ordinal is strictly increasing in chronological order. */
  lemma OrdinalMonotone(a: CalDate, b: CalDate)
    requires Before(a, b)
    ensures Ordinal(a) < Ordinal(b)
  {
    if a.year < b.year {
      OrdinalAcrossYears(a, b);
    } else {
      DayOfYearMonotone(a, b);
      SameYearOrdinal(a, b);
    }
  }

  lemma OrdinalAcrossYears(a: CalDate, b: CalDate)
    requires a.year < b.year
    ensures Ordinal(a) < Ordinal(b)
  {
    DayOfYearBounds(a);
    DaysBeforeYearStep(a.year);
    DaysBeforeYearMonotone(a.year + 1, b.year);
  }

  /** Inside one year, a later date has a later position in the year. */
  lemma DayOfYearMonotone(a: CalDate, b: CalDate)
    requires a.year == b.year && Before(a, b)
    ensures DayOfYear(a) < DayOfYear(b)
  {
    if a.month < b.month {
      MonthEndBeforeLater(a.year, a.month, b.month);
    }
  }

  /** Consecutive calendar days have consecutive ordinals. */
  lemma OrdinalNextDay(d: CalDate)
    requires d != YearEnd(MaxYear)
    ensures Ordinal(NextDay(d)) == Ordinal(d) + 1
  {
    var n := NextDay(d);
    if d.day < DaysInMonth(d.year, d.month) {
      assert DayOfYear(n) == DayOfYear(d) + 1;
    } else if d.month < 12 {
      DaysBeforeMonthStep(d.year, d.month);
      assert DayOfYear(n) == DayOfYear(d) + 1;
    } else {
      DaysBeforeYearStep(d.year);
      assert DayOfYear(d) == DaysInYear(d.year);
    }
  }

  /** The first of the next month follows the last day of this one. */
  lemma DaysBeforeMonthStep(y: int, m: int)
    requires 1 <= m < 12
    ensures DaysBeforeMonth(y, m + 1) == DaysBeforeMonth(y, m) + DaysInMonth(y, m)
  {
  }

  lemma OrdinalInjective(a: CalDate, b: CalDate)
    requires Ordinal(a) == Ordinal(b)
    ensures a == b
  {
    if Before(a, b) {
      OrdinalMonotone(a, b);
    } else if Before(b, a) {
      OrdinalMonotone(b, a);
    }
  }
}
