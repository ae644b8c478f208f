/** ACT/ACT (ISDA) year fractions, section 4.16(b) of the 2006 ISDA
    Definitions, as the money-weighted return module computes them. */
module DayCount {

  import opened Calendar

  /** days / denom with denom = 366.0 in a leap year y and 365.0 otherwise. */
  function Frac(days: int, y: int): real
  {
    if IsLeap(y) then days as real / 366.0 else days as real / 365.0
  }

  /** Frac is the day count over the length of the year. */
  lemma FracIsQuotient(days: int, y: int)
    ensures Frac(days, y) == days as real / DaysInYear(y) as real
  {
  }

  /** The forward case t0 < t1: one quotient inside a single year; otherwise
      the rest of t0's year (31 December included), one per full year in
      between, and the part of t1's year before t1. */
  function ForwardFrac(t0: CalDate, t1: CalDate): real
    requires Before(t0, t1)
  {
    if t1.year == t0.year then
      Frac(Ordinal(t1) - Ordinal(t0), t0.year)
    else
      var first := Frac((Ordinal(YearEnd(t0.year)) - Ordinal(t0)) + 1, t0.year);
      var whole := (t1.year - t0.year - 1) as real;
      var last := Frac(Ordinal(t1) - Ordinal(YearStart(t1.year)), t1.year);
      first + whole + last
  }

  /** Signed year fraction from t0 to t1; a reversed interval is measured
      forwards and negated. Forwards it is the per-year ISDA sum and
      positive; backwards, the negated sum of the reversed interval. */
  function YearFrac(t0: CalDate, t1: CalDate): (r: real)
    ensures t1 == t0 ==> r == 0.0
    ensures Before(t0, t1) ==> r > 0.0 && r == IsdaSum(t0, t1)
    ensures Before(t1, t0) ==> r < 0.0 && r == -IsdaSum(t1, t0)
  {
    if t1 == t0 then 0.0
    else if Before(t1, t0) then
      ForwardFracIsIsda(t1, t0);
      ForwardFracPositive(t1, t0);
      -ForwardFrac(t1, t0)
    else
      ForwardFracIsIsda(t0, t1);
      ForwardFracPositive(t0, t1);
      ForwardFrac(t0, t1)
  }

  /** The convention from its definition: the days of [t0, t1) that fall in
      each calendar year, divided by that year's length, summed over the
      years. Days are counted by position in the year, so no calendar
      arithmetic across years enters. */
  ghost function IsdaSum(t0: CalDate, t1: CalDate): real
    requires !Before(t1, t0)
  {
    if t0.year == t1.year then
      Frac(DayOfYear(t1) - DayOfYear(t0), t0.year)
    else
      Frac(DaysInYear(t0.year) - DayOfYear(t0) + 1, t0.year) + IsdaFromYear(t0.year + 1, t1)
  }

  /** The days of [1 January of y, t1) per calendar year, each over the
      length of its year. */
  ghost function IsdaFromYear(y: int, t1: CalDate): real
    requires y <= t1.year
    decreases t1.year - y
  {
    if y == t1.year then Frac(DayOfYear(t1) - 1, y)
    else Frac(DaysInYear(y), y) + IsdaFromYear(y + 1, t1)
  }

  /** From a 1 January, every whole year contributes exactly one. */
  lemma {:induction false} IsdaFromYearWhole(y: int, t1: CalDate)
    requires y <= t1.year
    ensures IsdaFromYear(y, t1) == (t1.year - y) as real + Frac(DayOfYear(t1) - 1, t1.year)
    decreases t1.year - y
  {
    if y < t1.year {
      WholeYearFraction(y);
      IsdaFromYearWhole(y + 1, t1);
    }
  }

  /** A count of days equal to the length of the year is one year. */
  lemma WholeYearFraction(y: int)
    ensures Frac(DaysInYear(y), y) == 1.0
  {
  }

  /** The three-part formula of the source equals the per-year definition:
      counting up to 31 December inclusive is counting up to the next
      1 January exclusive, and a spanned year contributes its length over
      its length. */
  lemma ForwardFracIsIsda(t0: CalDate, t1: CalDate)
    requires Before(t0, t1)
    ensures ForwardFrac(t0, t1) == IsdaSum(t0, t1)
  {
    if t0.year == t1.year {
      SameYearOrdinal(t0, t1);
    } else {
      SpanMatchesIsda(t0, t1);
    }
  }

  /** The case of an interval that crosses at least one 1 January. */
  lemma SpanMatchesIsda(t0: CalDate, t1: CalDate)
    requires t0.year < t1.year
    ensures ForwardFrac(t0, t1) == IsdaSum(t0, t1)
  {
    var y0 := t0.year;
    var first := DaysInYear(y0) - DayOfYear(t0) + 1;
    var last := DayOfYear(t1) - 1;
    assert Ordinal(YearEnd(y0)) - Ordinal(t0) + 1 == first by {
      SameYearOrdinal(t0, YearEnd(y0));
    }
    assert Ordinal(t1) - Ordinal(YearStart(t1.year)) == last by {
      SameYearOrdinal(YearStart(t1.year), t1);
    }
    IsdaFromYearWhole(y0 + 1, t1);
  }

  /** A date is zero years from itself, and reversing the interval negates
      the fraction. */
  lemma YearFracAntisymmetric(t0: CalDate, t1: CalDate)
    ensures YearFrac(t0, t0) == 0.0
    ensures YearFrac(t1, t0) == -YearFrac(t0, t1)
  {
  }

  lemma ForwardFracPositive(t0: CalDate, t1: CalDate)
    requires Before(t0, t1)
    ensures ForwardFrac(t0, t1) > 0.0
  {
    DayOfYearBounds(t0);
    DayOfYearBounds(t1);
    if t0.year == t1.year {
      OrdinalMonotone(t0, t1);
    }
  }

  /** Inside one calendar year the fraction is the signed day count over the
      length of that year, in either direction. */
  lemma YearFracSameYear(t0: CalDate, t1: CalDate)
    requires t0.year == t1.year
    ensures YearFrac(t0, t1) == (Ordinal(t1) - Ordinal(t0)) as real / DaysInYear(t0.year) as real
  {
    FracIsQuotient(Ordinal(t1) - Ordinal(t0), t0.year);
    FracIsQuotient(Ordinal(t0) - Ordinal(t1), t0.year);
  }

  /** From 1 January of one year to 1 January of another the fraction is
      exactly the number of years between them. */
  lemma YearFracWholeYears(y0: int, y1: int)
    requires MinYear <= y0 <= MaxYear && MinYear <= y1 <= MaxYear
    ensures YearFrac(YearStart(y0), YearStart(y1)) == (y1 - y0) as real
  {
    if y0 < y1 {
      ForwardWholeYears(y0, y1);
    } else if y1 < y0 {
      ForwardWholeYears(y1, y0);
    }
  }

  lemma ForwardWholeYears(y0: int, y1: int)
    requires MinYear <= y0 < y1 <= MaxYear
    ensures ForwardFrac(YearStart(y0), YearStart(y1)) == (y1 - y0) as real
  {
    var s0 := YearStart(y0);
    assert Frac((Ordinal(YearEnd(y0)) - Ordinal(s0)) + 1, y0) == 1.0 by {
      DayOfYearBounds(s0);
      WholeYearFraction(y0);
    }
  }

  lemma YearFracExamples()
    ensures YearFrac(Date(2020, 1, 1), Date(2020, 7, 1)) == 182.0 / 366.0
    ensures YearFrac(Date(2021, 1, 1), Date(2021, 7, 1)) == 181.0 / 365.0
    ensures YearFrac(Date(2020, 1, 1), Date(2021, 1, 1)) == 1.0
  {
    YearFracWholeYears(2020, 2021);
  }
}
