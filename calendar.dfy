/**
  The part of Python's `datetime` that the solar-time core relies on:
  UTC date-times with microsecond resolution over the proleptic Gregorian
  calendar, their position on the timeline, `replace(year=...)` and the
  `.days` of a difference.
 */
module Calendar {
  import opened Results

  const MinYear: int := 1
  const MaxYear: int := 9999
  const SecondMicros: int := 1_000_000
  const DayMicros: int := 86_400_000_000

  /** The proleptic Gregorian leap-year rule. */
  predicate IsLeapYear(y: int) {
    y % 4 == 0 && (y % 100 != 0 || y % 400 == 0)
  }

  function DaysInYear(y: int): int {
    if IsLeapYear(y) then 366 else 365
  }

  function DaysInMonth(y: int, m: int): (n: int)
    requires 1 <= m <= 12
    ensures 28 <= n <= 31
    ensures n == 29 <==> m == 2 && IsLeapYear(y)
  {
    if m == 2 then (if IsLeapYear(y) then 29 else 28)
    else if m == 4 || m == 6 || m == 9 || m == 11 then 30
    else 31
  }

  /** Days in the months of year `y` before month `m` (the cumulative table). */
  function DaysBeforeMonth(y: int, m: int): int
    requires 1 <= m <= 12
  {
    var common :=
      if m <= 6 then
        (if m == 1 then 0 else if m == 2 then 31 else if m == 3 then 59
         else if m == 4 then 90 else if m == 5 then 120 else 151)
      else
        (if m == 7 then 181 else if m == 8 then 212 else if m == 9 then 243
         else if m == 10 then 273 else if m == 11 then 304 else 334);
    common + (if m > 2 && IsLeapYear(y) then 1 else 0)
  }

  /** The cumulative table agrees with the month lengths it abbreviates. */
  lemma MonthTableAgrees(y: int, m: int)
    requires 1 <= m <= 12
    ensures DaysBeforeMonth(y, m) + DaysInMonth(y, m)
            == if m == 12 then DaysInYear(y) else DaysBeforeMonth(y, m + 1)
  {
  }

  /** Days from 0001-01-01 to January 1 of year `y`, in closed form. */
  function DaysBeforeYear(y: int): int
    requires y >= MinYear
  {
    var p := y - 1;
    365 * p + p / 4 - p / 100 + p / 400
  }

  /** Consecutive year starts are one year length apart. */
  lemma YearLength(y: int)
    requires y >= MinYear
    ensures DaysBeforeYear(y + 1) == DaysBeforeYear(y) + DaysInYear(y)
  {
    var p := y - 1;
    var d4, d100, d400 := y / 4 - p / 4, y / 100 - p / 100, y / 400 - p / 400;
    DivStep4(y);
    DivStep100(y);
    DivStep400(y);
    CenturiesDivisible(y);
    assert DaysBeforeYear(y + 1) - DaysBeforeYear(y) == 365 + d4 - d100 + d400;
  }

  lemma MultipleOf100(k: int)
    ensures (100 * k) % 100 == 0
  {
  }

  lemma MultipleOf4(k: int)
    ensures (4 * k) % 4 == 0
  {
  }

  /** Multiples of 400 are multiples of 100, which are multiples of 4. */
  lemma CenturiesDivisible(y: int)
    ensures y % 400 == 0 ==> y % 100 == 0
    ensures y % 100 == 0 ==> y % 4 == 0
  {
    if y % 400 == 0 {
      MultipleOf100(4 * (y / 400));
    }
    if y % 100 == 0 {
      MultipleOf4(25 * (y / 100));
    }
  }

  lemma DivStep4(y: int)
    ensures y / 4 == (y - 1) / 4 + (if y % 4 == 0 then 1 else 0)
  {
  }

  lemma DivStep100(y: int)
    ensures y / 100 == (y - 1) / 100 + (if y % 100 == 0 then 1 else 0)
  {
  }

  lemma DivStep400(y: int)
    ensures y / 400 == (y - 1) / 400 + (if y % 400 == 0 then 1 else 0)
  {
  }

  /** Later years start later. */
  lemma {:induction false} DaysBeforeYearMonotone(y1: int, y2: int)
    requires MinYear <= y1 <= y2
    ensures DaysBeforeYear(y1) + 365 * (y2 - y1) <= DaysBeforeYear(y2)
    decreases y2 - y1
  {
    if y1 < y2 {
      DaysBeforeYearMonotone(y1, y2 - 1);
      YearLength(y2 - 1);
    }
  }

  /** Reference definition: the year lengths of years 1 .. y-1 added up. */
  function YearsTotal(y: int): int
    requires y >= MinYear
    decreases y
  {
    if y == MinYear then 0 else YearsTotal(y - 1) + DaysInYear(y - 1)
  }

  lemma {:induction false} DaysBeforeYearCounts(y: int)
    requires y >= MinYear
    ensures DaysBeforeYear(y) == YearsTotal(y)
    decreases y
  {
    if y > MinYear {
      DaysBeforeYearCounts(y - 1);
      YearLength(y - 1);
    }
  }

  /** A UTC date-time, field by field, as Python's `datetime` stores it. */
  datatype DateTime = DateTime(year: int, month: int, day: int,
                               hour: int, minute: int, second: int, microsecond: int)
  {
    /** What the `datetime` constructor accepts. */
    predicate Valid() {
      && MinYear <= year <= MaxYear
      && 1 <= month <= 12
      && 1 <= day <= DaysInMonth(year, month)
      && 0 <= hour < 24 && 0 <= minute < 60 && 0 <= second < 60
      && 0 <= microsecond < SecondMicros
    }
  }

  /** `datetime(y, m, d, tzinfo=UTC)`: midnight UTC at the start of that date. */
  function MidnightOf(y: int, m: int, d: int): DateTime {
    DateTime(y, m, d, 0, 0, 0, 0)
  }

  /** Days since 0001-01-01 (the proleptic ordinal minus one). */
  function DayNumber(dt: DateTime): int
    requires dt.Valid()
  {
    DaysBeforeYear(dt.year) + DaysBeforeMonth(dt.year, dt.month) + dt.day - 1
  }

  function TimeOfDay(dt: DateTime): int
    requires dt.Valid()
  {
    ((dt.hour * 60 + dt.minute) * 60 + dt.second) * SecondMicros + dt.microsecond
  }

  /** Position on the UTC timeline, in microseconds since 0001-01-01T00:00Z. */
  function Micros(dt: DateTime): (t: int)
    requires dt.Valid()
    ensures DayNumber(dt) * DayMicros <= t < (DayNumber(dt) + 1) * DayMicros
  {
    DayNumber(dt) * DayMicros + TimeOfDay(dt)
  }

  /** A valid date-time lies inside its own year. */
  lemma DateWithinYear(dt: DateTime)
    requires dt.Valid()
    ensures DaysBeforeYear(dt.year) <= DayNumber(dt) < DaysBeforeYear(dt.year + 1)
  {
    MonthTableAgrees(dt.year, dt.month);
    if dt.month < 12 {
      var m := dt.month + 1;
      while m < 12
        invariant dt.month < m <= 12
        invariant DaysBeforeMonth(dt.year, dt.month) + DaysInMonth(dt.year, dt.month) <= DaysBeforeMonth(dt.year, m)
      {
        MonthTableAgrees(dt.year, m);
        m := m + 1;
      }
      MonthTableAgrees(dt.year, 12);
    }
    YearLength(dt.year);
  }

  /** Later months of a year start after earlier months end. */
  lemma MonthsFollow(y: int, m1: int, m2: int)
    requires 1 <= m1 < m2 <= 12
    ensures DaysBeforeMonth(y, m1) + DaysInMonth(y, m1) <= DaysBeforeMonth(y, m2)
  {
    var m := m1 + 1;
    MonthTableAgrees(y, m1);
    while m < m2
      invariant m1 < m <= m2
      invariant DaysBeforeMonth(y, m1) + DaysInMonth(y, m1) <= DaysBeforeMonth(y, m)
    {
      MonthTableAgrees(y, m);
      m := m + 1;
    }
  }

  /** `a < b` for two date-times with the same tzinfo: Python compares their
      fields in order, year first. */
  predicate Before(a: DateTime, b: DateTime)
    ensures Before(a, b) ==> a != b
  {
    if a.year != b.year then a.year < b.year
    else if a.month != b.month then a.month < b.month
    else if a.day != b.day then a.day < b.day
    else if a.hour != b.hour then a.hour < b.hour
    else if a.minute != b.minute then a.minute < b.minute
    else if a.second != b.second then a.second < b.second
    else a.microsecond < b.microsecond
  }

  /** Field order is a strict total order: of two distinct date-times,
      exactly one comes first. */
  lemma BeforeIsStrictTotal(a: DateTime, b: DateTime)
    ensures Before(a, b) ==> !Before(b, a)
    ensures a != b ==> Before(a, b) || Before(b, a)
  {
  }

  /** Comparing fields is comparing positions on the timeline. */
  lemma BeforeIsEarlier(a: DateTime, b: DateTime)
    requires a.Valid() && b.Valid()
    ensures Before(a, b) <==> Micros(a) < Micros(b)
  {
    if a.year != b.year {
      if a.year < b.year { EarlierDay(a, b); } else { EarlierDay(b, a); }
    } else if a.month != b.month {
      if a.month < b.month { EarlierDay(a, b); } else { EarlierDay(b, a); }
    } else if a.day != b.day {
      if a.day < b.day { EarlierDay(a, b); } else { EarlierDay(b, a); }
    } else {
      assert DayNumber(a) == DayNumber(b);
    }
  }

  /** A date-time on an earlier calendar date is earlier on the timeline. */
  lemma EarlierDay(x: DateTime, z: DateTime)
    requires x.Valid() && z.Valid()
    requires x.year < z.year
          || (x.year == z.year && x.month < z.month)
          || (x.year == z.year && x.month == z.month && x.day < z.day)
    ensures DayNumber(x) < DayNumber(z) && Micros(x) < Micros(z)
  {
    if x.year < z.year {
      DateWithinYear(x);
      DateWithinYear(z);
      DaysBeforeYearMonotone(x.year + 1, z.year);
    } else if x.month < z.month {
      MonthsFollow(x.year, x.month, z.month);
    }
  }

  datatype DateError = YearOutOfRange | DayOutOfRange

  /** `dt.replace(year=y)`, which raises ValueError when the result is not a date. */
  function ReplaceYear(dt: DateTime, y: int): (r: Result<DateTime, DateError>)
    requires dt.Valid()
    ensures r.Ok? <==> MinYear <= y <= MaxYear && dt.day <= DaysInMonth(y, dt.month)
    ensures r.Ok? ==> r.value.Valid() && r.value.year == y
                      && r.value.(year := dt.year) == dt
  {
    if y < MinYear || y > MaxYear then Err(YearOutOfRange)
    else if dt.day > DaysInMonth(y, dt.month) then Err(DayOutOfRange)
    else Ok(dt.(year := y))
  }

  /** `(a - b).days`: the whole days of the difference, rounded toward minus infinity. */
  function DaysBetween(a: DateTime, b: DateTime): (d: int)
    requires a.Valid() && b.Valid()
    ensures d * DayMicros <= Micros(a) - Micros(b) < (d + 1) * DayMicros
  {
    (Micros(a) - Micros(b)) / DayMicros
  }

  /** Counting whole days from a midnight is counting calendar days. */
  lemma DaysSinceMidnight(a: DateTime, b: DateTime)
    requires a.Valid() && b.Valid()
    requires TimeOfDay(b) == 0
    ensures DaysBetween(a, b) == DayNumber(a) - DayNumber(b)
  {
    var d := DayNumber(a) - DayNumber(b);
    assert d * DayMicros <= Micros(a) - Micros(b) < (d + 1) * DayMicros;
  }
}
