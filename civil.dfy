/** The proleptic Gregorian calendar that JavaScript's `Date` uses, over day
    numbers counted from 1970-01-01 (day 0, a Thursday). `CivilFromDays` is the
    conversion behind `getFullYear`, `getMonth`, `getDate` and `toISOString`;
    `DaysFromCivil` is the one behind `new Date(year, monthIndex, day)`. */
module Civil {

  /** Milliseconds in a day: 24 * 60 * 60 * 1000. */
  const DayMs: int := 86400000

  predicate IsLeapYear(y: int) {
    y % 4 == 0 && (y % 100 != 0 || y % 400 == 0)
  }

  function YearLength(y: int): int {
    if IsLeapYear(y) then 366 else 365
  }

  function DaysInMonth(y: int, m: int): (n: int)
    requires 1 <= m <= 12
    ensures 28 <= n <= 31
  {
    if m == 2 then (if IsLeapYear(y) then 29 else 28)
    else if m == 4 || m == 6 || m == 9 || m == 11 then 30
    else 31
  }

  /** Days of year `y` that precede the first of month `m`. */
  function DaysBeforeMonth(y: int, m: int): (n: int)
    requires 1 <= m <= 12
    ensures 0 <= n <= 335
  {
    var common := [0, 31, 59, 90, 120, 151, 181, 212, 243, 273, 304, 334][m - 1];
    if m > 2 && IsLeapYear(y) then common + 1 else common
  }

  /** Number of leap years among 1 .. y - 1 (for y <= 1, minus the number
      among y .. 0): the increment of this count is one exactly at leap years. */
  function LeapYearsBefore(y: int): int {
    (y - 1) / 4 - (y - 1) / 100 + (y - 1) / 400
  }

  /** Day number of January 1 of year `y`. */
  function DaysBeforeYear(y: int): int {
    365 * (y - 1970) + LeapYearsBefore(y) - LeapYearsBefore(1970)
  }

  datatype Date = Date(year: int, month: int, day: int)

  predicate ValidDate(d: Date) {
    1 <= d.month <= 12 && 1 <= d.day <= DaysInMonth(d.year, d.month)
  }

  /** Day number of a calendar date. */
  function DaysFromCivil(d: Date): int
    requires 1 <= d.month <= 12
  {
    DaysBeforeYear(d.year) + DaysBeforeMonth(d.year, d.month) + d.day - 1
  }

  /** Day of the week, 0 for Sunday through 6 for Saturday (`getDay`). */
  function Weekday(z: int): (w: int)
    ensures 0 <= w < 7
  {
    (z + 4) % 7
  }

  lemma YearStep(y: int)
    ensures DaysBeforeYear(y + 1) == DaysBeforeYear(y) + YearLength(y)
  {
    var a := y - 1;
    assert y / 4 - a / 4 == if y % 4 == 0 then 1 else 0;
    assert y / 100 - a / 100 == if y % 100 == 0 then 1 else 0;
    assert y / 400 - a / 400 == if y % 400 == 0 then 1 else 0;
    assert y % 400 == 0 ==> y % 100 == 0 && y % 4 == 0 by {
      if y % 400 == 0 {
        assert y == 400 * (y / 400);
        assert y == 100 * (4 * (y / 400));
        assert y == 4 * (100 * (y / 400));
      }
    }
    assert y % 100 == 0 ==> y % 4 == 0 by {
      if y % 100 == 0 {
        assert y == 100 * (y / 100);
        assert y == 4 * (25 * (y / 100));
      }
    }
  }

  /** January 1 moves forward with the year. */
  lemma {:induction false} YearsIncrease(y1: int, y2: int)
    requires y1 < y2
    ensures DaysBeforeYear(y1 + 1) <= DaysBeforeYear(y2)
    decreases y2 - y1
  {
    if y1 + 1 < y2 {
      YearsIncrease(y1 + 1, y2);
      YearStep(y1 + 1);
    }
  }

  /** The average year has 146097 / 400 days, and January 1 never strays
      more than a day and a half from that average. */
  lemma DaysBeforeYearEstimate(y: int)
    ensures -506 <= 400 * DaysBeforeYear(y) - 146097 * (y - 1970) <= 589
  {
    var a := y - 1;
    assert a == 4 * (a / 4) + a % 4;
    assert a == 100 * (a / 100) + a % 100;
    assert a == 400 * (a / 400) + a % 400;
    assert LeapYearsBefore(1970) == 477;
  }

  /** The estimated year of day `z` is off by at most one. */
  lemma YearEstimateBrackets(z: int)
    ensures var y0 := 1970 + (400 * z) / 146097;
      DaysBeforeYear(y0 - 1) <= z < DaysBeforeYear(y0 + 2)
  {
    var q := (400 * z) / 146097;
    assert 146097 * q <= 400 * z < 146097 * q + 146097;
    DaysBeforeYearEstimate(1970 + q - 1);
    DaysBeforeYearEstimate(1970 + q + 2);
  }

  /** The year whose days contain day number `z`. */
  function YearOfDay(z: int): (y: int)
    ensures DaysBeforeYear(y) <= z < DaysBeforeYear(y + 1)
  {
    var y0 := 1970 + (400 * z) / 146097;
    YearEstimateBrackets(z);
    if z < DaysBeforeYear(y0) then y0 - 1
    else if z < DaysBeforeYear(y0 + 1) then y0
    else y0 + 1
  }

  /** Only one year contains a given day. */
  lemma YearUnique(z: int, y: int)
    requires DaysBeforeYear(y) <= z < DaysBeforeYear(y + 1)
    ensures YearOfDay(z) == y
  {
    var x := YearOfDay(z);
    if x < y {
      YearsIncrease(x, y);
    } else if y < x {
      YearsIncrease(y, x);
    }
  }

  lemma MonthStep(y: int, m: int)
    requires 1 <= m < 12
    ensures DaysBeforeMonth(y, m + 1) == DaysBeforeMonth(y, m) + DaysInMonth(y, m)
  {
  }

  lemma MonthsFillYear(y: int)
    ensures DaysBeforeMonth(y, 12) + DaysInMonth(y, 12) == YearLength(y)
  {
  }

  /** The months of a year follow one another without overlap. */
  lemma {:induction false} MonthsIncrease(y: int, m1: int, m2: int)
    requires 1 <= m1 < m2 <= 12
    ensures DaysBeforeMonth(y, m1) + DaysInMonth(y, m1) <= DaysBeforeMonth(y, m2)
    decreases m2 - m1
  {
    MonthStep(y, m1);
    if m1 + 1 < m2 {
      MonthsIncrease(y, m1 + 1, m2);
    }
  }

  /** The month containing day `doy` (0-based) of year `y`. */
  function MonthOfDayOfYear(y: int, doy: int): (m: int)
    requires 0 <= doy < YearLength(y)
    ensures 1 <= m <= 12
    ensures DaysBeforeMonth(y, m) <= doy < DaysBeforeMonth(y, m) + DaysInMonth(y, m)
  {
    MonthsFillYear(y);
    MonthFrom(y, doy, 12)
  }

  function MonthFrom(y: int, doy: int, m: int): (r: int)
    requires 1 <= m <= 12
    requires 0 <= doy < DaysBeforeMonth(y, m) + DaysInMonth(y, m)
    ensures 1 <= r <= m
    ensures DaysBeforeMonth(y, r) <= doy < DaysBeforeMonth(y, r) + DaysInMonth(y, r)
    decreases m
  {
    if doy >= DaysBeforeMonth(y, m) then m
    else
      MonthStep(y, m - 1);
      MonthFrom(y, doy, m - 1)
  }

  /** The calendar date of day number `z`: the inverse of DaysFromCivil. */
  function CivilFromDays(z: int): (d: Date)
    ensures ValidDate(d)
    ensures DaysFromCivil(d) == z
    ensures d.year == YearOfDay(z)
  {
    var y := YearOfDay(z);
    YearStep(y);
    var doy := z - DaysBeforeYear(y);
    var m := MonthOfDayOfYear(y, doy);
    Date(y, m, doy - DaysBeforeMonth(y, m) + 1)
  }

  /** Round trip the other way: a valid date comes back from its day number. */
  lemma CivilRoundTrip(d: Date)
    requires ValidDate(d)
    ensures CivilFromDays(DaysFromCivil(d)) == d
  {
    var z := DaysFromCivil(d);
    var y := d.year;
    YearStep(y);
    if d.month < 12 {
      MonthsIncrease(y, d.month, 12);
    }
    MonthsFillYear(y);
    YearUnique(z, y);
    var e := CivilFromDays(z);
    assert e.year == y;
    if e.month < d.month {
      MonthsIncrease(y, e.month, d.month);
    } else if d.month < e.month {
      MonthsIncrease(y, d.month, e.month);
    }
  }

  /** Distinct day numbers fall on distinct dates. */
  lemma CivilInjective(z1: int, z2: int)
    requires CivilFromDays(z1) == CivilFromDays(z2)
    ensures z1 == z2
  {
  }

  /** A later day never falls in an earlier year. */
  lemma {:induction false} CivilMonotone(z1: int, z2: int)
    requires z1 <= z2
    ensures CivilFromDays(z1).year <= CivilFromDays(z2).year
  {
    var y1, y2 := YearOfDay(z1), YearOfDay(z2);
    if y2 < y1 {
      YearsIncrease(y2, y1);
    }
  }
}
