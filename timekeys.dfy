/** The bucket keys of the stacked insights: the UTC date for daily buckets,
    `<year>-W<week>` for weekly ones and `<year>-<month>` for monthly ones, the
    last two read in local time. Each key format comes with its parser, so
    that two instants share a key exactly when they share a bucket. */
module TimeKeys {
  import opened Wrappers
  import opened Decimal
  import opened Civil
  import opened Timestamps

  datatype Interval = Daily | Weekly | Monthly

  /** `getFullYear()`. */
  function LocalYear(t: int, tz: int): int {
    CivilFromDays(LocalDay(t, tz)).year
  }

  /** `getMonth() + 1`. */
  function LocalMonth(t: int, tz: int): (m: int)
    ensures 1 <= m <= 12
  {
    CivilFromDays(LocalDay(t, tz)).month
  }

  /** The local day of `t` lies in its local year. */
  lemma LocalDayInYear(t: int, tz: int)
    ensures DaysBeforeYear(LocalYear(t, tz)) <= LocalDay(t, tz)
            < DaysBeforeYear(LocalYear(t, tz)) + YearLength(LocalYear(t, tz))
  {
    YearStep(LocalYear(t, tz));
  }

  /** `new Date(date.getFullYear(), 0, 1)`: local midnight of January 1 of the
      local year of `t`; `t` falls within that year's span of milliseconds. */
  function YearStart(t: int, tz: int): (j: int)
    ensures LocalDay(j, tz) == DaysBeforeYear(LocalYear(t, tz))
    ensures j <= t < j + YearLength(LocalYear(t, tz)) * DayMs
  {
    LocalDayInYear(t, tz);
    LocalMidnightOfDay(DaysFromCivil(Date(LocalYear(t, tz), 1, 1)), tz)
  }

  /** Day number of the Sunday on or before day `z`. */
  function WeekStart(z: int): (s: int)
    ensures Weekday(s) == 0 && s <= z < s + 7
  {
    z - Weekday(z)
  }

  /** `getWeekNumber` as written: `Math.ceil((pastDaysOfYear + dow + 1) / 7)`,
      where `pastDaysOfYear` is the fractional number of days since local
      midnight of January 1 and `dow` that day's weekday. Multiplied through by
      the length of a day it is a ceiling division of whole milliseconds. */
  function WeekNumberAsWritten(t: int, tz: int): (w: int)
    ensures 1 <= w <= 54
  {
    var j := YearStart(t, tz);
    var n := t - j + (Weekday(LocalDay(j, tz)) + 1) * DayMs;
    assert DayMs <= n < 373 * DayMs;
    -((-n) / (7 * DayMs))
  }

  /** The week number the code evidently means: weeks run Sunday to Saturday
      and week 1 is the one holding January 1. */
  function WeekNumber(t: int, tz: int): (w: int)
    ensures 1 <= w <= 54
  {
    var j := DaysBeforeYear(LocalYear(t, tz));
    LocalDayInYear(t, tz);
    (LocalDay(t, tz) - j + Weekday(j)) / 7 + 1
  }


  /** Ceiling division of `(k + 1)` days and `r` milliseconds by a week: a
      whole number of days gives `k / 7 + 1`; any part of a day more rounds up
      past `(k + 1) / 7`. */
  lemma CeilWeeks(k: int, r: int)
    requires k >= 0 && 0 <= r < DayMs
    ensures -((-((k + 1) * DayMs + r)) / (7 * DayMs)) == if r == 0 then k / 7 + 1 else (k + 1) / 7 + 1
  {
    var q := (k + 1) / 7;
    var s := (k + 1) % 7;
    var n := (k + 1) * DayMs + r;
    assert n == 7 * DayMs * q + s * DayMs + r;
    if r == 0 && s == 0 {
      assert -n == 7 * DayMs * (-q);
      assert k == 7 * (q - 1) + 6;
    } else {
      assert -n == 7 * DayMs * (-(q + 1)) + (7 * DayMs - s * DayMs - r);
      if r == 0 {
        assert k == 7 * q + (s - 1);
      }
    }
  }

  /** Counting days from the Sunday on or before January 1, the remainder
      modulo 7 is the weekday. */
  lemma DaysFromYearSunday(j: int, z: int)
    requires j <= z
    ensures (z - j + Weekday(j)) % 7 == Weekday(z)
    ensures WeekStart(z) == WeekStart(j) + 7 * ((z - j + Weekday(j)) / 7)
  {
    var k := z - j + Weekday(j);
    var m := (j + 4) / 7;
    assert j + 4 == 7 * m + Weekday(j);
    assert k == z + 4 - 7 * m;
    assert z + 4 == 7 * (k / 7 + m) + k % 7;
  }

  /** The code as written and the Sunday-to-Saturday week agree except on a
      Saturday after its first millisecond, which the code counts in the
      following week. */
  lemma WeekNumberAsWrittenShift(t: int, tz: int)
    ensures WeekNumberAsWritten(t, tz)
         == WeekNumber(t, tz) + if Weekday(LocalDay(t, tz)) == 6 && (t + tz) % DayMs != 0 then 1 else 0
  {
    var jd := DaysBeforeYear(LocalYear(t, tz));
    var z := LocalDay(t, tz);
    var r := (t + tz) % DayMs;
    var k := z - jd + Weekday(jd);
    AsWrittenNumerator(t, tz);
    CeilWeeks(k, r);
    DaysFromYearSunday(jd, z);
    assert k + 1 == 7 * (k / 7) + k % 7 + 1;
  }

  /** The numerator of the code's ceiling, in whole days and a remainder. */
  lemma AsWrittenNumerator(t: int, tz: int)
    ensures var jd := DaysBeforeYear(LocalYear(t, tz));
      var k := LocalDay(t, tz) - jd + Weekday(jd);
      && k >= 0
      && WeekNumber(t, tz) == k / 7 + 1
      && WeekNumberAsWritten(t, tz) == -((-((k + 1) * DayMs + (t + tz) % DayMs)) / (7 * DayMs))
  {
    var y := LocalYear(t, tz);
    var jd := DaysBeforeYear(y);
    var z := LocalDay(t, tz);
    var r := (t + tz) % DayMs;
    LocalDayInYear(t, tz);
    var j := YearStart(t, tz);
    assert j == jd * DayMs - tz;
    var k := z - jd + Weekday(jd);
    assert t - j + (Weekday(LocalDay(j, tz)) + 1) * DayMs == (k + 1) * DayMs + r;
  }

  /** After the first millisecond of a local Saturday the code as written
      reports the week number of the following Sunday. */
  lemma AsWrittenOnSaturday(t: int, tz: int)
    requires Weekday(LocalDay(t, tz)) == 6
    requires (t + tz) % DayMs != 0
    ensures WeekNumberAsWritten(t, tz) == WeekNumber(t, tz) + 1
  {
    WeekNumberAsWrittenShift(t, tz);
  }

  /** The week number of an instant of a year whose first day and its
      weekday are known. */
  lemma WeekNumberInYear(t: int, tz: int, y: int, j: int, w: int)
    requires LocalYear(t, tz) == y && DaysBeforeYear(y) == j && Weekday(j) == w
    ensures WeekNumber(t, tz) == (LocalDay(t, tz) - j + w) / 7 + 1
  {
  }

  /** 1 January 2025 is day 20089, a Wednesday; 4 January is a Saturday. */
  lemma Calendar2025()
    ensures DaysBeforeYear(2025) == 20089 && DaysBeforeYear(2026) == 20454
    ensures Weekday(20089) == 3 && Weekday(20092) == 6
  {
    assert LeapYearsBefore(2025) == 491 && LeapYearsBefore(2026) == 491 && LeapYearsBefore(1970) == 477;
  }

  /** 1735992000000 is noon UTC on 4 January 2025 (day 20092). */
  lemma NoonOfJanuary4(t: int, tz: int)
    requires t == 1735992000000 && tz == 0
    ensures LocalDay(t, tz) == 20092 && (t + tz) % DayMs == 43200000
  {
  }

  /** Any instant after midnight on local day 20092, Saturday 4 January 2025,
      is in week 1 by the Sunday-to-Saturday count but in week 2 as written. */
  lemma SaturdayCountsInNextWeek(t: int, tz: int)
    requires LocalDay(t, tz) == 20092 && (t + tz) % DayMs != 0
    ensures LocalYear(t, tz) == 2025 && LocalDay(t, tz) - DaysBeforeYear(2025) == 3
    ensures Weekday(LocalDay(t, tz)) == 6
    ensures WeekNumber(t, tz) == 1
    ensures WeekNumberAsWritten(t, tz) == 2
  {
    Calendar2025();
    YearUnique(LocalDay(t, tz), 2025);
    WeekNumberInYear(t, tz, 2025, 20089, 3);
    AsWrittenOnSaturday(t, tz);
  }

  /** Sunday 5 January 2025 (local day 20093) starts week 2. */
  lemma SundayStartsWeekTwo(t: int, tz: int)
    requires LocalDay(t, tz) == 20093
    ensures LocalYear(t, tz) == 2025 && Weekday(LocalDay(t, tz)) == 0
    ensures WeekNumber(t, tz) == 2
  {
    Calendar2025();
    YearUnique(LocalDay(t, tz), 2025);
    WeekNumberInYear(t, tz, 2025, 20089, 3);
  }

  /** Within one local year, two instants share a week number exactly when
      their days share the Sunday that starts the week. */
  lemma WeekNumberSameWeek(t1: int, t2: int, tz: int)
    requires LocalYear(t1, tz) == LocalYear(t2, tz)
    ensures WeekNumber(t1, tz) == WeekNumber(t2, tz)
            <==> WeekStart(LocalDay(t1, tz)) == WeekStart(LocalDay(t2, tz))
  {
    var jd := DaysBeforeYear(LocalYear(t1, tz));
    var z1, z2 := LocalDay(t1, tz), LocalDay(t2, tz);
    LocalDayInYear(t1, tz);
    LocalDayInYear(t2, tz);
    var k1 := z1 - jd + Weekday(jd);
    var k2 := z2 - jd + Weekday(jd);
    assert WeekNumber(t1, tz) == k1 / 7 + 1 && WeekNumber(t2, tz) == k2 / 7 + 1;
    SameWeekIndex(jd, z1, z2);
  }

  /** Days counted from the same January 1 fall in the same week of that
      year exactly when they share the Sunday that starts the week. */
  lemma SameWeekIndex(j: int, z1: int, z2: int)
    requires j <= z1 && j <= z2
    ensures (z1 - j + Weekday(j)) / 7 == (z2 - j + Weekday(j)) / 7 <==> WeekStart(z1) == WeekStart(z2)
  {
    DaysFromYearSunday(j, z1);
    DaysFromYearSunday(j, z2);
  }

  /** Within one local year the week number never decreases. */
  lemma WeekNumberMonotone(t1: int, t2: int, tz: int)
    requires t1 <= t2 && LocalYear(t1, tz) == LocalYear(t2, tz)
    ensures WeekNumber(t1, tz) <= WeekNumber(t2, tz)
  {
    var jd := DaysBeforeYear(LocalYear(t1, tz));
    assert LocalDay(t1, tz) <= LocalDay(t2, tz);
    var k1 := LocalDay(t1, tz) - jd + Weekday(jd);
    var k2 := LocalDay(t2, tz) - jd + Weekday(jd);
    assert k1 <= k2;
  }

  /** January 1 is in week 1. */
  lemma NewYearIsWeekOne(t: int, tz: int)
    requires LocalDay(t, tz) == DaysBeforeYear(LocalYear(t, tz))
    ensures WeekNumber(t, tz) == 1
  {
  }

  /** The Sunday that opens the week the code as written assigns to `t`:
      the Sunday-to-Saturday week of the day after the instant one
      millisecond earlier. */
  function AsWrittenWeekStart(t: int, tz: int): int {
    WeekStart(LocalDay(t - 1, tz) + 1)
  }

  /** A week as the code counts it runs from just after a local Saturday
      midnight up to and including the next Saturday midnight. */
  lemma AsWrittenWeekSpan(t: int, tz: int)
    ensures var s := AsWrittenWeekStart(t, tz);
      Weekday(s - 1) == 6 && (s - 1) * DayMs - tz < t <= (s + 6) * DayMs - tz
  {
    var a := LocalDay(t - 1, tz) + 1;
    var s := WeekStart(a);
    assert (a - 1) * DayMs <= t - 1 + tz < a * DayMs;
    assert s - 1 <= a - 1 < s + 6;
  }

  /** `n` is the number of the week holding day `z`, counting Sunday-to-
      Saturday weeks from the one holding day `j`. */
  predicate CountsWeek(n: int, j: int, z: int) {
    j <= z && n == (z - j + Weekday(j)) / 7 + 1
  }

  /** The code's week number counts weeks of the day after the instant one
      millisecond earlier from the Sunday on or before January 1. */
  lemma WeekNumberAsWrittenIndex(t: int, tz: int)
    ensures CountsWeek(WeekNumberAsWritten(t, tz), DaysBeforeYear(LocalYear(t, tz)), LocalDay(t - 1, tz) + 1)
  {
    var jd := DaysBeforeYear(LocalYear(t, tz));
    var z := LocalDay(t, tz);
    var r := (t + tz) % DayMs;
    LocalDayInYear(t, tz);
    var k := z - jd + Weekday(jd);
    assert WeekNumber(t, tz) == k / 7 + 1;
    WeekNumberAsWrittenShift(t, tz);
    DaysFromYearSunday(jd, z);
    assert t + tz == z * DayMs + r;
    if r != 0 {
      assert LocalDay(t - 1, tz) == z;
      assert k + 1 == 7 * (k / 7) + k % 7 + 1;
    } else {
      assert t - 1 + tz == (z - 1) * DayMs + (DayMs - 1);
      assert LocalDay(t - 1, tz) == z - 1;
    }
  }

  /** Within one local year, the code gives two instants the same week
      number exactly when they fall in the same Saturday-midnight-to-
      Saturday-midnight week. */
  lemma WeekNumberAsWrittenSameWeek(t1: int, t2: int, tz: int)
    requires LocalYear(t1, tz) == LocalYear(t2, tz)
    ensures WeekNumberAsWritten(t1, tz) == WeekNumberAsWritten(t2, tz)
            <==> AsWrittenWeekStart(t1, tz) == AsWrittenWeekStart(t2, tz)
  {
    WeekNumberAsWrittenIndex(t1, tz);
    WeekNumberAsWrittenIndex(t2, tz);
    SameIndexSameWeek(WeekNumberAsWritten(t1, tz), WeekNumberAsWritten(t2, tz),
      DaysBeforeYear(LocalYear(t1, tz)), LocalDay(t1 - 1, tz) + 1, LocalDay(t2 - 1, tz) + 1);
  }

  /** Two week numbers counted from the same January 1 agree exactly when
      their days share the Sunday that starts the week. */
  lemma SameIndexSameWeek(n1: int, n2: int, j: int, z1: int, z2: int)
    requires CountsWeek(n1, j, z1) && CountsWeek(n2, j, z2)
    ensures n1 == n2 <==> WeekStart(z1) == WeekStart(z2)
  {
    SameWeekIndex(j, z1, z2);
  }

  /** Within one local year the code's week number never decreases. */
  lemma WeekNumberAsWrittenMonotone(t1: int, t2: int, tz: int)
    requires t1 <= t2 && LocalYear(t1, tz) == LocalYear(t2, tz)
    ensures WeekNumberAsWritten(t1, tz) <= WeekNumberAsWritten(t2, tz)
  {
    WeekNumberAsWrittenIndex(t1, tz);
    WeekNumberAsWrittenIndex(t2, tz);
    assert LocalDay(t1 - 1, tz) <= LocalDay(t2 - 1, tz);
  }

  /** As written, January 1 is in week 1, except after midnight when it is a
      Saturday: then it is already week 2. */
  lemma NewYearAsWritten(t: int, tz: int)
    requires LocalDay(t, tz) == DaysBeforeYear(LocalYear(t, tz))
    ensures WeekNumberAsWritten(t, tz)
         == if Weekday(LocalDay(t, tz)) == 6 && (t + tz) % DayMs != 0 then 2 else 1
  {
    WeekNumberAsWrittenShift(t, tz);
    NewYearIsWeekOne(t, tz);
  }

  /** `${year}-W${week.toString().padStart(2, '0')}`. */
  function WeekKey(year: int, week: nat): (s: string)
    requires week < 100
    ensures |s| >= 5 && s[|s| - 4..|s| - 2] == "-W"
  {
    IntToString(year) + "-W" + TwoDigits(week)
  }

  /** `${year}-${month}` with a two-digit month. */
  function MonthKey(year: int, month: nat): (s: string)
    requires month < 100
    ensures |s| >= 4 && s[|s| - 3] == '-'
  {
    IntToString(year) + "-" + TwoDigits(month)
  }

  function ParseWeekKey(s: string): Option<(int, nat)> {
    if |s| < 5 || s[|s| - 4..|s| - 2] != "-W" then None
    else ParseKeyFields(s[..|s| - 4], s[|s| - 2..])
  }

  function ParseMonthKey(s: string): Option<(int, nat)> {
    if |s| < 4 || s[|s| - 3] != '-' then None
    else ParseKeyFields(s[..|s| - 3], s[|s| - 2..])
  }

  /** The year and the two-digit number of a week or month key. */
  function ParseKeyFields(year: string, number: string): Option<(int, nat)> {
    match (ParseInt(year), ParseNat(number))
    case (Some(y), Some(n)) => Some((y, n))
    case _ => None
  }

  lemma KeyFieldsRoundTrip(year: int, n: nat)
    requires n < 100
    ensures ParseKeyFields(IntToString(year), TwoDigits(n)) == Some((year, n))
  {
    IntRoundTrip(year);
    PaddedRoundTrip(n, 2);
  }

  /** Where the fields of a week key are found. */
  lemma WeekKeyLayout(year: int, week: nat)
    requires week < 100
    ensures var s := WeekKey(year, week);
      s[..|s| - 4] == IntToString(year) && s[|s| - 2..] == TwoDigits(week)
  {
    JoinedParts(IntToString(year), "-W", TwoDigits(week));
  }

  /** Where the fields of a month key are found. */
  lemma MonthKeyLayout(year: int, month: nat)
    requires month < 100
    ensures var s := MonthKey(year, month);
      s[..|s| - 3] == IntToString(year) && s[|s| - 2..] == TwoDigits(month)
  {
    JoinedParts(IntToString(year), "-", TwoDigits(month));
  }

  lemma ParseWeekKeyFields(s: string)
    requires |s| >= 5 && s[|s| - 4..|s| - 2] == "-W"
    ensures ParseWeekKey(s) == ParseKeyFields(s[..|s| - 4], s[|s| - 2..])
  {
  }

  lemma ParseMonthKeyFields(s: string)
    requires |s| >= 4 && s[|s| - 3] == '-'
    ensures ParseMonthKey(s) == ParseKeyFields(s[..|s| - 3], s[|s| - 2..])
  {
  }

  lemma WeekKeyRoundTrip(year: int, week: nat)
    requires week < 100
    ensures ParseWeekKey(WeekKey(year, week)) == Some((year, week))
  {
    WeekKeyLayout(year, week);
    KeyFieldsRoundTrip(year, week);
    ParseWeekKeyFields(WeekKey(year, week));
  }

  lemma MonthKeyRoundTrip(year: int, month: nat)
    requires month < 100
    ensures ParseMonthKey(MonthKey(year, month)) == Some((year, month))
  {
    MonthKeyLayout(year, month);
    KeyFieldsRoundTrip(year, month);
    ParseMonthKeyFields(MonthKey(year, month));
  }

  /** `getTimeKey`: each key reads back as the bucket it names. */
  function TimeKey(t: int, interval: Interval, tz: int): (k: string)
    ensures interval == Daily ==> ParseFullDate(k) == Some(CivilFromDays(UtcDay(t)))
    ensures interval == Weekly ==> ParseWeekKey(k) == Some((LocalYear(t, tz), WeekNumberAsWritten(t, tz)))
    ensures interval == Monthly ==> ParseMonthKey(k) == Some((LocalYear(t, tz), LocalMonth(t, tz)))
  {
    match interval
    case Daily => IsoDatePart(t)
    case Weekly =>
      WeekKeyRoundTrip(LocalYear(t, tz), WeekNumberAsWritten(t, tz));
      WeekKey(LocalYear(t, tz), WeekNumberAsWritten(t, tz))
    case Monthly =>
      MonthKeyRoundTrip(LocalYear(t, tz), LocalMonth(t, tz));
      MonthKey(LocalYear(t, tz), LocalMonth(t, tz))
  }

  /** Two instants are in the same bucket: the same UTC day, the same week
      of the same local year as the code counts weeks (see
      `AsWrittenWeekSpan`), or the same local month. */
  predicate SameBucket(t1: int, t2: int, interval: Interval, tz: int) {
    match interval
    case Daily => UtcDay(t1) == UtcDay(t2)
    case Weekly =>
      LocalYear(t1, tz) == LocalYear(t2, tz) && AsWrittenWeekStart(t1, tz) == AsWrittenWeekStart(t2, tz)
    case Monthly =>
      LocalYear(t1, tz) == LocalYear(t2, tz) && LocalMonth(t1, tz) == LocalMonth(t2, tz)
  }

  /** Keys are equal exactly when the instants share a bucket. */
  lemma TimeKeySameBucket(t1: int, t2: int, interval: Interval, tz: int)
    ensures TimeKey(t1, interval, tz) == TimeKey(t2, interval, tz) <==> SameBucket(t1, t2, interval, tz)
  {
    match interval
    case Daily =>
      IsoDatePartSameDay(t1, t2);
    case Weekly =>
      if LocalYear(t1, tz) == LocalYear(t2, tz) {
        WeekNumberAsWrittenSameWeek(t1, t2, tz);
      }
    case Monthly =>
  }

  /** The weekly key the code evidently means, built on the Sunday-to-Saturday
      week number. */
  function IntendedWeekKey(t: int, tz: int): (k: string)
    ensures ParseWeekKey(k) == Some((LocalYear(t, tz), WeekNumber(t, tz)))
  {
    WeekKeyRoundTrip(LocalYear(t, tz), WeekNumber(t, tz));
    WeekKey(LocalYear(t, tz), WeekNumber(t, tz))
  }

  /** With the intended key, two instants share a weekly bucket exactly when
      they fall in the same Sunday-to-Saturday week of the same local year. */
  lemma IntendedWeekKeySameWeek(t1: int, t2: int, tz: int)
    ensures IntendedWeekKey(t1, tz) == IntendedWeekKey(t2, tz)
        <==> LocalYear(t1, tz) == LocalYear(t2, tz) && WeekStart(LocalDay(t1, tz)) == WeekStart(LocalDay(t2, tz))
  {
    if LocalYear(t1, tz) == LocalYear(t2, tz) {
      WeekNumberSameWeek(t1, t2, tz);
    }
  }
}
