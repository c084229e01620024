/** The date-range helper of the frontend filter bar: a range name becomes a
    start and an end date, computed from the clock reading `now` in local
    time (a fixed offset `tz`) and written out as `YYYY-MM-DD`. */
module DateRanges {
  import opened Wrappers
  import opened Civil
  import opened Timestamps

  /** The names the switch recognises; any other string falls to `default`. */
  predicate KnownRange(range: string) {
    range in {"today", "yesterday", "last7days", "last30days", "thisMonth", "thisYear"}
  }

  /** The first of the month and January 1 of the local date of `now`. */
  function MonthStart(now: int, tz: int): int {
    var d := CivilFromDays(LocalDay(now, tz));
    LocalDateStart(Date(d.year, d.month, 1), tz)
  }

  function YearStartOf(now: int, tz: int): int {
    var d := CivilFromDays(LocalDay(now, tz));
    LocalDateStart(Date(d.year, 1, 1), tz)
  }

  /** The instants the switch assigns to `start` and `end`: `today` is the
      local midnight of `now`, `end` the last millisecond of today except for
      `yesterday`. */
  function RangeBounds(range: string, now: int, tz: int): (r: (int, int))
    ensures r.0 <= r.1
    ensures range != "yesterday" ==> r.1 == LocalMidnight(now, tz) + DayMs - 1
    ensures range == "yesterday" ==> r == (LocalMidnight(now, tz) - DayMs, LocalMidnight(now, tz) - 1)
  {
    var today := LocalMidnight(now, tz);
    var end := today + DayMs - 1;
    if range == "today" then (today, end)
    else if range == "yesterday" then (today - DayMs, today - 1)
    else if range == "last7days" then (today - 7 * DayMs, end)
    else if range == "last30days" then (today - 30 * DayMs, end)
    else if range == "thisMonth" then (MonthStartBefore(now, tz); (MonthStart(now, tz), end))
    else if range == "thisYear" then (YearStartBefore(now, tz); (YearStartOf(now, tz), end))
    else (today - 7 * DayMs, end)
  }

  /** The first of the month is a local midnight no later than today's. */
  lemma MonthStartBefore(now: int, tz: int)
    ensures MonthStart(now, tz) <= LocalMidnight(now, tz)
    ensures LocalMidnight(MonthStart(now, tz), tz) == MonthStart(now, tz)
  {
    var d := CivilFromDays(LocalDay(now, tz));
    assert DaysFromCivil(Date(d.year, d.month, 1)) == DaysFromCivil(d) - (d.day - 1);
  }

  /** January 1 is a local midnight no later than today's. */
  lemma YearStartBefore(now: int, tz: int)
    ensures YearStartOf(now, tz) <= LocalMidnight(now, tz)
    ensures LocalMidnight(YearStartOf(now, tz), tz) == YearStartOf(now, tz)
  {
    var d := CivilFromDays(LocalDay(now, tz));
    assert DaysFromCivil(Date(d.year, 1, 1)) == DaysBeforeYear(d.year);
    assert DaysBeforeYear(d.year) <= DaysFromCivil(d);
  }

  /** `thisMonth` starts at local midnight on the 1st of the current local
      month. */
  lemma ThisMonthStart(range: string, now: int, tz: int)
    requires range == "thisMonth"
    ensures var d := CivilFromDays(LocalDay(now, tz));
      var start := RangeBounds(range, now, tz).0;
      CivilFromDays(LocalDay(start, tz)) == Date(d.year, d.month, 1) && LocalMidnight(start, tz) == start
  {
    var d := CivilFromDays(LocalDay(now, tz));
    assert ValidDate(Date(d.year, d.month, 1));
    MonthStartBefore(now, tz);
    assert RangeBounds(range, now, tz).0 == MonthStart(now, tz);
  }

  /** `thisYear` starts at local midnight on January 1 of the current local
      year. */
  lemma ThisYearStart(range: string, now: int, tz: int)
    requires range == "thisYear"
    ensures var d := CivilFromDays(LocalDay(now, tz));
      var start := RangeBounds(range, now, tz).0;
      CivilFromDays(LocalDay(start, tz)) == Date(d.year, 1, 1) && LocalMidnight(start, tz) == start
  {
    YearStartBefore(now, tz);
    assert RangeBounds(range, now, tz).0 == YearStartOf(now, tz);
  }

  /** How many local calendar days each fixed-length range touches: one for
      `today` and `yesterday`, eight for `last7days` (the seven days before
      today, and today) and thirty-one for `last30days`. */
  lemma RangeLengths(now: int, tz: int)
    ensures var t := RangeBounds("today", now, tz);
      LocalDay(t.0, tz) == LocalDay(t.1, tz) == LocalDay(now, tz)
    ensures var y := RangeBounds("yesterday", now, tz);
      LocalDay(y.0, tz) == LocalDay(y.1, tz) == LocalDay(now, tz) - 1
    ensures var w := RangeBounds("last7days", now, tz);
      LocalDay(w.0, tz) == LocalDay(now, tz) - 7 && LocalDay(w.1, tz) == LocalDay(now, tz)
    ensures var m := RangeBounds("last30days", now, tz);
      LocalDay(m.0, tz) == LocalDay(now, tz) - 30 && LocalDay(m.1, tz) == LocalDay(now, tz)
  {
    var z := LocalDay(now, tz);
    var today := LocalMidnight(now, tz);
    assert today + tz == z * DayMs;
    assert LocalDay(today + DayMs - 1, tz) == z;
    assert LocalDay(today - 1, tz) == z - 1;
    assert LocalDay(today - DayMs, tz) == z - 1;
    assert LocalDay(today - 7 * DayMs, tz) == z - 7;
    assert LocalDay(today - 30 * DayMs, tz) == z - 30;
  }

  /** `today` starts at local midnight, `last7days` and `last30days` exactly
      7 and 30 days of milliseconds before it. */
  lemma RangeStarts(now: int, tz: int)
    ensures RangeBounds("today", now, tz).0 == LocalMidnight(now, tz)
    ensures RangeBounds("last7days", now, tz).0 == LocalMidnight(now, tz) - 7 * DayMs
    ensures RangeBounds("last30days", now, tz).0 == LocalMidnight(now, tz) - 30 * DayMs
  {
  }

  /** Any name the switch does not list behaves as `last7days`. */
  lemma UnknownIsLast7Days(range: string, now: int, tz: int)
    requires !KnownRange(range)
    ensures RangeBounds(range, now, tz) == RangeBounds("last7days", now, tz)
  {
  }

  /** dateRangeToStartEnd: both bounds as `toISOString().split('T')[0]`. */
  function DateRangeToStartEnd(range: string, now: int, tz: int): (r: (string, string))
    ensures ParseFullDate(r.0).Some? && ParseFullDate(r.1).Some?
    ensures DaysFromCivil(ParseFullDate(r.0).value) <= DaysFromCivil(ParseFullDate(r.1).value)
  {
    var b := RangeBounds(range, now, tz);
    assert UtcDay(b.0) <= UtcDay(b.1);
    (IsoDatePart(b.0), IsoDatePart(b.1))
  }

  /** East of UTC a local midnight falls on the previous UTC day. */
  lemma MidnightEastOfUtc(now: int, tz: int)
    requires 0 < tz < DayMs
    ensures UtcDay(LocalMidnight(now, tz)) == LocalDay(now, tz) - 1
  {
    var z := LocalDay(now, tz);
    assert LocalMidnight(now, tz) == (z - 1) * DayMs + (DayMs - tz);
  }

  /** West of UTC the last millisecond of a local day falls on the next UTC day. */
  lemma DayEndWestOfUtc(now: int, tz: int)
    requires -DayMs < tz < 0
    ensures UtcDay(LocalMidnight(now, tz) + DayMs - 1) == LocalDay(now, tz) + 1
  {
    var z := LocalDay(now, tz);
    assert LocalMidnight(now, tz) + DayMs - 1 == (z + 1) * DayMs + (-tz - 1);
  }

  lemma IsoDateOfDay(t: int, z: int)
    requires UtcDay(t) == z
    ensures ParseFullDate(IsoDatePart(t)) == Some(CivilFromDays(z))
  {
  }

  /** East of UTC, local midnight is still the previous day in UTC, so the
      `today` range starts on the date before the local date. */
  lemma TodayStartsEarlierEastOfUtc(range: string, now: int, tz: int)
    requires range == "today" && 0 < tz < DayMs
    ensures ParseFullDate(DateRangeToStartEnd(range, now, tz).0) == Some(CivilFromDays(LocalDay(now, tz) - 1))
  {
    var start := RangeBounds(range, now, tz).0;
    assert start == LocalMidnight(now, tz);
    MidnightEastOfUtc(now, tz);
    IsoDateOfDay(start, LocalDay(now, tz) - 1);
  }

  /** West of UTC, the last millisecond of today is already tomorrow in UTC,
      so the `today` range ends on the date after the local date. */
  lemma TodayEndsLaterWestOfUtc(range: string, now: int, tz: int)
    requires range == "today" && -DayMs < tz < 0
    ensures ParseFullDate(DateRangeToStartEnd(range, now, tz).1) == Some(CivilFromDays(LocalDay(now, tz) + 1))
  {
    var end := RangeBounds(range, now, tz).1;
    DayEndWestOfUtc(now, tz);
    IsoDateOfDay(end, LocalDay(now, tz) + 1);
  }

  /** The local calendar date of `t`, as `YYYY-MM-DD`. */
  function LocalDatePart(t: int, tz: int): (s: string)
    ensures ParseFullDate(s) == Some(CivilFromDays(LocalDay(t, tz)))
  {
    var d := CivilFromDays(LocalDay(t, tz));
    FullDateRoundTrip(d);
    FormatFullDate(d)
  }

  /** The range written with local dates, the dates the bounds were built from. */
  function LocalDateRangeToStartEnd(range: string, now: int, tz: int): (r: (string, string))
    ensures ParseFullDate(r.0).Some? && ParseFullDate(r.1).Some?
    ensures DaysFromCivil(ParseFullDate(r.0).value) <= DaysFromCivil(ParseFullDate(r.1).value)
    ensures range != "yesterday" ==> r.1 == LocalDatePart(now, tz)
  {
    var b := RangeBounds(range, now, tz);
    assert LocalDay(b.0, tz) <= LocalDay(b.1, tz);
    assert range != "yesterday" ==> LocalDay(b.1, tz) == LocalDay(now, tz);
    (LocalDatePart(b.0, tz), LocalDatePart(b.1, tz))
  }

  /** With local dates, `today` is the local date of `now` on both sides and
      `yesterday` the date before it, whatever the offset. */
  lemma LocalTodayAndYesterday(now: int, tz: int)
    ensures var t := LocalDateRangeToStartEnd("today", now, tz);
      t.0 == t.1 == LocalDatePart(now, tz)
    ensures var y := LocalDateRangeToStartEnd("yesterday", now, tz);
      ParseFullDate(y.0) == ParseFullDate(y.1) == Some(CivilFromDays(LocalDay(now, tz) - 1))
  {
    RangeLengths(now, tz);
  }
}
