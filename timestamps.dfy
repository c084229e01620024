/** Instants as JavaScript `Date` values hold them: integer milliseconds since
    1970-01-01T00:00:00Z. Local time is UTC shifted by a fixed offset `tz`
    (milliseconds east of UTC; there is no daylight-saving change). */
module Timestamps {
  import opened Wrappers
  import opened Decimal
  import opened Civil

  /** Day number of the UTC calendar day holding instant `t`. */
  function UtcDay(t: int): int {
    t / DayMs
  }

  /** Day number of the local calendar day holding instant `t`. */
  function LocalDay(t: int, tz: int): int {
    (t + tz) / DayMs
  }

  /** The instant of local midnight on day `z`. */
  function LocalMidnightOfDay(z: int, tz: int): (t: int)
    ensures LocalDay(t, tz) == z
  {
    z * DayMs - tz
  }

  /** `d.setHours(0, 0, 0, 0)`: the local midnight that starts the day of `t`. */
  function LocalMidnight(t: int, tz: int): (m: int)
    ensures m <= t < m + DayMs
    ensures LocalDay(m, tz) == LocalDay(t, tz)
  {
    LocalMidnightOfDay(LocalDay(t, tz), tz)
  }

  /** `new Date(year, monthIndex, day)` for an in-range date: local midnight. */
  function LocalDateStart(d: Date, tz: int): (t: int)
    requires ValidDate(d)
    ensures CivilFromDays(LocalDay(t, tz)) == d
  {
    CivilRoundTrip(d);
    LocalMidnightOfDay(DaysFromCivil(d), tz)
  }

  /** The year as `toISOString` writes it: four digits for years 0 to 9999,
      otherwise a sign and six digits. */
  function IsoYear(y: int): (s: string)
    ensures |s| >= 4
  {
    if 0 <= y <= 9999 then PadStart(NatToString(y), 4)
    else if y < 0 then "-" + PadStart(NatToString(-y), 6)
    else "+" + PadStart(NatToString(y), 6)
  }

  function ParseIsoYear(s: string): Option<int> {
    if |s| > 0 && s[0] == '-' then
      match ParseNat(s[1..])
      case Some(n) => var v: int := n; Some(-v)
      case None => None
    else if |s| > 0 && s[0] == '+' then
      match ParseNat(s[1..])
      case Some(n) => Some(n)
      case None => None
    else
      match ParseNat(s)
      case Some(n) => Some(n)
      case None => None
  }

  function TwoDigits(n: nat): (s: string)
    requires n < 100
    ensures |s| == 2 && AllDigits(s)
  {
    PadStart(NatToString(n), 2)
  }

  /** `YYYY-MM-DD`, the full-date of section 5.6 of RFC 3339 (with the
      extended year form for years outside 0 to 9999). */
  function FormatFullDate(d: Date): (s: string)
    requires ValidDate(d)
    ensures |s| >= 10
  {
    IsoYear(d.year) + "-" + TwoDigits(d.month) + "-" + TwoDigits(d.day)
  }

  /** Reads a full-date back; None for anything FormatFullDate does not produce
      from a valid date. */
  function ParseFullDate(s: string): (r: Option<Date>)
    ensures r.Some? ==> ValidDate(r.value)
  {
    if |s| < 10 || s[|s| - 6] != '-' || s[|s| - 3] != '-' then None
    else ParseDateFields(s[..|s| - 6], s[|s| - 5..|s| - 3], s[|s| - 2..])
  }

  /** The year, month and day fields of a full-date, read as a valid date. */
  function ParseDateFields(year: string, month: string, day: string): (r: Option<Date>)
    ensures r.Some? ==> ValidDate(r.value)
  {
    match (ParseIsoYear(year), ParseNat(month), ParseNat(day))
    case (Some(y), Some(m), Some(d)) =>
      if ValidDate(Date(y, m, d)) then Some(Date(y, m, d)) else None
    case _ => None
  }

  /** A sign character followed by digits reads as the signed value of the digits. */
  lemma ParseSignedYear(sign: char, p: string)
    requires (sign == '-' || sign == '+') && ParseNat(p).Some?
    ensures var v: int := ParseNat(p).value;
      ParseIsoYear([sign] + p) == Some(if sign == '-' then -v else v)
  {
    assert ([sign] + p)[1..] == p;
  }

  lemma IsoYearRoundTrip(y: int)
    ensures ParseIsoYear(IsoYear(y)) == Some(y)
  {
    if 0 <= y <= 9999 {
      var p := PadStart(NatToString(y), 4);
      PaddedRoundTrip(y, 4);
      assert IsDigit(p[0]);
    } else if y < 0 {
      PaddedRoundTrip(-y, 6);
      ParseSignedYear('-', PadStart(NatToString(-y), 6));
      assert IsoYear(y) == ['-'] + PadStart(NatToString(-y), 6);
    } else {
      PaddedRoundTrip(y, 6);
      ParseSignedYear('+', PadStart(NatToString(y), 6));
      assert IsoYear(y) == ['+'] + PadStart(NatToString(y), 6);
    }
  }

  /** The pieces of `a + sep + b` are found again by position. */
  lemma JoinedParts(a: string, sep: string, b: string)
    ensures (a + sep + b)[..|a|] == a
    ensures (a + sep + b)[|a|..|a| + |sep|] == sep
    ensures (a + sep + b)[|a| + |sep|..] == b
  {
    var s := a + sep + b;
    assert forall i :: 0 <= i < |a| ==> s[i] == a[i];
    assert forall i :: 0 <= i < |sep| ==> s[|a| + i] == sep[i];
    assert forall i :: 0 <= i < |b| ==> s[|a| + |sep| + i] == b[i];
  }

  /** Where the fields of `year-month-day` are found, for a two-character
      month and day. */
  lemma FullDateLayout(year: string, month: string, day: string)
    requires |month| == 2 && |day| == 2
    ensures var s := year + "-" + month + "-" + day;
      && |s| == |year| + 6 && s[|s| - 6] == '-' && s[|s| - 3] == '-'
      && s[..|s| - 6] == year && s[|s| - 5..|s| - 3] == month && s[|s| - 2..] == day
  {
    var ym := year + "-" + month;
    var s := ym + "-" + day;
    JoinedParts(ym, "-", day);
    JoinedParts(year, "-", month);
    assert s[..|s| - 6] == ym[..|year|];
    assert s[|s| - 5..|s| - 3] == ym[|year| + 1..];
  }

  lemma DateFieldsRoundTrip(d: Date)
    requires ValidDate(d)
    ensures ParseDateFields(IsoYear(d.year), TwoDigits(d.month), TwoDigits(d.day)) == Some(d)
  {
    IsoYearRoundTrip(d.year);
    PaddedRoundTrip(d.month, 2);
    PaddedRoundTrip(d.day, 2);
  }

  /** Round trip: a formatted full-date reads back as the same date. */
  lemma FullDateRoundTrip(d: Date)
    requires ValidDate(d)
    ensures ParseFullDate(FormatFullDate(d)) == Some(d)
  {
    FullDateLayout(IsoYear(d.year), TwoDigits(d.month), TwoDigits(d.day));
    DateFieldsRoundTrip(d);
    ParseFullDateFields(FormatFullDate(d));
  }

  lemma ParseFullDateFields(s: string)
    requires |s| >= 10 && s[|s| - 6] == '-' && s[|s| - 3] == '-'
    ensures ParseFullDate(s) == ParseDateFields(s[..|s| - 6], s[|s| - 5..|s| - 3], s[|s| - 2..])
  {
  }

  /** `new Date(t).toISOString().split('T')[0]`: the UTC calendar date of `t`. */
  function IsoDatePart(t: int): (s: string)
    ensures ParseFullDate(s) == Some(CivilFromDays(UtcDay(t)))
  {
    var d := CivilFromDays(UtcDay(t));
    FullDateRoundTrip(d);
    FormatFullDate(d)
  }

  /** Two instants give the same date part exactly when they fall on the same
      UTC day. */
  lemma IsoDatePartSameDay(t1: int, t2: int)
    ensures IsoDatePart(t1) == IsoDatePart(t2) <==> UtcDay(t1) == UtcDay(t2)
  {
    if IsoDatePart(t1) == IsoDatePart(t2) {
      CivilInjective(UtcDay(t1), UtcDay(t2));
    }
  }
}
