/** The chart helpers of the frontend: a palette, a string hash that picks a
    colour from it, and the two minute formatters used by tooltips and the
    y-axis. JavaScript numbers are modelled as unbounded integers; the hash
    bound below shows they stay exact in a double for every realistic name. */
module Chart {
  import opened Wrappers
  import opened Decimal
  import opened Timestamps

  const ChartColors: seq<string> := [
    "#8884d8", "#82ca9d", "#ffc658", "#ff7300", "#00ff00",
    "#0088fe", "#ff8042", "#8dd1e1", "#d084d0", "#ffb347"]

  const TwoTo31: int := 0x8000_0000
  const TwoTo32: int := 0x1_0000_0000

  /** The ToInt32 conversion JavaScript applies to the operands of `<<`. */
  function ToInt32(x: int): (r: int)
    ensures -TwoTo31 <= r < TwoTo31
    ensures (x - r) % TwoTo32 == 0
  {
    var m := x % TwoTo32;
    if m >= TwoTo31 then m - TwoTo32 else m
  }

  /** ToInt32 is the one 32-bit value congruent to its argument. */
  lemma ToInt32Unique(x: int, r: int)
    requires -TwoTo31 <= r < TwoTo31 && (x - r) % TwoTo32 == 0
    ensures ToInt32(x) == r
  {
    var d := ToInt32(x);
    assert (d - r) % TwoTo32 == 0;
    assert -TwoTo32 < d - r < TwoTo32;
  }

  /** `acc << 5`: a 32-bit shift of the 32-bit value of `acc`. */
  function ShiftLeft5(x: int): int {
    ToInt32(ToInt32(x) * 32)
  }

  /** One step of the reduce: `char.charCodeAt(0) + ((acc << 5) - acc)`. Only
      the shift wraps; the subtraction and the addition are plain number
      arithmetic. */
  function HashStep(acc: int, c: char): int {
    (c as int) + (ShiftLeft5(acc) - acc)
  }

  /** The hash of getColorForActivity: the reduce from 0 over the characters.
      Each character moves it by less than 2^31 plus the largest code. */
  function Hash(s: string): (h: int)
    ensures -|s| * (TwoTo31 + 0x11_0000) <= h <= |s| * (TwoTo31 + 0x11_0000)
  {
    if s == [] then 0
    else
      var p := s[..|s| - 1];
      var c := s[|s| - 1];
      assert 0 <= c as int < 0x11_0000;
      assert -TwoTo31 <= ShiftLeft5(Hash(p)) < TwoTo31;
      assert |s| * (TwoTo31 + 0x11_0000) == |p| * (TwoTo31 + 0x11_0000) + (TwoTo31 + 0x11_0000);
      HashStep(Hash(p), c)
  }

  /** While the accumulator is small no bit is shifted out, and a step is the
      familiar `31 * acc + code`. */
  lemma HashStepSmall(acc: int, c: char)
    requires -0x400_0000 <= acc < 0x400_0000
    ensures HashStep(acc, c) == 31 * acc + (c as int)
  {
    ToInt32Unique(acc, acc);
    ToInt32Unique(acc * 32, acc * 32);
  }

  /** A one-character name hashes to its character code. */
  lemma HashOfOneChar(c: char)
    ensures Hash([c]) == c as int
  {
    assert [c][..0] == [];
    HashStepSmall(0, c);
  }

  /** Every intermediate value of the reduce is an integer a double holds
      exactly for names shorter than 2^21 characters, so integer arithmetic
      computes what the browser computes. */
  lemma HashExact(s: string)
    requires |s| < 0x20_0000
    ensures -0x20_0000_0000_0000 < Hash(s) < 0x20_0000_0000_0000
  {
    assert |s| * (TwoTo31 + 0x11_0000) < 0x20_0000 * (TwoTo31 + 0x11_0000);
  }

  function Abs(x: int): nat {
    if x < 0 then -x else x
  }

  /** getColorForActivity: the palette entry at `|hash| % 10`. */
  function ColorForActivity(name: string): (c: string)
    ensures c in ChartColors
  {
    ChartColors[Abs(Hash(name)) % |ChartColors|]
  }

  /** The empty name hashes to 0 and gets the first colour. */
  lemma EmptyNameColor()
    ensures Hash("") == 0 && ColorForActivity("") == "#8884d8"
  {
  }

  /** A one-character name picks the colour of its code's last decimal digit. */
  lemma OneCharColor(c: char)
    ensures ColorForActivity([c]) == ChartColors[(c as int) % 10]
  {
    HashOfOneChar(c);
  }

  /** JavaScript's `%`: the remainder takes the sign of the dividend. */
  function JsRem(a: int, b: int): (r: int)
    requires b > 0
    ensures a >= 0 ==> 0 <= r < b && a == b * (a / b) + r
    ensures a < 0 ==> -b < r <= 0
    ensures (a - r) % b == 0
  {
    if a >= 0 then
      MultipleMod(b, a / b);
      a % b
    else
      var q, m := (-a) / b, (-a) % b;
      assert a + m == b * (-q);
      MultipleMod(b, -q);
      -m
  }

  lemma MultipleMod(b: int, k: int)
    requires b > 0
    ensures (b * k) % b == 0
  {
    var q, m := (b * k) / b, (b * k) % b;
    assert b * (k - q) == m;
    if k - q >= 1 {
      assert false;
    } else if k - q <= -1 {
      assert false;
    }
  }

  /** The text of formatDurationTooltip: `Math.floor(v / 60)` hours and
      `v % 60` minutes, the hours omitted unless positive. */
  function DurationText(value: int): (r: string)
    ensures value >= 0 ==> ParseDurationText(r) == Some(value)
  {
    var hours := value / 60;
    var minutes := JsRem(value, 60);
    var text := if hours > 0 then IntToString(hours) + "h " + IntToString(minutes) + "m"
                else IntToString(minutes) + "m";
    if value >= 0 then (PartsRoundTrip(hours, minutes); text) else text
  }

  /** Hours and minutes as the tooltip writes them read back as their total. */
  lemma PartsRoundTrip(hours: int, minutes: int)
    requires hours >= 0 && minutes >= 0
    ensures ParseDurationText(
      if hours > 0 then IntToString(hours) + "h " + IntToString(minutes) + "m"
      else IntToString(minutes) + "m") == Some(60 * hours + minutes)
  {
    if hours > 0 {
      HoursPartRoundTrip(hours, minutes);
    } else {
      MinutesPartRoundTrip(minutes);
    }
  }

  lemma HoursPartRoundTrip(hours: nat, minutes: nat)
    ensures ParseDurationText(IntToString(hours) + "h " + IntToString(minutes) + "m") == Some(60 * hours + minutes)
  {
    assert IntToString(minutes) == NatToString(minutes);
    assert IntToString(hours) == NatToString(hours);
    NatRoundTrip(minutes);
    NatRoundTrip(hours);
    HoursMinutesText(NatToString(hours), NatToString(minutes));
  }

  lemma MinutesPartRoundTrip(minutes: nat)
    ensures ParseDurationText(IntToString(minutes) + "m") == Some(minutes)
  {
    assert IntToString(minutes) == NatToString(minutes);
    NatRoundTrip(minutes);
    MinutesText(NatToString(minutes));
  }

  /** formatDurationTooltip: the text, which reads back as the minutes, and
      the series name, unchanged. */
  function FormatDurationTooltip(value: int, name: string): (r: (string, string))
    ensures r.1 == name
    ensures value >= 0 ==> ParseDurationText(r.0) == Some(value)
  {
    (DurationText(value), name)
  }

  /** For a non-negative value, hours and minutes split it exactly. */
  lemma DurationSplit(value: int)
    requires value >= 0
    ensures var h, m := value / 60, JsRem(value, 60);
      h >= 0 && 0 <= m < 60 && 60 * h + m == value
  {
  }

  /** The first position of 'h', if any. */
  function FirstH(s: string): (r: Option<nat>)
    ensures r.Some? ==> r.value < |s| && s[r.value] == 'h' && forall j :: 0 <= j < r.value ==> s[j] != 'h'
    ensures r.None? ==> forall j :: 0 <= j < |s| ==> s[j] != 'h'
  {
    if s == [] then None
    else if s[0] == 'h' then Some(0)
    else match FirstH(s[1..])
      case Some(i) => Some(i + 1)
      case None => None
  }

  /** Reads a tooltip text back as minutes: `"<h>h <m>m"` or `"<m>m"`. */
  function ParseDurationText(s: string): Option<int> {
    if |s| < 2 || s[|s| - 1] != 'm' then None
    else
      var body := s[..|s| - 1];
      match FirstH(body)
      case None =>
        (match ParseNat(body)
         case Some(m) => Some(m)
         case None => None)
      case Some(i) =>
        if i + 2 <= |body| && body[i + 1] == ' ' then
          match (ParseNat(body[..i]), ParseNat(body[i + 2..]))
          case (Some(h), Some(m)) => Some(60 * h + m)
          case _ => None
        else None
  }

  lemma DigitsHaveNoH(s: string)
    requires AllDigits(s)
    ensures FirstH(s) == None
  {
    assert forall j :: 0 <= j < |s| ==> IsDigit(s[j]);
  }

  /** Hours and minutes written as `"<h>h <m>m"` read back as their total. */
  lemma HoursMinutesText(hs: string, ms: string)
    requires ParseNat(hs).Some? && ParseNat(ms).Some?
    ensures ParseDurationText(hs + "h " + ms + "m") == Some(60 * ParseNat(hs).value + ParseNat(ms).value)
  {
    var body := hs + "h " + ms;
    JoinedParts(hs, "h ", ms);
    assert hs + "h " + ms + "m" == body + "m";
    assert (body + "m")[..|body|] == body;
    assert forall j :: 0 <= j < |hs| ==> body[j] == hs[j] && IsDigit(body[j]);
    assert body[|hs|..|hs| + 2][0] == body[|hs|] == 'h';
    assert body[|hs|..|hs| + 2][1] == body[|hs| + 1] == ' ';
    assert FirstH(body) == Some(|hs|);
  }

  /** Minutes written as `"<m>m"` read back as themselves. */
  lemma MinutesText(ms: string)
    requires ParseNat(ms).Some?
    ensures ParseDurationText(ms + "m") == Some(ParseNat(ms).value)
  {
    DigitsHaveNoH(ms);
    assert (ms + "m")[..|ms|] == ms;
  }

  /** formatDurationYAxisTick: from one hour up the value rounded down to
      whole hours, otherwise the minutes; the tick reads back as a value at
      most the given one and less than an hour below it. */
  function FormatDurationYAxisTick(value: int): (s: string)
    ensures var m := ParseTick(s);
      && m.Some? && m.value <= value
      && (value >= 60 ==> value - m.value < 60 && m.value % 60 == 0)
      && (value < 60 ==> m.value == value)
  {
    var hours := value / 60;
    if hours > 0 then
      TickRoundTrip(hours, 'h');
      IntToString(hours) + "h"
    else
      TickRoundTrip(value, 'm');
      IntToString(value) + "m"
  }

  /** Reads a tick back as minutes: `"<h>h"` or `"<m>m"`. */
  function ParseTick(s: string): Option<int> {
    if |s| < 2 then None
    else match ParseInt(s[..|s| - 1])
      case None => None
      case Some(n) =>
        if s[|s| - 1] == 'h' then Some(60 * n)
        else if s[|s| - 1] == 'm' then Some(n)
        else None
  }

  lemma TickRoundTrip(n: int, unit: char)
    requires unit == 'h' || unit == 'm'
    ensures ParseTick(IntToString(n) + [unit]) == Some(if unit == 'h' then 60 * n else n)
  {
    var s := IntToString(n) + [unit];
    assert s[..|s| - 1] == IntToString(n);
    IntRoundTrip(n);
  }

  /** The tick and the tooltip agree: the tick's hours open the tooltip text,
      and under an hour both show the same minutes. */
  lemma TickMatchesTooltip(value: int)
    requires value >= 0
    ensures value >= 60 ==> FormatDurationYAxisTick(value) <= DurationText(value)
    ensures value < 60 ==> FormatDurationYAxisTick(value) == DurationText(value)
  {
    if value >= 60 {
      var hs := IntToString(value / 60);
      var rest := " " + IntToString(JsRem(value, 60)) + "m";
      assert FormatDurationYAxisTick(value) == hs + "h";
      assert DurationText(value) == (hs + "h") + rest;
      PrefixOfAppend(hs + "h", rest);
    } else {
      assert value / 60 == 0 && JsRem(value, 60) == value;
      assert FormatDurationYAxisTick(value) == IntToString(value) + "m";
      assert DurationText(value) == IntToString(value) + "m";
    }
  }

  lemma PrefixOfAppend(a: string, b: string)
    ensures a <= a + b
  {
    assert (a + b)[..|a|] == a;
  }

}
