/** The time helpers of src/utils.ts. A time of day is the text "HH:MM"
    the caller supplies; the model restricts it to digits, one colon and
    digits, on which `split(":").map(Number)` yields the two decimal
    numbers written there. */
module Utils {
  import opened JsNumbers

  /** The `timeFormat` option: "12h" or "24h". */
  datatype TimeFormat = TwelveHour | TwentyFourHour

  /** `formatTime(time, format)`. Its body renders through `Date` and the
      locale-dependent `toLocaleTimeString`, so the model takes it as a
      parameter: any function from a time and a format to text. */
  type TimeFormatter = (string, TimeFormat) -> string

  /** The position of the first ':' in `s`, or `|s|` when there is none. */
  function ColonIndex(s: string): (i: nat)
    ensures i <= |s|
    ensures i < |s| ==> s[i] == ':'
    ensures forall k :: 0 <= k < i ==> s[k] != ':'
  {
    if s == [] || s[0] == ':' then 0 else 1 + ColonIndex(s[1..])
  }

  /** A time string that `parseTime` reads as two numbers: a non-empty run
      of digits, a colon, and a non-empty run of digits. */
  predicate WellFormedTime(s: string) {
    var i := ColonIndex(s);
    0 < i < |s| - 1 && AllDigits(s[..i]) && AllDigits(s[i + 1..])
  }

  /** The number before the colon. */
  function HoursOf(time: string): nat
    requires WellFormedTime(time)
  {
    DigitsValue(time[..ColonIndex(time)])
  }

  /** The number after the colon. */
  function MinutesOf(time: string): nat
    requires WellFormedTime(time)
  {
    DigitsValue(time[ColonIndex(time) + 1..])
  }

  /** A time on the 24-hour clock: hours 0..23 and minutes 0..59. */
  predicate IsClockTime(s: string) {
    WellFormedTime(s) && HoursOf(s) < 24 && MinutesOf(s) < 60
  }

  /** Minutes since midnight of a well-formed time. */
  function ClockMinutes(time: string): nat
    requires WellFormedTime(time)
  {
    60 * HoursOf(time) + MinutesOf(time)
  }

  /** `parseTime(time)`: the time of day in fractional hours. */
  function ParseTime(time: string): (hours: real)
    requires WellFormedTime(time)
    ensures 0.0 <= hours
    ensures hours * 60.0 == ClockMinutes(time) as real
    ensures IsClockTime(time) ==> hours < 24.0
  {
    HoursOf(time) as real + MinutesOf(time) as real / 60.0
  }

  /** `calculatePercentage(start, end)`: the span from `start` to `end` as a
      percentage of the 24-hour day. There is no clamping: it is zero for
      equal times and negative when `end` is earlier than `start`. */
  function CalculatePercentage(start: string, end: string): (percent: real)
    requires WellFormedTime(start) && WellFormedTime(end)
    ensures percent == 0.0 <==> ParseTime(start) == ParseTime(end)
    ensures percent < 0.0 <==> ParseTime(end) < ParseTime(start)
    ensures percent * 24.0 == (ClockMinutes(end) - ClockMinutes(start)) as real * 100.0 / 60.0
    ensures IsClockTime(start) && IsClockTime(end) ==> -100.0 < percent < 100.0
  {
    var startTime := ParseTime(start);
    var endTime := ParseTime(end);
    ((endTime - startTime) / 24.0) * 100.0
  }

  /** `formatDuration(minutes)`: "<H>h <M>m" with H the floor of the hours
      and M the remainder modulo 60 written by `toFixed(0)`. */
  function FormatDuration(minutes: real): string {
    IntToString(DurationHours(minutes)) + "h " + ToFixed0(Remainder60(minutes)) + "m"
  }

  /** The hour part of `formatDuration`. */
  function DurationHours(minutes: real): int {
    Floor(minutes / 60.0)
  }

  /** The minute part of `formatDuration` for a non-negative duration, as
      the integer `toFixed(0)` writes. */
  function DurationMinutes(minutes: real): nat
    requires minutes >= 0.0
  {
    RoundHalfUp(Remainder60(minutes))
  }

  /** "HH:MM" with both numbers padded to two digits, the way the timeline
      writes its gridline times; the reference the parser is checked against. */
  function ClockText(hours: nat, minutes: nat): string {
    PadStart2(NatToString(hours)) + ":" + PadStart2(NatToString(minutes))
  }

  // ----- properties -----

  lemma {:induction false} ColonIndexOfDigitsColon(a: string, b: string)
    requires AllDigits(a)
    ensures ColonIndex(a + ":" + b) == |a|
  {
    if a != [] {
      assert (a + ":" + b)[1..] == a[1..] + ":" + b;
      ColonIndexOfDigitsColon(a[1..], b);
    }
  }

  /** Parsing the padded text of a clock time gives back its hours and
      minutes: parseTime(ClockText(h, m)) == h + m / 60. */
  lemma ParseClockText(hours: nat, minutes: nat)
    ensures WellFormedTime(ClockText(hours, minutes))
    ensures HoursOf(ClockText(hours, minutes)) == hours
    ensures MinutesOf(ClockText(hours, minutes)) == minutes
    ensures ParseTime(ClockText(hours, minutes)) == hours as real + minutes as real / 60.0
    ensures hours < 24 && minutes < 60 ==> IsClockTime(ClockText(hours, minutes))
  {
    var a := PadStart2(NatToString(hours));
    var b := PadStart2(NatToString(minutes));
    var s := a + ":" + b;
    NatToStringReadsBack(hours);
    NatToStringReadsBack(minutes);
    PadStart2Spec(NatToString(hours));
    PadStart2Spec(NatToString(minutes));
    ColonIndexOfDigitsColon(a, b);
    assert s[..|a|] == a;
    assert s[|a| + 1..] == b;
  }

  lemma ParseTimeExample()
    ensures WellFormedTime("13:30") && ParseTime("13:30") == 13.5
  {
    ClockTextValues();
    ParseClockText(13, 30);
  }

  /** The percentage of the day is additive over consecutive spans. */
  lemma CalculatePercentageAdditive(a: string, b: string, c: string)
    requires WellFormedTime(a) && WellFormedTime(b) && WellFormedTime(c)
    ensures CalculatePercentage(a, b) + CalculatePercentage(b, c) == CalculatePercentage(a, c)
  {
  }

  lemma CalculatePercentageExample()
    ensures WellFormedTime("08:00") && WellFormedTime("17:00")
    ensures CalculatePercentage("08:00", "17:00") == 37.5
  {
    ClockTextValues();
    ParseClockText(8, 0);
    ParseClockText(17, 0);
  }

  /** The clock texts the examples use. */
  lemma ClockTextValues()
    ensures ClockText(8, 0) == "08:00"
    ensures ClockText(9, 0) == "09:00"
    ensures ClockText(13, 30) == "13:30"
    ensures ClockText(17, 0) == "17:00"
  {
    PaddedNumbers();
    assert ClockText(8, 0) == "08" + ":" + "00";
    assert ClockText(9, 0) == "09" + ":" + "00";
    assert ClockText(13, 30) == "13" + ":" + "30";
    assert ClockText(17, 0) == "17" + ":" + "00";
  }

  lemma PaddedNumbers()
    ensures PadStart2(NatToString(0)) == "00" && PadStart2(NatToString(8)) == "08"
    ensures PadStart2(NatToString(9)) == "09"
    ensures PadStart2(NatToString(13)) == "13" && PadStart2(NatToString(17)) == "17"
    ensures PadStart2(NatToString(30)) == "30"
  {
    assert NatToString(0) == "0" && NatToString(8) == "8" && NatToString(9) == "9";
    assert NatToString(13) == "13" && NatToString(17) == "17" && NatToString(30) == "30";
  }

  /** For a whole, non-negative number of minutes the two parts of
      `formatDuration` are its quotient and remainder by 60, so they
      reconstruct it, and the text is "<m / 60>h <m % 60>m". */
  lemma {:induction false} FormatWholeMinutes(m: nat)
    ensures DurationHours(m as real) == m / 60
    ensures DurationMinutes(m as real) == m % 60
    ensures 60 * DurationHours(m as real) + DurationMinutes(m as real) == m
    ensures 0 <= DurationMinutes(m as real) < 60
    ensures FormatDuration(m as real) == NatToString(m / 60) + "h " + NatToString(m % 60) + "m"
  {
    var q, r := m / 60, m % 60;
    assert m as real / 60.0 == q as real + r as real / 60.0;
    assert Floor(m as real / 60.0) == q;
    var rem := Remainder60(m as real);
    assert ((m as real - rem) / 60.0).Floor as real == (m as real - rem) / 60.0;
    WholeRemainder(m, rem);
    assert RoundHalfUp(r as real) == r;
  }

  lemma WholeRemainder(m: nat, rem: real)
    requires 0.0 <= rem < 60.0
    requires ((m as real - rem) / 60.0).Floor as real == (m as real - rem) / 60.0
    ensures rem == (m % 60) as real
  {
    var k := ((m as real - rem) / 60.0).Floor;
    assert m as real == 60.0 * k as real + rem;
    assert m - 60 * k < 60 && m - 60 * k >= 0 by {
      assert (m - 60 * k) as real == rem;
    }
    assert k == m / 60;
  }

  lemma FormatDurationExamples()
    ensures FormatDuration(90.0) == "1h 30m"
    ensures FormatDuration(45.0) == "0h 45m"
  {
    FormatWholeMinutes(90);
    FormatWholeMinutes(45);
    assert NatToString(1) == "1" && NatToString(30) == "30";
    assert NatToString(0) == "0" && NatToString(45) == "45";
  }

  /** `toFixed(0)` rounds the remainder half up, so a fractional duration
      just under a whole hour shows a minute part of 60. */
  lemma FormatDurationRoundsUpToSixty()
    ensures FormatDuration(59.5) == "0h 60m"
  {
    assert Floor(59.5 / 60.0) == 0;
    assert Remainder60(59.5) == 59.5;
    assert RoundHalfUp(59.5) == 60;
    assert NatToString(0) == "0" && NatToString(60) == "60";
  }
}
