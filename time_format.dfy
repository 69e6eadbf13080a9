/**
 * `formatTime` of lib/utils.ts: a 24-hour "HH:MM" time of day (as the
 * vendor's opening and closing times are stored) shown as a 12-hour clock
 * time and an "AM"/"PM" suffix.
 */
module TimeFormat {
  import opened Wrappers
  import opened JsText

  /** The result of `formatTime`: `{ time, period }`. */
  datatype FormattedTime = FormattedTime(time: string, period: string)

  /** The JavaScript numbers `parseInt(_, 10)` yields here. */
  datatype JsNumber = NaN | Num(n: nat)

  /**
   * The hour segments for which `ParseInt` is exact: no leading white space
   * or sign (which `parseInt` would skip or apply) and a digit prefix of at
   * most 15 digits (so its value is an exactly representable double).
   */
  predicate InParseScope(segment: string) {
    && (segment != [] ==> !IsWhiteSpace(segment[0]) && segment[0] != '+' && segment[0] != '-')
    && |DigitPrefix(segment)| <= 15
  }

  /** `parseInt(segment, 10)`: the value of the leading digits, NaN when there are none. */
  function ParseInt(segment: string): (v: JsNumber)
    requires InParseScope(segment)
    ensures v.NaN? <==> segment == [] || !IsDigit(segment[0])
  {
    var d := DigitPrefix(segment);
    if d == [] then NaN else Num(DecimalValue(d))
  }

  /** The hour segment of a present time string: the text before its first ':'. */
  function HourSegment(s: string): string {
    Split(s, ':')[0]
  }

  /** What `formatTime` requires of its argument in this model. */
  predicate FormatTimeScope(input: Option<string>) {
    input.Some? && input.value != [] ==> InParseScope(HourSegment(input.value))
  }

  /** The hour `hours % 12 || 12` shows: 1..12, and 12 for NaN. */
  function ClockHour(hours: JsNumber): (h: nat)
    ensures 1 <= h <= 12
  {
    if hours.Num? && hours.n % 12 != 0 then hours.n % 12 else 12
  }

  /** The two digits of a clock hour 1..12. */
  function HourText(h: nat): string
    requires 1 <= h <= 12
  {
    if h < 10 then ['0', DigitChar(h)] else ['1', DigitChar(h - 10)]
  }

  /** `HourText(h)` is what `h.toString().padStart(2, "0")` gives. */
  lemma HourTextIsPaddedNumeral(h: nat)
    requires 1 <= h <= 12
    ensures HourText(h) == PadStart(NatToString(h), 2, '0')
  {
    var p := PadStart(NatToString(h), 2, '0');
    if h < 10 {
      assert NatToString(h) == [DigitChar(h)];
      assert p[1..] == [DigitChar(h)] && p[0] == '0';
    } else {
      assert h / 10 == 1 && h % 10 == h - 10;
      assert NatToString(h / 10) == ['1'];
    }
  }

  /** The value of a two-digit numeral. */
  lemma TwoDigitValue(c0: char, c1: char)
    requires IsDigit(c0) && IsDigit(c1)
    ensures IsDigits([c0, c1]) && DecimalValue([c0, c1]) == DigitValue(c0) * 10 + DigitValue(c1)
  {
    var t := [c0, c1];
    assert t[..1] == [c0] && t[1] == c1;
    assert [c0][..0] == [];
    assert DecimalValue([c0]) == DigitValue(c0);
  }

  /** The shown hour's digits read back give the hour. */
  lemma HourTextValue(h: nat)
    requires 1 <= h <= 12
    ensures |HourText(h)| == 2 && IsDigits(HourText(h)) && DecimalValue(HourText(h)) == h
  {
    if h < 10 { OneDigitHourValue(h); } else { TwoDigitHourValue(h); }
  }

  lemma OneDigitHourValue(h: nat)
    requires 1 <= h < 10
    ensures |HourText(h)| == 2 && IsDigits(HourText(h)) && DecimalValue(HourText(h)) == h
  {
    TwoDigitValue('0', DigitChar(h));
  }

  lemma TwoDigitHourValue(h: nat)
    requires 10 <= h <= 12
    ensures |HourText(h)| == 2 && IsDigits(HourText(h)) && DecimalValue(HourText(h)) == h
  {
    TwoDigitValue('1', DigitChar(h - 10));
  }

  /** The minutes `formatTime` shows: the second segment, or `${undefined}` when there is none. */
  function MinutesText(parts: seq<string>): string {
    if |parts| > 1 then parts[1] else "undefined"
  }

  /** The suffix: "PM" for a parsed hour of 12 or more, otherwise (NaN included) "AM". */
  function Period(hours: JsNumber): string {
    if hours.Num? && hours.n >= 12 then "PM" else "AM"
  }

  /**
   * `formatTime(timeString)`. A missing or empty input gives "N/A" with no
   * suffix; otherwise the shown hour is two digits in 01..12, followed by
   * ':' and the second ':'-separated segment (the text "undefined" when the
   * input has no ':'), and the suffix is "AM" or "PM".
   */
  function FormatTime(input: Option<string>): (r: FormattedTime)
    requires FormatTimeScope(input)
    ensures r == FormattedTime("N/A", "") <==> input.None? || input.value == ""
    ensures input.Some? && input.value != "" ==>
      && |r.time| >= 3 && r.time[2] == ':'
      && IsDigits(r.time[..2]) && 1 <= DecimalValue(r.time[..2]) <= 12
      && (r.period == "AM" || r.period == "PM")
  {
    if input.None? || input.value == "" then
      FormattedTime("N/A", "")
    else
      var parts := Split(input.value, ':');
      var hours := ParseInt(parts[0]);
      var time := HourText(ClockHour(hours)) + ":" + MinutesText(parts);
      ShownTimeShape(ClockHour(hours), MinutesText(parts));
      FormattedTime(time, Period(hours))
  }

  /** The shown time starts with the two digits of an hour 1..12 and a ':'. */
  lemma ShownTimeShape(h: nat, minutes: string)
    requires 1 <= h <= 12
    ensures var time := HourText(h) + ":" + minutes;
      && |time| >= 3 && time[2] == ':' && time[..2] == HourText(h) && time[3..] == minutes
      && IsDigits(time[..2]) && DecimalValue(time[..2]) == h
      && time != "N/A"
  {
    HourTextValue(h);
    var time := HourText(h) + ":" + minutes;
    assert time[..2] == HourText(h);
    assert time[2] == ':';
    assert time[3..] == minutes;
    assert "N/A"[2] == 'A';
  }

  // -----------------------------------------------------------------------
  // Properties
  // -----------------------------------------------------------------------

  /** The hour `formatTime` shows, read back from its two digits. */
  function ShownHour(r: FormattedTime): nat
    requires |r.time| >= 2 && IsDigits(r.time[..2])
  {
    DecimalValue(r.time[..2])
  }

  /** A present time shows the clock hour and the suffix of its parsed hour segment. */
  lemma ShownParts(s: string)
    requires s != [] && InParseScope(HourSegment(s))
    ensures var r := FormatTime(Some(s));
      && |r.time| >= 3 && IsDigits(r.time[..2])
      && r.time[..2] == HourText(ClockHour(ParseInt(HourSegment(s))))
      && ShownHour(r) == ClockHour(ParseInt(HourSegment(s)))
      && r.time[3..] == MinutesText(Split(s, ':'))
      && r.period == Period(ParseInt(HourSegment(s)))
  {
    ShownTimeShape(ClockHour(ParseInt(HourSegment(s))), MinutesText(Split(s, ':')));
  }

  /** For a parsed hour the suffix is "PM" exactly when the hour is 12 or more. */
  lemma PeriodOfParsedHour(s: string, h: nat)
    requires s != [] && InParseScope(HourSegment(s)) && ParseInt(HourSegment(s)) == Num(h)
    ensures FormatTime(Some(s)).period == "PM" <==> h >= 12
    ensures FormatTime(Some(s)).period == "AM" <==> h < 12
  {
    ShownParts(s);
  }

  /** An hour segment without a leading digit parses to NaN and shows as "12" "AM". */
  lemma UnparsableHour(s: string)
    requires s != [] && InParseScope(HourSegment(s))
    requires HourSegment(s) == [] || !IsDigit(HourSegment(s)[0])
    ensures FormatTime(Some(s)).time[..2] == "12" && FormatTime(Some(s)).period == "AM"
  {
    ShownParts(s);
    assert HourText(12) == "12";
  }

  /** The clock hour of an hour 0..23, modulo 12, plus 12 in the afternoon, is the hour. */
  lemma ClockHourRoundTrip(h: nat)
    requires h < 24
    ensures ClockHour(Num(h)) % 12 + (if Period(Num(h)) == "PM" then 12 else 0) == h
  {
    if h >= 12 {
      assert ClockHour(Num(h)) % 12 == h - 12;
    } else {
      assert ClockHour(Num(h)) % 12 == h;
    }
  }

  /**
   * Round trip to the 24-hour clock: for an hour 0..23, the shown hour
   * modulo 12, plus 12 for "PM", is the hour.
   */
  lemma RoundTrip24(s: string, h: nat)
    requires s != [] && InParseScope(HourSegment(s)) && ParseInt(HourSegment(s)) == Num(h)
    requires h < 24
    ensures var r := FormatTime(Some(s));
      ShownHour(r) % 12 + (if r.period == "PM" then 12 else 0) == h
  {
    ShownParts(s);
    ClockHourRoundTrip(h);
  }

  /** Midnight shows as "12" "AM" and noon as "12" "PM". */
  lemma MidnightAndNoon(s: string, h: nat)
    requires s != [] && InParseScope(HourSegment(s)) && ParseInt(HourSegment(s)) == Num(h)
    requires h == 0 || h == 12
    ensures var r := FormatTime(Some(s));
      r.time[..2] == "12" && r.period == (if h == 0 then "AM" else "PM")
  {
    ShownParts(s);
    assert ClockHour(Num(h)) == 12;
    assert HourText(12) == "12";
  }

  /** The pieces of "H:M" followed by nothing or by more ':'-segments start with `H` and `M`. */
  lemma SplitHourMinutes(hour: string, minutes: string, rest: string)
    requires ':' !in hour && ':' !in minutes && (rest == [] || rest[0] == ':')
    ensures var parts := Split(hour + ":" + minutes + rest, ':');
      |parts| >= 2 && parts[0] == hour && parts[1] == minutes
  {
    var s := hour + ":" + minutes + rest;
    IndexOfAfterFree(hour, ":" + minutes + rest, ':');
    assert s[|hour| + 1..] == minutes + rest;
    if rest != [] {
      IndexOfAfterFree(minutes, rest, ':');
      assert (minutes + rest)[..|minutes|] == minutes;
    } else {
      assert minutes + rest == minutes;
    }
  }

  /**
   * In a time "H:M" followed by nothing or by more ':'-segments, the shown
   * minutes are exactly `M`: it is copied as it is and later segments such
   * as seconds are dropped.
   */
  lemma MinutesCopied(hour: string, minutes: string, rest: string)
    requires ':' !in hour && ':' !in minutes && (rest == [] || rest[0] == ':')
    requires InParseScope(hour)
    ensures var s := hour + ":" + minutes + rest;
      HourSegment(s) == hour && FormatTime(Some(s)).time[3..] == minutes
  {
    SplitHourMinutes(hour, minutes, rest);
    ShownParts(hour + ":" + minutes + rest);
  }

  /** A time without ':' shows "undefined" in place of the minutes. */
  lemma MissingMinutes(s: string)
    requires s != [] && ':' !in s && InParseScope(s)
    ensures HourSegment(s) == s && FormatTime(Some(s)).time[3..] == "undefined"
  {
    ShownParts(s);
  }

  /** A time "H:M…" with a parsed hour `h` shows the clock hour of `h`, ':' and `M`. */
  lemma ShowsParsed(hour: string, minutes: string, rest: string, h: nat)
    requires ':' !in hour && ':' !in minutes && (rest == [] || rest[0] == ':')
    requires InParseScope(hour) && ParseInt(hour) == Num(h)
    ensures HourSegment(hour + ":" + minutes + rest) == hour
    ensures FormatTime(Some(hour + ":" + minutes + rest))
      == FormattedTime(HourText(ClockHour(Num(h))) + ":" + minutes, Period(Num(h)))
  {
    SplitHourMinutes(hour, minutes, rest);
  }

  /** Two digits parse to their value. */
  lemma ParseTwoDigits(c0: char, c1: char)
    requires IsDigit(c0) && IsDigit(c1)
    ensures InParseScope([c0, c1]) && ParseInt([c0, c1]) == Num(DigitValue(c0) * 10 + DigitValue(c1))
  {
    assert DigitPrefix([c0, c1]) == [c0, c1] by {
      assert [c0, c1][1..] == [c1];
      assert DigitPrefix([c1]) == [c1];
    }
    TwoDigitValue(c0, c1);
  }

  /** "14:30" shows as "02:30" "PM", and so does "14:30:00", whose seconds are dropped. */
  lemma ExampleAfternoon()
    ensures FormatTime(Some("14:30")) == FormattedTime("02:30", "PM")
    ensures FormatTime(Some("14:30:00")) == FormattedTime("02:30", "PM")
  {
    ParseTwoDigits('1', '4');
    ShowsParsed("14", "30", "", 14);
    ShowsParsed("14", "30", ":00", 14);
    assert "14" + ":" + "30" + "" == "14:30";
    assert "14" + ":" + "30" + ":00" == "14:30:00";
    assert ClockHour(Num(14)) == 2;
    assert HourText(2) + ":" + "30" == "02:30";
  }

  /** "00:05" shows as "12:05" "AM"; a missing time shows "N/A" without a suffix. */
  lemma ExampleMidnightAndMissing()
    ensures FormatTime(Some("00:05")) == FormattedTime("12:05", "AM")
    ensures FormatTime(None) == FormattedTime("N/A", "")
  {
    ParseTwoDigits('0', '0');
    ShowsParsed("00", "05", "", 0);
    assert "00" + ":" + "05" + "" == "00:05";
    assert ClockHour(Num(0)) == 12;
    assert HourText(12) + ":" + "05" == "12:05";
  }
}
