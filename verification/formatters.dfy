/**
 * How an event's duration is shown: whole hours and the remaining minutes,
 * each with a singular or plural unit, as in "1 hr  30 mins" (the hours part
 * ends with a space of its own, so two spaces separate the parts).
 *
 * The duration is a whole number of minutes. Hours are the floor of the
 * duration divided by 60; minutes are the JavaScript remainder, which takes
 * the sign of the duration.
 */
module Formatters {

  import opened Wrappers
  import opened Digits

  /** The quotient of `x / y` truncated toward zero. */
  function TruncDiv(x: int, y: int): int
    requires y > 0
  {
    if x >= 0 then x / y else -((-x) / y)
  }

  /**
   * `x % y` in JavaScript: what is left of `x` once the truncated quotient's
   * multiple of `y` is taken away, so it has the sign of `x`.
   */
  function JsRemainder(x: int, y: int): (r: int)
    requires y > 0
    ensures r == x - y * TruncDiv(x, y)
    ensures x >= 0 ==> 0 <= r < y
    ensures x < 0 ==> -y < r <= 0
  {
    if x >= 0 then x % y else -((-x) % y)
  }

  /** `Math.floor(x / y)` for a positive `y`. */
  function FloorDiv(x: int, y: int): (q: int)
    requires y > 0
    ensures q * y <= x < q * y + y
  {
    x / y
  }

  /** A template literal's rendering of an integer: a minus sign for negatives, then the digits. */
  function IntText(n: int): string {
    if n < 0 then "-" + NatText(-n) else NatText(n)
  }

  function HourUnit(hours: int): string {
    if hours > 1 then "hrs" else "hr"
  }

  function MinuteUnit(minutes: int): string {
    if minutes > 1 then "mins" else "min"
  }

  /**
   * `formatEventDuration`: a non-negative duration is its hours part followed
   * by its minutes part; a negative one starts with a minus sign.
   */
  function FormatEventDuration(durationInMinutes: int): (r: string)
    ensures durationInMinutes >= 0 ==>
      r == HoursPart(durationInMinutes / 60) + MinutesPart(durationInMinutes % 60)
    ensures durationInMinutes < 0 ==> |r| > 0 && r[0] == '-'
  {
    var hours := FloorDiv(durationInMinutes, 60);
    var minutes := JsRemainder(durationInMinutes, 60);
    var minutesString := IntText(minutes) + " " + MinuteUnit(minutes);
    var hoursString := IntText(hours) + " " + HourUnit(hours) + " ";
    hoursString + " " + minutesString
  }

  /** What a rendered duration says: its two numbers and whether each unit is plural. */
  datatype DurationText = DurationText(hours: nat, hoursPlural: bool, minutes: nat, minutesPlural: bool)

  /** Reads a rendered non-negative duration back; `None` when `s` is not of that form. */
  function ParseEventDuration(s: string): Option<DurationText>
  {
    var k := LeadingDigits(s);
    if k == 0 then None
    else
      var hours, rest := DigitsValue(s[..k]), s[k..];
      var unit: Option<(bool, string)> :=
        if |rest| >= 6 && rest[..6] == " hrs  " then Some((true, rest[6..]))
        else if |rest| >= 5 && rest[..5] == " hr  " then Some((false, rest[5..]))
        else None;
      match unit
      case None => None
      case Some((hoursPlural, tail)) =>
        var j := LeadingDigits(tail);
        if j == 0 then None
        else
          var minutes, unitText := DigitsValue(tail[..j]), tail[j..];
          if unitText == " mins" then Some(DurationText(hours, hoursPlural, minutes, true))
          else if unitText == " min" then Some(DurationText(hours, hoursPlural, minutes, false))
          else None
  }

  /** The text of the hours part and the separator that follows it. */
  function HoursPart(hours: nat): string {
    NatText(hours) + " " + HourUnit(hours) + "  "
  }

  /** The text of the minutes part. */
  function MinutesPart(minutes: nat): string {
    NatText(minutes) + " " + MinuteUnit(minutes)
  }

  /** The minutes part reads back as its number and its unit's plurality. */
  lemma {:induction false} ParseMinutesPart(minutes: nat)
    ensures var t := MinutesPart(minutes);
      var j := LeadingDigits(t);
      && 0 < j && DigitsValue(t[..j]) == minutes
      && (t[j..] == " mins" <==> minutes > 1)
      && (t[j..] == " min" <==> minutes <= 1)
  {
    var m := NatText(minutes);
    LeadingDigitsOfNumeral(m, " " + MinuteUnit(minutes));
    assert MinutesPart(minutes) == m + (" " + MinuteUnit(minutes));
  }

  /** After the hours numeral: the unit and separator, then `tail`. */
  lemma HoursUnitThen(hours: nat, tail: string)
    ensures var rest := " " + HourUnit(hours) + "  " + tail;
      && (hours > 1 ==> |rest| >= 6 && rest[..6] == " hrs  " && rest[6..] == tail)
      && (hours <= 1 ==> !(|rest| >= 6 && rest[..6] == " hrs  ") && |rest| >= 5 && rest[..5] == " hr  " && rest[5..] == tail)
  {
    var rest := " " + HourUnit(hours) + "  " + tail;
    if hours <= 1 {
      assert rest[3] == ' ';
    }
  }

  /** Reading the hours part leaves the minutes part, with the hours and their unit's plurality. */
  lemma {:induction false} ParseHoursPart(hours: nat, tail: string)
    ensures var s := HoursPart(hours) + tail;
      var k := LeadingDigits(s);
      var rest := s[k..];
      && 0 < k && DigitsValue(s[..k]) == hours
      && rest == " " + HourUnit(hours) + "  " + tail
  {
    var h := NatText(hours);
    var u := " " + HourUnit(hours) + "  ";
    assert HoursPart(hours) + tail == h + (u + tail);
    LeadingDigitsOfNumeral(h, u + tail);
  }

  /**
   * A non-negative duration reads back as its hours and minutes, which make up
   * the duration again; minutes stay below 60, and a unit is plural exactly
   * when its number exceeds 1 (0 and 1 are both singular).
   */
  lemma FormatRoundTrip(d: nat)
    ensures var r := ParseEventDuration(FormatEventDuration(d));
      && r.Some?
      && r.value.hours * 60 + r.value.minutes == d
      && r.value.minutes < 60
      && r.value.hoursPlural == (r.value.hours > 1)
      && r.value.minutesPlural == (r.value.minutes > 1)
  {
    ParseHoursPart(d / 60, MinutesPart(d % 60));
    HoursUnitThen(d / 60, MinutesPart(d % 60));
    ParseMinutesPart(d % 60);
    assert ParseEventDuration(FormatEventDuration(d)) ==
      Some(DurationText(d / 60, d / 60 > 1, d % 60, d % 60 > 1));
  }

  /** The numerals the examples below use. */
  lemma SmallNumerals()
    ensures NatText(0) == "0" && NatText(1) == "1" && NatText(30) == "30"
  {
    assert NatText(3) == [DigitChar(3)];
    assert NatText(30) == NatText(3) + [DigitChar(0)];
  }

  lemma ExampleParts()
    ensures HoursPart(1) == "1 hr  " && MinutesPart(30) == "30 mins" && MinutesPart(0) == "0 min"
  {
    SmallNumerals();
  }

  /** The worked example: 90 minutes is "1 hr  30 mins". */
  lemma FormatNinety()
    ensures FormatEventDuration(90) == "1 hr  30 mins"
  {
    assert 90 / 60 == 1 && 90 % 60 == 30;
    ExampleParts();
  }

  /** An hour shows zero minutes, in the singular: "1 hr  0 min". */
  lemma FormatOneHour()
    ensures FormatEventDuration(60) == "1 hr  0 min"
  {
    assert 60 / 60 == 1 && 60 % 60 == 0;
    ExampleParts();
  }

  /**
   * The hours and the signed minutes add up to the duration when it is
   * non-negative or a whole number of hours, and to an hour less otherwise.
   */
  lemma DurationPartsSum(d: int)
    ensures FloorDiv(d, 60) * 60 + JsRemainder(d, 60) == d - (if d < 0 && d % 60 != 0 then 60 else 0)
  {
    if d < 0 {
      var q, m := d / 60, d % 60;
      assert d == 60 * q + m;
      if m != 0 {
        assert -d == 60 * (-q - 1) + (60 - m);
        assert (-d) % 60 == 60 - m;
      } else {
        assert -d == 60 * (-q);
        assert (-d) % 60 == 0;
      }
    }
  }

  /**
   * Negative durations (which the event form rejects) do not decompose: the
   * hours round down while the minutes keep the sign, so -30 shows as
   * "-1 hr  -30 min", which adds up to -90.
   */
  lemma NegativeDurationParts()
    ensures FloorDiv(-30, 60) * 60 + JsRemainder(-30, 60) == -90
    ensures FormatEventDuration(-30) == "-1 hr  -30 min"
  {
    assert FloorDiv(-30, 60) == -1 && JsRemainder(-30, 60) == -30;
    SmallNumerals();
    var hoursString := IntText(-1) + " " + HourUnit(-1) + " ";
    var minutesString := IntText(-30) + " " + MinuteUnit(-30);
    assert hoursString == "-1 hr ";
    assert minutesString == "-30 min";
    assert FormatEventDuration(-30) == hoursString + " " + minutesString;
  }
}
