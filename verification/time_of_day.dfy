/**
 * Local wall-clock times written as "H:MM" or "HH:MM": the pattern the
 * schedule form accepts, the hour and minute the server reads out of such a
 * string, and minutes since midnight, which stands in for the project's
 * `timeToFloat` (any strictly increasing encoding compares the same way).
 */
module TimeOfDay {

  import opened Digits

  /** The hour alternatives of the pattern: [0-9] | 0[0-9] | 1[0-9] | 2[0-3]. */
  predicate HourPart(h: string) {
    || (|h| == 1 && IsDigit(h[0]))
    || (|h| == 2 && h[0] == '0' && IsDigit(h[1]))
    || (|h| == 2 && h[0] == '1' && IsDigit(h[1]))
    || (|h| == 2 && h[0] == '2' && '0' <= h[1] <= '3')
  }

  /** The minute part of the pattern: [0-5][0-9]. */
  predicate MinutePart(m: string) {
    |m| == 2 && '0' <= m[0] <= '5' && IsDigit(m[1])
  }

  /**
   * The anchored pattern ^(hour):[0-5][0-9]$. The minute part has exactly two
   * characters, so the colon is always the third character from the end.
   */
  predicate IsTimeOfDay(s: string)
    ensures IsTimeOfDay(s) ==> 4 <= |s| <= 5 && AllDigits(s[..|s| - 3]) && s[|s| - 3] == ':' && AllDigits(s[|s| - 2..])
  {
    && 4 <= |s| <= 5
    && s[|s| - 3] == ':'
    && HourPart(s[..|s| - 3])
    && MinutePart(s[|s| - 2..])
  }

  /** The hour of a well-formed time: the value of the one or two digits before the colon. */
  function Hour(s: string): (h: nat)
    requires IsTimeOfDay(s)
    ensures h < 24
  {
    if |s| == 4 then DigitValue(s[0]) else 10 * DigitValue(s[0]) + DigitValue(s[1])
  }

  /** The minute of a well-formed time: the value of the two digits after the colon. */
  function Minute(s: string): (m: nat)
    requires IsTimeOfDay(s)
    ensures m < 60
  {
    10 * DigitValue(s[|s| - 2]) + DigitValue(s[|s| - 1])
  }

  /** `Number` applied to the two sides of the colon gives the hour and the minute. */
  lemma HourMinuteAreNumbers(s: string)
    requires IsTimeOfDay(s)
    ensures AllDigits(s[..|s| - 3]) && Hour(s) == DigitsValue(s[..|s| - 3])
    ensures AllDigits(s[|s| - 2..]) && Minute(s) == DigitsValue(s[|s| - 2..])
  {
    ShortDigitsValue(s[..|s| - 3]);
    ShortDigitsValue(s[|s| - 2..]);
  }

  /** Minutes since midnight of a well-formed time. */
  function Minutes(s: string): (v: nat)
    requires IsTimeOfDay(s)
    ensures v < 24 * 60
  {
    60 * Hour(s) + Minute(s)
  }

  /**
   * The reference rendering of hour `h` and minute `m`: the hour as one digit,
   * or as two when it is 10 or more or when `padded` asks for a leading zero;
   * the minute always as two digits.
   */
  function TimeText(h: nat, m: nat, padded: bool): string
    requires h < 24 && m < 60
  {
    (if h < 10 && !padded then [DigitChar(h)] else [DigitChar(h / 10), DigitChar(h % 10)])
    + [':', DigitChar(m / 10), DigitChar(m % 10)]
  }

  /** Every rendered time of day is accepted and reads back as the same hour and minute. */
  lemma RenderedTimeAccepted(h: nat, m: nat, padded: bool)
    requires h < 24 && m < 60
    ensures IsTimeOfDay(TimeText(h, m, padded))
    ensures Hour(TimeText(h, m, padded)) == h && Minute(TimeText(h, m, padded)) == m
  {
    var s := TimeText(h, m, padded);
    var t := s[..|s| - 3];
    var u := s[|s| - 2..];
    assert u == [DigitChar(m / 10), DigitChar(m % 10)];
    ShortDigitsValue(u);
    if h < 10 && !padded {
      assert t == [DigitChar(h)];
    } else {
      assert t == [DigitChar(h / 10), DigitChar(h % 10)];
    }
    ShortDigitsValue(t);
  }

  /** Only rendered times are accepted: the pattern admits nothing else. */
  lemma AcceptedTimeRendered(s: string)
    requires IsTimeOfDay(s)
    ensures s == TimeText(Hour(s), Minute(s), |s| == 5)
  {
    var t := s[..|s| - 3];
    var u := s[|s| - 2..];
    ShortDigitsValue(t);
    ShortDigitsValue(u);
    var r := TimeText(Hour(s), Minute(s), |s| == 5);
    assert |r| == |s|;
    forall i | 0 <= i < |s|
      ensures r[i] == s[i]
    {
      if i >= |s| - 2 {
        assert s[i] == u[i - (|s| - 2)];
      } else if i < |s| - 3 {
        assert s[i] == t[i];
      }
    }
  }

  /** Comparing minutes since midnight is comparing (hour, minute) lexicographically. */
  lemma {:induction false} MinutesOrderIsClockOrder(a: string, b: string)
    requires IsTimeOfDay(a) && IsTimeOfDay(b)
    ensures Minutes(a) < Minutes(b) <==> Hour(a) < Hour(b) || (Hour(a) == Hour(b) && Minute(a) < Minute(b))
    ensures Minutes(a) == Minutes(b) <==> Hour(a) == Hour(b) && Minute(a) == Minute(b)
  {
  }

  /** The examples: "9:30" and "09:30" are accepted; "24:00" and "9:5" are not. */
  lemma TimeFormatExamples()
    ensures IsTimeOfDay("9:30") && IsTimeOfDay("09:30")
    ensures Hour("9:30") == 9 == Hour("09:30") && Minute("09:30") == 30
    ensures !IsTimeOfDay("24:00") && !IsTimeOfDay("9:5")
  {
    RenderedTimeAccepted(9, 30, false);
    RenderedTimeAccepted(9, 30, true);
    assert TimeText(9, 30, false) == "9:30";
    assert TimeText(9, 30, true) == "09:30";
    assert "24:00"[..2] == "24";
  }
}
