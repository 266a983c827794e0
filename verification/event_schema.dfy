/**
 * The event form's validation: a non-empty name, an optional description, an
 * active flag, and a duration in minutes that is a whole number greater than
 * zero and at most twelve hours.
 *
 * The duration is the number the form value coerces to, so it may carry a
 * fraction; it is a `real` here. The description and the active flag are
 * typed values and raise no issue.
 */
module EventSchema {

  import opened Wrappers
  import opened Digits

  /** The longest event, in minutes: twelve hours. */
  const MaxDuration: int := 60 * 12

  datatype EventForm = EventForm(
    name: string,
    description: Option<string>,
    isActive: bool,
    durationInMinutes: real)

  datatype EventField = Name | DurationInMinutes

  datatype EventMessage = Required | NotInteger | UnsafeTooBig | UnsafeTooSmall | NotPositive | TooLong

  datatype EventIssue = EventIssue(field: EventField, message: EventMessage)

  /** `Number.MAX_SAFE_INTEGER`, 2^53 - 1: the integer check's range is -MaxSafeInteger to MaxSafeInteger. */
  const MaxSafeInteger: int := 9007199254740991

  /**
   * The wording the schema gives a message. The integer check's messages
   * carry the library's default wording, which is `None` here.
   */
  function MessageText(m: EventMessage): Option<string> {
    match m
    case Required => Some("Required")
    case NotPositive => Some("Duration must be greater than 0")
    case TooLong => Some("Duration must be less than 12 hours (" + NatText(MaxDuration) + " minutes)")
    case _ => None
  }

  /** The maximum as the message's template literal writes it. */
  lemma MaxDurationText()
    ensures NatText(MaxDuration) == "720"
  {
    assert NatText(7) == [DigitChar(7)] == "7";
    assert NatText(72) == NatText(7) + [DigitChar(2)] == "72";
    assert NatText(720) == NatText(72) + [DigitChar(0)];
  }

  /** The schema's own wordings, with the maximum written out; they are pairwise distinct. */
  lemma MessageTexts()
    ensures MessageText(Required) == Some("Required")
    ensures MessageText(NotPositive) == Some("Duration must be greater than 0")
    ensures MessageText(TooLong) == Some("Duration must be less than 12 hours (720 minutes)")
    ensures forall m, n :: MessageText(m).Some? && MessageText(m) == MessageText(n) ==> m == n
  {
    MaxDurationText();
    var pre, post := "Duration must be less than 12 hours (", " minutes)";
    assert MessageText(TooLong) == Some(pre + "720" + post);
    assert pre + "720" + post == "Duration must be less than 12 hours (720 minutes)";
    assert "Required"[0] != "Duration must be greater than 0"[0];
    assert "Duration must be greater than 0"[17] != "Duration must be less than 12 hours (720 minutes)"[17];
  }

  predicate IsInteger(x: real) {
    x.Floor as real == x
  }

  /** Adds `issue` when `failed`. */
  function Check(failed: bool, issue: EventIssue): seq<EventIssue> {
    if failed then [issue] else []
  }

  /**
   * The duration checks, in order: integer, positive, then the twelve-hour
   * maximum. A value that is not an integer fails the integer check with an
   * issue that stops the checks after it, so it gets that one issue only. An
   * integer outside the safe range gets a range issue that does not stop
   * them.
   */
  function DurationIssues(d: real): (r: seq<EventIssue>)
    ensures forall k :: 0 <= k < |r| ==> r[k].field == DurationInMinutes
    ensures |r| <= 2
    ensures !IsInteger(d) <==> r == [EventIssue(DurationInMinutes, NotInteger)]
  {
    if !IsInteger(d) then [EventIssue(DurationInMinutes, NotInteger)]
    else
      var r := Check(d > MaxSafeInteger as real, EventIssue(DurationInMinutes, UnsafeTooBig))
        + Check(d < -MaxSafeInteger as real, EventIssue(DurationInMinutes, UnsafeTooSmall))
        + Check(d <= 0.0, EventIssue(DurationInMinutes, NotPositive))
        + Check(d > MaxDuration as real, EventIssue(DurationInMinutes, TooLong));
      assert EventIssue(DurationInMinutes, NotInteger) !in r;
      r
  }

  /** The issues of a whole form: the name's first, then the duration's. */
  function EventIssues(form: EventForm): (r: seq<EventIssue>)
    ensures EventIssue(Name, Required) in r <==> form.name == []
    ensures EventIssue(DurationInMinutes, NotInteger) in r <==> !IsInteger(form.durationInMinutes)
    ensures EventIssue(DurationInMinutes, UnsafeTooBig) in r <==>
      IsInteger(form.durationInMinutes) && form.durationInMinutes > 9007199254740991.0
    ensures EventIssue(DurationInMinutes, UnsafeTooSmall) in r <==>
      IsInteger(form.durationInMinutes) && form.durationInMinutes < -9007199254740991.0
    ensures EventIssue(DurationInMinutes, NotPositive) in r <==>
      IsInteger(form.durationInMinutes) && form.durationInMinutes <= 0.0
    ensures EventIssue(DurationInMinutes, TooLong) in r <==>
      IsInteger(form.durationInMinutes) && form.durationInMinutes > 720.0
  {
    DurationIssueMembers(form.durationInMinutes);
    Check(|form.name| < 1, EventIssue(Name, Required)) + DurationIssues(form.durationInMinutes)
  }

  /** Which issues the duration checks raise. */
  lemma DurationIssueMembers(d: real)
    ensures EventIssue(DurationInMinutes, NotInteger) in DurationIssues(d) <==> !IsInteger(d)
    ensures EventIssue(DurationInMinutes, UnsafeTooBig) in DurationIssues(d) <==> IsInteger(d) && d > 9007199254740991.0
    ensures EventIssue(DurationInMinutes, UnsafeTooSmall) in DurationIssues(d) <==> IsInteger(d) && d < -9007199254740991.0
    ensures EventIssue(DurationInMinutes, NotPositive) in DurationIssues(d) <==> IsInteger(d) && d <= 0.0
    ensures EventIssue(DurationInMinutes, TooLong) in DurationIssues(d) <==> IsInteger(d) && d > 720.0
    ensures EventIssue(Name, Required) !in DurationIssues(d)
  {
  }

  /** The number of `n` minutes. */
  function AsMinutes(n: int): real {
    n as real
  }

  /** A valid duration is a whole number of minutes from 1 to 720. */
  predicate ValidDuration(d: real) {
    exists n: int :: 1 <= n <= MaxDuration && AsMinutes(n) == d
  }

  /** A valid form: a non-empty name and a valid duration. */
  predicate ValidEvent(form: EventForm) {
    |form.name| >= 1 && ValidDuration(form.durationInMinutes)
  }

  /** The duration checks pass exactly on the whole numbers from 1 to 720. */
  lemma DurationIssuesEmptyIff(d: real)
    ensures DurationIssues(d) == [] <==> ValidDuration(d)
  {
    if DurationIssues(d) == [] {
      var n := d.Floor;
      assert AsMinutes(n) == d;
      assert 1 <= n <= MaxDuration;
    }
    if ValidDuration(d) {
      var n: int :| 1 <= n <= MaxDuration && AsMinutes(n) == d;
      assert d.Floor == n;
    }
  }

  /** A form raises no issue iff it is valid. */
  lemma EventIssuesEmptyIff(form: EventForm)
    ensures EventIssues(form) == [] <==> ValidEvent(form)
  {
    DurationIssuesEmptyIff(form.durationInMinutes);
  }

  /**
   * The name issue, when present, comes first; a form raises at most three
   * issues, never both bounds, and a duration that is not an integer raises
   * that one duration issue only.
   */
  lemma EventIssuesShape(form: EventForm)
    ensures var r := EventIssues(form);
      && |r| <= 3
      && (form.name == [] ==> r[0] == EventIssue(Name, Required))
      && !(EventIssue(DurationInMinutes, NotPositive) in r && EventIssue(DurationInMinutes, TooLong) in r)
      && (!IsInteger(form.durationInMinutes) ==>
            && |r| == (if form.name == [] then 2 else 1)
            && r[|r| - 1] == EventIssue(DurationInMinutes, NotInteger))
  {
  }

  /**
   * A few durations: 90 and 720 pass; 0, 721 and 1.5 fail one check each;
   * -0.5 and 800.5 fail the integer check only; 10^16 is out of the safe
   * range and over the maximum.
   */
  lemma DurationExamples()
    ensures ValidDuration(90.0) && ValidDuration(720.0)
    ensures DurationIssues(0.0) == [EventIssue(DurationInMinutes, NotPositive)]
    ensures DurationIssues(721.0) == [EventIssue(DurationInMinutes, TooLong)]
    ensures DurationIssues(1.5) == [EventIssue(DurationInMinutes, NotInteger)]
    ensures DurationIssues(-0.5) == [EventIssue(DurationInMinutes, NotInteger)]
    ensures DurationIssues(800.5) == [EventIssue(DurationInMinutes, NotInteger)]
    ensures DurationIssues(10000000000000000.0) ==
      [EventIssue(DurationInMinutes, UnsafeTooBig), EventIssue(DurationInMinutes, TooLong)]
  {
    assert AsMinutes(90) == 90.0;
    assert AsMinutes(720) == 720.0;
  }
}
