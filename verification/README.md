# Availability resolution, modelled in Dafny

This project models the availability core of a booking application. An owner
publishes a weekly schedule: a timezone, plus availability windows, each a
weekday with a start and an end time written `H:MM` or `HH:MM`. Visitors ask
which candidate start instants can be booked for an event of a given length.

The model covers four parts of the code:

- **The schedule form schema.** It checks that the timezone is non-empty and
  that every time matches the pattern. A refinement then walks the windows in
  index order. For a window whose end is not after its start it records an
  issue twice. For a window that intersects another window of the same
  weekday it records one issue.
- **The slot filter.** The schedule rows are grouped by weekday. For each
  candidate, the rows of the candidate's weekday are projected onto the
  candidate's date. The candidate is kept iff its event meets no busy
  interval of the owner's calendar and lies, both ends inclusive, in one of
  those projected windows. The calendar is asked once, for the range from the
  first to the last candidate.
- **The event form schema.** The name is non-empty, and the duration is a
  whole number of minutes from 1 to 720. The schema is written against Zod 4
  (the `z.ZodCoercedNumber` type it casts to exists only there). In Zod 4 a
  failed integer check stops the checks after it, so a fractional duration
  gets that one issue. An integer outside the safe range (beyond 2^53 - 1 in
  magnitude) gets a range issue and the remaining checks still run.
- **The duration formatter.** It renders a duration as `"<h> hr(s)  <m> min(s)"`.

Instants are whole minutes on one time line. The date library is not modelled:
the host-local weekday, setting the wall-clock hour and minute, and
`fromZonedTime` are fields of `ScheduleActions.DateLib`, and nothing is
assumed about them. The calendar query is a parameter `fetch`. The time helper
the refinement uses (`timeToFloat`, in `lib/utils.ts`) is a parameter too;
`lib/utils.ts` is not part of this model.

Modules, in dependency order:

- `Wrappers` (wrappers.dfy): `Option`.
- `Digits` (digits.dfy): decimal numerals.
- `TimeOfDay` (time_of_day.dfy): the time pattern, and the hour and minute
  read out of a time.
- `ScheduleSchema` (schedule_schema.dfy): the schedule form.
- `ScheduleActions` (schedule_actions.dfy): the slot filter.
- `EventSchema` (event_schema.dfy): the event form.
- `Formatters` (formatters.dfy): the duration text.

The refinement is a method with a loop, proved equal to the specification
function `ScheduleSchema.RefinementIssues`. The lemmas state what that
function means.

Three behaviours of the code a reader might not expect:

- The end-after-start check runs twice per window, so a window whose end is
  not after its start gets two identical issues (`ScheduleSchema.EndIssueCount`).
- A candidate's weekday is the host-local weekday of the instant (`isMonday`
  … `isSunday`), not its weekday in the schedule's timezone.
- A window can get up to three issues (two end-time issues and an overlap
  issue), not one per offending window.

## Model

| member | source | states |
|---|---|---|
| Digits.NatText | lib/formatters.ts:5-6 | A template literal renders a non-negative integer as at least one digit, with no sign, no leading zero when there is more than one digit, and the digits read back as the integer |
| TimeOfDay.IsTimeOfDay | schema/schedule.ts:13-15 | An accepted time is four or five characters: one or two digits, a colon, two digits (with the two lemmas below, exactly the `H:MM`/`HH:MM` renderings of a time of day) |
| TimeOfDay.Hour | server/actions/schedule.ts:171-172 | The hour read from an accepted time is below 24 |
| TimeOfDay.Minute | server/actions/schedule.ts:171-172 | The minute read from an accepted time is below 60 |
| TimeOfDay.HourMinuteAreNumbers | server/actions/schedule.ts:171-172 | `split(":").map(Number)` on an accepted time gives the decimal values of the digits before and after the colon |
| TimeOfDay.RenderedTimeAccepted | schema/schedule.ts:13-15 | Every hour below 24 and minute below 60, written `H:MM` or `HH:MM`, matches the pattern and reads back as the same hour and minute |
| TimeOfDay.AcceptedTimeRendered | schema/schedule.ts:13-15 | The pattern accepts nothing but such renderings |
| TimeOfDay.MinutesOrderIsClockOrder | schema/schedule.ts:31-38 | Comparing minutes since midnight is comparing (hour, minute) lexicographically |
| TimeOfDay.TimeFormatExamples | schema/schedule.ts:14-15 | "9:30" and "09:30" are accepted as 9:30; "24:00" and "9:5" are rejected |
| ScheduleSchema.MessageTexts | schema/schedule.ts:6-50 | The schema's four wordings ("Require", the time format, end after start, overlaps), each worded differently |
| ScheduleSchema.FormatIssues | schema/schedule.ts:11-22 | The pattern checks raise no issue iff every start and end time matches the pattern |
| ScheduleSchema.OverlapsFrom | schema/schedule.ts:27-34 | The `some` scan is true iff another window of the same weekday intersects the window at hand |
| ScheduleSchema.RefineAvailabilities | schema/schedule.ts:25-66 | The refinement loop records exactly `RefinementIssues`: per window, in index order, the end check, the overlap check and the end check again |
| ScheduleSchema.WindowIssueOrder | schema/schedule.ts:36-64 | The issues for one window, in order: an end-time issue if its end is not after its start, an overlap issue if it intersects another window, then the end-time issue again |
| ScheduleSchema.OverlapIssueIff | schema/schedule.ts:27-53 | A window gets an overlap issue on its start time iff another window of the same weekday intersects it |
| ScheduleSchema.EndIssueCount | schema/schedule.ts:36-64 | A window whose end is not after its start gets exactly two end-time issues; any other window gets none |
| ScheduleSchema.IntersectsSymmetric | schema/schedule.ts:29-32 | The intersection test is symmetric |
| ScheduleSchema.OverlapReportedForBoth | schema/schedule.ts:27-53 | Both windows of an intersecting pair are reported |
| ScheduleSchema.TouchingOrOtherDayDisjoint | schema/schedule.ts:30-32 | Windows that only touch, or lie on different weekdays, never intersect |
| ScheduleSchema.IssuesInIndexOrder | schema/schedule.ts:26-65 | Every refinement issue points at a window, in non-decreasing window order |
| ScheduleSchema.NoIssuesIffConsistent | schema/schedule.ts:25-66 | The refinement records nothing iff every window ends after it starts and no two same-weekday windows intersect |
| ScheduleSchema.SameComparisonsSameIssues | schema/schedule.ts:25-66 | The refinement's issues depend only on how the times compare |
| ScheduleSchema.ClockOrderedSameIssues | schema/schedule.ts:31-38 | On well-formed windows, any time helper that orders times as the clock does gives the issues that minutes since midnight give |
| ScheduleSchema.ValidateSchedule | schema/schedule.ts:5-67 | Validating the form yields exactly `FormIssues`: the timezone issue, the pattern issues and the refinement issues, in that order, the refinement running whatever the pattern checks found |
| ScheduleSchema.FormIssuesEmptyIff | schema/schedule.ts:5-67 | With a time helper that orders times as the clock does, the form raises no issue iff the timezone is non-empty, every time is well formed and no window ends at or before its start or intersects another of its weekday |
| ScheduleActions.DayOfWeek | server/actions/schedule.ts:153-162 | The weekday chain gives a weekday iff the host-local day number is 0 to 6, and then the weekday with that number (Sunday is 0) |
| ScheduleActions.RowsOnMembers | server/actions/schedule.ts:108-111 | The rows grouped under a weekday are exactly the rows of that weekday |
| ScheduleActions.GroupByDay | server/actions/schedule.ts:108-111 | A weekday is a key iff it has rows, and its group holds them in row order |
| ScheduleActions.Project | server/actions/schedule.ts:170-185 | A row's projection onto a date sets each end's hour and minute on the date and reads it in the schedule's timezone; ends showing the same clock time give the same instant |
| ScheduleActions.GetAvailabilities | server/actions/schedule.ts:143-186 | A date's windows are none when its host-local weekday is unknown or has no group, and otherwise one projection per row of that group, in row order |
| ScheduleActions.AvailabilitiesOfDay | server/actions/schedule.ts:164-185 | A date's windows are one projected interval per row of its weekday, in row order, and none when its weekday is unknown or has no rows |
| ScheduleActions.EveryFree | server/actions/schedule.ts:128-130 | The `every` test holds iff the event overlaps, exclusively, no busy interval |
| ScheduleActions.SomeContains | server/actions/schedule.ts:131-136 | The `some` test holds iff some window holds both ends of the event, inclusively |
| ScheduleActions.ContainsIffSomeRow | server/actions/schedule.ts:143-185 | Some window of the candidate's date holds the event iff some row of its weekday, projected onto that date, does |
| ScheduleActions.Bookable | server/actions/schedule.ts:115-138 | A kept candidate's event meets no busy interval, and its weekday is known and has rows (BookableIff gives the converse) |
| ScheduleActions.BookableIff | server/actions/schedule.ts:115-138 | The filter callback holds iff the event meets no busy interval and fits a row of its weekday |
| ScheduleActions.FilterBookable | server/actions/schedule.ts:115-138 | The filter keeps a subsequence of the candidates, in their order |
| ScheduleActions.FilterBookableCounts | server/actions/schedule.ts:115-138 | The filter keeps exactly the bookable candidates, each as often as it came, and drops the others |
| ScheduleActions.ValidTimes | server/actions/schedule.ts:93-141 | No candidates or no schedule gives no times; otherwise the result is a subsequence of the candidates |
| ScheduleActions.ValidTimesExactly | server/actions/schedule.ts:93-141 | A time is returned iff it is a candidate, its event meets no busy interval of the range from the first to the last candidate, and it fits a row of its weekday |
| ScheduleActions.NoRowsNoTimes | server/actions/schedule.ts:164-168 | A candidate whose weekday is unknown or has no rows is never returned |
| ScheduleActions.ValidTimesCounts | server/actions/schedule.ts:115-138 | A returned time occurs as often as among the candidates, and a rejected one not at all |
| ScheduleActions.ValidTimesAsWritten | server/actions/schedule.ts:104-113 | The code as written throws iff there are candidates and the lookup found no row (`undefined`); otherwise it returns a subsequence of the candidates |
| ScheduleActions.MissingScheduleThrows | server/actions/schedule.ts:104-109 | With candidates and no stored schedule, the code as written throws where `ValidTimes` returns no times |
| ScheduleActions.AsWrittenAgreesOtherwise | server/actions/schedule.ts:104-106 | Whenever the lookup is not `undefined`, the code as written agrees with `ValidTimes` |
| EventSchema.MaxDurationText | schema/event.ts:11-13 | The maximum `60 * 12` is written "720" inside the message's template literal |
| EventSchema.MessageTexts | schema/event.ts:4-13 | The schema's own wordings for the name, positive and maximum checks, the last with "720" written out; no two share a wording |
| EventSchema.DurationIssues | schema/event.ts:7-13 | At most two duration issues; a duration that is not an integer gets exactly the integer issue, because that issue stops the later checks |
| EventSchema.EventIssues | schema/event.ts:3-14 | The form gets the name issue iff the name is empty and the integer issue iff the duration is not an integer; it gets a safe-range issue, the positive issue or the maximum issue iff the duration is an integer that fails that check |
| EventSchema.DurationIssuesEmptyIff | schema/event.ts:7-13 | The duration checks pass exactly on the whole numbers from 1 to 720 |
| EventSchema.EventIssuesEmptyIff | schema/event.ts:3-14 | A form raises no issue iff its name is non-empty and its duration is a whole number from 1 to 720 |
| EventSchema.EventIssuesShape | schema/event.ts:3-14 | At most three issues; the name issue comes first; never both the positive and the maximum issue; a non-integer duration gives the integer issue and no other duration issue |
| EventSchema.DurationExamples | schema/event.ts:7-13 | 90 and 720 are valid; 0, 721 and 1.5 each fail one check; -0.5 and 800.5 fail the integer check only; 10^16 gets the safe-range issue and the maximum issue |
| Formatters.FloorDiv | lib/formatters.ts:2 | `Math.floor(x / 60)` is the q with q*60 <= x < q*60 + 60 |
| Formatters.JsRemainder | lib/formatters.ts:3 | `%` is the duration less 60 times its quotient truncated toward zero: from 0 to 59 for a non-negative duration, and from -59 to 0 for a negative one |
| Formatters.DurationPartsSum | lib/formatters.ts:2-3 | The floored hours times 60 plus the signed minutes give back the duration, except for a negative duration that is not a whole number of hours, where they give an hour less |
| Formatters.FormatEventDuration | lib/formatters.ts:1-9 | A non-negative duration renders as its hours part, two spaces, then its minutes part; a negative one starts with a minus sign |
| Formatters.ParseMinutesPart | lib/formatters.ts:5 | The minutes part reads back as the minutes, with "mins" iff the minutes exceed 1 |
| Formatters.ParseHoursPart | lib/formatters.ts:6 | The hours part reads back as the hours, followed by the unit and its trailing space |
| Formatters.FormatRoundTrip | lib/formatters.ts:1-9 | A non-negative duration reads back as hours and minutes with hours*60 + minutes equal to the duration and minutes below 60; each unit is plural iff its number exceeds 1 |
| Formatters.FormatNinety | lib/formatters.ts:1-9 | 90 minutes renders as "1 hr  30 mins" |
| Formatters.FormatOneHour | lib/formatters.ts:5-8 | 60 minutes renders as "1 hr  0 min": a zero part is shown, in the singular |
| Formatters.NegativeDurationParts | lib/formatters.ts:2-3 | For -30 the floored hours and the signed remainder add up to -90, and the text is "-1 hr  -30 min" |

## Left out

- Date library: the host timezone, daylight-saving rules, `setHours`, `setMinutes` and `fromZonedTime` are uninterpreted. Nothing about wall-clock round trips or the order of projected ends is proved.
- `addMinutes` is addition on whole-minute instants. Seconds and milliseconds of `Date` values are not modelled.
- Reversed intervals: what the date library does with a busy interval or a window whose start is after its end is not modelled. The overlap and containment tests are applied as written.
- The calendar query (`getCalendarEventTimes`) is a network call. It is the parameter `fetch`. Its failure, and the rejection that would propagate, are not modelled.
- `getSchedule` and `saveSchedule` (database, authentication, cache revalidation) are I/O. The lookup's outcome is an input. `saveSchedule` validates before storing, which is why stored rows are taken as well formed.
- ScheduleActions.ValidTimes: requires every stored time to be well formed. Rows that would make `Number` give `NaN` are not modelled.
- ScheduleSchema.ValidateSchedule: the weekday is typed, so the weekday enum check and the type checks on non-string fields raise no issue here. Issues carry a path and a message kind, not Zod's full issue objects.
- ScheduleSchema.SpanBy: the time helper returns a real number, so a helper that gives `NaN` for a malformed time, as a `parseFloat`-style helper does, cannot be expressed. On malformed times, `ValidateSchedule` yielding exactly `FormIssues` covers only helpers that return numbers.
- `timeToFloat` (`lib/utils.ts`) is a parameter of the refinement. The emptiness equivalence is proved for helpers that order well-formed times as the clock does.
- `z.coerce` on the duration: the model starts from the coerced number. `NaN` and infinities are not modelled; the duration is a real number.
- Formatters.FormatEventDuration: the model's integers are unbounded, while the source's numbers are doubles. They are exact only up to 2^53 - 1, where `Math.floor(d / 60)` stops being exact, and a template literal writes them in exponent notation from 10^21 (`1e+21`). The event form caps durations at 720, so the form never reaches these values.
- Formatters.FormatRoundTrip: holds in the source only for durations up to 2^53 - 1; the model states it for every non-negative integer.
- Digits.NatText: plain digits for every non-negative integer; a template literal writes exponent notation from 10^21.
- EventSchema.MessageText: the integer check's messages keep the library's default wording, which is not modelled (`None`).
- EventSchema.EventIssues: `description` and `isActive` are typed (`Option<string>`, `bool`), so the optional-string and boolean checks at schema/event.ts:5-6 never raise an issue here.
- Formatters.FormatEventDuration: integer durations only. The JavaScript `%` and `Math.floor` on fractional durations are not modelled.
- The `return []` after the filter in `getValidTimesFromSchedule` is unreachable and has no counterpart.
- `async`/`await` and promises: every operation is a function of its inputs.
- The React components and `drizzle.config.ts`: rendering and configuration, with no logic to model.

## Findings

| source | as written | input that shows it | evidently intended | confidence | as-written member | corrected member |
|---|---|---|---|---|---|---|
| server/actions/schedule.ts:104-109 | `getSchedule` returns the lookup's result, which is `undefined` when the user has no schedule; the guard `schedule === null` lets it through and `schedule.availabilities` throws a `TypeError` | a non-empty candidate list for a user with no stored schedule | return no times when there is no schedule | not executed | ScheduleActions.MissingScheduleThrows | ScheduleActions.ValidTimes |
