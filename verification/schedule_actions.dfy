/**
 * The server side of availability: which of a list of candidate start
 * instants can be booked for an event of a given duration, given the
 * owner's weekly schedule and the busy intervals of the owner's calendar.
 *
 * Instants are whole minutes on one absolute time line. The date library the
 * code calls (the host-local weekday, setting the wall-clock hour and minute,
 * reinterpreting a wall-clock time in a timezone) is not modelled: its
 * functions are parameters, bundled in `DateLib`, and nothing is assumed of
 * them.
 */
module ScheduleActions {

  import opened Wrappers
  import opened TimeOfDay
  import opened ScheduleSchema

  /** An absolute time range, in minutes. */
  datatype Interval = Interval(start: int, end: int)

  /** A stored schedule: its timezone and its availability rows. */
  datatype Schedule = Schedule(timezone: string, availabilities: seq<Window>)

  /**
   * The date functions the code relies on:
   * `getDay` gives the host-local weekday number of an instant, Sunday being 0
   * (what `isMonday` … `isSunday` test); `setHours` and `setMinutes` set the
   * host-local wall-clock hour or minute of an instant; `fromZonedTime`
   * reads the host-local wall clock of an instant as a wall clock in the
   * named timezone and gives the instant that denotes.
   */
  datatype DateLib = DateLib(
    getDay: int -> int,
    setHours: (int, int) -> int,
    setMinutes: (int, int) -> int,
    fromZonedTime: (int, string) -> int)

  /** The weekday numbering of `getDay`. */
  function DayNumber(d: Weekday): nat {
    match d
    case Sunday => 0
    case Monday => 1
    case Tuesday => 2
    case Wednesday => 3
    case Thursday => 4
    case Friday => 5
    case Saturday => 6
  }

  /** The chain of `isMonday(date)` … `isSunday(date)` tests, in host-local time; none for an invalid date. */
  function DayOfWeek(lib: DateLib, date: int): (r: Option<Weekday>)
    ensures r.Some? <==> 0 <= lib.getDay(date) <= 6
    ensures r.Some? ==> DayNumber(r.value) == lib.getDay(date)
  {
    var day := lib.getDay(date);
    if day == 1 then Some(Monday)
    else if day == 2 then Some(Tuesday)
    else if day == 3 then Some(Wednesday)
    else if day == 4 then Some(Thursday)
    else if day == 5 then Some(Friday)
    else if day == 6 then Some(Saturday)
    else if day == 0 then Some(Sunday)
    else None
  }

  // ---------------------------------------------------------------------
  // Grouping rows by weekday

  /** The rows of weekday `d`, in row order. */
  function RowsOn(rows: seq<Window>, d: Weekday): seq<Window>
    decreases |rows|
  {
    if rows == [] then []
    else
      var last := rows[|rows| - 1];
      RowsOn(rows[..|rows| - 1], d) + (if last.dayOfWeek == d then [last] else [])
  }

  /** The rows of weekday `d` are the rows that fall on `d`. */
  lemma {:induction false} RowsOnMembers(rows: seq<Window>, d: Weekday)
    ensures forall w :: w in RowsOn(rows, d) <==> w in rows && w.dayOfWeek == d
    decreases |rows|
  {
    if rows != [] {
      var prefix := rows[..|rows| - 1];
      RowsOnMembers(prefix, d);
      assert rows == prefix + [rows[|rows| - 1]];
    }
  }

  lemma RowsOnAppend(rows: seq<Window>, row: Window, d: Weekday)
    ensures RowsOn(rows + [row], d) == RowsOn(rows, d) + (if row.dayOfWeek == d then [row] else [])
  {
    assert (rows + [row])[..|rows|] == rows;
  }

  lemma RowsOnAppendAll(rows: seq<Window>, row: Window)
    ensures forall d :: RowsOn(rows + [row], d) == RowsOn(rows, d) + (if row.dayOfWeek == d then [row] else [])
  {
    forall d {
      RowsOnAppend(rows, row, d);
    }
  }

  /**
   * `Object.groupBy(rows, a => a.dayOfWeek)`: a weekday is a key iff it has
   * rows, and its group holds those rows in row order.
   */
  function GroupByDay(rows: seq<Window>): (g: map<Weekday, seq<Window>>)
    ensures forall d :: d in g <==> RowsOn(rows, d) != []
    ensures forall d :: d in g ==> g[d] == RowsOn(rows, d)
    decreases |rows|
  {
    if rows == [] then map[]
    else
      var prefix, row := rows[..|rows| - 1], rows[|rows| - 1];
      assert rows == prefix + [row];
      RowsOnAppendAll(prefix, row);
      var g := GroupByDay(prefix);
      g[row.dayOfWeek := (if row.dayOfWeek in g then g[row.dayOfWeek] else []) + [row]]
  }

  predicate GroupsWellFormed(g: map<Weekday, seq<Window>>) {
    forall d :: d in g ==> AllWellFormed(g[d])
  }

  lemma GroupsOfWellFormedRows(rows: seq<Window>)
    requires AllWellFormed(rows)
    ensures GroupsWellFormed(GroupByDay(rows))
  {
    var g := GroupByDay(rows);
    forall d, k | d in g && 0 <= k < |g[d]|
      ensures WellFormed(g[d][k])
    {
      RowsOnMembers(rows, d);
      assert g[d][k] in RowsOn(rows, d);
    }
  }

  // ---------------------------------------------------------------------
  // Projecting rows onto a date

  /**
   * The absolute range a row denotes on the date of `date`: each end's hour
   * and minute are set on `date` and the result is read in `timezone`. Ends
   * that show the same clock time denote the same instant.
   */
  function Project(lib: DateLib, date: int, timezone: string, row: Window): (r: Interval)
    requires WellFormed(row)
    ensures Minutes(row.startTime) == Minutes(row.endTime) ==> r.start == r.end
  {
    var startHour, startMinutes := Hour(row.startTime), Minute(row.startTime);
    var endHour, endMinutes := Hour(row.endTime), Minute(row.endTime);
    MinutesOrderIsClockOrder(row.startTime, row.endTime);
    Interval(
      lib.fromZonedTime(lib.setMinutes(lib.setHours(date, startHour), startMinutes), timezone),
      lib.fromZonedTime(lib.setMinutes(lib.setHours(date, endHour), endMinutes), timezone))
  }

  /** The windows of `date`'s host-local weekday, projected onto `date`. */
  function GetAvailabilities(lib: DateLib, grouped: map<Weekday, seq<Window>>, date: int, timezone: string): (r: seq<Interval>)
    requires GroupsWellFormed(grouped)
    ensures DayOfWeek(lib, date).None? || DayOfWeek(lib, date).value !in grouped ==> r == []
    ensures DayOfWeek(lib, date).Some? && DayOfWeek(lib, date).value in grouped ==>
      var rows := grouped[DayOfWeek(lib, date).value];
      |r| == |rows| && forall k :: 0 <= k < |r| ==> r[k] == Project(lib, date, timezone, rows[k])
  {
    match DayOfWeek(lib, date)
    case None => []
    case Some(day) =>
      if day !in grouped then []
      else
        var rows := grouped[day];
        seq(|rows|, k requires 0 <= k < |rows| => Project(lib, date, timezone, rows[k]))
  }

  /**
   * For grouped rows, the windows of a date are one projected interval per
   * row of its weekday, in row order, and none when the weekday is unknown.
   */
  lemma AvailabilitiesOfDay(lib: DateLib, rows: seq<Window>, date: int, timezone: string)
    requires AllWellFormed(rows)
    ensures GroupsWellFormed(GroupByDay(rows))
    ensures DayOfWeek(lib, date).None? ==> GetAvailabilities(lib, GroupByDay(rows), date, timezone) == []
    ensures DayOfWeek(lib, date).Some? ==>
      var on := RowsOn(rows, DayOfWeek(lib, date).value);
      var windows := GetAvailabilities(lib, GroupByDay(rows), date, timezone);
      && |windows| == |on|
      && forall k :: 0 <= k < |windows| ==> windows[k] == Project(lib, date, timezone, on[k])
  {
    GroupsOfWellFormedRows(rows);
    var grouped := GroupByDay(rows);
    if DayOfWeek(lib, date).Some? {
      var day := DayOfWeek(lib, date).value;
      var on := RowsOn(rows, day);
      if day in grouped {
        assert grouped[day] == on;
      } else {
        assert on == [];
      }
    }
  }

  // ---------------------------------------------------------------------
  // The candidate filter

  /** `areIntervalsOverlapping` with its default, exclusive test: touching ends do not overlap. */
  predicate Overlapping(a: Interval, b: Interval) {
    a.start < b.end && b.start < a.end
  }

  /** `isWithinInterval`: inclusive at both ends. */
  predicate Within(t: int, iv: Interval) {
    iv.start <= t <= iv.end
  }

  /** `busy.every(b => !areIntervalsOverlapping(b, event))`. */
  function EveryFree(busy: seq<Interval>, event: Interval): (r: bool)
    ensures r <==> forall k :: 0 <= k < |busy| ==> !Overlapping(busy[k], event)
    decreases |busy|
  {
    busy == [] || (!Overlapping(busy[0], event) && EveryFree(busy[1..], event))
  }

  /** The event lies in the window, both ends inclusive. */
  predicate Contains(window: Interval, event: Interval) {
    Within(event.start, window) && Within(event.end, window)
  }

  /** `windows.some(w => isWithinInterval(event.start, w) && isWithinInterval(event.end, w))`. */
  function SomeContains(windows: seq<Interval>, event: Interval): (r: bool)
    ensures r <==> exists k :: 0 <= k < |windows| && Contains(windows[k], event)
    decreases |windows|
  {
    windows != [] && (Contains(windows[0], event) || SomeContains(windows[1..], event))
  }

  /** The filter callback: the event starting at `c` meets no busy interval and fits in a window of its day. */
  predicate Bookable(lib: DateLib, grouped: map<Weekday, seq<Window>>, timezone: string, duration: int,
                     busy: seq<Interval>, c: int)
    requires GroupsWellFormed(grouped)
    ensures Bookable(lib, grouped, timezone, duration, busy, c) ==>
      && FreeOf(busy, c, duration)
      && DayOfWeek(lib, c).Some? && DayOfWeek(lib, c).value in grouped
  {
    var event := Interval(c, c + duration);
    EveryFree(busy, event) && SomeContains(GetAvailabilities(lib, grouped, c, timezone), event)
  }

  /** `r` is `s` with some elements left out, the rest in their order. */
  predicate IsSubsequence(r: seq<int>, s: seq<int>)
    decreases |s|
  {
    r == [] || (s != [] && ((r[0] == s[0] && IsSubsequence(r[1..], s[1..])) || IsSubsequence(r, s[1..])))
  }

  /** `candidates.filter(...)`: keeps a subsequence of the candidates. */
  function FilterBookable(lib: DateLib, grouped: map<Weekday, seq<Window>>, timezone: string, duration: int,
                          busy: seq<Interval>, candidates: seq<int>): (r: seq<int>)
    requires GroupsWellFormed(grouped)
    ensures IsSubsequence(r, candidates)
    decreases |candidates|
  {
    if candidates == [] then []
    else
      var rest := FilterBookable(lib, grouped, timezone, duration, busy, candidates[1..]);
      if Bookable(lib, grouped, timezone, duration, busy, candidates[0]) then
        var r := [candidates[0]] + rest;
        assert r[1..] == rest;
        r
      else rest
  }

  /** The filter keeps exactly the bookable candidates, each as often as it came. */
  lemma {:induction false} FilterBookableCounts(lib: DateLib, grouped: map<Weekday, seq<Window>>, timezone: string,
                                                duration: int, busy: seq<Interval>, candidates: seq<int>, c: int)
    requires GroupsWellFormed(grouped)
    ensures var r := FilterBookable(lib, grouped, timezone, duration, busy, candidates);
      && multiset(r)[c] == (if Bookable(lib, grouped, timezone, duration, busy, c) then multiset(candidates)[c] else 0)
      && (c in r <==> c in candidates && Bookable(lib, grouped, timezone, duration, busy, c))
    decreases |candidates|
  {
    var r := FilterBookable(lib, grouped, timezone, duration, busy, candidates);
    if candidates != [] {
      var x, rest := candidates[0], candidates[1..];
      var kept := FilterBookable(lib, grouped, timezone, duration, busy, rest);
      FilterBookableCounts(lib, grouped, timezone, duration, busy, rest, c);
      assert candidates == [x] + rest;
      assert multiset(candidates) == multiset([x]) + multiset(rest);
      if Bookable(lib, grouped, timezone, duration, busy, x) {
        assert r == [x] + kept;
        assert multiset(r) == multiset([x]) + multiset(kept);
      } else {
        assert r == kept;
      }
    }
    assert c in r <==> multiset(r)[c] > 0;
    assert c in candidates <==> multiset(candidates)[c] > 0;
  }

  // ---------------------------------------------------------------------
  // The whole query

  /** The range the calendar is asked about: from the first to the last candidate. */
  function CalendarRange(candidates: seq<int>): Interval
    requires candidates != []
  {
    Interval(candidates[0], candidates[|candidates| - 1])
  }

  /**
   * The valid start times among `candidates` for an event of `duration`
   * minutes: nothing without candidates or without a schedule; otherwise the
   * calendar is asked once, for the whole candidate range, and the candidates
   * are filtered. `fetch` stands for the calendar query.
   */
  function ValidTimes(lib: DateLib, candidates: seq<int>, schedule: Option<Schedule>, duration: int,
                      fetch: Interval -> seq<Interval>): (r: seq<int>)
    requires schedule.Some? ==> AllWellFormed(schedule.value.availabilities)
    ensures candidates == [] || schedule.None? ==> r == []
    ensures IsSubsequence(r, candidates)
  {
    if candidates == [] then []
    else
      match schedule
      case None => []
      case Some(s) =>
        var grouped := GroupByDay(s.availabilities);
        GroupsOfWellFormedRows(s.availabilities);
        var busy := fetch(CalendarRange(candidates));
        FilterBookable(lib, grouped, s.timezone, duration, busy, candidates)
  }

  /** The event starting at `c` meets none of the busy intervals; touching ends are allowed. */
  predicate FreeOf(busy: seq<Interval>, c: int, duration: int) {
    forall k :: 0 <= k < |busy| ==> !(busy[k].start < c + duration && c < busy[k].end)
  }

  /** The event starting at `c` lies in the projection of `row` onto `c`'s date. */
  predicate Fits(lib: DateLib, timezone: string, c: int, duration: int, row: Window)
    requires WellFormed(row)
  {
    Contains(Project(lib, c, timezone, row), Interval(c, c + duration))
  }

  /**
   * The event starting at `c` fits, both ends inclusive, the projection onto
   * `c`'s date of some row of `c`'s host-local weekday.
   */
  predicate FitsSchedule(lib: DateLib, s: Schedule, c: int, duration: int)
    requires AllWellFormed(s.availabilities)
  {
    var day := DayOfWeek(lib, c);
    var rows := s.availabilities;
    day.Some? && exists j :: 0 <= j < |rows| && rows[j].dayOfWeek == day.value && Fits(lib, s.timezone, c, duration, rows[j])
  }

  /** A window of `windows`, one projection per row of `on`, holds the event iff a row of `on` does. */
  lemma {:induction false} ContainsIffSomeProjected(lib: DateLib, timezone: string, c: int, duration: int,
                                                    on: seq<Window>, windows: seq<Interval>)
    requires AllWellFormed(on)
    requires |windows| == |on|
    requires forall k :: 0 <= k < |windows| ==> windows[k] == Project(lib, c, timezone, on[k])
    ensures SomeContains(windows, Interval(c, c + duration)) <==>
      exists k :: 0 <= k < |on| && Fits(lib, timezone, c, duration, on[k])
  {
    if SomeContains(windows, Interval(c, c + duration)) {
      var k :| 0 <= k < |windows| && Contains(windows[k], Interval(c, c + duration));
      assert Fits(lib, timezone, c, duration, on[k]);
    }
  }

  /** The rows of one weekday of well-formed rows are well formed. */
  lemma RowsOnWellFormed(rows: seq<Window>, day: Weekday)
    requires AllWellFormed(rows)
    ensures AllWellFormed(RowsOn(rows, day))
  {
    var on := RowsOn(rows, day);
    RowsOnMembers(rows, day);
    forall k | 0 <= k < |on| ensures WellFormed(on[k]) {
      assert on[k] in on;
    }
  }

  /** A row of `on`, the rows of weekday `day`, fits iff a row of weekday `day` among `rows` does. */
  lemma {:induction false} SomeRowOfDay(lib: DateLib, timezone: string, c: int, duration: int,
                                        rows: seq<Window>, day: Weekday)
    requires AllWellFormed(rows)
    ensures AllWellFormed(RowsOn(rows, day))
    ensures (exists k :: 0 <= k < |RowsOn(rows, day)| && Fits(lib, timezone, c, duration, RowsOn(rows, day)[k])) <==>
      exists j :: 0 <= j < |rows| && rows[j].dayOfWeek == day && Fits(lib, timezone, c, duration, rows[j])
  {
    RowsOnWellFormed(rows, day);
    if exists k :: 0 <= k < |RowsOn(rows, day)| && Fits(lib, timezone, c, duration, RowsOn(rows, day)[k]) {
      var k :| 0 <= k < |RowsOn(rows, day)| && Fits(lib, timezone, c, duration, RowsOn(rows, day)[k]);
      RowOfDayIsRow(rows, day, k);
    }
    if exists j :: 0 <= j < |rows| && rows[j].dayOfWeek == day && Fits(lib, timezone, c, duration, rows[j]) {
      var j :| 0 <= j < |rows| && rows[j].dayOfWeek == day && Fits(lib, timezone, c, duration, rows[j]);
      RowIsRowOfDay(rows, day, j);
    }
  }

  lemma RowOfDayIsRow(rows: seq<Window>, day: Weekday, k: nat)
    requires k < |RowsOn(rows, day)|
    ensures exists j :: 0 <= j < |rows| && rows[j] == RowsOn(rows, day)[k] && rows[j].dayOfWeek == day
  {
    RowsOnMembers(rows, day);
    assert RowsOn(rows, day)[k] in RowsOn(rows, day);
  }

  lemma RowIsRowOfDay(rows: seq<Window>, day: Weekday, j: nat)
    requires j < |rows| && rows[j].dayOfWeek == day
    ensures exists k :: 0 <= k < |RowsOn(rows, day)| && RowsOn(rows, day)[k] == rows[j]
  {
    RowsOnMembers(rows, day);
    assert rows[j] in RowsOn(rows, day);
  }

  /** Some window of the date holds the event iff some row of its weekday does. */
  lemma ContainsIffSomeRow(lib: DateLib, s: Schedule, c: int, duration: int)
    requires AllWellFormed(s.availabilities)
    requires DayOfWeek(lib, c).Some?
    ensures GroupsWellFormed(GroupByDay(s.availabilities))
    ensures SomeContains(GetAvailabilities(lib, GroupByDay(s.availabilities), c, s.timezone), Interval(c, c + duration))
      <==> FitsSchedule(lib, s, c, duration)
  {
    var rows := s.availabilities;
    var day := DayOfWeek(lib, c).value;
    AvailabilitiesOfDay(lib, rows, c, s.timezone);
    SomeRowOfDay(lib, s.timezone, c, duration, rows, day);
    var windows := GetAvailabilities(lib, GroupByDay(rows), c, s.timezone);
    ContainsIffSomeProjected(lib, s.timezone, c, duration, RowsOn(rows, day), windows);
  }

  /** The filter callback holds iff the event is free of the calendar and fits the schedule. */
  lemma BookableIff(lib: DateLib, s: Schedule, duration: int, busy: seq<Interval>, c: int)
    requires AllWellFormed(s.availabilities)
    ensures GroupsWellFormed(GroupByDay(s.availabilities))
    ensures Bookable(lib, GroupByDay(s.availabilities), s.timezone, duration, busy, c) <==>
      FreeOf(busy, c, duration) && FitsSchedule(lib, s, c, duration)
  {
    GroupsOfWellFormedRows(s.availabilities);
    var event := Interval(c, c + duration);
    assert EveryFree(busy, event) <==> FreeOf(busy, c, duration);
    if DayOfWeek(lib, c).Some? {
      ContainsIffSomeRow(lib, s, c, duration);
    }
  }

  /**
   * A candidate is returned iff it is one of the candidates, its event meets
   * no busy interval of the calendar range, and it fits a window of its day.
   */
  lemma ValidTimesExactly(lib: DateLib, candidates: seq<int>, s: Schedule, duration: int,
                          fetch: Interval -> seq<Interval>, c: int)
    requires AllWellFormed(s.availabilities)
    ensures c in ValidTimes(lib, candidates, Some(s), duration, fetch) <==>
      && c in candidates
      && FreeOf(fetch(CalendarRange(candidates)), c, duration)
      && FitsSchedule(lib, s, c, duration)
  {
    if candidates != [] {
      BookableIff(lib, s, duration, fetch(CalendarRange(candidates)), c);
      GroupsOfWellFormedRows(s.availabilities);
      FilterBookableCounts(lib, GroupByDay(s.availabilities), s.timezone, duration, fetch(CalendarRange(candidates)), candidates, c);
    }
  }

  /** A candidate whose weekday is unknown or has no rows is never returned. */
  lemma NoRowsNoTimes(lib: DateLib, candidates: seq<int>, s: Schedule, duration: int,
                      fetch: Interval -> seq<Interval>, c: int)
    requires AllWellFormed(s.availabilities)
    requires DayOfWeek(lib, c).None? || RowsOn(s.availabilities, DayOfWeek(lib, c).value) == []
    ensures c !in ValidTimes(lib, candidates, Some(s), duration, fetch)
  {
    ValidTimesExactly(lib, candidates, s, duration, fetch, c);
    if DayOfWeek(lib, c).Some? {
      RowsOnMembers(s.availabilities, DayOfWeek(lib, c).value);
    }
  }

  /** The filter neither drops nor repeats a bookable candidate. */
  lemma ValidTimesCounts(lib: DateLib, candidates: seq<int>, s: Schedule, duration: int,
                         fetch: Interval -> seq<Interval>, c: int)
    requires AllWellFormed(s.availabilities)
    requires candidates != []
    ensures multiset(ValidTimes(lib, candidates, Some(s), duration, fetch))[c] ==
      if FreeOf(fetch(CalendarRange(candidates)), c, duration) && FitsSchedule(lib, s, c, duration)
      then multiset(candidates)[c] else 0
  {
    BookableIff(lib, s, duration, fetch(CalendarRange(candidates)), c);
    GroupsOfWellFormedRows(s.availabilities);
    FilterBookableCounts(lib, GroupByDay(s.availabilities), s.timezone, duration, fetch(CalendarRange(candidates)), candidates, c);
  }

  // ---------------------------------------------------------------------
  // The code as written, when no schedule is stored

  /** What the schedule lookup yields: a schedule, `null`, or `undefined` (no row). */
  datatype ScheduleLookup = Found(schedule: Schedule) | NullRow | NoRow

  /** The outcome of the code as written: the times, or the `TypeError` thrown by `undefined.availabilities`. */
  datatype Outcome = Times(times: seq<int>) | TypeError

  /**
   * The query as written: only `null` counts as "no schedule", so an
   * `undefined` lookup reaches `schedule.availabilities` and throws.
   */
  function ValidTimesAsWritten(lib: DateLib, candidates: seq<int>, lookup: ScheduleLookup, duration: int,
                               fetch: Interval -> seq<Interval>): (r: Outcome)
    requires lookup.Found? ==> AllWellFormed(lookup.schedule.availabilities)
    ensures r.TypeError? <==> candidates != [] && lookup.NoRow?
    ensures r.Times? ==> IsSubsequence(r.times, candidates)
  {
    if candidates == [] then Times([])
    else
      match lookup
      case NullRow => Times([])
      case NoRow => TypeError
      case Found(s) =>
        var grouped := GroupByDay(s.availabilities);
        GroupsOfWellFormedRows(s.availabilities);
        var busy := fetch(CalendarRange(candidates));
        Times(FilterBookable(lib, grouped, s.timezone, duration, busy, candidates))
  }

  /** With no stored schedule and some candidates, the code as written fails instead of returning no times. */
  lemma MissingScheduleThrows(lib: DateLib, candidates: seq<int>, duration: int, fetch: Interval -> seq<Interval>)
    requires candidates != []
    ensures ValidTimesAsWritten(lib, candidates, NoRow, duration, fetch) == TypeError
    ensures ValidTimes(lib, candidates, None, duration, fetch) == []
  {
  }

  /** Whenever the lookup is not `undefined`, the code as written agrees with `ValidTimes`. */
  lemma AsWrittenAgreesOtherwise(lib: DateLib, candidates: seq<int>, lookup: ScheduleLookup, duration: int,
                                 fetch: Interval -> seq<Interval>)
    requires lookup.Found? ==> AllWellFormed(lookup.schedule.availabilities)
    requires !lookup.NoRow?
    ensures ValidTimesAsWritten(lib, candidates, lookup, duration, fetch) ==
      Times(ValidTimes(lib, candidates, if lookup.Found? then Some(lookup.schedule) else None, duration, fetch))
  {
  }
}
