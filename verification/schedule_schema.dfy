/**
 * The weekly-schedule form schema: a timezone and a list of availability
 * windows, each a weekday with a start and an end time of day. Besides the
 * per-field checks, a refinement walks the windows in index order and
 * records an issue for every window whose end is not after its start (twice,
 * as the code does) and for every window that intersects another window of
 * the same weekday.
 */
module ScheduleSchema {

  import opened TimeOfDay

  datatype Weekday = Monday | Tuesday | Wednesday | Thursday | Friday | Saturday | Sunday

  datatype Window = Window(dayOfWeek: Weekday, startTime: string, endTime: string)

  datatype TimeField = StartTime | EndTime

  /** Where an issue points: the timezone field, or one time field of one window. */
  datatype Path = TimezonePath | AvailabilityPath(index: nat, field: TimeField)

  /** The messages the schema attaches to its issues; `MessageText` gives their wording. */
  datatype Message = Required | TimeFormat | EndBeforeStart | Overlaps

  datatype Issue = Issue(path: Path, message: Message)

  function MessageText(m: Message): string {
    match m
    case Required => "Require"
    case TimeFormat => "Time must be in the format HH:MM"
    case EndBeforeStart => "End time must be after start time"
    case Overlaps => "Availability overlaps with another"
  }

  /** The schema's wordings; no two messages share one. */
  lemma MessageTexts()
    ensures MessageText(Required) == "Require"
    ensures MessageText(TimeFormat) == "Time must be in the format HH:MM"
    ensures MessageText(EndBeforeStart) == "End time must be after start time"
    ensures MessageText(Overlaps) == "Availability overlaps with another"
    ensures forall m, n :: MessageText(m) == MessageText(n) ==> m == n
  {
    assert "Require"[0] == 'R' && "Time must be in the format HH:MM"[0] == 'T';
    assert "End time must be after start time"[0] == 'E' && "Availability overlaps with another"[0] == 'A';
  }

  function EndIssue(index: nat): Issue {
    Issue(AvailabilityPath(index, EndTime), EndBeforeStart)
  }

  function OverlapIssue(index: nat): Issue {
    Issue(AvailabilityPath(index, StartTime), Overlaps)
  }

  predicate WellFormed(w: Window) {
    IsTimeOfDay(w.startTime) && IsTimeOfDay(w.endTime)
  }

  predicate AllWellFormed(ws: seq<Window>) {
    forall i :: 0 <= i < |ws| ==> WellFormed(ws[i])
  }

  /**
   * A window as the refinement compares it: its weekday and the numbers the
   * time helper gives for its start and end.
   */
  datatype Span = Span(day: Weekday, start: real, end: real)

  /** The window as seen through the time helper `timeToFloat`. */
  function SpanBy(w: Window, timeToFloat: string -> real): Span {
    Span(w.dayOfWeek, timeToFloat(w.startTime), timeToFloat(w.endTime))
  }

  function SpansBy(ws: seq<Window>, timeToFloat: string -> real): (r: seq<Span>)
    ensures |r| == |ws|
    ensures forall i :: 0 <= i < |ws| ==> r[i] == SpanBy(ws[i], timeToFloat)
  {
    seq(|ws|, i requires 0 <= i < |ws| => SpanBy(ws[i], timeToFloat))
  }

  /** A well-formed window with its times as minutes since midnight. */
  function SpanOf(w: Window): Span
    requires WellFormed(w)
  {
    Span(w.dayOfWeek, Minutes(w.startTime) as real, Minutes(w.endTime) as real)
  }

  function Spans(ws: seq<Window>): (r: seq<Span>)
    requires AllWellFormed(ws)
    ensures |r| == |ws|
    ensures forall i :: 0 <= i < |ws| ==> r[i] == SpanOf(ws[i])
  {
    seq(|ws|, i requires 0 <= i < |ws| => SpanOf(ws[i]))
  }

  /**
   * Window `other` intersects window `w`: same weekday, and the half-open
   * ranges [start, end) meet (the test inside `some`, without `i !== index`).
   */
  predicate Intersects(other: Span, w: Span) {
    other.day == w.day && other.start < w.end && other.end > w.start
  }

  /** Window `k` is another window than `i` and intersects it. */
  predicate Conflicts(ss: seq<Span>, k: nat, i: nat)
    requires k < |ss| && i < |ss|
  {
    k != i && Intersects(ss[k], ss[i])
  }

  predicate EndNotAfterStart(w: Span) {
    w.start >= w.end
  }

  /**
   * `availabilities.some(...)` for window `index`, scanning from position `j`:
   * some other window at or after `j` intersects it.
   */
  function OverlapsFrom(ss: seq<Span>, index: nat, j: nat): (r: bool)
    requires index < |ss| && j <= |ss|
    ensures r <==> exists k :: j <= k < |ss| && Conflicts(ss, k, index)
    decreases |ss| - j
  {
    j < |ss| && (Conflicts(ss, j, index) || OverlapsFrom(ss, index, j + 1))
  }

  /** The issues one iteration of the refinement records for window `i`. */
  function WindowIssues(ss: seq<Span>, i: nat): seq<Issue>
    requires i < |ss|
  {
    var endCheck := if EndNotAfterStart(ss[i]) then [EndIssue(i)] else [];
    endCheck + (if OverlapsFrom(ss, i, 0) then [OverlapIssue(i)] else []) + endCheck
  }

  /** `ctx.addIssue(issue)` when `condition` holds. */
  function Record(issues: seq<Issue>, condition: bool, issue: Issue): seq<Issue> {
    if condition then issues + [issue] else issues
  }

  /** The issues recorded after the first `n` iterations, one `addIssue` at a time. */
  function IssuesBefore(ss: seq<Span>, n: nat): seq<Issue>
    requires n <= |ss|
  {
    if n == 0 then []
    else
      var i := n - 1;
      var afterEnd := Record(IssuesBefore(ss, i), EndNotAfterStart(ss[i]), EndIssue(i));
      var afterOverlap := Record(afterEnd, OverlapsFrom(ss, i, 0), OverlapIssue(i));
      Record(afterOverlap, EndNotAfterStart(ss[i]), EndIssue(i))
  }

  /** Iteration `n - 1` appends exactly the issues of window `n - 1`. */
  lemma IssuesBeforeStep(ss: seq<Span>, n: nat)
    requires 0 < n <= |ss|
    ensures IssuesBefore(ss, n) == IssuesBefore(ss, n - 1) + WindowIssues(ss, n - 1)
  {
  }

  function RefinementIssues(ss: seq<Span>): seq<Issue> {
    IssuesBefore(ss, |ss|)
  }

  /** A schedule the refinement accepts: every window ends after it starts and no two same-day windows meet. */
  predicate Consistent(ss: seq<Span>) {
    && (forall i :: 0 <= i < |ss| ==> ss[i].start < ss[i].end)
    && (forall i, j :: 0 <= i < |ss| && 0 <= j < |ss| ==> !Conflicts(ss, j, i))
  }

  /**
   * The refinement, given every window's times as minutes: for each window in
   * index order, record the end-after-start issue, the overlap issue, and the
   * end-after-start issue again.
   */
  method RefineAvailabilities(spans: seq<Span>) returns (issues: seq<Issue>)
    ensures issues == RefinementIssues(spans)
  {
    issues := [];
    var index := 0;
    while index < |spans|
      invariant 0 <= index <= |spans|
      invariant issues == IssuesBefore(spans, index)
    {
      var availability := spans[index];
      var overlaps := OverlapsFrom(spans, index, 0);
      if availability.start >= availability.end {
        issues := issues + [EndIssue(index)];
      }
      if overlaps {
        issues := issues + [OverlapIssue(index)];
      }
      if availability.start >= availability.end {
        issues := issues + [EndIssue(index)];
      }
      index := index + 1;
    }
  }

  // ---------------------------------------------------------------------
  // The issues of one window

  /** The issues among `s` that point at window `i`, in their order in `s`. */
  function OfIndex(s: seq<Issue>, i: nat): seq<Issue> {
    if s == [] then []
    else (if PointsAt(s[0], i) then [s[0]] else []) + OfIndex(s[1..], i)
  }

  predicate PointsAt(x: Issue, i: nat) {
    x.path.AvailabilityPath? && x.path.index == i
  }

  lemma {:induction false} OfIndexConcat(a: seq<Issue>, b: seq<Issue>, i: nat)
    ensures OfIndex(a + b, i) == OfIndex(a, i) + OfIndex(b, i)
    decreases |a|
  {
    if a == [] {
      assert a + b == b;
    } else {
      var c := a + b;
      var head := if PointsAt(a[0], i) then [a[0]] else [];
      assert c[0] == a[0];
      assert c[1..] == a[1..] + b;
      OfIndexConcat(a[1..], b, i);
      assert OfIndex(c, i) == head + (OfIndex(a[1..], i) + OfIndex(b, i));
      assert OfIndex(a, i) == head + OfIndex(a[1..], i);
      assert head + (OfIndex(a[1..], i) + OfIndex(b, i)) == (head + OfIndex(a[1..], i)) + OfIndex(b, i);
    }
  }

  lemma {:induction false} OfIndexUniform(s: seq<Issue>, k: nat, i: nat)
    requires forall p :: 0 <= p < |s| ==> PointsAt(s[p], k)
    ensures OfIndex(s, i) == if i == k then s else []
    decreases |s|
  {
    if s != [] {
      OfIndexUniform(s[1..], k, i);
      if i == k {
        assert s == [s[0]] + s[1..];
      }
    }
  }

  /** Every issue iteration `i` records points at window `i`. */
  lemma WindowIssuesPointAt(ss: seq<Span>, i: nat)
    requires i < |ss|
    ensures forall p :: 0 <= p < |WindowIssues(ss, i)| ==> PointsAt(WindowIssues(ss, i)[p], i)
  {
  }

  /** Every issue the first `n` iterations record points at a window before `n`. */
  lemma {:induction false} IssuesBeforePointBelow(ss: seq<Span>, n: nat)
    requires n <= |ss|
    ensures forall p :: 0 <= p < |IssuesBefore(ss, n)| ==>
      IssuesBefore(ss, n)[p].path.AvailabilityPath? && IssuesBefore(ss, n)[p].path.index < n
  {
    if n > 0 {
      var a: seq<Issue>, b: seq<Issue> := IssuesBefore(ss, n - 1), WindowIssues(ss, n - 1);
      IssuesBeforePointBelow(ss, n - 1);
      WindowIssuesPointAt(ss, n - 1);
      IssuesBeforeStep(ss, n);
      forall p | 0 <= p < |a + b|
        ensures (a + b)[p].path.AvailabilityPath? && (a + b)[p].path.index < n
      {
        if p < |a| {
          assert (a + b)[p] == a[p];
        } else {
          assert (a + b)[p] == b[p - |a|];
        }
      }
    }
  }

  /** Appending issues that all point at window `k` adds them to window `k`'s issues and to no other window's. */
  lemma OfIndexAppendWindow(prev: seq<Issue>, last: seq<Issue>, k: nat, i: nat)
    requires forall p :: 0 <= p < |last| ==> PointsAt(last[p], k)
    ensures OfIndex(prev + last, i) == OfIndex(prev, i) + (if i == k then last else [])
  {
    OfIndexConcat(prev, last, i);
    OfIndexUniform(last, k, i);
  }

  /** Iteration `n - 1` adds issues for window `n - 1` only. */
  lemma OfIndexStep(ss: seq<Span>, n: nat, i: nat)
    requires 0 < n <= |ss|
    ensures OfIndex(IssuesBefore(ss, n), i) ==
      OfIndex(IssuesBefore(ss, n - 1), i) + (if i == n - 1 then WindowIssues(ss, n - 1) else [])
  {
    IssuesBeforeStep(ss, n);
    WindowIssuesPointAt(ss, n - 1);
    OfIndexAppendWindow(IssuesBefore(ss, n - 1), WindowIssues(ss, n - 1), n - 1, i);
  }

  /**
   * The issues pointing at window `i` are exactly what iteration `i` records,
   * in its order: end check, overlap, end check.
   */
  lemma {:induction false} IssuesOfWindow(ss: seq<Span>, n: nat, i: nat)
    requires n <= |ss|
    ensures OfIndex(IssuesBefore(ss, n), i) == if i < n then WindowIssues(ss, i) else []
  {
    if n > 0 {
      IssuesOfWindow(ss, n - 1, i);
      OfIndexStep(ss, n, i);
      var before: seq<Issue> := OfIndex(IssuesBefore(ss, n - 1), i);
      var added: seq<Issue> := if i == n - 1 then WindowIssues(ss, n - 1) else [];
      assert OfIndex(IssuesBefore(ss, n), i) == before + added;
      if i == n - 1 {
        assert before == [];
        assert before + added == added;
      } else {
        assert added == [];
        assert before + added == before;
      }
    }
  }

  /** An issue pointing at window `i` occurs in `s` as often as in the issues of `s` that point at `i`. */
  lemma {:induction false} CountInOfIndex(s: seq<Issue>, i: nat, x: Issue)
    requires PointsAt(x, i)
    ensures multiset(OfIndex(s, i))[x] == multiset(s)[x]
    decreases |s|
  {
    if s != [] {
      CountInOfIndex(s[1..], i, x);
      assert s == [s[0]] + s[1..];
    }
  }

  /** The issues for window `i`, in order, as the refinement records them. */
  lemma WindowIssueOrder(ss: seq<Span>, i: nat)
    requires i < |ss|
    ensures OfIndex(RefinementIssues(ss), i) ==
      (if EndNotAfterStart(ss[i]) then [EndIssue(i)] else [])
      + (if OverlapsFrom(ss, i, 0) then [OverlapIssue(i)] else [])
      + (if EndNotAfterStart(ss[i]) then [EndIssue(i)] else [])
  {
    IssuesOfWindow(ss, |ss|, i);
  }

  // ---------------------------------------------------------------------
  // The properties of the refinement

  /**
   * Window `i` gets an overlap issue on its start time iff another window of
   * the same weekday intersects it.
   */
  lemma OverlapIssueIff(ss: seq<Span>, i: nat)
    requires i < |ss|
    ensures OverlapIssue(i) in RefinementIssues(ss) <==>
      exists j :: 0 <= j < |ss| && Conflicts(ss, j, i)
  {
    IssuesOfWindow(ss, |ss|, i);
    CountInOfIndex(RefinementIssues(ss), i, OverlapIssue(i));
    assert OverlapIssue(i) in RefinementIssues(ss) <==> OverlapIssue(i) in WindowIssues(ss, i);
  }

  /** A window whose end is not after its start gets exactly two end-time issues; any other window none. */
  lemma EndIssueCount(ss: seq<Span>, i: nat)
    requires i < |ss|
    ensures multiset(RefinementIssues(ss))[EndIssue(i)] == if EndNotAfterStart(ss[i]) then 2 else 0
  {
    IssuesOfWindow(ss, |ss|, i);
    CountInOfIndex(RefinementIssues(ss), i, EndIssue(i));
  }

  /** Intersection is symmetric. */
  lemma IntersectsSymmetric(a: Span, b: Span)
    ensures Intersects(a, b) <==> Intersects(b, a)
  {
  }

  /** Both windows of an intersecting pair get an overlap issue. */
  lemma OverlapReportedForBoth(ss: seq<Span>, i: nat, j: nat)
    requires i < |ss| && j < |ss| && i != j
    requires Intersects(ss[j], ss[i])
    ensures OverlapIssue(i) in RefinementIssues(ss) && OverlapIssue(j) in RefinementIssues(ss)
  {
    OverlapIssueIff(ss, i);
    OverlapIssueIff(ss, j);
    IntersectsSymmetric(ss[j], ss[i]);
    assert Conflicts(ss, j, i) && Conflicts(ss, i, j);
  }

  /** Windows that only touch, or lie on different weekdays, never intersect. */
  lemma TouchingOrOtherDayDisjoint(a: Span, b: Span)
    requires a.day != b.day || a.end == b.start || b.end == a.start
    ensures !Intersects(a, b) && !Intersects(b, a)
  {
  }

  /** Every issue points at a window, and the windows pointed at never decrease. */
  predicate InWindowOrder(s: seq<Issue>) {
    forall p, q :: 0 <= p <= q < |s| ==>
      s[p].path.AvailabilityPath? && s[q].path.AvailabilityPath? && s[p].path.index <= s[q].path.index
  }

  /** Issues in window order, followed by issues for a later window `k`, stay in window order. */
  lemma InWindowOrderAppend(a: seq<Issue>, b: seq<Issue>, k: nat)
    requires InWindowOrder(a)
    requires forall p :: 0 <= p < |a| ==> a[p].path.AvailabilityPath? && a[p].path.index < k
    requires forall p :: 0 <= p < |b| ==> PointsAt(b[p], k)
    ensures InWindowOrder(a + b)
  {
    var c := a + b;
    forall p, q | 0 <= p <= q < |c|
      ensures c[p].path.AvailabilityPath? && c[q].path.AvailabilityPath? && c[p].path.index <= c[q].path.index
    {
      if q < |a| {
        assert c[p] == a[p] && c[q] == a[q];
      } else if p < |a| {
        assert c[p] == a[p] && c[q] == b[q - |a|];
      } else {
        assert c[p] == b[p - |a|] && c[q] == b[q - |a|];
      }
    }
  }

  /** The issues come in window index order. */
  lemma {:induction false} IssuesInIndexOrder(ss: seq<Span>, n: nat)
    requires n <= |ss|
    ensures InWindowOrder(IssuesBefore(ss, n))
  {
    if n > 0 {
      IssuesInIndexOrder(ss, n - 1);
      IssuesBeforePointBelow(ss, n - 1);
      IssuesBeforeStep(ss, n);
      WindowIssuesPointAt(ss, n - 1);
      InWindowOrderAppend(IssuesBefore(ss, n - 1), WindowIssues(ss, n - 1), n - 1);
    }
  }

  /** The first `n` iterations record nothing iff none of them records anything. */
  lemma {:induction false} NoIssuesBefore(ss: seq<Span>, n: nat)
    requires n <= |ss|
    ensures IssuesBefore(ss, n) == [] <==> forall i :: 0 <= i < n ==> WindowIssues(ss, i) == []
  {
    if n > 0 {
      NoIssuesBefore(ss, n - 1);
      IssuesBeforeStep(ss, n);
    }
  }

  /** The refinement records nothing iff the schedule is consistent. */
  lemma NoIssuesIffConsistent(ss: seq<Span>)
    ensures RefinementIssues(ss) == [] <==> Consistent(ss)
  {
    NoIssuesBefore(ss, |ss|);
    forall i | 0 <= i < |ss|
      ensures WindowIssues(ss, i) == [] <==> !EndNotAfterStart(ss[i]) && !OverlapsFrom(ss, i, 0)
    {
    }
  }

  // ---------------------------------------------------------------------
  // Independence from the time encoding

  /** `ss` and `tt` describe the same windows up to an encoding of times that keeps every comparison. */
  predicate SameComparisons(ss: seq<Span>, tt: seq<Span>) {
    && |ss| == |tt|
    && (forall i :: 0 <= i < |ss| ==> (EndNotAfterStart(ss[i]) <==> EndNotAfterStart(tt[i])))
    && (forall k, i :: 0 <= k < |ss| && 0 <= i < |ss| ==> (Conflicts(ss, k, i) <==> Conflicts(tt, k, i)))
  }

  lemma {:induction false} SameComparisonsSameIssuesBefore(ss: seq<Span>, tt: seq<Span>, n: nat)
    requires SameComparisons(ss, tt) && n <= |ss|
    ensures IssuesBefore(ss, n) == IssuesBefore(tt, n)
  {
    if n > 0 {
      SameComparisonsSameIssuesBefore(ss, tt, n - 1);
      assert OverlapsFrom(ss, n - 1, 0) == OverlapsFrom(tt, n - 1, 0);
    }
  }

  /** The refinement depends only on how the times compare. */
  lemma SameComparisonsSameIssues(ss: seq<Span>, tt: seq<Span>)
    requires SameComparisons(ss, tt)
    ensures RefinementIssues(ss) == RefinementIssues(tt)
  {
    SameComparisonsSameIssuesBefore(ss, tt, |ss|);
  }

  /** `timeToFloat` orders well-formed times as the clock does. */
  ghost predicate ClockOrdered(timeToFloat: string -> real) {
    forall s, t :: IsTimeOfDay(s) && IsTimeOfDay(t) ==> (timeToFloat(s) < timeToFloat(t) <==> Minutes(s) < Minutes(t))
  }

  /**
   * On well-formed windows, any time helper that orders times as the clock
   * does makes the refinement record what minutes since midnight make it record.
   */
  lemma ClockOrderedSameIssues(ws: seq<Window>, timeToFloat: string -> real)
    requires AllWellFormed(ws) && ClockOrdered(timeToFloat)
    ensures RefinementIssues(SpansBy(ws, timeToFloat)) == RefinementIssues(Spans(ws))
  {
    var ss, tt := SpansBy(ws, timeToFloat), Spans(ws);
    forall i | 0 <= i < |ss|
      ensures EndNotAfterStart(ss[i]) <==> EndNotAfterStart(tt[i])
    {
      assert WellFormed(ws[i]);
    }
    forall k, i | 0 <= k < |ss| && 0 <= i < |ss|
      ensures Conflicts(ss, k, i) <==> Conflicts(tt, k, i)
    {
      assert WellFormed(ws[k]) && WellFormed(ws[i]);
    }
    SameComparisonsSameIssues(ss, tt);
  }

  // ---------------------------------------------------------------------
  // The whole form

  function TimezoneIssues(timezone: string): seq<Issue> {
    if |timezone| < 1 then [Issue(TimezonePath, Required)] else []
  }

  /** The pattern issues of the first `n` windows: start time, then end time, window by window. */
  function FormatIssues(ws: seq<Window>, n: nat): (r: seq<Issue>)
    requires n <= |ws|
    ensures r == [] <==> forall i :: 0 <= i < n ==> WellFormed(ws[i])
  {
    if n == 0 then []
    else
      FormatIssues(ws, n - 1)
      + (if IsTimeOfDay(ws[n - 1].startTime) then [] else [Issue(AvailabilityPath(n - 1, StartTime), TimeFormat)])
      + (if IsTimeOfDay(ws[n - 1].endTime) then [] else [Issue(AvailabilityPath(n - 1, EndTime), TimeFormat)])
  }

  /**
   * The issues of the whole schedule form: the timezone issue, the pattern
   * issues of every window, then the refinement's issues, which it records
   * whatever the pattern checks found. `timeToFloat` is the project's time helper.
   */
  function FormIssues(timezone: string, ws: seq<Window>, timeToFloat: string -> real): seq<Issue> {
    TimezoneIssues(timezone) + FormatIssues(ws, |ws|) + RefinementIssues(SpansBy(ws, timeToFloat))
  }

  /**
   * With a time helper that orders times as the clock does, the form raises no
   * issue iff the timezone is non-empty, every time is well formed and the
   * windows are consistent.
   */
  lemma FormIssuesEmptyIff(timezone: string, ws: seq<Window>, timeToFloat: string -> real)
    ensures ClockOrdered(timeToFloat) ==>
      (FormIssues(timezone, ws, timeToFloat) == [] <==> |timezone| >= 1 && AllWellFormed(ws) && Consistent(Spans(ws)))
  {
    if ClockOrdered(timeToFloat) && AllWellFormed(ws) {
      ClockOrderedSameIssues(ws, timeToFloat);
      NoIssuesIffConsistent(Spans(ws));
    }
  }

  /** Validates the form: the refinement loop runs after the field checks. */
  method ValidateSchedule(timezone: string, ws: seq<Window>, timeToFloat: string -> real) returns (issues: seq<Issue>)
    ensures issues == FormIssues(timezone, ws, timeToFloat)
  {
    var formatIssues := FormatIssues(ws, |ws|);
    var refinement := RefineAvailabilities(SpansBy(ws, timeToFloat));
    issues := TimezoneIssues(timezone) + formatIssues + refinement;
  }
}
