/** The segment builder of the TimeLine component (src/index.tsx): the
    shifts are sorted in place by start time, walked left to right with a
    `previousEnd` cursor that emits a non-working gap before every shift
    that starts after it and one working segment per shift, and the day is
    closed with a trailing gap; the gridline hours are computed beside. */
module TimeLine {
  import opened JsNumbers
  import opened Utils
  import opened Shifts
  import opened StableSort

  /** The order `workingHours.sort(...)` leaves the shifts in. */
  function SortByStart(s: seq<Shift>): seq<Shift> {
    SortBy(s, StartKey)
  }

  /** Where a shift's working segment begins, in percent of the day. */
  function StartPercent(h: Shift): real {
    (ParseTime(h.start) / 24.0) * 100.0
  }

  /** How wide a shift's working segment is, in percent of the day. */
  function WidthPercent(h: Shift): real {
    CalculatePercentage(h.start, h.end)
  }

  /** `previousEnd` when the walk reaches shift `k` of `s`: 0 before the
      first shift, then where the previous shift's segment ends. */
  function CursorBefore(s: seq<Shift>, k: nat): real
    requires k <= |s|
  {
    if k == 0 then 0.0 else StartPercent(s[k - 1]) + WidthPercent(s[k - 1])
  }

  /** The non-working segment from `from` to `to`, its tooltip the caption
      and the length of the gap in minutes. */
  function GapSegment(from: real, to: real, caption: string): Segment {
    var nonWorkingDuration := (to - from) * (24.0 / 100.0) * 60.0;
    Segment(NonWorking, from, to - from, caption + " (" + FormatDuration(nonWorkingDuration) + ")", None)
  }

  /** The working segment of a shift, tooltip "<start> - <end>: <title>". */
  function WorkingSegment(h: Shift, props: Props, formatTime: TimeFormatter): Segment {
    Segment(Working, StartPercent(h), WidthPercent(h),
      formatTime(h.start, props.timeFormat) + " - " + formatTime(h.end, props.timeFormat) + ": " + h.title,
      h.status)
  }

  /** What one step of the walk pushes for shift `h` at cursor `previousEnd`. */
  function ShiftSegments(h: Shift, previousEnd: real, props: Props, formatTime: TimeFormatter): seq<Segment> {
    (if StartPercent(h) > previousEnd then [GapSegment(previousEnd, StartPercent(h), props.notWorkingCaption)] else [])
    + [WorkingSegment(h, props, formatTime)]
  }

  /** The segments the walk has pushed after visiting the first `k` shifts
      of `s`. */
  function Walk(s: seq<Shift>, k: nat, props: Props, formatTime: TimeFormatter): seq<Segment>
    requires k <= |s|
  {
    if k == 0 then []
    else Walk(s, k - 1, props, formatTime) + ShiftSegments(s[k - 1], CursorBefore(s, k - 1), props, formatTime)
  }

  /** Before the first shift the walk has pushed nothing and the cursor is
      at 0. */
  lemma WalkStart(s: seq<Shift>, props: Props, formatTime: TimeFormatter)
    ensures Walk(s, 0, props, formatTime) == [] && CursorBefore(s, 0) == 0.0
  {
  }

  /** Shift `k - 1` visited: the walk has appended that shift's step and the
      cursor has moved to where its segment ends. */
  lemma WalkNext(s: seq<Shift>, k: nat, props: Props, formatTime: TimeFormatter)
    requires 0 < k <= |s|
    ensures Walk(s, k, props, formatTime) == Walk(s, k - 1, props, formatTime) + ShiftSegments(s[k - 1], CursorBefore(s, k - 1), props, formatTime)
    ensures CursorBefore(s, k) == StartPercent(s[k - 1]) + WidthPercent(s[k - 1])
  {
  }

  /** The loop step of `WalkShifts`: the pair the callback returns is the
      walk and the cursor one shift further. */
  lemma WalkAdvance(s: seq<Shift>, i: nat, props: Props, formatTime: TimeFormatter,
                    before: seq<Segment>, cursor: real, after: seq<Segment>, end: real)
    requires i < |s|
    requires before == Walk(s, i, props, formatTime) && cursor == CursorBefore(s, i)
    requires after == before + ShiftSegments(s[i], cursor, props, formatTime)
    requires end == StartPercent(s[i]) + WidthPercent(s[i])
    ensures after == Walk(s, i + 1, props, formatTime) && end == CursorBefore(s, i + 1)
  {
    WalkNext(s, i + 1, props, formatTime);
  }

  /** The gap that closes the day when the cursor stops short of 100. */
  function Trailing(previousEnd: real, caption: string): seq<Segment> {
    if previousEnd < 100.0 then [GapSegment(previousEnd, 100.0, caption)] else []
  }

  /** All segments drawn for the shifts `s`, taken in the given order. */
  function Segments(s: seq<Shift>, props: Props, formatTime: TimeFormatter): seq<Segment> {
    Walk(s, |s|, props, formatTime) + Trailing(CursorBefore(s, |s|), props.notWorkingCaption)
  }

  /** `intervalHours`: 4 for "md", 2 otherwise. */
  function IntervalHours(breakpoint: Breakpoint): (step: int)
    ensures step == 2 || step == 4
  {
    if breakpoint == Md then 4 else 2
  }

  /** `Array.from({length: 24 / intervalHours + 1}, (_, i) => i * intervalHours).slice(1, -1)`:
      the gridline hours, the multiples of the interval strictly inside the
      day, in ascending order. */
  function Intervals(breakpoint: Breakpoint): (hours: seq<int>)
    ensures forall i, j :: 0 <= i < j < |hours| ==> hours[i] < hours[j]
    ensures forall i :: 0 <= i < |hours| ==> 0 < hours[i] < 24 && hours[i] % IntervalHours(breakpoint) == 0
    ensures forall h :: 0 < h < 24 && h % IntervalHours(breakpoint) == 0 ==> h in hours
  {
    var step := IntervalHours(breakpoint);
    var all := seq(24 / step + 1, i => i * step);
    var hours := all[1..|all| - 1];
    assert forall i :: 0 <= i < |hours| ==> hours[i] == (i + 1) * step;
    assert forall h :: 0 < h < 24 && h % step == 0 ==> hours[h / step - 1] == h;
    hours
  }

  /** The text whose clock time labels the gridline at `hour`:
      `${String(hour).padStart(2, "0")}:00`. */
  function IntervalTime(hour: nat): string {
    PadStart2(NatToString(hour)) + ":00"
  }

  /** What the component shows for an empty (or absent) shift list: one
      non-working block over the whole bar whose text is the caption, and no
      gridlines. */
  function EmptyView(caption: string): View {
    View([Segment(NonWorking, 0.0, 100.0, caption, None)], [])
  }

  /** The view for the shifts `workingHours` as the caller passed them. */
  function ExpectedView(workingHours: seq<Shift>, props: Props, formatTime: TimeFormatter): View {
    if workingHours == [] then EmptyView(props.notWorkingCaption)
    else View(Segments(SortByStart(workingHours), props, formatTime), Intervals(props.breakpoint))
  }

  /** The `forEach` callback: the gap before `shift` if it starts after
      the cursor, then its working segment; returns the captured
      `allSegments` and `previousEnd` as the callback leaves them. */
  method VisitShift(shift: Shift, allSegments: seq<Segment>, previousEnd: real, props: Props, formatTime: TimeFormatter)
    returns (segments: seq<Segment>, end: real)
    ensures segments == allSegments + ShiftSegments(shift, previousEnd, props, formatTime)
    ensures end == StartPercent(shift) + WidthPercent(shift)
  {
    var startPercent := (ParseTime(shift.start) / 24.0) * 100.0;
    var widthPercent := CalculatePercentage(shift.start, shift.end);
    segments := allSegments;
    if startPercent > previousEnd {
      var nonWorkingDuration := (startPercent - previousEnd) * (24.0 / 100.0) * 60.0;
      segments := segments + [Segment(NonWorking, previousEnd, startPercent - previousEnd,
        props.notWorkingCaption + " (" + FormatDuration(nonWorkingDuration) + ")", None)];
    }
    segments := segments + [Segment(Working, startPercent, widthPercent,
      formatTime(shift.start, props.timeFormat) + " - " + formatTime(shift.end, props.timeFormat) + ": " + shift.title,
      shift.status)];
    end := startPercent + widthPercent;
  }

  /** The walk over the (already sorted) shifts and the trailing gap. */
  method BuildSegments(shifts: array<Shift>, props: Props, formatTime: TimeFormatter)
    returns (allSegments: seq<Segment>)
    ensures allSegments == Segments(shifts[..], props, formatTime)
  {
    var previousEnd;
    allSegments, previousEnd := WalkShifts(shifts, props, formatTime);
    allSegments := CloseDay(allSegments, previousEnd, props.notWorkingCaption);
  }

  /** The `forEach` over the sorted shifts, from an empty `allSegments` and
      `previousEnd = 0`. */
  method WalkShifts(shifts: array<Shift>, props: Props, formatTime: TimeFormatter)
    returns (allSegments: seq<Segment>, previousEnd: real)
    ensures allSegments == Walk(shifts[..], shifts.Length, props, formatTime)
    ensures previousEnd == CursorBefore(shifts[..], shifts.Length)
  {
    allSegments := [];
    previousEnd := 0.0;
    ghost var s := shifts[..];
    var i := 0;
    while i < shifts.Length
      invariant 0 <= i <= shifts.Length
      invariant previousEnd == CursorBefore(s, i)
      invariant allSegments == Walk(s, i, props, formatTime)
    {
      assert shifts[i] == s[i];
      ghost var before, cursor := allSegments, previousEnd;
      allSegments, previousEnd := VisitShift(shifts[i], allSegments, previousEnd, props, formatTime);
      WalkAdvance(s, i, props, formatTime, before, cursor, allSegments, previousEnd);
      i := i + 1;
    }
  }

  /** The trailing gap: appended when the cursor stops short of 100. */
  method CloseDay(allSegments: seq<Segment>, previousEnd: real, caption: string)
    returns (segments: seq<Segment>)
    ensures segments == allSegments + Trailing(previousEnd, caption)
  {
    segments := allSegments;
    if previousEnd < 100.0 {
      var nonWorkingDuration := (100.0 - previousEnd) * (24.0 / 100.0) * 60.0;
      segments := segments + [Segment(NonWorking, previousEnd, 100.0 - previousEnd,
        caption + " (" + FormatDuration(nonWorkingDuration) + ")", None)];
    }
  }

  /** The TimeLine component: the empty-input short-circuit, otherwise the
      in-place sort of the caller's array, the segment walk and the gridline
      hours. */
  method TimeLineView(workingHours: array?<Shift>, props: Props, formatTime: TimeFormatter)
    returns (view: View)
    modifies workingHours
    ensures workingHours == null ==> view == EmptyView(props.notWorkingCaption)
    ensures workingHours != null ==> workingHours[..] == SortByStart(old(workingHours[..]))
    ensures workingHours != null ==> view == ExpectedView(old(workingHours[..]), props, formatTime)
  {
    if workingHours == null || workingHours.Length == 0 {
      return EmptyView(props.notWorkingCaption);
    }
    SortInPlace(workingHours, StartKey);
    var allSegments := BuildSegments(workingHours, props, formatTime);
    var intervalHours := if props.breakpoint == Md then 4 else 2;
    var all := seq(24 / intervalHours + 1, i => i * intervalHours);
    var intervals := all[1..|all| - 1];
    view := View(allSegments, intervals);
  }
}
