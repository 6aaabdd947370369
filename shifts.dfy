/** The values the TimeLine component of src/index.tsx works with: the
    working-hour shifts it is given, its options, and the segments it draws. */
module Shifts {
  import opened Utils

  datatype Option<T> = None | Some(value: T)

  /** One entry of `workingHours`. `status` is optional. */
  datatype WorkingHour = WorkingHour(start: string, end: string, title: string, status: Option<string>)

  predicate WellFormedShift(h: WorkingHour) {
    WellFormedTime(h.start) && WellFormedTime(h.end)
  }

  /** A working-hour entry whose two times `parseTime` reads as numbers. */
  type Shift = h: WorkingHour | WellFormedShift(h)
    witness WorkingHour("0:0", "0:0", "", None)

  /** The `breakpoint` option: "md" or "lg" (the default). */
  datatype Breakpoint = Md | Lg

  datatype SegmentType = Working | NonWorking

  /** A drawable span of the day, as percentages of its 24 hours. */
  datatype Segment = Segment(
    kind: SegmentType,
    startPercent: real,
    widthPercent: real,
    tooltip: string,
    status: Option<string>)

  /** The options that reach the segment builder; colours, `height`,
      `borderRadius` and `renderTooltip` only style the output. */
  datatype Props = Props(breakpoint: Breakpoint, timeFormat: TimeFormat, notWorkingCaption: string)

  const DefaultProps := Props(Lg, TwelveHour, "Not working at this time ")

  /** What the component renders: the segments left to right and the hours
      at which gridlines are drawn. */
  datatype View = View(segments: seq<Segment>, intervals: seq<int>)

  /** The start of a shift in hours: the key the shifts are sorted by. */
  function StartKey(h: Shift): real {
    ParseTime(h.start)
  }
}
