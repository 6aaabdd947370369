# TimeLine segment builder, in Dafny

This project models the logic of the `TimeLine` React component: the part
that turns a list of working-hour shifts into the bar it draws.

- The component sorts the caller's `workingHours` array in place by start time.
- It walks the sorted shifts with a `previousEnd` cursor, measured in percent of the day.
- Before every shift that starts after the cursor, it pushes a non-working gap segment.
- It pushes one working segment per shift.
- It closes the day with a trailing gap when the cursor stops short of 100.
- Separately, it computes the hours at which gridlines are drawn.

The model also covers the time helpers of `src/utils.ts` that the component uses:

- `parseTime`;
- `calculatePercentage`;
- `formatDuration`.

`formatTime` is a parameter of the model (any function from a time and a format to text).

Modules:

- `JsNumbers` (`jsnumbers.dfy`): the JavaScript built-ins the helpers rely on. These are `Number` on a digit string, `String` on an integer, `padStart(2, "0")`, `Math.floor`, `%` (whose remainder takes the sign of the dividend) and `toFixed(0)`.
- `Utils` (`utils.dfy`): the time helpers and their properties.
- `Shifts` (`shifts.dfy`): a working-hour entry, the options, a segment, and the rendered view.
- `StableSort` (`shiftsort.dfy`): a stable sort by a key. It is specified by a functional insertion sort, `SortBy`, and implemented in place on an array by `SortInPlace`.
- `TimeLine` (`timeline.dfy`): the component.
  - Its specification functions: `Walk`, `Segments`, `Intervals` and `ExpectedView`.
  - Its imperative form, a method per step of the source: `VisitShift` is the `forEach` callback, `WalkShifts` the `forEach`, `CloseDay` the trailing gap, and `TimeLineView` the whole component.
- `TimeLineProperties` (`properties.dfy`): what the segment builder guarantees, proved about the specification functions.

Percentages are exact `real`s. A time is the text the caller passes. The model restricts it to a non-empty run of digits, a colon, and a non-empty run of digits (`WellFormedTime`, and the subset type `Shift`).

The source sorts the caller's array in place, and so does the model. `TimeLineView` modifies its array and ensures that the array ends up as `SortByStart` of its old contents. Callers see their `workingHours` array reordered.

## Model

| member | source | states |
|---|---|---|
| Utils.ParseTime | src/utils.ts:17-20 | The hours are non-negative and equal the minutes since midnight divided by 60. For a clock time (hours 0..23, minutes 0..59) they are below 24. |
| Utils.ParseClockText | src/utils.ts:17-20 | Parsing is the inverse of writing a clock time as padded "HH:MM": the text is well formed, reads back hours `h` and minutes `m`, and parses to `h + m/60`. It is a clock time when `h < 24` and `m < 60`. |
| Utils.ParseTimeExample | src/utils.ts:17-20 | "13:30" parses to 13.5. |
| Utils.CalculatePercentage | src/utils.ts:22-26 | The percentage is zero exactly when start and end parse equal, and negative exactly when end is earlier (no clamping). Times 24, it equals the minute difference times 100/60. It lies strictly between -100 and 100 for two clock times. |
| Utils.CalculatePercentageAdditive | src/utils.ts:22-26 | pct(a, b) + pct(b, c) = pct(a, c) for all well-formed times. |
| Utils.CalculatePercentageExample | src/utils.ts:22-26 | From "08:00" to "17:00" is 37.5 percent of the day. |
| Utils.FormatWholeMinutes | src/utils.ts:12-15 | For a whole number `m >= 0` of minutes, the hour part is `m / 60` and the minute part `m % 60`. So `60*H + M = m` with `0 <= M < 60`, and the text is "<m / 60>h <m % 60>m". |
| Utils.FormatDurationExamples | src/utils.ts:12-15 | 90 minutes is written "1h 30m" and 45 minutes "0h 45m". |
| Utils.FormatDurationRoundsUpToSixty | src/utils.ts:12-15 | 59.5 minutes is written "0h 60m": `toFixed(0)` rounds the remainder, not the total. |
| JsNumbers.Floor | src/utils.ts:13 | `Math.floor`: the integer `n` with `n <= x < n + 1`. |
| JsNumbers.Remainder60 | src/utils.ts:14 | `x % 60`: in [0, 60) for non-negative `x` and in (-60, 0] for negative `x`, and `x` minus it is a whole multiple of 60. |
| JsNumbers.RoundHalfUp | src/utils.ts:14 | The integer `toFixed(0)` writes for `y >= 0` is within half of `y`, with ties rounded up. |
| JsNumbers.NatToStringReadsBack | src/index.tsx:178 | `String(n)` is all digits, reads back as `n`, and starts with '0' only for 0. |
| JsNumbers.PadStart2Spec | src/index.tsx:178 | `padStart(2, "0")` keeps the text as its suffix, adds only zeros, and keeps the number the digits read as. |
| StableSort.SortPermutes | src/index.tsx:83-84 | The sorted sequence is a permutation of the input. |
| StableSort.SortSorted | src/index.tsx:83-84 | The sorted sequence is in ascending key order. |
| StableSort.SortStable | src/index.tsx:83-84 | For every key, the elements with that key keep their input order. |
| StableSort.SortUnique | src/index.tsx:83-84 | A key-ordered sequence whose elements of each key are, in order, those of the input is the sorted sequence. A stable sort has only one possible result. |
| StableSort.InsertInPlace | src/index.tsx:83-84 | Moving `a[i]` left past the larger keys leaves `a[..i+1]` equal to the stable insertion of the old `a[i]` into the old `a[..i]`. The rest of the array is unchanged. |
| StableSort.SortInPlace | src/index.tsx:83-84 | The array is reordered in place into `SortBy` of its old contents. |
| TimeLineProperties.SortByStartSpec | src/index.tsx:83-84 | The shifts end up in ascending `parseTime(start)` order. They are a permutation of the input, and shifts with equal starts keep their order. |
| TimeLineProperties.SortByStartUnique | src/index.tsx:83-84 | Any start-ordered sequence that keeps the input order among equal starts is the sorted list. |
| TimeLine.VisitShift | src/index.tsx:85-113 | The callback appends the gap and working segment the shift calls for at the current cursor. It returns as the new cursor where the shift's segment ends. |
| TimeLine.WalkShifts | src/index.tsx:50-114 | After the `forEach`, `allSegments` is the walk over all shifts from an empty list, and `previousEnd` is the cursor after the last shift, starting from 0. |
| TimeLine.CloseDay | src/index.tsx:116-124 | The trailing gap is appended when the cursor is below 100, and nothing otherwise. |
| TimeLine.BuildSegments | src/index.tsx:50-124 | The segments built for the sorted array are `Segments` of its contents. |
| TimeLine.TimeLineView | src/index.tsx:50-130 | A null array gives the empty view. Otherwise the caller's array is left sorted by start in place, and the view is `ExpectedView` of the array as passed: the empty view when it has no shifts, otherwise the segments of the sorted shifts and the gridline hours. |
| TimeLineProperties.EmptyListView | src/index.tsx:53-81 | An empty shift list shows a single non-working block over [0, 100] whose text is exactly the caption, and no gridlines. |
| TimeLineProperties.ShiftSegmentsAt | src/index.tsx:89-111 | The segments of shift `k` start right after the segments of the shifts before it. There is a gap over [cursor, startPercent) there exactly when the shift starts after the cursor, followed by the working segment. An overlapping shift gets its working segment with no gap and no merge. |
| TimeLineProperties.GapSpan | src/index.tsx:92-99 | A gap segment is non-working, has no status, and spans exactly [from, to). |
| TimeLineProperties.WorkingSegmentOfShift | src/index.tsx:86-111 | A working segment starts at `parseTime(start)/24*100`, ends at `parseTime(end)/24*100`, carries the shift's status, and has the tooltip "<start> - <end>: <title>". |
| TimeLineProperties.CursorAfterShift | src/index.tsx:113 | The cursor starts at 0. After each shift it equals that shift's `startPercent + widthPercent`, which is `parseTime(end)/24*100`. |
| TimeLineProperties.WalkExtends | src/index.tsx:85-114 | The walk only appends: the segments after `k` shifts are a prefix of those after `m >= k` shifts. |
| TimeLineProperties.WorkingSegmentsPerShift | src/index.tsx:85-114 | The working segments of the result are exactly one per shift, in the walked order, whatever the times. |
| TimeLineProperties.SegmentCount | src/index.tsx:89-124 | There are between n and 2n segments from the walk, and at most 2n + 1 in all. |
| TimeLineProperties.TrailingGap | src/index.tsx:116-124 | A trailing gap is appended exactly when the final cursor is below 100, and it ends at 100. |
| TimeLineProperties.WalkTiles | src/index.tsx:89-113 | If no shift starts before the cursor, the walk lays its segments end to end from 0 to the cursor, with no empty gap. |
| TimeLineProperties.WalkWidths | src/index.tsx:86-87 | Shifts within the day produce no segment of negative width. |
| TimeLineProperties.SegmentsTileTheDay | src/index.tsx:89-124 | For start-ordered, non-overlapping shifts within the day, the segments are contiguous, start at 0, and end at 100. Their widths sum to exactly 100, none is negative, and no gap is empty. |
| TimeLineProperties.GapBeforeShiftMinutes | src/index.tsx:89-99 | The gap before a shift lasts a positive whole number `g` of minutes: from the end of the previous shift (or midnight) to the shift's start. Its tooltip reads "<caption> (<g/60>h <g%60>m)". |
| TimeLineProperties.TrailingGapMinutes | src/index.tsx:116-123 | The trailing gap lasts the minutes from the end of the last shift to midnight, and its tooltip says so. |
| TimeLine.Intervals | src/index.tsx:126-130 | The gridline hours are strictly ascending. Each lies strictly between 0 and 24 and is a multiple of the interval, and every such multiple is present. |
| TimeLine.IntervalHours | src/index.tsx:126 | The gridline interval is one of 2 and 4 hours. Which breakpoint gives which is stated by `IntervalValues`. |
| TimeLineProperties.IntervalValues | src/index.tsx:126-130 | The default breakpoint is "lg", which gives 2, 4, …, 22 (11 markers) and "md" gives 4, 8, 12, 16, 20 (5 markers). |
| TimeLineProperties.SingleShiftExample | src/index.tsx:85-124 | One shift from "09:00" to "17:00" gives three segments: a gap over [0, 37.5), the working segment starting at 37.5 with width 100/3, and a trailing gap up to 100. They tile the day. |
| TimeLineProperties.IntervalTimeParses | src/index.tsx:177-180 | The text a gridline label is formatted from is "HH:00" and parses back to its hour. |

## Left out

- Times other than digits, a colon and digits are not modelled. On some of them `Number` yields NaN, which propagates through all the arithmetic. It reads others as numbers: an empty field as 0, and fields with a sign, surrounding spaces, a decimal point, an exponent, a hexadecimal prefix or "Infinity". A third `:`-separated field is ignored. A shift's times are restricted to digits, a colon and digits.
- `formatTime` (src/utils.ts:1-10) renders through `Date` and the locale-dependent `toLocaleTimeString`. It is taken as an arbitrary function parameter.
- The JSX output is not modelled: class names, colours, `height`, `borderRadius`, z-index, aria attributes, `data-tooltip` and the label positions. Neither is the `renderTooltip` callback. The empty-list markup is reduced to one non-working segment over [0, 100] whose text is the caption.
- IEEE-754 rounding is not modelled: percentages and durations are exact reals. `toFixed` switching to exponential notation at 1e21 and above is not modelled either, since no duration of a day reaches it.
- The sort's algorithm (the engine's own stable sort) is replaced by a stable insertion sort. `SortUnique` shows that any stable sort by start gives the same order.
- Utils.FormatWholeMinutes: the reconstruction `60*H + M = m` is stated for whole, non-negative minute counts only. For a fractional count, `toFixed(0)` can write a minute part of 60, as `FormatDurationRoundsUpToSixty` shows. With exact arithmetic, every gap between well-formed times is a whole number of minutes.
- TimeLineProperties.SegmentsTileTheDay: tiling is proved for start-ordered, non-overlapping shifts within the day only. For overlapping or inverted shifts the source draws overlapping or negative-width segments, and the model keeps that behaviour: `ShiftSegmentsAt` and `WorkingSegmentsPerShift` hold for any shifts.
