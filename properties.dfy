/** What the segment builder guarantees, stated over the specification
    functions of module TimeLine that its methods are proved against. */
module TimeLineProperties {
  import opened JsNumbers
  import opened Utils
  import opened Shifts
  import opened StableSort
  import opened TimeLine

  // ----- vocabulary -----

  /** The working segments of `segs`, in order. */
  function WorkingOf(segs: seq<Segment>): seq<Segment> {
    if segs == [] then []
    else WorkingOf(segs[..|segs| - 1]) + (if segs[|segs| - 1].kind == Working then [segs[|segs| - 1]] else [])
  }

  /** Where a segment ends. */
  function EndPercent(seg: Segment): real {
    seg.startPercent + seg.widthPercent
  }

  /** Every segment begins where the one before it ends. */
  predicate Contiguous(segs: seq<Segment>) {
    forall i, j :: 0 <= i < |segs| && j == i + 1 && j < |segs| ==> EndPercent(segs[i]) == segs[j].startPercent
  }

  function SumWidths(segs: seq<Segment>): real {
    if segs == [] then 0.0 else SumWidths(segs[..|segs| - 1]) + segs[|segs| - 1].widthPercent
  }

  /** Each shift starts no earlier than the one before it ends. */
  predicate Sequential(s: seq<Shift>) {
    forall i, j :: 0 <= i < |s| && j == i + 1 && j < |s| ==> ParseTime(s[i].end) <= ParseTime(s[j].start)
  }

  /** A shift that does not end before it starts, nor after midnight. */
  predicate WithinDay(h: Shift) {
    ParseTime(h.start) <= ParseTime(h.end) <= 24.0
  }

  // ----- the empty list -----

  /** An empty shift list shows one non-working block over the whole day
      whose text is exactly the caption, and no gridlines. */
  lemma EmptyListView(props: Props, formatTime: TimeFormatter)
    ensures var v := ExpectedView([], props, formatTime);
      |v.segments| == 1 && v.intervals == [] &&
      v.segments[0].kind == NonWorking && v.segments[0].tooltip == props.notWorkingCaption &&
      v.segments[0].startPercent == 0.0 && EndPercent(v.segments[0]) == 100.0
  {
  }

  // ----- the sort -----

  /** The shifts are put in ascending start order, as a permutation of the
      input in which shifts with equal starts keep their order. */
  lemma SortByStartSpec(s: seq<Shift>)
    ensures SortedBy(SortByStart(s), StartKey)
    ensures multiset(SortByStart(s)) == multiset(s)
    ensures forall k :: WithKey(SortByStart(s), StartKey, k) == WithKey(s, StartKey, k)
  {
    SortSorted(s, StartKey);
    SortPermutes(s, StartKey);
    forall k ensures WithKey(SortByStart(s), StartKey, k) == WithKey(s, StartKey, k) {
      SortStable(s, StartKey, k);
    }
  }

  /** No other order has those properties: any start-ordered `r` that keeps
      the input order among equal starts is the sorted list. */
  lemma SortByStartUnique(r: seq<Shift>, s: seq<Shift>)
    requires SortedBy(r, StartKey)
    requires forall k :: WithKey(r, StartKey, k) == WithKey(s, StartKey, k)
    ensures r == SortByStart(s)
  {
    SortUnique(r, s, StartKey);
  }

  // ----- the walk, shift by shift -----

  /** The walk only appends: what it has pushed after `k` shifts begins
      what it has pushed after `m >= k` shifts. */
  lemma {:induction false} WalkExtends(s: seq<Shift>, k: nat, m: nat, props: Props, formatTime: TimeFormatter)
    requires k <= m <= |s|
    ensures |Walk(s, k, props, formatTime)| <= |Walk(s, m, props, formatTime)|
    ensures Walk(s, m, props, formatTime)[..|Walk(s, k, props, formatTime)|] == Walk(s, k, props, formatTime)
  {
    hide *;
    var a := Walk(s, k, props, formatTime);
    if k < m {
      var b := Walk(s, m - 1, props, formatTime);
      var step := ShiftSegments(s[m - 1], CursorBefore(s, m - 1), props, formatTime);
      assert |a| <= |b| && b[..|a|] == a by {
        WalkExtends(s, k, m - 1, props, formatTime);
      }
      assert Walk(s, m, props, formatTime) == b + step by {
        WalkNext(s, m, props, formatTime);
      }
      PrefixOfAppend(a, b, step);
    } else {
      assert a[..|a|] == a;
    }
  }

  lemma PrefixOfAppend<T>(a: seq<T>, b: seq<T>, c: seq<T>)
    requires |a| <= |b| && b[..|a|] == a
    ensures |a| <= |b + c| && (b + c)[..|a|] == a
  {
    assert (b + c)[..|a|] == b[..|a|];
  }

  /** The segments pushed for shift `k` of the walked order start at
      position `|Walk(s, k)|`: a non-working gap over exactly
      [previousEnd, startPercent) when, and only when, the shift starts after
      the cursor, then the shift's working segment. A shift that starts
      before the cursor (an overlap) still gets its working segment, with no
      gap and no merging. */
  lemma ShiftSegmentsAt(s: seq<Shift>, k: nat, props: Props, formatTime: TimeFormatter)
    requires k < |s|
    ensures var segs, p, c := Segments(s, props, formatTime), |Walk(s, k, props, formatTime)|, CursorBefore(s, k);
      && (StartPercent(s[k]) > c ==>
            p + 1 < |segs| &&
            segs[p] == GapSegment(c, StartPercent(s[k]), props.notWorkingCaption) &&
            segs[p + 1] == WorkingSegment(s[k], props, formatTime))
      && (StartPercent(s[k]) <= c ==>
            p < |segs| && segs[p] == WorkingSegment(s[k], props, formatTime))
  {
    hide *;
    var c := CursorBefore(s, k);
    WalkNext(s, k + 1, props, formatTime);
    WalkPrefixOfSegments(s, k + 1, props, formatTime);
    PrefixAt(Segments(s, props, formatTime), Walk(s, k, props, formatTime), ShiftSegments(s[k], c, props, formatTime));
    StepShape(s[k], c, props, formatTime);
  }

  /** The segments pushed for the first `k` shifts begin the list. */
  lemma WalkPrefixOfSegments(s: seq<Shift>, k: nat, props: Props, formatTime: TimeFormatter)
    requires k <= |s|
    ensures |Walk(s, k, props, formatTime)| <= |Segments(s, props, formatTime)|
    ensures Segments(s, props, formatTime)[..|Walk(s, k, props, formatTime)|] == Walk(s, k, props, formatTime)
  {
    WalkExtends(s, k, |s|, props, formatTime);
    var w, t := Walk(s, |s|, props, formatTime), Trailing(CursorBefore(s, |s|), props.notWorkingCaption);
    assert (w + t)[..|w|] == w;
  }

  /** What one step of the walk pushes, element by element. */
  lemma StepShape(h: Shift, c: real, props: Props, formatTime: TimeFormatter)
    ensures var step := ShiftSegments(h, c, props, formatTime);
      && (StartPercent(h) > c ==>
            |step| == 2 &&
            step[0] == GapSegment(c, StartPercent(h), props.notWorkingCaption) &&
            step[1] == WorkingSegment(h, props, formatTime))
      && (StartPercent(h) <= c ==>
            |step| == 1 && step[0] == WorkingSegment(h, props, formatTime))
  {
  }

  lemma PrefixAt<T>(segs: seq<T>, a: seq<T>, step: seq<T>)
    requires |a + step| <= |segs| && segs[..|a + step|] == a + step
    ensures forall j :: 0 <= j < |step| ==> segs[|a| + j] == step[j]
  {
    forall j | 0 <= j < |step| ensures segs[|a| + j] == step[j] {
      assert (a + step)[|a| + j] == step[j];
    }
  }

  /** A gap segment spans exactly [from, to). */
  lemma GapSpan(from: real, to: real, caption: string)
    ensures GapSegment(from, to, caption).kind == NonWorking
    ensures GapSegment(from, to, caption).startPercent == from
    ensures EndPercent(GapSegment(from, to, caption)) == to
    ensures GapSegment(from, to, caption).status == None
  {
  }

  /** The working segment of a shift spans [startPercent, startPercent +
      widthPercent) with startPercent = parseTime(start) / 24 * 100 and
      widthPercent = calculatePercentage(start, end), and carries the shift's
      status and the tooltip "<start> - <end>: <title>". */
  lemma WorkingSegmentOfShift(h: Shift, props: Props, formatTime: TimeFormatter)
    ensures var seg := WorkingSegment(h, props, formatTime);
      && seg.kind == Working && seg.status == h.status
      && seg.startPercent * 24.0 == ParseTime(h.start) * 100.0
      && EndPercent(seg) * 24.0 == ParseTime(h.end) * 100.0
      && seg.tooltip == formatTime(h.start, props.timeFormat) + " - " + formatTime(h.end, props.timeFormat) + ": " + h.title
  {
  }

  /** The cursor starts at 0 and after each shift is where that shift's
      segment ends: parseTime(end) / 24 * 100 of the previous shift. */
  lemma CursorAfterShift(s: seq<Shift>, k: nat)
    requires k <= |s|
    ensures k == 0 ==> CursorBefore(s, k) == 0.0
    ensures 0 < k ==> CursorBefore(s, k) == StartPercent(s[k - 1]) + WidthPercent(s[k - 1])
    ensures 0 < k ==> CursorBefore(s, k) * 24.0 == ParseTime(s[k - 1].end) * 100.0
  {
  }

  /** One working segment per shift, in the walked order, whatever the
      shifts' times. */
  lemma {:induction false} WorkingSegmentsPerShift(s: seq<Shift>, props: Props, formatTime: TimeFormatter)
    ensures WorkingOf(Segments(s, props, formatTime)) ==
      seq(|s|, k requires 0 <= k < |s| => WorkingSegment(s[k], props, formatTime))
  {
    var c := CursorBefore(s, |s|);
    WorkingOfAppend(Walk(s, |s|, props, formatTime), Trailing(c, props.notWorkingCaption));
    if c < 100.0 {
      var t := Trailing(c, props.notWorkingCaption);
      assert t[..0] == [];
    }
    WalkWorking(s, |s|, props, formatTime);
  }

  lemma {:induction false} WalkWorking(s: seq<Shift>, k: nat, props: Props, formatTime: TimeFormatter)
    requires k <= |s|
    ensures WorkingOf(Walk(s, k, props, formatTime)) ==
      seq(k, i requires 0 <= i < k => WorkingSegment(s[i], props, formatTime))
  {
    hide *;
    if k == 0 {
      WalkStart(s, props, formatTime);
      NoSegments();
    } else {
      var c := CursorBefore(s, k - 1);
      var step := ShiftSegments(s[k - 1], c, props, formatTime);
      WalkWorking(s, k - 1, props, formatTime);
      WalkNext(s, k, props, formatTime);
      WorkingOfAppend(Walk(s, k - 1, props, formatTime), step);
      StepWorking(s[k - 1], c, props, formatTime);
      WorkingSegmentsSnoc(s, k, props, formatTime);
    }
  }

  lemma WorkingSegmentsSnoc(s: seq<Shift>, k: nat, props: Props, formatTime: TimeFormatter)
    requires 0 < k <= |s|
    ensures seq(k, i requires 0 <= i < k => WorkingSegment(s[i], props, formatTime)) ==
      seq(k - 1, i requires 0 <= i < k - 1 => WorkingSegment(s[i], props, formatTime))
      + [WorkingSegment(s[k - 1], props, formatTime)]
  {
  }

  /** One step of the walk contributes exactly the shift's working segment. */
  lemma StepWorking(h: Shift, c: real, props: Props, formatTime: TimeFormatter)
    ensures WorkingOf(ShiftSegments(h, c, props, formatTime)) == [WorkingSegment(h, props, formatTime)]
  {
    var step := ShiftSegments(h, c, props, formatTime);
    var ws := WorkingSegment(h, props, formatTime);
    StepShape(h, c, props, formatTime);
    assert [ws][..0] == [];
    if StartPercent(h) > c {
      var gap := step[0];
      GapSpan(c, StartPercent(h), props.notWorkingCaption);
      assert step == [gap] + [ws];
      WorkingOfAppend([gap], [ws]);
      assert [gap][..0] == [];
    } else {
      assert step == [ws];
    }
  }

  lemma {:induction false} WorkingOfAppend(a: seq<Segment>, b: seq<Segment>)
    ensures WorkingOf(a + b) == WorkingOf(a) + WorkingOf(b)
  {
    if b != [] {
      assert (a + b)[..|a + b| - 1] == a + b[..|b| - 1];
      WorkingOfAppend(a, b[..|b| - 1]);
    } else {
      assert a + b == a;
    }
  }

  /** Between one and two segments per shift, plus at most the trailing gap. */
  lemma SegmentCount(s: seq<Shift>, props: Props, formatTime: TimeFormatter)
    ensures |s| <= |Walk(s, |s|, props, formatTime)| <= 2 * |s|
    ensures |s| <= |Segments(s, props, formatTime)| <= 2 * |s| + 1
  {
    WalkCount(s, |s|, props, formatTime);
  }

  lemma {:induction false} WalkCount(s: seq<Shift>, k: nat, props: Props, formatTime: TimeFormatter)
    requires k <= |s|
    ensures k <= |Walk(s, k, props, formatTime)| <= 2 * k
  {
    hide *;
    if k == 0 {
      WalkStart(s, props, formatTime);
    } else {
      WalkCount(s, k - 1, props, formatTime);
      WalkNext(s, k, props, formatTime);
      StepShape(s[k - 1], CursorBefore(s, k - 1), props, formatTime);
    }
  }

  /** The trailing gap is appended exactly when the cursor stops short of
      100, and it then ends at exactly 100. */
  lemma TrailingGap(s: seq<Shift>, props: Props, formatTime: TimeFormatter)
    ensures var segs, c := Segments(s, props, formatTime), CursorBefore(s, |s|);
      && (c < 100.0 ==>
            |segs| == |Walk(s, |s|, props, formatTime)| + 1 &&
            segs[|segs| - 1] == GapSegment(c, 100.0, props.notWorkingCaption))
      && (c >= 100.0 ==> segs == Walk(s, |s|, props, formatTime))
  {
  }

  // ----- tiling the day -----

  /** `w` covers [from, to] end to end: each segment begins where the one
      before it ends, the first at `from` and the last ending at `to`, and
      every non-working segment is a gap of positive width. */
  predicate Tiles(w: seq<Segment>, from: real, to: real) {
    && Contiguous(w)
    && GapsPositive(w)
    && (w == [] ==> from == to)
    && (w != [] ==> w[0].startPercent == from && EndPercent(w[|w| - 1]) == to)
  }

  /** The empty list of segments: no working segment, no width, and a
      tiling of every empty span. */
  lemma NoSegments()
    ensures WorkingOf([]) == []
    ensures WidthsNonNegative([])
    ensures forall x :: Tiles([], x, x)
  {
  }

  /** Segments whose non-working members are all strictly wide. */
  predicate GapsPositive(segs: seq<Segment>) {
    forall i :: 0 <= i < |segs| && segs[i].kind == NonWorking ==> segs[i].widthPercent > 0.0
  }

  lemma ContiguousAppend(a: seq<Segment>, b: seq<Segment>)
    requires Contiguous(a) && Contiguous(b)
    requires a != [] && b != [] ==> EndPercent(a[|a| - 1]) == b[0].startPercent
    ensures Contiguous(a + b)
  {
    var ab := a + b;
    forall i, j | 0 <= i < |ab| && j == i + 1 && j < |ab| ensures EndPercent(ab[i]) == ab[j].startPercent {
      if j < |a| {
        assert ab[i] == a[i] && ab[j] == a[j];
      } else if j == |a| {
        assert ab[i] == a[|a| - 1] && ab[j] == b[0];
      } else {
        assert ab[i] == b[i - |a|] && ab[j] == b[j - |a|];
      }
    }
  }

  lemma GapsPositiveAppend(a: seq<Segment>, b: seq<Segment>)
    requires GapsPositive(a) && GapsPositive(b)
    ensures GapsPositive(a + b)
  {
    var ab := a + b;
    forall i | 0 <= i < |ab| && ab[i].kind == NonWorking ensures ab[i].widthPercent > 0.0 {
      if i >= |a| {
        assert ab[i] == b[i - |a|];
      }
    }
  }

  /** A tiling of [x, y] followed by a tiling of [y, z] tiles [x, z]. */
  lemma TilesAppend(a: seq<Segment>, b: seq<Segment>, x: real, y: real, z: real)
    requires Tiles(a, x, y) && Tiles(b, y, z)
    ensures Tiles(a + b, x, z)
  {
    ContiguousAppend(a, b);
    GapsPositiveAppend(a, b);
    if a == [] {
      assert a + b == b;
    } else if b == [] {
      assert a + b == a;
    } else {
      assert (a + b)[0] == a[0];
      assert (a + b)[|a + b| - 1] == b[|b| - 1];
    }
  }

  /** The widths of segments laid end to end add up to the span they cover. */
  lemma {:induction false} TilesWidths(w: seq<Segment>, from: real, to: real)
    requires Tiles(w, from, to)
    ensures SumWidths(w) == to - from
  {
    if |w| > 1 {
      var init := w[..|w| - 1];
      assert Contiguous(init) by {
        forall i, j | 0 <= i < |init| && j == i + 1 && j < |init|
          ensures EndPercent(init[i]) == init[j].startPercent
        {
          assert init[i] == w[i] && init[j] == w[j];
        }
      }
      assert GapsPositive(init) by {
        forall i | 0 <= i < |init| && init[i].kind == NonWorking ensures init[i].widthPercent > 0.0 {
          assert init[i] == w[i];
        }
      }
      assert EndPercent(w[|w| - 2]) == w[|w| - 1].startPercent;
      TilesWidths(init, from, EndPercent(init[|init| - 1]));
    } else if |w| == 1 {
      assert w[..0] == [];
    }
  }

  lemma SingleSegment(x: Segment)
    ensures Contiguous([x])
  {
  }

  lemma PairSegments(x: Segment, y: Segment)
    requires EndPercent(x) == y.startPercent
    ensures Contiguous([x, y])
  {
  }

  /** One step taken at a cursor no later than the shift's start covers
      [cursor, end of the shift] end to end. */
  lemma StepTiles(h: Shift, c: real, props: Props, formatTime: TimeFormatter)
    requires c <= StartPercent(h)
    ensures Tiles(ShiftSegments(h, c, props, formatTime), c, StartPercent(h) + WidthPercent(h))
  {
    var step := ShiftSegments(h, c, props, formatTime);
    var ws := WorkingSegment(h, props, formatTime);
    StepShape(h, c, props, formatTime);
    if StartPercent(h) > c {
      var gap := GapSegment(c, StartPercent(h), props.notWorkingCaption);
      GapSpan(c, StartPercent(h), props.notWorkingCaption);
      assert step == [gap, ws];
      PairSegments(gap, ws);
    } else {
      assert step == [ws];
      SingleSegment(ws);
    }
  }

  /** Walking shifts that never start before the cursor lays their segments
      end to end from 0 up to the cursor, with no empty gap. */
  lemma {:induction false} WalkTiles(s: seq<Shift>, k: nat, props: Props, formatTime: TimeFormatter)
    requires k <= |s|
    requires forall i {:trigger CursorBefore(s, i)} :: 0 <= i < |s| ==> CursorBefore(s, i) <= StartPercent(s[i])
    ensures Tiles(Walk(s, k, props, formatTime), 0.0, CursorBefore(s, k))
  {
    hide *;
    if k == 0 {
      WalkStart(s, props, formatTime);
      NoSegments();
    } else {
      var c := CursorBefore(s, k - 1);
      WalkTiles(s, k - 1, props, formatTime);
      assert c <= StartPercent(s[k - 1]);
      StepTiles(s[k - 1], c, props, formatTime);
      WalkNext(s, k, props, formatTime);
      TilesAppend(Walk(s, k - 1, props, formatTime), ShiftSegments(s[k - 1], c, props, formatTime), 0.0, c, CursorBefore(s, k));
    }
  }

  /** For shifts in start order that do not overlap and lie within the day,
      the segments tile the day: they are contiguous, start at 0, end at
      100, their widths sum to 100, no gap is empty and no width is
      negative. */
  lemma SegmentsTileTheDay(s: seq<Shift>, props: Props, formatTime: TimeFormatter)
    requires Sequential(s)
    requires forall k :: 0 <= k < |s| ==> WithinDay(s[k])
    ensures Tiles(Segments(s, props, formatTime), 0.0, 100.0)
    ensures SumWidths(Segments(s, props, formatTime)) == 100.0
    ensures WidthsNonNegative(Segments(s, props, formatTime))
  {
    forall k | 0 <= k < |s| ensures CursorBefore(s, k) <= StartPercent(s[k]) {
      CursorAfterShift(s, k);
    }
    WalkTiles(s, |s|, props, formatTime);
    WalkWidths(s, |s|, props, formatTime);
    var c := CursorBefore(s, |s|);
    CursorAfterShift(s, |s|);
    if s != [] {
      assert WithinDay(s[|s| - 1]);
    }
    TrailingTiles(c, props.notWorkingCaption);
    var w, t := Walk(s, |s|, props, formatTime), Trailing(c, props.notWorkingCaption);
    TilesAppend(w, t, 0.0, c, 100.0);
    TilesWidths(w + t, 0.0, 100.0);
    WidthsNonNegativeAppend(w, t);
  }

  /** The trailing gap from a cursor at or below 100 covers [cursor, 100]. */
  lemma TrailingTiles(c: real, caption: string)
    requires c <= 100.0
    ensures Tiles(Trailing(c, caption), c, 100.0)
    ensures WidthsNonNegative(Trailing(c, caption))
  {
    if c < 100.0 {
      var gap := GapSegment(c, 100.0, caption);
      GapSpan(c, 100.0, caption);
      SingleSegment(gap);
    }
  }

  /** No segment has a negative width. */
  predicate WidthsNonNegative(segs: seq<Segment>) {
    forall i :: 0 <= i < |segs| ==> segs[i].widthPercent >= 0.0
  }

  lemma WidthsNonNegativeAppend(a: seq<Segment>, b: seq<Segment>)
    requires WidthsNonNegative(a) && WidthsNonNegative(b)
    ensures WidthsNonNegative(a + b)
  {
    var ab := a + b;
    forall i | 0 <= i < |ab| ensures ab[i].widthPercent >= 0.0 {
      if i >= |a| {
        assert ab[i] == b[i - |a|];
      }
    }
  }

  /** A shift that does not end before it starts gets no negative width. */
  lemma StepWidths(h: Shift, c: real, props: Props, formatTime: TimeFormatter)
    requires WithinDay(h)
    ensures WidthsNonNegative(ShiftSegments(h, c, props, formatTime))
  {
    StepShape(h, c, props, formatTime);
  }

  /** Shifts that lie within the day get no negative width. */
  lemma {:induction false} WalkWidths(s: seq<Shift>, k: nat, props: Props, formatTime: TimeFormatter)
    requires k <= |s|
    requires forall i :: 0 <= i < |s| ==> WithinDay(s[i])
    ensures WidthsNonNegative(Walk(s, k, props, formatTime))
  {
    hide *;
    if k == 0 {
      WalkStart(s, props, formatTime);
      NoSegments();
    } else {
      var c := CursorBefore(s, k - 1);
      WalkWidths(s, k - 1, props, formatTime);
      assert WithinDay(s[k - 1]);
      StepWidths(s[k - 1], c, props, formatTime);
      WalkNext(s, k, props, formatTime);
      WidthsNonNegativeAppend(Walk(s, k - 1, props, formatTime), ShiftSegments(s[k - 1], c, props, formatTime));
    }
  }

  // ----- gap tooltips -----

  /** Minutes since midnight at which the previous shift of `s` ends (0 before
      the first). */
  function EndMinutesBefore(s: seq<Shift>, k: nat): nat
    requires k <= |s|
  {
    if k == 0 then 0 else ClockMinutes(s[k - 1].end)
  }

  /** The cursor and a shift's start, in minutes: percent * 1440 / 100. */
  lemma CursorMinutes(s: seq<Shift>, k: nat)
    requires k <= |s|
    ensures CursorBefore(s, k) * 1440.0 == EndMinutesBefore(s, k) as real * 100.0
    ensures k < |s| ==> StartPercent(s[k]) * 1440.0 == ClockMinutes(s[k].start) as real * 100.0
  {
    if k > 0 {
      var h := s[k - 1];
      assert ParseTime(h.start) * 60.0 == ClockMinutes(h.start) as real;
      assert WidthPercent(h) * 24.0 == (ClockMinutes(h.end) - ClockMinutes(h.start)) as real * 100.0 / 60.0;
    }
  }

  /** A gap between two instants given in percent whose whole-minute values
      are `a` and `b` lasts `b - a` minutes. */
  lemma GapDuration(from: real, to: real, a: int, b: int)
    requires from * 1440.0 == a as real * 100.0
    requires to * 1440.0 == b as real * 100.0
    ensures (to - from) * (24.0 / 100.0) * 60.0 == (b - a) as real
  {
  }

  /** The tooltip of a gap lasting a whole `g` minutes reads
      "<caption> (<g / 60>h <g % 60>m)". */
  lemma GapTooltip(from: real, to: real, caption: string, g: nat)
    requires (to - from) * (24.0 / 100.0) * 60.0 == g as real
    ensures GapSegment(from, to, caption).tooltip ==
      caption + " (" + NatToString(g / 60) + "h " + NatToString(g % 60) + "m)"
  {
    FormatWholeMinutes(g);
  }

  /** The tooltip of a gap shows its length in whole minutes: from the end
      of the previous shift (or midnight) to the start of the next. */
  lemma GapBeforeShiftMinutes(s: seq<Shift>, k: nat, props: Props)
    requires k < |s|
    requires StartPercent(s[k]) > CursorBefore(s, k)
    ensures var g := ClockMinutes(s[k].start) - EndMinutesBefore(s, k);
      && g > 0
      && GapSegment(CursorBefore(s, k), StartPercent(s[k]), props.notWorkingCaption).tooltip ==
        props.notWorkingCaption + " (" + NatToString(g / 60) + "h " + NatToString(g % 60) + "m)"
  {
    var from, to := CursorBefore(s, k), StartPercent(s[k]);
    var a, b := EndMinutesBefore(s, k), ClockMinutes(s[k].start);
    CursorMinutes(s, k);
    GapDuration(from, to, a, b);
    GapTooltip(from, to, props.notWorkingCaption, b - a);
  }

  /** The trailing gap shows the minutes from the end of the last shift to
      midnight. */
  lemma TrailingGapMinutes(s: seq<Shift>, props: Props)
    requires CursorBefore(s, |s|) < 100.0
    ensures var g := 24 * 60 - EndMinutesBefore(s, |s|);
      && g > 0
      && GapSegment(CursorBefore(s, |s|), 100.0, props.notWorkingCaption).tooltip ==
        props.notWorkingCaption + " (" + NatToString(g / 60) + "h " + NatToString(g % 60) + "m)"
  {
    var from := CursorBefore(s, |s|);
    var a := EndMinutesBefore(s, |s|);
    CursorMinutes(s, |s|);
    GapDuration(from, 100.0, a, 24 * 60);
    GapTooltip(from, 100.0, props.notWorkingCaption, 24 * 60 - a);
  }

  // ----- gridlines -----

  /** Every 2 hours by default, every 4 hours for "md". */
  lemma IntervalValues()
    ensures DefaultProps.breakpoint == Lg
    ensures Intervals(DefaultProps.breakpoint) == [2, 4, 6, 8, 10, 12, 14, 16, 18, 20, 22]
    ensures Intervals(Md) == [4, 8, 12, 16, 20]
  {
  }

  // ----- an example -----

  /** One shift from 09:00 to 17:00 gives three segments: a gap over
      [0, 37.5), the working segment over [37.5, 70.83...) and a trailing
      gap up to 100. They tile the day. */
  lemma SingleShiftExample(title: string, props: Props, formatTime: TimeFormatter)
    ensures WellFormedShift(WorkingHour("09:00", "17:00", title, None))
    ensures var h: Shift := WorkingHour("09:00", "17:00", title, None);
      var segs := Segments([h], props, formatTime);
      && |segs| == 3
      && segs[0] == GapSegment(0.0, 37.5, props.notWorkingCaption)
      && segs[1] == WorkingSegment(h, props, formatTime)
      && segs[1].startPercent == 37.5 && segs[1].widthPercent == 100.0 / 3.0
      && segs[2] == GapSegment(37.5 + 100.0 / 3.0, 100.0, props.notWorkingCaption)
      && Tiles(segs, 0.0, 100.0)
  {
    NineToFive(title);
    var h: Shift := WorkingHour("09:00", "17:00", title, None);
    hide *;
    WalkStart([h], props, formatTime);
    WalkNext([h], 1, props, formatTime);
    SegmentsTileTheDay([h], props, formatTime);
    OneStep(h, props, formatTime);
  }

  /** Where a 09:00 to 17:00 shift is drawn. */
  lemma NineToFive(title: string)
    ensures WellFormedShift(WorkingHour("09:00", "17:00", title, None))
    ensures var h: Shift := WorkingHour("09:00", "17:00", title, None);
      && StartPercent(h) == 37.5 && WidthPercent(h) == 100.0 / 3.0
      && ParseTime(h.start) <= ParseTime(h.end) <= 24.0
  {
    ClockTextValues();
    ParseClockText(9, 0);
    ParseClockText(17, 0);
  }

  /** The segments of one shift that starts after midnight and ends before it. */
  lemma OneStep(h: Shift, props: Props, formatTime: TimeFormatter)
    requires 0.0 < StartPercent(h) && StartPercent(h) + WidthPercent(h) < 100.0
    ensures Segments([h], props, formatTime) ==
      [GapSegment(0.0, StartPercent(h), props.notWorkingCaption), WorkingSegment(h, props, formatTime),
       GapSegment(StartPercent(h) + WidthPercent(h), 100.0, props.notWorkingCaption)]
  {
    WalkStart([h], props, formatTime);
    WalkNext([h], 1, props, formatTime);
  }

  /** The text a gridline's label is formatted from reads back as its hour. */
  lemma IntervalTimeParses(hour: nat)
    requires hour < 24
    ensures IntervalTime(hour) == ClockText(hour, 0)
    ensures IsClockTime(IntervalTime(hour)) && ParseTime(IntervalTime(hour)) == hour as real
  {
    ParseClockText(hour, 0);
  }
}
