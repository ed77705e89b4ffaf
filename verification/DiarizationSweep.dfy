/** The boundary sweep of the diarization error rate, proved against per-tick sums. */
module DiarizationSweep {
  import opened Wrappers
  import opened Sums
  import opened Segments

  datatype Interval = Interval(start: int, end: int)

  /** Total reference time, the three error times, and the rate they give. */
  datatype DerDetail = DerDetail(total: int, falseAlarm: int, missed: int, confusion: int) {
    function Rate(): Option<real> {
      if total > 0 then Some((falseAlarm + missed + confusion) as real / total as real) else None
    }
  }

  /** A label of the relabelled prediction: a reference speaker, or the placeholder
      of a prediction speaker the mapping leaves out. */
  datatype Label = Reference(speaker: Speaker) | Unmapped(speaker: Speaker)

  type Mapping = map<Speaker, Speaker>

  function Relabel(mapping: Mapping, speaker: Speaker): Label {
    if speaker in mapping then Reference(mapping[speaker]) else Unmapped(speaker)
  }

  function Agreement(reference: set<Speaker>, prediction: set<Speaker>, mapping: Mapping): set<Label> {
    (set r | r in reference :: Reference(r)) * (set h | h in prediction :: Relabel(mapping, h))
  }

  // ----- sorting, and merging intervals

  ghost predicate Increasing(s: seq<int>) { forall i, j :: 0 <= i < j < |s| ==> s[i] < s[j] }

  method InsertPoint(s: seq<int>, p: int) returns (r: seq<int>)
    requires Increasing(s)
    ensures Increasing(r)
    ensures forall q :: q in r <==> q in s || q == p
  {
    var k := 0;
    while k < |s| && s[k] < p
      invariant k <= |s|
      invariant forall j :: 0 <= j < k ==> s[j] < p
    {
      k := k + 1;
    }
    if k < |s| && s[k] == p {
      assert s[k] in s;
      return s;
    }
    assert s == s[..k] + s[k..];
    r := s[..k] + [p] + s[k..];
  }

  /** `sorted` of a set of points: increasing, and the same points. */
  method SortedPoints(points: seq<int>) returns (r: seq<int>)
    ensures Increasing(r)
    ensures forall p :: p in r <==> p in points
  {
    r := [];
    for i := 0 to |points|
      invariant Increasing(r)
      invariant forall p :: p in r <==> p in points[..i]
    {
      assert points[..i + 1] == points[..i] + [points[i]];
      r := InsertPoint(r, points[i]);
    }
    assert points[..|points|] == points;
  }

  ghost predicate SortedByStart(s: seq<Interval>) {
    forall i, j :: 0 <= i < j < |s| ==> s[i].start <= s[j].start
  }

  method SortedIntervals(intervals: seq<Interval>) returns (r: seq<Interval>)
    ensures SortedByStart(r)
    ensures forall x :: x in r <==> x in intervals && x.end > x.start
  {
    r := [];
    for i := 0 to |intervals|
      invariant SortedByStart(r)
      invariant forall x :: x in r <==> x in intervals[..i] && x.end > x.start
    {
      if intervals[i].end > intervals[i].start {
        var k := 0;
        while k < |r| && r[k].start <= intervals[i].start
          invariant k <= |r|
          invariant forall j :: 0 <= j < k ==> r[j].start <= intervals[i].start
        {
          k := k + 1;
        }
        r := r[..k] + [intervals[i]] + r[k..];
      }
    }
    assert intervals[..|intervals|] == intervals;
  }

  ghost predicate Inside(t: int, intervals: seq<Interval>) {
    exists x :: x in intervals && x.start <= t < x.end
  }

  /** Nonempty, in order, and never touching. */
  ghost predicate Separated(s: seq<Interval>) {
    && (forall x :: x in s ==> x.start < x.end)
    && forall i, j :: 0 <= i < j < |s| ==> s[i].end < s[j].start
  }

  /** Merging keeps the union, tick by tick, and leaves separated intervals. */
  method MergeIntervals(intervals: seq<Interval>) returns (merged: seq<Interval>)
    ensures Separated(merged)
    ensures forall t :: Inside(t, merged) <==> Inside(t, intervals)
  {
    var sorted := SortedIntervals(intervals);
    merged := [];
    for i := 0 to |sorted|
      invariant Separated(merged)
      invariant i < |sorted| ==> forall x :: x in merged ==> x.start <= sorted[i].start
      invariant forall t :: Inside(t, merged) <==> Inside(t, sorted[..i])
    {
      var next := sorted[i];
      ghost var before := merged;
      if merged == [] || next.start > merged[|merged| - 1].end {
        merged := merged + [next];
        ExtendedUnion(before, merged, sorted, i);
      } else {
        var last := merged[|merged| - 1];
        merged := merged[..|merged| - 1] + [Interval(last.start, Max(last.end, next.end))];
        ExtendedUnion(before, merged, sorted, i);
      }
    }
    assert sorted[..|sorted|] == sorted;
    SameUnion(intervals, sorted);
  }

  lemma SameUnion(intervals: seq<Interval>, sorted: seq<Interval>)
    requires forall x :: x in sorted <==> x in intervals && x.end > x.start
    ensures forall t :: Inside(t, sorted) <==> Inside(t, intervals)
  {
  }

  lemma ExtendedUnion(before: seq<Interval>, after: seq<Interval>, sorted: seq<Interval>, i: nat)
    requires i < |sorted|
    requires forall t :: Inside(t, before) <==> Inside(t, sorted[..i])
    requires
      || after == before + [sorted[i]]
      || (before != [] && var last := before[|before| - 1];
          && last.start <= sorted[i].start <= last.end
          && after == before[..|before| - 1] + [Interval(last.start, Max(last.end, sorted[i].end))])
    ensures forall t :: Inside(t, after) <==> Inside(t, sorted[..i + 1])
  {
    forall t ensures Inside(t, after) <==> Inside(t, before) || sorted[i].start <= t < sorted[i].end {
      InsideLast(t, after);
      if before != [] { InsideLast(t, before); }
    }
    forall t ensures Inside(t, sorted[..i + 1]) <==> Inside(t, sorted[..i]) || sorted[i].start <= t < sorted[i].end {
      InsideLast(t, sorted[..i + 1]);
      assert sorted[..i + 1][..i] == sorted[..i];
    }
  }

  lemma InsideLast(t: int, s: seq<Interval>)
    requires s != []
    ensures var n := |s| - 1; Inside(t, s) <==> Inside(t, s[..n]) || s[n].start <= t < s[n].end
  {
    var n := |s| - 1;
    assert s == s[..n] + [s[n]];
    if s[n].start <= t < s[n].end { assert s[n] in s; }
  }

  // ----- the collar around reference boundaries

  /** Tick t is within the collar of the boundary at p; the region is cut off at zero. */
  predicate NearBoundary(t: int, p: int, collar: int) { Max(0, p - collar) <= t < p + collar }

  /** Tick t is not scored: it is within the collar of some reference boundary. */
  ghost predicate InCollar(reference: seq<Segment>, collar: int, t: int) {
    collar > 0 && exists s :: s in reference && (NearBoundary(t, s.start, collar) || NearBoundary(t, s.end, collar))
  }

  method ReferenceCollarRegions(reference: seq<Segment>, collar: int) returns (regions: seq<Interval>)
    ensures Separated(regions)
    ensures forall t :: Inside(t, regions) <==> InCollar(reference, collar, t)
  {
    if collar <= 0 {
      return [];
    }
    var intervals: seq<Interval> := [];
    for i := 0 to |reference|
      invariant forall t :: Inside(t, intervals) <==> InCollar(reference[..i], collar, t)
    {
      var s := reference[i];
      var first := Interval(Max(0, s.start - collar), s.start + collar);
      var second := Interval(Max(0, s.end - collar), s.end + collar);
      CollarStep(intervals, reference, i, collar, first, second);
      intervals := intervals + [first, second];
    }
    assert reference[..|reference|] == reference;
    regions := MergeIntervals(intervals);
  }

  lemma CollarStep(intervals: seq<Interval>, reference: seq<Segment>, i: nat, collar: int, first: Interval, second: Interval)
    requires collar > 0 && i < |reference|
    requires forall t :: Inside(t, intervals) <==> InCollar(reference[..i], collar, t)
    requires first == Interval(Max(0, reference[i].start - collar), reference[i].start + collar)
    requires second == Interval(Max(0, reference[i].end - collar), reference[i].end + collar)
    ensures forall t :: Inside(t, intervals + [first, second]) <==> InCollar(reference[..i + 1], collar, t)
  {
    var s := reference[i];
    assert reference[..i + 1] == reference[..i] + [s];
    forall t ensures Inside(t, intervals + [first, second]) <==> InCollar(reference[..i + 1], collar, t) {
      var both := intervals + [first, second];
      InsideLast(t, both);
      InsideLast(t, both[..|both| - 1]);
      assert both[..|both| - 1] == intervals + [first] && (intervals + [first])[..|intervals|] == intervals;
      assert InCollar(reference[..i + 1], collar, t)
        <==> InCollar(reference[..i], collar, t) || NearBoundary(t, s.start, collar) || NearBoundary(t, s.end, collar);
    }
  }

  // ----- what one tick contributes

  /** The reference speakers scored at tick t. */
  ghost function ScoredReference(reference: seq<Segment>, collar: int): int -> int {
    t => if InCollar(reference, collar, t) then 0 else |ActiveAt(reference, t)|
  }

  /** The prediction speakers scored at tick t. */
  ghost function ScoredPrediction(reference: seq<Segment>, prediction: seq<Segment>, collar: int): int -> int {
    t => if InCollar(reference, collar, t) then 0 else |ActiveAt(prediction, t)|
  }

  ghost function FalseAlarmAt(reference: seq<Segment>, prediction: seq<Segment>, collar: int): int -> int {
    t => if InCollar(reference, collar, t) then 0
         else Max(0, |ActiveAt(prediction, t)| - |ActiveAt(reference, t)|)
  }

  ghost function MissedAt(reference: seq<Segment>, prediction: seq<Segment>, collar: int): int -> int {
    t => if InCollar(reference, collar, t) then 0
         else Max(0, |ActiveAt(reference, t)| - |ActiveAt(prediction, t)|)
  }

  ghost function ConfusionAt(reference: seq<Segment>, prediction: seq<Segment>, mapping: Mapping, collar: int): int -> int {
    t => if InCollar(reference, collar, t) then 0
         else Max(0, Min(|ActiveAt(reference, t)|, |ActiveAt(prediction, t)|)
                     - |Agreement(ActiveAt(reference, t), ActiveAt(prediction, t), mapping)|)
  }

  /** The detail holds the per-tick sums over [lo, hi). */
  ghost predicate IsTickSum(d: DerDetail, reference: seq<Segment>, prediction: seq<Segment>, mapping: Mapping,
                            collar: int, lo: int, hi: int)
  {
    && d.total == SumTo(ScoredReference(reference, collar), lo, hi)
    && d.falseAlarm == SumTo(FalseAlarmAt(reference, prediction, collar), lo, hi)
    && d.missed == SumTo(MissedAt(reference, prediction, collar), lo, hi)
    && d.confusion == SumTo(ConfusionAt(reference, prediction, mapping, collar), lo, hi)
  }

  /** The detail holds the per-tick sums over every range that contains all segments. */
  ghost predicate IsDer(d: DerDetail, reference: seq<Segment>, prediction: seq<Segment>, mapping: Mapping, collar: int) {
    forall lo, hi :: Covers(reference, lo, hi) && Covers(prediction, lo, hi)
      ==> IsTickSum(d, reference, prediction, mapping, collar, lo, hi)
  }

  // ----- the sweep

  ghost predicate NoPointInside(points: seq<int>, start: int, end: int) {
    forall p :: p in points ==> p <= start || end <= p
  }

  ghost predicate HasEndpoints(points: seq<int>, segments: seq<Segment>) {
    forall s :: s in segments ==> s.start in points && s.end in points
  }

  /** Between neighbouring boundaries the active speakers do not change. */
  lemma ActiveConstant(points: seq<int>, segments: seq<Segment>, start: int, end: int, t: int)
    requires HasEndpoints(points, segments) && NoPointInside(points, start, end) && start <= t < end
    ensures ActiveSpeakers(segments, start, end) == ActiveAt(segments, t)
  {
  }

  /** The midpoint test, on doubled times so that the midpoint is whole. */
  predicate MidpointInside(start: int, end: int, intervals: seq<Interval>) {
    exists x :: x in intervals && 2 * x.start <= start + end < 2 * x.end
  }

  /** Between neighbouring boundaries the midpoint decides collar membership for every tick. */
  lemma CollarConstant(points: seq<int>, regions: seq<Interval>, start: int, end: int, t: int)
    requires forall x :: x in regions ==> x.start in points && x.end in points
    requires NoPointInside(points, start, end) && start <= t < end
    ensures MidpointInside(start, end, regions) <==> Inside(t, regions)
  {
  }

  function EndpointsOf(segments: seq<Segment>): seq<int> {
    if segments == [] then [] else EndpointsOf(segments[1..]) + [segments[0].start, segments[0].end]
  }

  function IntervalPoints(intervals: seq<Interval>): seq<int> {
    if intervals == [] then [] else IntervalPoints(intervals[1..]) + [intervals[0].start, intervals[0].end]
  }

  lemma {:induction false} EndpointsComplete(segments: seq<Segment>)
    ensures HasEndpoints(EndpointsOf(segments), segments)
    ensures forall p :: p in EndpointsOf(segments) ==> exists s :: s in segments && (p == s.start || p == s.end)
  {
    if segments != [] {
      EndpointsComplete(segments[1..]);
      assert segments[0] in segments;
      assert forall s :: s in segments ==> s == segments[0] || s in segments[1..];
    }
  }

  lemma {:induction false} IntervalPointsComplete(intervals: seq<Interval>)
    ensures forall x :: x in intervals ==> x.start in IntervalPoints(intervals) && x.end in IntervalPoints(intervals)
  {
    if intervals != [] {
      IntervalPointsComplete(intervals[1..]);
      assert forall s :: s in intervals ==> s == intervals[0] || s in intervals[1..];
    }
  }

  /** The active sets and collar membership do not change on [start, end). */
  ghost predicate Constant(reference: seq<Segment>, prediction: seq<Segment>, collar: int, start: int, end: int,
                           r: set<Speaker>, h: set<Speaker>, collared: bool)
  {
    && (forall t :: start <= t < end ==> ActiveAt(reference, t) == r)
    && (forall t :: start <= t < end ==> ActiveAt(prediction, t) == h)
    && (forall t :: start <= t < end ==> InCollar(reference, collar, t) == collared)
  }

  /** Elementary intervals are constant, and the code reads off the constants. */
  lemma ElementaryConstant(points: seq<int>, regions: seq<Interval>, reference: seq<Segment>, prediction: seq<Segment>,
                           collar: int, start: int, end: int)
    requires start < end && NoPointInside(points, start, end)
    requires HasEndpoints(points, reference) && HasEndpoints(points, prediction)
    requires forall x :: x in regions ==> x.start in points && x.end in points
    requires forall t :: Inside(t, regions) <==> InCollar(reference, collar, t)
    ensures Constant(reference, prediction, collar, start, end, ActiveSpeakers(reference, start, end),
                     ActiveSpeakers(prediction, start, end), MidpointInside(start, end, regions))
  {
    forall t | start <= t < end
      ensures ActiveAt(reference, t) == ActiveSpeakers(reference, start, end)
    {
      ActiveConstant(points, reference, start, end, t);
    }
    forall t | start <= t < end
      ensures ActiveAt(prediction, t) == ActiveSpeakers(prediction, start, end)
    {
      ActiveConstant(points, prediction, start, end, t);
    }
    forall t | start <= t < end
      ensures InCollar(reference, collar, t) == MidpointInside(start, end, regions)
    {
      CollarConstant(points, regions, start, end, t);
    }
  }

  lemma Extend(f: int -> int, c: int, first: int, start: int, end: int)
    requires first <= start < end
    requires forall t :: start <= t < end ==> f(t) == c
    ensures SumTo(f, first, end) == SumTo(f, first, start) + c * (end - start)
  {
    SumToSplit(f, first, start, end);
    SumToConstant(f, c, start, end);
  }

  /** The accumulators after an elementary interval of the given duration. */
  function Contribution(d: DerDetail, r: set<Speaker>, h: set<Speaker>, mapping: Mapping, collared: bool, duration: int): DerDetail {
    if collared then d else
    DerDetail(d.total + |r| * duration,
              d.falseAlarm + Max(0, |h| - |r|) * duration,
              d.missed + Max(0, |r| - |h|) * duration,
              d.confusion + Max(0, Min(|r|, |h|) - |Agreement(r, h, mapping)|) * duration)
  }

  /** All ticks of a constant interval contribute alike, so the code may multiply by
      the duration. */
  lemma ConstantContribution(d: DerDetail, reference: seq<Segment>, prediction: seq<Segment>, mapping: Mapping, collar: int,
                             first: int, start: int, end: int, r: set<Speaker>, h: set<Speaker>, collared: bool)
    requires first <= start < end
    requires Constant(reference, prediction, collar, start, end, r, h, collared)
    requires IsTickSum(d, reference, prediction, mapping, collar, first, start)
    ensures IsTickSum(Contribution(d, r, h, mapping, collared, end - start), reference, prediction, mapping, collar, first, end)
  {
    hide ActiveAt, InCollar, Agreement, SumTo;
    Extend(ScoredReference(reference, collar), if collared then 0 else |r|, first, start, end);
    Extend(FalseAlarmAt(reference, prediction, collar), if collared then 0 else Max(0, |h| - |r|), first, start, end);
    Extend(MissedAt(reference, prediction, collar), if collared then 0 else Max(0, |r| - |h|), first, start, end);
    Extend(ConfusionAt(reference, prediction, mapping, collar),
           if collared then 0 else Max(0, Min(|r|, |h|) - |Agreement(r, h, mapping)|), first, start, end);
  }

  /** Nothing is added inside the collar or where nobody speaks. */
  lemma ContributionIs(d: DerDetail, r: set<Speaker>, h: set<Speaker>, mapping: Mapping, collared: bool, duration: int)
    ensures (Contribution(d, r, h, mapping, collared, duration)
      == if collared || (r == {} && h == {}) then d
         else DerDetail(d.total + |r| * duration,
                        d.falseAlarm + Max(0, |h| - |r|) * duration,
                        d.missed + Max(0, |r| - |h|) * duration,
                        d.confusion + Max(0, Min(|r|, |h|) - |Agreement(r, h, mapping)|) * duration))
  {
  }

  lemma NeighboursAreElementary(points: seq<int>, i: nat)
    requires Increasing(points) && i + 1 < |points|
    ensures points[0] <= points[i] < points[i + 1] && NoPointInside(points, points[i], points[i + 1])
  {
    forall p | p in points ensures p <= points[i] || points[i + 1] <= p {
      var k :| 0 <= k < |points| && points[k] == p;
    }
  }

  ghost predicate HasPoints(points: seq<int>, regions: seq<Interval>) {
    forall x :: x in regions ==> x.start in points && x.end in points
  }

  ghost predicate AreCollar(regions: seq<Interval>, reference: seq<Segment>, collar: int) {
    forall t :: Inside(t, regions) <==> InCollar(reference, collar, t)
  }

  /** The boundaries of the sweep: the ends of all segments and of all regions, in order. */
  method Boundaries(reference: seq<Segment>, prediction: seq<Segment>, regions: seq<Interval>) returns (points: seq<int>)
    ensures Increasing(points) && HasEndpoints(points, reference) && HasEndpoints(points, prediction) && HasPoints(points, regions)
  {
    EndpointsComplete(reference + prediction);
    IntervalPointsComplete(regions);
    points := SortedPoints(EndpointsOf(reference + prediction) + IntervalPoints(regions));
  }

  /** One elementary interval of the sweep. */
  lemma SweepStep(d: DerDetail, points: seq<int>, regions: seq<Interval>, reference: seq<Segment>, prediction: seq<Segment>,
                  mapping: Mapping, collar: int, i: nat)
    requires Increasing(points) && i + 1 < |points|
    requires HasEndpoints(points, reference) && HasEndpoints(points, prediction)
    requires HasPoints(points, regions) && AreCollar(regions, reference, collar)
    requires IsTickSum(d, reference, prediction, mapping, collar, points[0], points[i])
    ensures points[i] < points[i + 1]
    ensures IsTickSum(Contribution(d, ActiveSpeakers(reference, points[i], points[i + 1]),
                                   ActiveSpeakers(prediction, points[i], points[i + 1]), mapping,
                                   MidpointInside(points[i], points[i + 1], regions), points[i + 1] - points[i]),
                      reference, prediction, mapping, collar, points[0], points[i + 1])
  {
    hide ActiveAt, ActiveSpeakers, InCollar, Agreement, SumTo, Inside, MidpointInside, Constant, IsTickSum, Contribution,
         NoPointInside;
    var start, end := points[i], points[i + 1];
    NeighboursAreElementary(points, i);
    ElementaryConstant(points, regions, reference, prediction, collar, start, end);
    ConstantContribution(d, reference, prediction, mapping, collar, points[0], start, end,
                         ActiveSpeakers(reference, start, end), ActiveSpeakers(prediction, start, end),
                         MidpointInside(start, end, regions));
  }

  /** The sweep over elementary intervals computes the per-tick sums exactly. */
  method Sweep(reference: seq<Segment>, prediction: seq<Segment>, mapping: Mapping, collar: int) returns (d: DerDetail)
    ensures IsDer(d, reference, prediction, mapping, collar)
  {
    hide ActiveAt, ActiveSpeakers, InCollar, Agreement, SumTo, Inside, MidpointInside, Constant, IsTickSum, IsDer,
         Contribution, Increasing, Separated, HasEndpoints, HasPoints;
    var regions := ReferenceCollarRegions(reference, collar);
    assert AreCollar(regions, reference, collar);
    hide AreCollar;
    var boundaries := Boundaries(reference, prediction, regions);
    d := DerDetail(0, 0, 0, 0);
    var i := 0;
    EmptyTickSum(reference, prediction, mapping, collar, if boundaries == [] then 0 else boundaries[0]);
    while i + 1 < |boundaries|
      invariant i == 0 || i < |boundaries|
      invariant boundaries == [] ==> d == DerDetail(0, 0, 0, 0)
      invariant i < |boundaries| ==> IsTickSum(d, reference, prediction, mapping, collar, boundaries[0], boundaries[i])
    {
      var start, end := boundaries[i], boundaries[i + 1];
      SweepStep(d, boundaries, regions, reference, prediction, mapping, collar, i);
      var duration := end - start;
      var r := ActiveSpeakers(reference, start, end);
      var h := ActiveSpeakers(prediction, start, end);
      ContributionIs(d, r, h, mapping, MidpointInside(start, end, regions), duration);
      if !MidpointInside(start, end, regions) && (r != {} || h != {}) {
        d := DerDetail(d.total + |r| * duration,
                       d.falseAlarm + Max(0, |h| - |r|) * duration,
                       d.missed + Max(0, |r| - |h|) * duration,
                       d.confusion + Max(0, Min(|r|, |h|) - |Agreement(r, h, mapping)|) * duration);
      }
      i := i + 1;
    }
    SweepRange(d, boundaries, reference, prediction, mapping, collar);
  }

  lemma EmptyTickSum(reference: seq<Segment>, prediction: seq<Segment>, mapping: Mapping, collar: int, a: int)
    ensures IsTickSum(DerDetail(0, 0, 0, 0), reference, prediction, mapping, collar, a, a)
  {
  }

  /** Nothing is active outside the swept range, nor outside any covering range. */
  lemma SweepRange(d: DerDetail, points: seq<int>, reference: seq<Segment>, prediction: seq<Segment>, mapping: Mapping, collar: int)
    requires Increasing(points) && HasEndpoints(points, reference) && HasEndpoints(points, prediction)
    requires points != [] ==> IsTickSum(d, reference, prediction, mapping, collar, points[0], points[|points| - 1])
    requires points == [] ==> d == DerDetail(0, 0, 0, 0)
    ensures IsDer(d, reference, prediction, mapping, collar)
  {
    hide ActiveAt, InCollar, Agreement, SumTo;
    var a, b := if points == [] then 0 else points[0], if points == [] then 0 else points[|points| - 1];
    assert forall p :: p in points ==> a <= p <= b;
    assert IsTickSum(d, reference, prediction, mapping, collar, a, b) by {
      if points == [] { EmptyTickSum(reference, prediction, mapping, collar, a); }
    }
    forall lo, hi | Covers(reference, lo, hi) && Covers(prediction, lo, hi)
      ensures IsTickSum(d, reference, prediction, mapping, collar, lo, hi)
    {
      SameRange(d, reference, prediction, mapping, collar, a, b, lo, hi);
    }
  }

  lemma SilentOutside(reference: seq<Segment>, prediction: seq<Segment>, mapping: Mapping, lo: int, hi: int, t: int)
    requires Covers(reference, lo, hi) && Covers(prediction, lo, hi) && !(lo <= t < hi)
    ensures ActiveAt(reference, t) == {} && ActiveAt(prediction, t) == {}
    ensures Agreement(ActiveAt(reference, t), ActiveAt(prediction, t), mapping) == {}
  {
  }

  lemma SameRange(d: DerDetail, reference: seq<Segment>, prediction: seq<Segment>, mapping: Mapping, collar: int,
                  a: int, b: int, lo: int, hi: int)
    requires Covers(reference, a, b) && Covers(prediction, a, b)
    requires Covers(reference, lo, hi) && Covers(prediction, lo, hi)
    requires IsTickSum(d, reference, prediction, mapping, collar, a, b)
    ensures IsTickSum(d, reference, prediction, mapping, collar, lo, hi)
  {
    hide ActiveAt, InCollar, Agreement, SumTo, Covers;
    forall t | !(a <= t < b) || !(lo <= t < hi)
      ensures ScoredReference(reference, collar)(t) == 0
      ensures FalseAlarmAt(reference, prediction, collar)(t) == 0
      ensures MissedAt(reference, prediction, collar)(t) == 0
      ensures ConfusionAt(reference, prediction, mapping, collar)(t) == 0
    {
      if !(a <= t < b) { SilentOutside(reference, prediction, mapping, a, b, t); }
      else { SilentOutside(reference, prediction, mapping, lo, hi, t); }
    }
    assert a <= b && lo <= hi by { CoversOrdered(reference, a, b); CoversOrdered(reference, lo, hi); }
    SumToSupport(ScoredReference(reference, collar), lo, hi, a, b);
    SumToSupport(FalseAlarmAt(reference, prediction, collar), lo, hi, a, b);
    SumToSupport(MissedAt(reference, prediction, collar), lo, hi, a, b);
    SumToSupport(ConfusionAt(reference, prediction, mapping, collar), lo, hi, a, b);
  }

  lemma CoversOrdered(segments: seq<Segment>, lo: int, hi: int)
    requires Covers(segments, lo, hi)
    ensures lo <= hi
  {
  }
}
