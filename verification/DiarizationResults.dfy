/** What the diarization error times mean: conservation, the least confusion, and
    the zero score of a transcript against itself. */
module DiarizationResults {
  import opened Wrappers
  import opened Sums
  import opened Segments
  import opened DiarizationSweep
  import opened DiarizationMapping

  // ----- conservation

  lemma TickBalance(r: int, h: int, common: int)
    requires 0 <= common <= r && 0 <= h
    ensures r - h == Max(0, r - h) - Max(0, h - r)
    ensures Max(0, r - h) + Max(0, Min(r, h) - common) <= r
  {
  }

  lemma AgreementSize(r: set<Speaker>, h: set<Speaker>, m: Mapping)
    ensures |Agreement(r, h, m)| <= |r|
  {
    var wrap := (s: Speaker) => Reference(s);
    ImageSize(r, wrap);
    assert (set x | x in r :: Reference(x)) == Image(r, wrap);
    SubsetSize(Agreement(r, h, m), Image(r, wrap));
  }

  /** Reference minus prediction speakers, tick by tick. */
  ghost function Difference(reference: seq<Segment>, prediction: seq<Segment>, collar: int): int -> int {
    t => ScoredReference(reference, collar)(t) - ScoredPrediction(reference, prediction, collar)(t)
  }

  /** Missed speakers and confusion together, tick by tick. */
  ghost function Lost(reference: seq<Segment>, prediction: seq<Segment>, m: Mapping, collar: int): int -> int {
    t => MissedAt(reference, prediction, collar)(t) + ConfusionAt(reference, prediction, m, collar)(t)
  }

  lemma TickConservation(reference: seq<Segment>, prediction: seq<Segment>, m: Mapping, collar: int, t: int)
    ensures Difference(reference, prediction, collar)(t)
         == MissedAt(reference, prediction, collar)(t) - FalseAlarmAt(reference, prediction, collar)(t)
    ensures Lost(reference, prediction, m, collar)(t) <= ScoredReference(reference, collar)(t)
    ensures MissedAt(reference, prediction, collar)(t) >= 0 && FalseAlarmAt(reference, prediction, collar)(t) >= 0
    ensures ConfusionAt(reference, prediction, m, collar)(t) >= 0
  {
    var r, h := ActiveAt(reference, t), ActiveAt(prediction, t);
    AgreementSize(r, h, m);
    TickBalance(|r|, |h|, |Agreement(r, h, m)|);
    assert Difference(reference, prediction, collar)(t)
      == ScoredReference(reference, collar)(t) - ScoredPrediction(reference, prediction, collar)(t);
  }

  /** Reference time minus prediction time is missed time minus false-alarm time, and
      missed time and confusion together never exceed the reference time. */
  lemma Conservation(d: DerDetail, reference: seq<Segment>, prediction: seq<Segment>, m: Mapping, collar: int, lo: int, hi: int)
    requires IsTickSum(d, reference, prediction, m, collar, lo, hi)
    ensures d.total - SumTo(ScoredPrediction(reference, prediction, collar), lo, hi) == d.missed - d.falseAlarm
    ensures d.missed + d.confusion <= d.total
    ensures d.missed >= 0 && d.falseAlarm >= 0 && d.confusion >= 0
  {
    hide SumTo;
    var total, hypothesis := ScoredReference(reference, collar), ScoredPrediction(reference, prediction, collar);
    var missed, alarm := MissedAt(reference, prediction, collar), FalseAlarmAt(reference, prediction, collar);
    var confusion := ConfusionAt(reference, prediction, m, collar);
    hide ScoredReference, ScoredPrediction, MissedAt, FalseAlarmAt, ConfusionAt;
    forall t
      ensures Difference(reference, prediction, collar)(t) == missed(t) - alarm(t)
      ensures Lost(reference, prediction, m, collar)(t) <= total(t)
      ensures missed(t) >= 0 && alarm(t) >= 0 && confusion(t) >= 0
    {
      TickConservation(reference, prediction, m, collar, t);
    }
    SumToLinear(total, hypothesis, Difference(reference, prediction, collar), lo, hi, -1);
    SumToLinear(missed, alarm, Difference(reference, prediction, collar), lo, hi, -1);
    SumToLinear(missed, confusion, Lost(reference, prediction, m, collar), lo, hi, 1);
    SumToMonotone(Lost(reference, prediction, m, collar), total, lo, hi);
    SumToZeroTerms(missed, lo, hi);
    SumToZeroTerms(alarm, lo, hi);
    SumToZeroTerms(confusion, lo, hi);
  }

  // ----- the reference total is speaker time

  /** The ticks of [lo, hi) at which a speaker is active outside the collar: the
      union of the speaker's segments, so overlapping segments count once. */
  ghost function SpokenTicks(reference: seq<Segment>, collar: int, speaker: Speaker, lo: int, hi: int): set<int> {
    set t: int | lo <= t < hi && speaker in ActiveAt(reference, t) && !InCollar(reference, collar, t)
  }

  ghost function SpokenAt(reference: seq<Segment>, collar: int): (Speaker, int) -> int {
    (q: Speaker, t: int) => if q in ActiveAt(reference, t) && !InCollar(reference, collar, t) then 1 else 0
  }

  ghost function SpokenTime(reference: seq<Segment>, collar: int, lo: int, hi: int): Speaker -> int {
    (q: Speaker) => |SpokenTicks(reference, collar, q, lo, hi)|
  }

  lemma {:induction false} SpokenTicksSum(reference: seq<Segment>, collar: int, q: Speaker, lo: int, hi: int)
    ensures |SpokenTicks(reference, collar, q, lo, hi)| == SumTo(Row(SpokenAt(reference, collar), q), lo, hi)
    decreases hi - lo
  {
    hide ActiveAt, InCollar;
    if lo >= hi {
      assert SpokenTicks(reference, collar, q, lo, hi) == {};
    } else {
      SpokenTicksSum(reference, collar, q, lo, hi - 1);
      var before := SpokenTicks(reference, collar, q, lo, hi - 1);
      var spoken := q in ActiveAt(reference, hi - 1) && !InCollar(reference, collar, hi - 1);
      assert SpokenTicks(reference, collar, q, lo, hi) == if spoken then before + {hi - 1} else before;
    }
  }

  /** The total is the sum, over reference speakers, of the measure of the union of
      their segments outside the collar. */
  lemma TotalIsSpeakerTime(d: DerDetail, reference: seq<Segment>, prediction: seq<Segment>, m: Mapping, collar: int, lo: int, hi: int)
    requires IsTickSum(d, reference, prediction, m, collar, lo, hi)
    ensures d.total == SumOver(Labels(reference), SpokenTime(reference, collar, lo, hi))
  {
    var f := SpokenAt(reference, collar);
    var speakers := Labels(reference);
    forall t ensures ScoredReference(reference, collar)(t) == ColumnSums(f, speakers)(t) {
      SpokenColumn(reference, collar, t);
    }
    SumToCongruent(ScoredReference(reference, collar), ColumnSums(f, speakers), lo, hi);
    Exchange(f, speakers, lo, hi);
    forall q ensures RowSums(f, lo, hi)(q) == SpokenTime(reference, collar, lo, hi)(q) {
      SpokenTicksSum(reference, collar, q, lo, hi);
    }
    SumOverCongruent(speakers, RowSums(f, lo, hi), SpokenTime(reference, collar, lo, hi));
  }

  lemma SpokenColumn(reference: seq<Segment>, collar: int, t: int)
    ensures ScoredReference(reference, collar)(t) == SumOver(Labels(reference), Column(SpokenAt(reference, collar), t))
  {
    hide InCollar;
    var speakers := Labels(reference);
    var spoken := (q: Speaker) => q in ActiveAt(reference, t) && !InCollar(reference, collar, t);
    SumOverIndicator(speakers, Column(SpokenAt(reference, collar), t), spoken);
    assert ActiveAt(reference, t) <= speakers;
    assert Selected(speakers, spoken)
        == if InCollar(reference, collar, t) then {} else ActiveAt(reference, t);
  }

  // ----- confusion and the overlap a mapping collects

  /** No two segments of one speaker overlap. */
  ghost predicate NoSelfOverlap(segments: seq<Segment>) {
    forall i, j :: 0 <= i < j < |segments| && segments[i].speaker == segments[j].speaker
      ==> segments[i].end <= segments[j].start || segments[j].end <= segments[i].start
  }

  lemma {:induction false} CountAtMostOne(segments: seq<Segment>, q: Speaker, t: int)
    requires NoSelfOverlap(segments)
    ensures Count(segments, q, t) == if q in ActiveAt(segments, t) then 1 else 0
  {
    if segments != [] {
      hide ActiveAt;
      var n := |segments| - 1;
      CountAtMostOne(segments[..n], q, t);
      LastSegmentActive(segments, q, t);
    }
  }

  /** The last segment adds its speaker, who was not active before. */
  lemma LastSegmentActive(segments: seq<Segment>, q: Speaker, t: int)
    requires NoSelfOverlap(segments) && segments != []
    ensures NoSelfOverlap(segments[..|segments| - 1])
    ensures (q in ActiveAt(segments, t)
        <==> (q in ActiveAt(segments[..|segments| - 1], t)
              || (segments[|segments| - 1].speaker == q && Indicator(segments[|segments| - 1], t) == 1)))
    ensures (segments[|segments| - 1].speaker == q && Indicator(segments[|segments| - 1], t) == 1
        ==> q !in ActiveAt(segments[..|segments| - 1], t))
  {
    var front, last := segments[..|segments| - 1], segments[|segments| - 1];
    assert segments == front + [last];
    if s :| s in front && s.start <= t < s.end && s.speaker == q {
      var i :| 0 <= i < |front| && front[i] == s;
      assert segments[i] == s;
    }
  }

  /** At tick t the mapped pair h is active on both sides. */
  ghost function MappedPair(m: Mapping, reference: seq<Segment>, prediction: seq<Segment>): (Speaker, int) -> int {
    (h: Speaker, t: int) => if h in m then Product(reference, prediction, m[h], h)(t) else 0
  }

  /** The prediction speakers of h whose image is in r. */
  ghost function Agreeing(r: set<Speaker>, h: set<Speaker>, m: Mapping): set<Speaker> {
    set x | x in m.Keys && x in h && m[x] in r
  }

  lemma AgreementIsAgreeing(r: set<Speaker>, h: set<Speaker>, m: Mapping)
    requires forall x, y :: x in m && y in m && m[x] == m[y] ==> x == y
    ensures |Agreement(r, h, m)| == |Agreeing(r, h, m)| && |Agreement(r, h, m)| <= Min(|r|, |h|)
  {
    var relabel := (x: Speaker) => Relabel(m, x);
    var agreeing := Agreeing(r, h, m);
    ImageSize(agreeing, relabel);
    forall l ensures l in Agreement(r, h, m) <==> l in Image(agreeing, relabel) {
      if l in Agreement(r, h, m) {
        var x :| x in h && Relabel(m, x) == l;
        assert l.Reference? && x in agreeing && relabel(x) == l;
      }
      if l in Image(agreeing, relabel) {
        var x :| x in agreeing && relabel(x) == l;
        assert l == Reference(m[x]);
      }
    }
    assert Agreement(r, h, m) == Image(agreeing, relabel);
    SubsetSize(agreeing, h);
    AgreementSize(r, h, m);
  }

  lemma AgreementColumn(m: Mapping, reference: seq<Segment>, prediction: seq<Segment>, t: int)
    requires IsMatching(m, reference, prediction) && NoSelfOverlap(reference) && NoSelfOverlap(prediction)
    ensures |Agreement(ActiveAt(reference, t), ActiveAt(prediction, t), m)|
         == SumOver(m.Keys, Column(MappedPair(m, reference, prediction), t))
  {
    hide ActiveAt, Agreement;
    var r, h := ActiveAt(reference, t), ActiveAt(prediction, t);
    AgreementIsAgreeing(r, h, m);
    var both := (x: Speaker) => x in m && x in h && m[x] in r;
    forall x | x in m.Keys ensures Column(MappedPair(m, reference, prediction), t)(x) == if both(x) then 1 else 0 {
      CountAtMostOne(reference, m[x], t);
      CountAtMostOne(prediction, x, t);
      assert MappedPair(m, reference, prediction)(x, t) == Product(reference, prediction, m[x], x)(t);
    }
    SumOverIndicator(m.Keys, Column(MappedPair(m, reference, prediction), t), both);
    assert Selected(m.Keys, both) == Agreeing(r, h, m);
  }

  ghost function SharedAt(reference: seq<Segment>, prediction: seq<Segment>): int -> int {
    t => Min(|ActiveAt(reference, t)|, |ActiveAt(prediction, t)|)
  }

  lemma AgreementSum(m: Mapping, reference: seq<Segment>, prediction: seq<Segment>, lo: int, hi: int)
    requires Covers(reference, lo, hi)
    ensures SumTo(ColumnSums(MappedPair(m, reference, prediction), m.Keys), lo, hi) == Weight(m, reference, prediction)
  {
    hide Overlap, Product, Covers;
    var f := MappedPair(m, reference, prediction);
    Exchange(f, m.Keys, lo, hi);
    forall h | h in m.Keys ensures RowSums(f, lo, hi)(h) == MappedOverlap(m, reference, prediction)(h) {
      OverlapIsInnerProduct(reference, prediction, m[h], h, lo, hi);
      SumToCongruent(Row(f, h), Product(reference, prediction, m[h], h), lo, hi);
    }
    SumOverCongruent(m.Keys, RowSums(f, lo, hi), MappedOverlap(m, reference, prediction));
  }

  /** Without self-overlap and collar, confusion is the time both sides speak, counted
      with the smaller number of speakers, minus the overlap the mapping collects. */
  lemma ConfusionIsSharedMinusOverlap(m: Mapping, reference: seq<Segment>, prediction: seq<Segment>, lo: int, hi: int)
    requires IsMatching(m, reference, prediction) && NoSelfOverlap(reference) && NoSelfOverlap(prediction)
    requires Covers(reference, lo, hi)
    ensures SumTo(ConfusionAt(reference, prediction, m, 0), lo, hi)
         == SumTo(SharedAt(reference, prediction), lo, hi) - Weight(m, reference, prediction)
  {
    hide ActiveAt, Agreement, Covers, Weight, SumOver, NoSelfOverlap;
    var f := MappedPair(m, reference, prediction);
    forall t ensures ConfusionAt(reference, prediction, m, 0)(t) == SharedAt(reference, prediction)(t) - ColumnSums(f, m.Keys)(t) {
      AgreementColumn(m, reference, prediction, t);
      AgreementIsAgreeing(ActiveAt(reference, t), ActiveAt(prediction, t), m);
    }
    SumToLinear(SharedAt(reference, prediction), ColumnSums(f, m.Keys), ConfusionAt(reference, prediction, m, 0), lo, hi, -1);
    AgreementSum(m, reference, prediction, lo, hi);
  }

  // ----- confusion and the time a mapping agrees, for any overlaps and collar

  /** The ticks of [lo, hi) outside the collar at which h and its image are both active. */
  ghost function AgreedTicks(m: Mapping, reference: seq<Segment>, prediction: seq<Segment>, collar: int,
                             h: Speaker, lo: int, hi: int): set<int>
  {
    set t: int | lo <= t < hi && Agrees(m, reference, prediction, collar, h, t)
  }

  ghost predicate Agrees(m: Mapping, reference: seq<Segment>, prediction: seq<Segment>, collar: int, h: Speaker, t: int) {
    !InCollar(reference, collar, t) && h in m && h in ActiveAt(prediction, t) && m[h] in ActiveAt(reference, t)
  }

  ghost function AgreedAt(m: Mapping, reference: seq<Segment>, prediction: seq<Segment>, collar: int): (Speaker, int) -> int {
    (h: Speaker, t: int) => if Agrees(m, reference, prediction, collar, h, t) then 1 else 0
  }

  ghost function AgreedOf(m: Mapping, reference: seq<Segment>, prediction: seq<Segment>, collar: int, lo: int, hi: int): Speaker -> int {
    (h: Speaker) => |AgreedTicks(m, reference, prediction, collar, h, lo, hi)|
  }

  /** How long the mapped pairs speak together outside the collar; overlapping segments of a
      speaker count once. */
  ghost function AgreedTime(m: Mapping, reference: seq<Segment>, prediction: seq<Segment>, collar: int, lo: int, hi: int): int {
    SumOver(m.Keys, AgreedOf(m, reference, prediction, collar, lo, hi))
  }

  ghost function ScoredShared(reference: seq<Segment>, prediction: seq<Segment>, collar: int): int -> int {
    t => if InCollar(reference, collar, t) then 0 else Min(|ActiveAt(reference, t)|, |ActiveAt(prediction, t)|)
  }

  lemma {:induction false} AgreedTicksSum(m: Mapping, reference: seq<Segment>, prediction: seq<Segment>, collar: int,
                                          h: Speaker, lo: int, hi: int)
    ensures (|AgreedTicks(m, reference, prediction, collar, h, lo, hi)|
          == SumTo(Row(AgreedAt(m, reference, prediction, collar), h), lo, hi))
    decreases hi - lo
  {
    hide Agrees;
    if lo >= hi {
      assert AgreedTicks(m, reference, prediction, collar, h, lo, hi) == {};
    } else {
      AgreedTicksSum(m, reference, prediction, collar, h, lo, hi - 1);
      LastAgreedTick(m, reference, prediction, collar, h, lo, hi);
      hide AgreedTicks;
    }
  }

  lemma LastAgreedTick(m: Mapping, reference: seq<Segment>, prediction: seq<Segment>, collar: int, h: Speaker, lo: int, hi: int)
    requires lo < hi
    ensures (|AgreedTicks(m, reference, prediction, collar, h, lo, hi)|
          == |AgreedTicks(m, reference, prediction, collar, h, lo, hi - 1)|
           + if Agrees(m, reference, prediction, collar, h, hi - 1) then 1 else 0)
  {
    hide Agrees;
    var before := AgreedTicks(m, reference, prediction, collar, h, lo, hi - 1);
    assert AgreedTicks(m, reference, prediction, collar, h, lo, hi)
      == if Agrees(m, reference, prediction, collar, h, hi - 1) then before + {hi - 1} else before;
  }

  lemma MatchingIsInjective(m: Mapping, reference: seq<Segment>, prediction: seq<Segment>)
    requires IsMatching(m, reference, prediction)
    ensures forall x, y :: x in m && y in m && m[x] == m[y] ==> x == y
  {
  }

  lemma AgreedColumn(m: Mapping, reference: seq<Segment>, prediction: seq<Segment>, collar: int, t: int)
    requires IsMatching(m, reference, prediction)
    ensures (ConfusionAt(reference, prediction, m, collar)(t)
          == ScoredShared(reference, prediction, collar)(t) - ColumnSums(AgreedAt(m, reference, prediction, collar), m.Keys)(t))
  {
    var r, h := ActiveAt(reference, t), ActiveAt(prediction, t);
    hide ActiveAt, Agreement, InCollar, SumOver, IsMatching;
    assert forall x, y :: x in m && y in m && m[x] == m[y] ==> x == y by { MatchingIsInjective(m, reference, prediction); }
    AgreementIsAgreeing(r, h, m);
    var column := Column(AgreedAt(m, reference, prediction, collar), t);
    if InCollar(reference, collar, t) {
      SumOverZero(m.Keys, column);
    } else {
      var both := (x: Speaker) => x in m && x in h && m[x] in r;
      SumOverIndicator(m.Keys, column, both);
      assert Selected(m.Keys, both) == Agreeing(r, h, m);
    }
  }

  /** For any matching, overlaps and collar, confusion is the scored time both sides speak,
      counted with the smaller number of speakers, minus the time the mapping agrees. */
  lemma ConfusionIsSharedMinusAgreed(d: DerDetail, m: Mapping, reference: seq<Segment>, prediction: seq<Segment>,
                                     collar: int, lo: int, hi: int)
    requires IsMatching(m, reference, prediction) && IsTickSum(d, reference, prediction, m, collar, lo, hi)
    ensures d.confusion == SumTo(ScoredShared(reference, prediction, collar), lo, hi)
                         - AgreedTime(m, reference, prediction, collar, lo, hi)
  {
    hide IsMatching, AgreedTicks, SumTo, SumOver, AgreedAt, ScoredShared, ConfusionAt;
    var f := AgreedAt(m, reference, prediction, collar);
    forall t ensures (ConfusionAt(reference, prediction, m, collar)(t)
        == ScoredShared(reference, prediction, collar)(t) - ColumnSums(f, m.Keys)(t))
    {
      AgreedColumn(m, reference, prediction, collar, t);
    }
    SumToLinear(ScoredShared(reference, prediction, collar), ColumnSums(f, m.Keys),
                ConfusionAt(reference, prediction, m, collar), lo, hi, -1);
    Exchange(f, m.Keys, lo, hi);
    forall h ensures RowSums(f, lo, hi)(h) == AgreedOf(m, reference, prediction, collar, lo, hi)(h) {
      AgreedTicksSum(m, reference, prediction, collar, h, lo, hi);
    }
    SumOverCongruent(m.Keys, RowSums(f, lo, hi), AgreedOf(m, reference, prediction, collar, lo, hi));
  }

  /** So of two mappings the one that agrees longer reports less confusion, and the reported
      confusion is the least exactly when no matching agrees longer. */
  lemma LessConfusionIff(d: DerDetail, m: Mapping, e: DerDetail, n: Mapping, reference: seq<Segment>,
                         prediction: seq<Segment>, collar: int, lo: int, hi: int)
    requires IsMatching(m, reference, prediction) && IsDer(d, reference, prediction, m, collar)
    requires IsMatching(n, reference, prediction) && IsDer(e, reference, prediction, n, collar)
    requires Covers(reference, lo, hi) && Covers(prediction, lo, hi)
    ensures (d.confusion <= e.confusion
      <==> AgreedTime(n, reference, prediction, collar, lo, hi) <= AgreedTime(m, reference, prediction, collar, lo, hi))
  {
    hide IsMatching, Covers, AgreedTime, IsTickSum, SumTo;
    ConfusionIsSharedMinusAgreed(d, m, reference, prediction, collar, lo, hi);
    ConfusionIsSharedMinusAgreed(e, n, reference, prediction, collar, lo, hi);
  }

  // ----- the best mapping is best among all partial mappings

  lemma {:induction false} SegmentSpeakerOverlapNotNegative(a: Segment, segments: seq<Segment>, h: Speaker)
    ensures SegmentSpeakerOverlap(a, segments, h) >= 0
  {
    if segments != [] { SegmentSpeakerOverlapNotNegative(a, segments[..|segments| - 1], h); }
  }

  lemma {:induction false} SpeakerOverlapNotNegative(reference: seq<Segment>, prediction: seq<Segment>, r: Speaker, h: Speaker)
    ensures Overlap(reference, prediction, r, h) >= 0
  {
    if reference != [] {
      var n := |reference| - 1;
      SpeakerOverlapNotNegative(reference[..n], prediction, r, h);
      SegmentSpeakerOverlapNotNegative(reference[n], prediction, h);
    }
  }

  ghost function MappedTo(m: Mapping): Speaker -> Speaker { (h: Speaker) => if h in m then m[h] else 0 }

  lemma UnmatchedPair(m: Mapping, reference: seq<Segment>, prediction: seq<Segment>) returns (r: Speaker, h: Speaker)
    requires IsMatching(m, reference, prediction) && |m| < Smaller(reference, prediction)
    ensures h in Labels(prediction) && h !in m
    ensures r in Labels(reference) && forall x :: x in m ==> m[x] != r
  {
    hide Labels;
    assert |m.Keys| == |m|;
    Spare(m.Keys, Labels(prediction));
    h :| h in Labels(prediction) && h !in m.Keys;
    ImageSize(m.Keys, MappedTo(m));
    var used := Image(m.Keys, MappedTo(m));
    Spare(used, Labels(reference));
    r :| r in Labels(reference) && r !in used;
    forall x | x in m ensures m[x] != r { assert MappedTo(m)(x) in used; }
  }

  lemma AddedWeight(m: Mapping, r: Speaker, h: Speaker, reference: seq<Segment>, prediction: seq<Segment>)
    requires h !in m
    ensures Weight(m[h := r], reference, prediction) == Weight(m, reference, prediction) + Overlap(reference, prediction, r, h)
  {
    hide Overlap, SumOver;
    var n := m[h := r];
    assert n.Keys == m.Keys + {h};
    SumOverAdd(m.Keys, MappedOverlap(n, reference, prediction), h);
    SumOverCongruent(m.Keys, MappedOverlap(n, reference, prediction), MappedOverlap(m, reference, prediction));
  }

  /** A partial mapping that leaves speakers on both sides unmatched can be extended
      without losing overlap. */
  lemma ExtendMatching(m: Mapping, reference: seq<Segment>, prediction: seq<Segment>) returns (n: Mapping)
    requires IsMatching(m, reference, prediction) && |m| < Smaller(reference, prediction)
    ensures IsMatching(n, reference, prediction) && |n| == |m| + 1
    ensures Weight(n, reference, prediction) >= Weight(m, reference, prediction)
  {
    hide Overlap, Labels, Weight, Smaller;
    var r, h := UnmatchedPair(m, reference, prediction);
    n := m[h := r];
    AddedWeight(m, r, h, reference, prediction);
    SpeakerOverlapNotNegative(reference, prediction, r, h);
  }

  lemma {:induction false} MatchingSize(m: Mapping, reference: seq<Segment>, prediction: seq<Segment>)
    requires IsMatching(m, reference, prediction)
    ensures |m| <= Smaller(reference, prediction)
  {
    hide Labels;
    ImageSize(m.Keys, MappedTo(m));
    SubsetSize(m.Keys, Labels(prediction));
    SubsetSize(Image(m.Keys, MappedTo(m)), Labels(reference));
    assert |m.Keys| == |m|;
  }

  /** A mapping that leaves speakers out collects no more: it extends to a full one. */
  lemma {:induction false} BestAmongPartial(best: Mapping, m: Mapping, reference: seq<Segment>, prediction: seq<Segment>)
    requires IsBestMapping(best, reference, prediction) && IsMatching(m, reference, prediction)
    ensures Weight(m, reference, prediction) <= Weight(best, reference, prediction)
    decreases Smaller(reference, prediction) - |m|
  {
    hide Weight, IsMatching, Smaller;
    MatchingSize(m, reference, prediction);
    if |m| < Smaller(reference, prediction) {
      var n := ExtendMatching(m, reference, prediction);
      MatchingSize(n, reference, prediction);
      BestAmongPartial(best, n, reference, prediction);
    }
  }

  /** Without self-overlap and collar, the reported confusion is the least over all
      partial injective mappings; so two best mappings report the same confusion. */
  lemma ConfusionIsLeast(d: DerDetail, best: Mapping, other: Mapping, e: DerDetail,
                         reference: seq<Segment>, prediction: seq<Segment>)
    requires NoSelfOverlap(reference) && NoSelfOverlap(prediction)
    requires IsBestMapping(best, reference, prediction) && IsDer(d, reference, prediction, best, 0)
    requires IsMatching(other, reference, prediction) && IsDer(e, reference, prediction, other, 0)
    ensures d.confusion <= e.confusion
    ensures IsBestMapping(other, reference, prediction) ==> d.confusion == e.confusion
  {
    hide Weight, SumTo, NoSelfOverlap, IsMatching;
    var lo, hi := Range(reference, prediction);
    ConfusionIsSharedMinusOverlap(best, reference, prediction, lo, hi);
    ConfusionIsSharedMinusOverlap(other, reference, prediction, lo, hi);
    BestAmongPartial(best, other, reference, prediction);
    if IsBestMapping(other, reference, prediction) {
      BestAmongPartial(other, best, reference, prediction);
    }
  }

  /** Some range contains all segments. */
  lemma Range(reference: seq<Segment>, prediction: seq<Segment>) returns (lo: int, hi: int)
    ensures Covers(reference, lo, hi) && Covers(prediction, lo, hi)
  {
    var a, b := RangeOf(reference);
    var c, d := RangeOf(prediction);
    lo, hi := Min(a, c), Max(b, d);
  }

  lemma {:induction false} RangeOf(segments: seq<Segment>) returns (lo: int, hi: int)
    ensures Covers(segments, lo, hi)
  {
    if segments == [] {
      lo, hi := 0, 0;
    } else {
      var n := |segments| - 1;
      var a, b := RangeOf(segments[..n]);
      lo, hi := Min(a, segments[n].start), Max(b, segments[n].end);
      assert segments == segments[..n] + [segments[n]];
    }
  }

  // ----- a transcript scored against itself

  type Renaming = Speaker -> Speaker

  /** The same segments with every speaker renamed. */
  ghost function Renamed(segments: seq<Segment>, rename: Renaming): seq<Segment> {
    if segments == [] then [] else
    var n := |segments| - 1;
    Renamed(segments[..n], rename) + [segments[n].(speaker := rename(segments[n].speaker))]
  }

  lemma {:induction false} RenamedLabels(segments: seq<Segment>, rename: Renaming)
    ensures Labels(Renamed(segments, rename)) == Image(Labels(segments), rename)
  {
    if segments != [] {
      var n := |segments| - 1;
      RenamedLabels(segments[..n], rename);
      LabelsLast(segments);
      LabelsLast(Renamed(segments, rename));
      assert Renamed(segments, rename)[..|Renamed(segments, rename)| - 1] == Renamed(segments[..n], rename);
    }
  }

  lemma LabelsLast(segments: seq<Segment>)
    requires segments != []
    ensures Labels(segments) == Labels(segments[..|segments| - 1]) + {segments[|segments| - 1].speaker}
  {
    var n := |segments| - 1;
    assert segments == segments[..n] + [segments[n]];
  }

  lemma {:induction false} RenamedCount(segments: seq<Segment>, rename: Renaming, speakers: set<Speaker>, q: Speaker, t: int)
    requires InjectiveOn(speakers, rename) && Labels(segments) <= speakers && q in speakers
    ensures Count(Renamed(segments, rename), rename(q), t) == Count(segments, q, t)
  {
    if segments != [] {
      var n := |segments| - 1;
      LabelsLast(segments);
      RenamedCount(segments[..n], rename, speakers, q, t);
      var renamed := Renamed(segments, rename);
      assert renamed[..|renamed| - 1] == Renamed(segments[..n], rename);
    }
  }

  lemma RenamedActive(segments: seq<Segment>, rename: Renaming, t: int)
    requires InjectiveOn(Labels(segments), rename)
    ensures ActiveAt(Renamed(segments, rename), t) == Image(ActiveAt(segments, t), rename)
  {
    hide InjectiveOn;
    var hypothesis := Renamed(segments, rename);
    RenamedLabels(segments, rename);
    forall h ensures h in ActiveAt(hypothesis, t) <==> h in Image(ActiveAt(segments, t), rename) {
      if h in ActiveAt(hypothesis, t) {
        assert h in Labels(hypothesis);
        var q :| q in Labels(segments) && rename(q) == h;
        RenamedCount(segments, rename, Labels(segments), q, t);
        CountActive(hypothesis, h, t);
        CountActive(segments, q, t);
      }
      if h in Image(ActiveAt(segments, t), rename) {
        var q :| q in ActiveAt(segments, t) && rename(q) == h;
        assert q in Labels(segments);
        RenamedCount(segments, rename, Labels(segments), q, t);
        CountActive(hypothesis, h, t);
        CountActive(segments, q, t);
      }
    }
  }

  /** The best mapping after the renaming: a permutation of the reference speakers. */
  ghost function Back(m: Mapping, rename: Renaming): Speaker -> Speaker {
    (q: Speaker) => if rename(q) in m then m[rename(q)] else q
  }

  ghost function SquaredGap(segments: seq<Segment>, p: Speaker, q: Speaker): int -> int {
    t => (Count(segments, p, t) - Count(segments, q, t)) * (Count(segments, p, t) - Count(segments, q, t))
  }

  ghost function SelfOverlap(segments: seq<Segment>): Speaker -> int {
    (q: Speaker) => Overlap(segments, segments, q, q)
  }

  ghost function BackOverlap(segments: seq<Segment>, back: Speaker -> Speaker): Speaker -> int {
    (q: Speaker) => Overlap(segments, segments, back(q), q)
  }

  ghost function BackSelfOverlap(segments: seq<Segment>, back: Speaker -> Speaker): Speaker -> int {
    (q: Speaker) => Overlap(segments, segments, back(q), back(q))
  }

  ghost function Gap(segments: seq<Segment>, back: Speaker -> Speaker, lo: int, hi: int): Speaker -> int {
    (q: Speaker) => SumTo(SquaredGap(segments, back(q), q), lo, hi)
  }

  /** The squared distance of two count functions, by inner products. */
  lemma GapExpansion(segments: seq<Segment>, p: Speaker, q: Speaker, lo: int, hi: int)
    requires Covers(segments, lo, hi)
    ensures SumTo(SquaredGap(segments, p, q), lo, hi)
         == Overlap(segments, segments, p, p) - 2 * Overlap(segments, segments, p, q) + Overlap(segments, segments, q, q)
  {
    hide Overlap, Count, Covers;
    OverlapIsInnerProduct(segments, segments, p, p, lo, hi);
    OverlapIsInnerProduct(segments, segments, p, q, lo, hi);
    OverlapIsInnerProduct(segments, segments, q, q, lo, hi);
    var part := (t: int) => Product(segments, segments, p, p)(t) + Product(segments, segments, q, q)(t);
    forall t ensures SquaredGap(segments, p, q)(t) == part(t) - 2 * Product(segments, segments, p, q)(t) {
      SquareOfDifference(Count(segments, p, t), Count(segments, q, t));
    }
    SumToLinear(Product(segments, segments, p, p), Product(segments, segments, q, q), part, lo, hi, 1);
    SumToLinear(part, Product(segments, segments, p, q), SquaredGap(segments, p, q), lo, hi, -2);
  }

  lemma SquareOfDifference(a: int, b: int)
    ensures (a - b) * (a - b) == a * a + b * b - 2 * (a * b)
  {
    assert (a - b) * (a - b) == a * (a - b) - b * (a - b);
    assert a * (a - b) == a * a - a * b;
    assert b * (a - b) == b * a - b * b;
  }

  lemma SquareSign(d: int)
    ensures d * d >= 0
    ensures d * d == 0 ==> d == 0
  {
  }

  /** A best mapping of a renamed transcript permutes the reference speakers. */
  lemma BackIsPermutation(reference: seq<Segment>, rename: Renaming, m: Mapping)
    requires InjectiveOn(Labels(reference), rename)
    requires IsMatching(m, reference, Renamed(reference, rename))
    requires |m| == Smaller(reference, Renamed(reference, rename))
    ensures m.Keys == Image(Labels(reference), rename)
    ensures InjectiveOn(Labels(reference), Back(m, rename))
    ensures Image(Labels(reference), Back(m, rename)) == Labels(reference)
  {
    hide Labels;
    var speakers, back := Labels(reference), Back(m, rename);
    RenamedLabels(reference, rename);
    ImageSize(speakers, rename);
    assert |m.Keys| == |m|;
    SubsetSameSize(m.Keys, Image(speakers, rename));
    forall q | q in speakers ensures rename(q) in m && back(q) == m[rename(q)] {
      assert rename(q) in Image(speakers, rename);
    }
    ImageSize(speakers, back);
    SubsetSameSize(Image(speakers, back), speakers);
  }

  lemma OverlapRenamed(reference: seq<Segment>, rename: Renaming, r: Speaker, q: Speaker)
    requires InjectiveOn(Labels(reference), rename) && q in Labels(reference)
    ensures Overlap(reference, Renamed(reference, rename), r, rename(q)) == Overlap(reference, reference, r, q)
  {
    hide Overlap, Count, Covers, InjectiveOn, Labels, SumTo;
    var lo, hi := RangeOf(reference);
    var hypothesis := Renamed(reference, rename);
    OverlapIsInnerProduct(reference, hypothesis, r, rename(q), lo, hi);
    OverlapIsInnerProduct(reference, reference, r, q, lo, hi);
    forall t ensures Product(reference, hypothesis, r, rename(q))(t) == Product(reference, reference, r, q)(t) {
      RenamedCount(reference, rename, Labels(reference), q, t);
    }
    SumToCongruent(Product(reference, hypothesis, r, rename(q)), Product(reference, reference, r, q), lo, hi);
  }

  lemma BackWeight(reference: seq<Segment>, rename: Renaming, m: Mapping)
    requires InjectiveOn(Labels(reference), rename)
    requires m.Keys == Image(Labels(reference), rename)
    ensures Weight(m, reference, Renamed(reference, rename))
         == SumOver(Labels(reference), BackOverlap(reference, Back(m, rename)))
  {
    hide Overlap, InjectiveOn, Labels, SumOver, Renamed;
    var speakers, back := Labels(reference), Back(m, rename);
    var mapped := MappedOverlap(m, reference, Renamed(reference, rename));
    forall q | q in speakers ensures BackOverlap(reference, back)(q) == mapped(rename(q)) {
      assert rename(q) in m.Keys;
      OverlapRenamed(reference, rename, back(q), q);
    }
    SumOverImage(speakers, rename, mapped, BackOverlap(reference, back));
  }

  /** The inverse of the renaming is a complete mapping, so a best mapping collects at
      least the overlap of every speaker with itself. */
  lemma BestCollectsSelfOverlap(reference: seq<Segment>, rename: Renaming, m: Mapping)
    requires InjectiveOn(Labels(reference), rename)
    requires IsBestMapping(m, reference, Renamed(reference, rename))
    ensures Weight(m, reference, Renamed(reference, rename)) >= SumOver(Labels(reference), SelfOverlap(reference))
  {
    hide Overlap, Labels, SumOver, Renamed, Weight;
    var speakers, hypothesis := Labels(reference), Renamed(reference, rename);
    RenamedLabels(reference, rename);
    var inverse: Mapping := map q | q in speakers :: rename(q) := q;
    assert inverse.Keys == Image(speakers, rename);
    ImageSize(speakers, rename);
    assert |inverse| == |inverse.Keys|;
    assert IsMatching(inverse, reference, hypothesis);
    BackWeight(reference, rename, inverse);
    forall q | q in speakers ensures BackOverlap(reference, Back(inverse, rename))(q) == SelfOverlap(reference)(q) {
      assert rename(q) in inverse.Keys && inverse[rename(q)] == q;
    }
    SumOverCongruent(speakers, BackOverlap(reference, Back(inverse, rename)), SelfOverlap(reference));
  }

  /** Cauchy-Schwarz with equality: a permutation that collects as much as the identity
      joins only speakers that are active, with the same multiplicity, at every tick. */
  lemma EqualCounts(segments: seq<Segment>, back: Speaker -> Speaker, lo: int, hi: int)
    requires Covers(segments, lo, hi)
    requires InjectiveOn(Labels(segments), back) && Image(Labels(segments), back) == Labels(segments)
    requires SumOver(Labels(segments), BackOverlap(segments, back)) >= SumOver(Labels(segments), SelfOverlap(segments))
    ensures forall q, t :: q in Labels(segments) && lo <= t < hi ==> Count(segments, back(q), t) == Count(segments, q, t)
  {
    hide Overlap, Count, Covers, InjectiveOn, Image, Labels, SumOver, SumTo;
    var speakers := Labels(segments);
    var gap, self, crossed, moved := Gap(segments, back, lo, hi), SelfOverlap(segments), BackOverlap(segments, back), BackSelfOverlap(segments, back);
    SumOverImage(speakers, back, self, moved);
    var both := (q: Speaker) => moved(q) + self(q);
    forall q ensures gap(q) == both(q) - 2 * crossed(q) && gap(q) >= 0 {
      GapExpansion(segments, back(q), q, lo, hi);
      GapSign(segments, back(q), q, lo, hi);
    }
    SumOverLinear(speakers, moved, self, both, 1);
    SumOverLinear(speakers, both, crossed, gap, -2);
    SumOverZeroTerms(speakers, gap);
    forall q, t | q in speakers && lo <= t < hi ensures Count(segments, back(q), t) == Count(segments, q, t) {
      assert gap(q) == 0;
      GapSign(segments, back(q), q, lo, hi);
    }
  }

  lemma GapSign(segments: seq<Segment>, p: Speaker, q: Speaker, lo: int, hi: int)
    ensures SumTo(SquaredGap(segments, p, q), lo, hi) >= 0
    ensures SumTo(SquaredGap(segments, p, q), lo, hi) == 0
        ==> forall t :: lo <= t < hi ==> Count(segments, p, t) == Count(segments, q, t)
  {
    hide Count, SumTo;
    var f := SquaredGap(segments, p, q);
    forall t ensures f(t) >= 0 && (f(t) == 0 ==> Count(segments, p, t) == Count(segments, q, t)) {
      SquareSign(Count(segments, p, t) - Count(segments, q, t));
    }
    SumToZeroTerms(f, lo, hi);
  }

  lemma AgreesOn(reference: seq<Segment>, rename: Renaming, m: Mapping, t: int, s: Speaker) returns (h: Speaker)
    requires m.Keys == Image(Labels(reference), rename)
    requires Image(Labels(reference), Back(m, rename)) == Labels(reference)
    requires forall q :: q in Labels(reference) ==> Count(reference, Back(m, rename)(q), t) == Count(reference, q, t)
    requires s in ActiveAt(reference, t)
    ensures h in Image(ActiveAt(reference, t), rename) && h in m && m[h] == s
  {
    hide Count;
    var speakers, back := Labels(reference), Back(m, rename);
    assert s in Image(speakers, back);
    hide Labels, ActiveAt;
    var q :| q in speakers && back(q) == s;
    CountActive(reference, q, t);
    CountActive(reference, s, t);
    h := rename(q);
    assert h in Image(speakers, rename);
  }

  ghost function Wrapped(): Speaker -> Label { (s: Speaker) => Reference(s) }

  lemma FullAgreement(reference: seq<Segment>, rename: Renaming, m: Mapping, t: int)
    requires InjectiveOn(Labels(reference), rename)
    requires m.Keys == Image(Labels(reference), rename)
    requires Image(Labels(reference), Back(m, rename)) == Labels(reference)
    requires forall q :: q in Labels(reference) ==> Count(reference, Back(m, rename)(q), t) == Count(reference, q, t)
    ensures var r := ActiveAt(reference, t); var h := ActiveAt(Renamed(reference, rename), t);
      |h| == |r| && |Agreement(r, h, m)| == |r|
  {
    hide Count, Renamed, Back, Image, ActiveAt, Labels, Agreement;
    var r, h := ActiveAt(reference, t), ActiveAt(Renamed(reference, rename), t);
    ActiveAreLabels(reference, t);
    RenamedActive(reference, rename, t);
    ImageSize(r, rename);
    ImageSize(r, Wrapped());
    forall s | s in r ensures Reference(s) in Agreement(r, h, m) {
      var x := AgreesOn(reference, rename, m, t, s);
      InAgreement(r, h, m, s, x);
    }
    AgreementIsWrapped(r, h, m);
  }

  lemma ActiveAreLabels(segments: seq<Segment>, t: int)
    ensures ActiveAt(segments, t) <= Labels(segments)
  {
  }

  lemma InAgreement(r: set<Speaker>, h: set<Speaker>, m: Mapping, s: Speaker, x: Speaker)
    requires s in r && x in h && x in m && m[x] == s
    ensures Reference(s) in Agreement(r, h, m)
  {
    assert Relabel(m, x) == Reference(s);
  }

  lemma AgreementIsWrapped(r: set<Speaker>, h: set<Speaker>, m: Mapping)
    requires forall s :: s in r ==> Reference(s) in Agreement(r, h, m)
    ensures Agreement(r, h, m) == Image(r, Wrapped())
  {
  }

  lemma SelfTick(reference: seq<Segment>, rename: Renaming, m: Mapping, collar: int, t: int)
    requires var r := ActiveAt(reference, t); var h := ActiveAt(Renamed(reference, rename), t);
      |h| == |r| && |Agreement(r, h, m)| == |r|
    ensures FalseAlarmAt(reference, Renamed(reference, rename), collar)(t) == 0
    ensures MissedAt(reference, Renamed(reference, rename), collar)(t) == 0
    ensures ConfusionAt(reference, Renamed(reference, rename), m, collar)(t) == 0
  {
    hide ActiveAt, InCollar, Agreement, Renamed;
  }

  lemma SelfTicks(reference: seq<Segment>, rename: Renaming, m: Mapping, collar: int, lo: int, hi: int)
    requires InjectiveOn(Labels(reference), rename) && Covers(reference, lo, hi)
    requires IsBestMapping(m, reference, Renamed(reference, rename))
    ensures forall t :: lo <= t < hi ==> FalseAlarmAt(reference, Renamed(reference, rename), collar)(t) == 0
    ensures forall t :: lo <= t < hi ==> MissedAt(reference, Renamed(reference, rename), collar)(t) == 0
    ensures forall t :: lo <= t < hi ==> ConfusionAt(reference, Renamed(reference, rename), m, collar)(t) == 0
  {
    hide Labels, Weight, SumOver, Renamed, Count, Image, InjectiveOn, ActiveAt, Agreement, Covers, Back,
         BackOverlap, SelfOverlap, FalseAlarmAt, MissedAt, ConfusionAt;
    BackIsPermutation(reference, rename, m);
    BackWeight(reference, rename, m);
    BestCollectsSelfOverlap(reference, rename, m);
    EqualCounts(reference, Back(m, rename), lo, hi);
    forall t | lo <= t < hi
      ensures FalseAlarmAt(reference, Renamed(reference, rename), collar)(t) == 0
      ensures MissedAt(reference, Renamed(reference, rename), collar)(t) == 0
      ensures ConfusionAt(reference, Renamed(reference, rename), m, collar)(t) == 0
    {
      FullAgreement(reference, rename, m, t);
      SelfTick(reference, rename, m, collar, t);
    }
  }

  /** Scoring a transcript against itself, speakers renamed by any injection, reports no
      false alarm, no miss and no confusion: for arbitrary overlaps (also of a speaker
      with itself), any collar, and whichever best mapping the solver returned. */
  lemma SelfScoreIsZero(d: DerDetail, reference: seq<Segment>, rename: Renaming, m: Mapping, collar: int)
    requires InjectiveOn(Labels(reference), rename)
    requires IsBestMapping(m, reference, Renamed(reference, rename))
    requires IsDer(d, reference, Renamed(reference, rename), m, collar)
    ensures d.falseAlarm == 0 && d.missed == 0 && d.confusion == 0
    ensures d.Rate() == if d.total > 0 then Some(0.0) else None
  {
    hide IsBestMapping, Labels, Renamed, InjectiveOn, SumTo, Covers, FalseAlarmAt, MissedAt, ConfusionAt;
    var hypothesis := Renamed(reference, rename);
    var lo, hi := Range(reference, hypothesis);
    SelfTicks(reference, rename, m, collar, lo, hi);
    CoversOrdered(reference, lo, hi);
    SumToConstant(FalseAlarmAt(reference, hypothesis, collar), 0, lo, hi);
    SumToConstant(MissedAt(reference, hypothesis, collar), 0, lo, hi);
    SumToConstant(ConfusionAt(reference, hypothesis, m, collar), 0, lo, hi);
  }

  // ----- the reported rate

  /** The speakers of one side that have no partner at tick t: of the larger side all but the
      prediction speakers whose mapped reference speaker speaks as well. */
  ghost function UnmatchedAt(m: Mapping, reference: seq<Segment>, prediction: seq<Segment>, collar: int): int -> int {
    t => if InCollar(reference, collar, t) then 0
         else Max(|ActiveAt(reference, t)|, |ActiveAt(prediction, t)|)
              - |Agreeing(ActiveAt(reference, t), ActiveAt(prediction, t), m)|
  }

  ghost function ErrorsAt(m: Mapping, reference: seq<Segment>, prediction: seq<Segment>, collar: int): int -> int {
    t => FalseAlarmAt(reference, prediction, collar)(t) + MissedAt(reference, prediction, collar)(t)
         + ConfusionAt(reference, prediction, m, collar)(t)
  }

  ghost function AlarmAndMissed(reference: seq<Segment>, prediction: seq<Segment>, collar: int): int -> int {
    t => FalseAlarmAt(reference, prediction, collar)(t) + MissedAt(reference, prediction, collar)(t)
  }

  /** The three errors together are the unmatched speaker time, and the rate is that time for
      each tick of reference speaker time; there is none without any. */
  lemma RateIsUnmatchedTime(d: DerDetail, m: Mapping, reference: seq<Segment>, prediction: seq<Segment>, collar: int, lo: int, hi: int)
    requires IsMatching(m, reference, prediction) && IsTickSum(d, reference, prediction, m, collar, lo, hi)
    ensures d.falseAlarm + d.missed + d.confusion == SumTo(UnmatchedAt(m, reference, prediction, collar), lo, hi)
    ensures d.Rate().Some? <==> d.total > 0
    ensures (d.total > 0
      ==> d.Rate().value * d.total as real == SumTo(UnmatchedAt(m, reference, prediction, collar), lo, hi) as real)
  {
    hide ActiveAt, InCollar, Agreement, Agreeing, SumTo, IsMatching;
    MatchingIsInjective(m, reference, prediction);
    forall t ensures ErrorsAt(m, reference, prediction, collar)(t) == UnmatchedAt(m, reference, prediction, collar)(t) {
      AgreementIsAgreeing(ActiveAt(reference, t), ActiveAt(prediction, t), m);
    }
    SumToCongruent(ErrorsAt(m, reference, prediction, collar), UnmatchedAt(m, reference, prediction, collar), lo, hi);
    ThreeSums(m, reference, prediction, collar, lo, hi);
    RateTimesTotal(d);
  }

  lemma ThreeSums(m: Mapping, reference: seq<Segment>, prediction: seq<Segment>, collar: int, lo: int, hi: int)
    ensures (SumTo(ErrorsAt(m, reference, prediction, collar), lo, hi)
      == SumTo(FalseAlarmAt(reference, prediction, collar), lo, hi) + SumTo(MissedAt(reference, prediction, collar), lo, hi)
         + SumTo(ConfusionAt(reference, prediction, m, collar), lo, hi))
  {
    hide ActiveAt, InCollar, Agreement, SumTo;
    SumToLinear(FalseAlarmAt(reference, prediction, collar), MissedAt(reference, prediction, collar),
                AlarmAndMissed(reference, prediction, collar), lo, hi, 1);
    SumToLinear(AlarmAndMissed(reference, prediction, collar), ConfusionAt(reference, prediction, m, collar),
                ErrorsAt(m, reference, prediction, collar), lo, hi, 1);
  }

  lemma RateTimesTotal(d: DerDetail)
    ensures d.Rate().Some? <==> d.total > 0
    ensures d.total > 0 ==> d.Rate().value * d.total as real == (d.falseAlarm + d.missed + d.confusion) as real
  {
  }

  ghost predicate IsBoundary(segments: seq<Segment>, p: int) { exists s :: s in segments && (p == s.start || p == s.end) }

  function Distance(a: int, b: int): int { Max(a - b, b - a) }

  /** A tick is not scored exactly when its middle is nearer than the collar to the start or the
      end of a reference segment, on either side, and it is not before time zero. */
  lemma CollarIff(reference: seq<Segment>, collar: int, t: int)
    ensures (InCollar(reference, collar, t)
      <==> t >= 0 && exists p :: IsBoundary(reference, p) && Distance(2 * t + 1, 2 * p) < 2 * collar)
  {
    if InCollar(reference, collar, t) {
      var s :| s in reference && (NearBoundary(t, s.start, collar) || NearBoundary(t, s.end, collar));
      assert IsBoundary(reference, s.start) && IsBoundary(reference, s.end);
    }
  }
}
