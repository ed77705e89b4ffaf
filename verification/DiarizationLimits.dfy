/** Where the best mapping does not report the least confusion: one input with a speaker that
    overlaps itself, and one with a collar. */
module DiarizationLimits {
  import opened Wrappers
  import opened Sums
  import opened Assignment
  import opened Segments
  import opened DiarizationSweep
  import opened DiarizationMapping
  import opened DiarizationResults

  /** Both inputs have prediction speaker 1 and reference speakers 1 and 2, and in both the
      best mapping sends 1 to 1. */
  const STRAIGHT: Mapping := map[1 := 1]
  const CROSSED: Mapping := map[1 := 2]

  lemma Different()
    ensures STRAIGHT != CROSSED
  {
    assert STRAIGHT[1] != CROSSED[1];
  }

  lemma OnlyTwoMappings(reference: seq<Segment>, prediction: seq<Segment>, n: Mapping)
    requires Labels(reference) == {1, 2} && Labels(prediction) == {1}
    requires IsMatching(n, reference, prediction) && |n| == Smaller(reference, prediction)
    ensures n == STRAIGHT || n == CROSSED
  {
    assert |n.Keys| == 1;
    SubsetSameSize(n.Keys, {1});
    assert n[1] == 1 || n[1] == 2;
  }

  lemma WeightOfOne(m: Mapping, reference: seq<Segment>, prediction: seq<Segment>)
    requires m == STRAIGHT || m == CROSSED
    ensures Weight(m, reference, prediction) == Overlap(reference, prediction, m[1], 1)
  {
    hide Overlap;
    SumOverRemove(m.Keys, MappedOverlap(m, reference, prediction), 1);
    assert m.Keys - {1} == {};
  }

  lemma StraightIsBest(reference: seq<Segment>, prediction: seq<Segment>)
    requires Labels(reference) == {1, 2} && Labels(prediction) == {1}
    requires Overlap(reference, prediction, 1, 1) >= Overlap(reference, prediction, 2, 1)
    ensures IsBestMapping(STRAIGHT, reference, prediction) && IsMatching(CROSSED, reference, prediction)
  {
    hide Overlap, Weight;
    WeightOfOne(STRAIGHT, reference, prediction);
    WeightOfOne(CROSSED, reference, prediction);
    forall n | IsMatching(n, reference, prediction) && |n| == Smaller(reference, prediction)
      ensures Weight(n, reference, prediction) <= Weight(STRAIGHT, reference, prediction)
    {
      OnlyTwoMappings(reference, prediction, n);
    }
  }

  /** A tick outside the collar with one reference speaker and the prediction speaker. */
  lemma OneOnOne(reference: seq<Segment>, prediction: seq<Segment>, m: Mapping, collar: int, t: int, r: Speaker)
    requires !InCollar(reference, collar, t) && ActiveAt(reference, t) == {r} && ActiveAt(prediction, t) == {1}
    requires m == STRAIGHT || m == CROSSED
    ensures ConfusionAt(reference, prediction, m, collar)(t) == if m[1] == r then 0 else 1
  {
    hide ActiveAt, InCollar, Agreement;
    AgreementIsAgreeing({r}, {1}, m);
    assert Agreeing({r}, {1}, m) == if m[1] == r then {1} else {};
  }

  /** A tick at which nobody predicted speaks, or in the collar. */
  lemma NoConfusion(reference: seq<Segment>, prediction: seq<Segment>, m: Mapping, collar: int, t: int)
    requires InCollar(reference, collar, t) || ActiveAt(prediction, t) == {} || ActiveAt(reference, t) == {}
    ensures ConfusionAt(reference, prediction, m, collar)(t) == 0
  {
    hide ActiveAt, InCollar, Agreement;
  }

  // ----- a speaker that overlaps itself

  const REFERENCE := [Segment(0, 10, 1), Segment(10, 18, 2)]
  const PREDICTION := [Segment(0, 6, 1), Segment(0, 6, 1), Segment(10, 18, 1)]

  lemma Overlaps()
    ensures Overlap(REFERENCE, PREDICTION, 1, 1) == 12 && Overlap(REFERENCE, PREDICTION, 2, 1) == 8
    ensures Labels(REFERENCE) == {1, 2} && Labels(PREDICTION) == {1}
  {
    assert REFERENCE[..1] == [Segment(0, 10, 1)] && REFERENCE[..1][..0] == [];
    assert PREDICTION[..2] == [Segment(0, 6, 1), Segment(0, 6, 1)] && PREDICTION[..2][..1] == [Segment(0, 6, 1)];
    forall a: Segment ensures SegmentSpeakerOverlap(a, PREDICTION, 1)
      == 2 * SegmentOverlap(a, Segment(0, 6, 1)) + SegmentOverlap(a, Segment(10, 18, 1))
    {
      assert SegmentSpeakerOverlap(a, PREDICTION[..2][..1], 1) == SegmentOverlap(a, Segment(0, 6, 1));
      assert SegmentSpeakerOverlap(a, PREDICTION[..2], 1) == 2 * SegmentOverlap(a, Segment(0, 6, 1));
    }
    hide SegmentSpeakerOverlap;
    assert Overlap(REFERENCE[..1], PREDICTION, 1, 1) == 12 && Overlap(REFERENCE[..1], PREDICTION, 2, 1) == 0;
    assert Segment(0, 10, 1) in REFERENCE && Segment(10, 18, 2) in REFERENCE && Segment(0, 6, 1) in PREDICTION;
  }

  lemma Active(t: int)
    ensures ActiveAt(REFERENCE, t) == if 0 <= t < 10 then {1} else if 10 <= t < 18 then {2} else {}
    ensures ActiveAt(PREDICTION, t) == if 0 <= t < 6 || 10 <= t < 18 then {1} else {}
    ensures !InCollar(REFERENCE, 0, t)
  {
    assert REFERENCE[0] in REFERENCE && REFERENCE[1] in REFERENCE;
    assert PREDICTION[0] in PREDICTION && PREDICTION[2] in PREDICTION;
  }

  lemma Tick(m: Mapping, t: int)
    requires m == STRAIGHT || m == CROSSED
    ensures ConfusionAt(REFERENCE, PREDICTION, m, 0)(t)
      == if (0 <= t < 6 && m == CROSSED) || (10 <= t < 18 && m == STRAIGHT) then 1 else 0
  {
    hide ActiveAt, InCollar, ConfusionAt, REFERENCE, PREDICTION;
    Active(t);
    if 0 <= t < 6 {
      OneOnOne(REFERENCE, PREDICTION, m, 0, t, 1);
    } else if 10 <= t < 18 {
      OneOnOne(REFERENCE, PREDICTION, m, 0, t, 2);
    } else {
      NoConfusion(REFERENCE, PREDICTION, m, 0, t);
    }
  }

  lemma Ticks(m: Mapping)
    requires m == STRAIGHT || m == CROSSED
    ensures SumTo(ConfusionAt(REFERENCE, PREDICTION, m, 0), 0, 18) == if m == STRAIGHT then 8 else 6
  {
    hide ConfusionAt, REFERENCE, PREDICTION, SumTo;
    Different();
    var f := ConfusionAt(REFERENCE, PREDICTION, m, 0);
    forall t ensures f(t) == if (0 <= t < 6 && m == CROSSED) || (10 <= t < 18 && m == STRAIGHT) then 1 else 0 {
      Tick(m, t);
    }
    SumToSplit(f, 0, 6, 18);
    SumToSplit(f, 6, 10, 18);
    SumToConstant(f, if m == STRAIGHT then 0 else 1, 0, 6);
    SumToConstant(f, 0, 6, 10);
    SumToConstant(f, if m == STRAIGHT then 1 else 0, 10, 18);
  }

  lemma Inside18()
    ensures Covers(REFERENCE, 0, 18) && Covers(PREDICTION, 0, 18)
  {
  }

  /** The best mapping collects 12 against 8, and reports 8 against 6. */
  lemma SelfOverlapMisleads(d: DerDetail, e: DerDetail)
    requires IsDer(d, REFERENCE, PREDICTION, STRAIGHT, 0) && IsDer(e, REFERENCE, PREDICTION, CROSSED, 0)
    ensures IsBestMapping(STRAIGHT, REFERENCE, PREDICTION) && IsMatching(CROSSED, REFERENCE, PREDICTION)
    ensures d.confusion == 8 && e.confusion == 6
  {
    hide SumTo, ConfusionAt, IsMatching, IsBestMapping, REFERENCE, PREDICTION, Labels, Overlap, Covers;
    Overlaps();
    StraightIsBest(REFERENCE, PREDICTION);
    Different();
    Ticks(STRAIGHT);
    Ticks(CROSSED);
    Inside18();
    assert IsTickSum(d, REFERENCE, PREDICTION, STRAIGHT, 0, 0, 18) && IsTickSum(e, REFERENCE, PREDICTION, CROSSED, 0, 0, 18);
  }

  // ----- a collar

  const SHORT_REFERENCE := [Segment(0, 4, 1), Segment(20, 25, 2)]
  const SHORT_PREDICTION := [Segment(0, 4, 1), Segment(21, 24, 1)]

  lemma ShortOverlaps()
    ensures Overlap(SHORT_REFERENCE, SHORT_PREDICTION, 1, 1) == 4 && Overlap(SHORT_REFERENCE, SHORT_PREDICTION, 2, 1) == 3
    ensures Labels(SHORT_REFERENCE) == {1, 2} && Labels(SHORT_PREDICTION) == {1}
    ensures NoSelfOverlap(SHORT_REFERENCE) && NoSelfOverlap(SHORT_PREDICTION)
  {
    assert SHORT_REFERENCE[..1] == [Segment(0, 4, 1)] && SHORT_REFERENCE[..1][..0] == [];
    assert SHORT_PREDICTION[..1] == [Segment(0, 4, 1)] && SHORT_PREDICTION[..1][..0] == [];
    forall a: Segment ensures SegmentSpeakerOverlap(a, SHORT_PREDICTION, 1)
      == SegmentOverlap(a, Segment(0, 4, 1)) + SegmentOverlap(a, Segment(21, 24, 1))
    {
      assert SegmentSpeakerOverlap(a, SHORT_PREDICTION[..1], 1) == SegmentOverlap(a, Segment(0, 4, 1));
    }
    hide SegmentSpeakerOverlap;
    assert (Overlap(SHORT_REFERENCE[..1], SHORT_PREDICTION, 1, 1) == 4
      && Overlap(SHORT_REFERENCE[..1], SHORT_PREDICTION, 2, 1) == 0);
    assert Segment(0, 4, 1) in SHORT_REFERENCE && Segment(20, 25, 2) in SHORT_REFERENCE && Segment(0, 4, 1) in SHORT_PREDICTION;
  }

  lemma ShortActive(t: int)
    ensures t == 22 ==> ActiveAt(SHORT_REFERENCE, t) == {2} && ActiveAt(SHORT_PREDICTION, t) == {1}
    ensures t == 22 ==> !InCollar(SHORT_REFERENCE, 2, t)
    ensures (0 <= t < 25 && t != 22
      ==> InCollar(SHORT_REFERENCE, 2, t) || ActiveAt(SHORT_PREDICTION, t) == {} || ActiveAt(SHORT_REFERENCE, t) == {})
  {
    assert SHORT_REFERENCE[0] in SHORT_REFERENCE && SHORT_REFERENCE[1] in SHORT_REFERENCE;
    assert SHORT_PREDICTION[1] in SHORT_PREDICTION;
  }

  lemma ShortTicks(m: Mapping)
    requires m == STRAIGHT || m == CROSSED
    ensures SumTo(ConfusionAt(SHORT_REFERENCE, SHORT_PREDICTION, m, 2), 0, 25) == if m == STRAIGHT then 1 else 0
  {
    hide ActiveAt, InCollar, ConfusionAt, SumTo, SHORT_REFERENCE, SHORT_PREDICTION;
    Different();
    var f := ConfusionAt(SHORT_REFERENCE, SHORT_PREDICTION, m, 2);
    forall t | 0 <= t < 25 && t != 22 ensures f(t) == 0 {
      ShortActive(t);
      NoConfusion(SHORT_REFERENCE, SHORT_PREDICTION, m, 2, t);
    }
    ShortActive(22);
    OneOnOne(SHORT_REFERENCE, SHORT_PREDICTION, m, 2, 22, 2);
    SumToSplit(f, 0, 22, 25);
    SumToSplit(f, 22, 23, 25);
    SumToConstant(f, 0, 0, 22);
    SumToConstant(f, if m == STRAIGHT then 1 else 0, 22, 23);
    SumToConstant(f, 0, 23, 25);
  }

  lemma Inside25()
    ensures Covers(SHORT_REFERENCE, 0, 25) && Covers(SHORT_PREDICTION, 0, 25)
  {
  }

  /** With collar 2 the longer overlap lies in the collar: the best mapping collects 4 against
      3, and reports 1 against 0. */
  lemma CollarMisleads(d: DerDetail, e: DerDetail)
    requires IsDer(d, SHORT_REFERENCE, SHORT_PREDICTION, STRAIGHT, 2)
    requires IsDer(e, SHORT_REFERENCE, SHORT_PREDICTION, CROSSED, 2)
    ensures NoSelfOverlap(SHORT_REFERENCE) && NoSelfOverlap(SHORT_PREDICTION)
    ensures IsBestMapping(STRAIGHT, SHORT_REFERENCE, SHORT_PREDICTION) && IsMatching(CROSSED, SHORT_REFERENCE, SHORT_PREDICTION)
    ensures d.confusion == 1 && e.confusion == 0
  {
    hide SumTo, ConfusionAt, IsMatching, IsBestMapping, SHORT_REFERENCE, SHORT_PREDICTION, Labels, Overlap, Covers, NoSelfOverlap;
    ShortOverlaps();
    StraightIsBest(SHORT_REFERENCE, SHORT_PREDICTION);
    Different();
    ShortTicks(STRAIGHT);
    ShortTicks(CROSSED);
    Inside25();
    assert (IsTickSum(d, SHORT_REFERENCE, SHORT_PREDICTION, STRAIGHT, 2, 0, 25)
      && IsTickSum(e, SHORT_REFERENCE, SHORT_PREDICTION, CROSSED, 2, 0, 25));
  }
}
