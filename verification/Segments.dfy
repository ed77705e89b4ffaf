/** Timestamped speaker segments: the token parser, who is active when, and the
    overlap of two speakers. A time is a whole number of ticks: the timestamps of
    one transcript are decimals, so some power of ten makes all of them whole. */
module Segments {
  import opened Wrappers
  import opened Sums

  /** The number of a canonical speaker tag `[Sn]`. */
  type Speaker = nat

  datatype Token = Time(at: int) | Tag(speaker: Speaker)

  datatype Segment = Segment(start: int, end: int, speaker: Speaker)

  ghost predicate Positive(segments: seq<Segment>) {
    forall s :: s in segments ==> s.start < s.end
  }

  // ----- the parser

  /** The first time token at or after position i, or the end of the list. */
  ghost function NextTime(tokens: seq<Token>, i: nat): (n: nat)
    requires i <= |tokens|
    ensures i <= n <= |tokens|
    ensures n < |tokens| ==> tokens[n].Time?
    ensures forall k :: i <= k < n ==> tokens[k].Tag?
    decreases |tokens| - i
  {
    if i == |tokens| || tokens[i].Time? then i else NextTime(tokens, i + 1)
  }

  lemma {:induction false} NextTimeIs(tokens: seq<Token>, i: nat, n: nat)
    requires i <= n < |tokens| && tokens[n].Time?
    requires forall k :: i <= k < n ==> tokens[k].Tag?
    ensures NextTime(tokens, i) == n
    decreases n - i
  {
    if i < n { NextTimeIs(tokens, i + 1, n); }
  }

  /** The last tag strictly between positions i and n, or the fallback. */
  ghost function SpeakerBetween(tokens: seq<Token>, i: nat, n: nat, fallback: Option<Speaker>): Option<Speaker>
    requires i <= n <= |tokens|
    requires forall k :: i <= k < n ==> tokens[k].Tag?
  {
    if i == n then fallback else Some(tokens[n - 1].speaker)
  }

  /** The segment a pair of times adds: none without a speaker or a positive length. */
  function PairSegment(start: int, end: int, speaker: Option<Speaker>): seq<Segment> {
    if speaker.Some? && end > start then [Segment(start, end, speaker.value)] else []
  }

  /** Times are consumed in pairs; a pair takes the last tag between its two times,
      or else the speaker of the previous kept segment. */
  ghost function Parsed(tokens: seq<Token>, i: nat, last: Option<Speaker>): seq<Segment>
    requires i <= |tokens|
    decreases |tokens| - i
  {
    var first := NextTime(tokens, i);
    if first == |tokens| then [] else
    var second := NextTime(tokens, first + 1);
    if second == |tokens| then [] else
    var speaker := SpeakerBetween(tokens, first + 1, second, last);
    var added := PairSegment(tokens[first].at, tokens[second].at, speaker);
    added + Parsed(tokens, second + 1, if added == [] then last else speaker)
  }

  /** What one complete pair, times at positions i and n, adds to the parse. */
  lemma ParsedPair(tokens: seq<Token>, i: nat, n: nat, last: Option<Speaker>)
    requires i < n < |tokens| && tokens[i].Time? && n == NextTime(tokens, i + 1)
    ensures var speaker := SpeakerBetween(tokens, i + 1, n, last);
      var added := PairSegment(tokens[i].at, tokens[n].at, speaker);
      Parsed(tokens, i, last) == added + Parsed(tokens, n + 1, if added == [] then last else speaker)
  {
    assert NextTime(tokens, i) == i;
  }

  lemma ParsedSkip(tokens: seq<Token>, i: nat, last: Option<Speaker>)
    requires i < |tokens| && tokens[i].Tag?
    ensures Parsed(tokens, i, last) == Parsed(tokens, i + 1, last)
  {
  }

  lemma ParsedUnpaired(tokens: seq<Token>, i: nat, last: Option<Speaker>)
    requires i <= |tokens|
    requires i < |tokens| ==> tokens[i].Time? && NextTime(tokens, i + 1) == |tokens|
    ensures Parsed(tokens, i, last) == []
  {
  }

  lemma Regroup<T>(a: seq<T>, b: seq<T>, c: seq<T>)
    ensures a + (b + c) == (a + b) + c
  {
  }

  lemma ParsedPairAfter(done: seq<Segment>, tokens: seq<Token>, i: nat, n: nat, last: Option<Speaker>,
                        speaker: Option<Speaker>, added: seq<Segment>)
    requires i < n < |tokens| && tokens[i].Time? && n == NextTime(tokens, i + 1)
    requires speaker == SpeakerBetween(tokens, i + 1, n, last)
    requires added == PairSegment(tokens[i].at, tokens[n].at, speaker)
    ensures done + Parsed(tokens, i, last) == done + added + Parsed(tokens, n + 1, if added == [] then last else speaker)
  {
    ParsedPair(tokens, i, n, last);
    Regroup(done, added, Parsed(tokens, n + 1, if added == [] then last else speaker));
  }

  /** The inner loop: the next time after position `index`, and the last tag before it. */
  method FindEnd(tokens: seq<Token>, index: nat, ghost last: Option<Speaker>)
    returns (nextIndex: nat, segmentSpeaker: Option<Speaker>)
    requires index < |tokens|
    ensures index < nextIndex && nextIndex == NextTime(tokens, index + 1)
    ensures SpeakerBetween(tokens, index + 1, nextIndex, last)
         == if segmentSpeaker.Some? then segmentSpeaker else last
  {
    nextIndex, segmentSpeaker := index + 1, None;
    while nextIndex < |tokens| && !tokens[nextIndex].Time?
      invariant index < nextIndex <= |tokens|
      invariant forall k :: index < k < nextIndex ==> tokens[k].Tag?
      invariant NextTime(tokens, nextIndex) == NextTime(tokens, index + 1)
      invariant segmentSpeaker == SpeakerBetween(tokens, index + 1, nextIndex, None)
    {
      segmentSpeaker := Some(tokens[nextIndex].speaker);
      nextIndex := nextIndex + 1;
    }
  }

  method ParseTimestampedSpeakerSegments(tokens: seq<Token>) returns (segments: seq<Segment>)
    ensures segments == Parsed(tokens, 0, None)
  {
    hide Parsed;
    segments := [];
    var lastSpeaker: Option<Speaker> := None;
    var index := 0;
    ghost var all := Parsed(tokens, 0, None);
    while index < |tokens|
      invariant index <= |tokens|
      invariant all == segments + Parsed(tokens, index, lastSpeaker)
    {
      if !tokens[index].Time? {
        ParsedSkip(tokens, index, lastSpeaker);
        index := index + 1;
      } else {
        var nextIndex, segmentSpeaker := FindEnd(tokens, index, lastSpeaker);
        if nextIndex >= |tokens| {
          ParsedUnpaired(tokens, index, lastSpeaker);
          return;
        }
        var speaker := if segmentSpeaker.Some? then segmentSpeaker else lastSpeaker;
        var added := PairSegment(tokens[index].at, tokens[nextIndex].at, speaker);
        ParsedPairAfter(segments, tokens, index, nextIndex, lastSpeaker, speaker, added);
        segments := segments + added;
        lastSpeaker := if added == [] then lastSpeaker else speaker;
        index := nextIndex + 1;
      }
    }
    ParsedUnpaired(tokens, index, lastSpeaker);
  }

  /** One segment as tokens; the tag may be left out only if it repeats `last`. */
  ghost function PrintedOne(s: Segment, last: Option<Speaker>, omit: bool): seq<Token> {
    if omit && last == Some(s.speaker) then [Time(s.start), Time(s.end)]
    else [Time(s.start), Tag(s.speaker), Time(s.end)]
  }

  /** Start, tag, end for each segment. A tag that repeats the previous segment's
      speaker is left out wherever `omit` says so. */
  ghost function Printed(segments: seq<Segment>, last: Option<Speaker>, omit: seq<bool>): seq<Token>
    requires |omit| == |segments|
  {
    if segments == [] then []
    else PrintedOne(segments[0], last, omit[0]) + Printed(segments[1..], Some(segments[0].speaker), omit[1..])
  }

  lemma PrintedOneParsed(tokens: seq<Token>, i: nat, s: Segment, last: Option<Speaker>, omit: bool, n: nat)
    requires s.start < s.end
    requires i < n < |tokens| && n + 1 == i + |PrintedOne(s, last, omit)|
    requires tokens[i] == Time(s.start) && tokens[n] == Time(s.end)
    requires n == i + 2 ==> tokens[i + 1] == Tag(s.speaker)
    ensures Parsed(tokens, i, last) == [s] + Parsed(tokens, n + 1, Some(s.speaker))
  {
    assert NextTime(tokens, i + 1) == n by { NextTimeIs(tokens, i + 1, n); }
    var speaker := SpeakerBetween(tokens, i + 1, n, last);
    assert speaker == Some(s.speaker);
    var added := PairSegment(tokens[i].at, tokens[n].at, speaker);
    assert added == [s];
    ParsedPair(tokens, i, n, last);
  }

  lemma {:induction false} RoundTripFrom(tokens: seq<Token>, i: nat, segments: seq<Segment>, last: Option<Speaker>, omit: seq<bool>)
    requires |omit| == |segments| && Positive(segments)
    requires i <= |tokens| && tokens[i..] == Printed(segments, last, omit)
    ensures Parsed(tokens, i, last) == segments
    decreases |segments|
  {
    hide Parsed;
    if segments == [] {
      ParsedUnpaired(tokens, i, last);
    } else {
      var s := segments[0];
      var one := PrintedOne(s, last, omit[0]);
      var n := i + |one| - 1;
      assert s in segments;
      assert tokens[i..][0] == one[0] && tokens[i..][1] == one[1] && tokens[i..][|one| - 1] == one[|one| - 1];
      PrintedOneParsed(tokens, i, s, last, omit[0], n);
      assert tokens[n + 1..] == tokens[i..][|one|..] == Printed(segments[1..], Some(s.speaker), omit[1..]);
      RoundTripFrom(tokens, n + 1, segments[1..], Some(s.speaker), omit[1..]);
    }
  }

  /** Parsing a printed list gives the list back, whichever repeated tags are omitted. */
  lemma RoundTrip(segments: seq<Segment>, omit: seq<bool>)
    requires |omit| == |segments| && Positive(segments)
    ensures Parsed(Printed(segments, None, omit), 0, None) == segments
  {
    RoundTripFrom(Printed(segments, None, omit), 0, segments, None, omit);
  }

  // ----- what is written between the times

  /** A pair of times as a transcript may write it: tags before the start, which count for
      nothing, tags between the times, and the speaker of the segment it stands for, if any. */
  datatype Piece = Piece(stray: seq<Speaker>, start: int, tags: seq<Speaker>, end: int, speaker: Option<Speaker>)

  ghost function TagTokens(speakers: seq<Speaker>): (tokens: seq<Token>)
    ensures |tokens| == |speakers| && forall k :: 0 <= k < |tokens| ==> tokens[k] == Tag(speakers[k])
  {
    seq(|speakers|, k requires 0 <= k < |speakers| => Tag(speakers[k]))
  }

  ghost function PieceTokens(p: Piece): seq<Token> {
    TagTokens(p.stray) + [Time(p.start)] + TagTokens(p.tags) + [Time(p.end)]
  }

  ghost function PiecesTokens(pieces: seq<Piece>): seq<Token> {
    if pieces == [] then [] else PieceTokens(pieces[0]) + PiecesTokens(pieces[1..])
  }

  /** The segments the pieces stand for. */
  ghost function SegmentsOf(pieces: seq<Piece>): seq<Segment> {
    if pieces == [] then [] else
    (if pieces[0].speaker.Some? then [Segment(pieces[0].start, pieces[0].end, pieces[0].speaker.value)] else [])
    + SegmentsOf(pieces[1..])
  }

  /** After a segment of speaker `last`, the piece stands for a segment of the last speaker
      tagged in it, or of `last` if none is; for none if it is empty or reversed, or if
      nobody has been tagged. */
  ghost predicate IsPiece(p: Piece, last: Option<Speaker>) {
    if p.speaker.Some? then p.start < p.end && (if p.tags == [] then last == p.speaker else Some(p.tags[|p.tags| - 1]) == p.speaker)
    else p.end <= p.start || (p.tags == [] && last.None?)
  }

  /** A piece that stands for no segment leaves the speaker as it was. */
  ghost predicate ArePieces(pieces: seq<Piece>, last: Option<Speaker>) {
    pieces == []
    || (IsPiece(pieces[0], last) && ArePieces(pieces[1..], if pieces[0].speaker.Some? then pieces[0].speaker else last))
  }

  /** What may follow the last pair: at most one time, and tags. */
  ghost predicate IsRemainder(tokens: seq<Token>) {
    forall i, k :: 0 <= i < k < |tokens| ==> !(tokens[i].Time? && tokens[k].Time?)
  }

  lemma {:induction false} TagsSkipped(tokens: seq<Token>, i: nat, n: nat, last: Option<Speaker>)
    requires i <= n <= |tokens| && forall k :: i <= k < n ==> tokens[k].Tag?
    ensures Parsed(tokens, i, last) == Parsed(tokens, n, last)
    decreases n - i
  {
    hide Parsed;
    if i < n {
      ParsedSkip(tokens, i, last);
      TagsSkipped(tokens, i + 1, n, last);
    }
  }

  lemma {:induction false} RemainderParsed(tokens: seq<Token>, i: nat, last: Option<Speaker>)
    requires i <= |tokens| && IsRemainder(tokens[i..])
    ensures Parsed(tokens, i, last) == []
    decreases |tokens| - i
  {
    var n := NextTime(tokens, i);
    TagsSkipped(tokens, i, n, last);
    if n < |tokens| {
      forall k | n < k < |tokens| ensures tokens[k].Tag? {
        assert tokens[i..][n - i].Time? && tokens[i..][k - i] == tokens[k];
      }
    }
    ParsedUnpaired(tokens, n, last);
  }

  lemma PieceAt(tokens: seq<Token>, i: nat, p: Piece)
    requires i <= |tokens| && PieceTokens(p) <= tokens[i..]
    ensures (var first, second := i + |p.stray|, i + |p.stray| + 1 + |p.tags|;
      && i + |PieceTokens(p)| == second + 1 <= |tokens| && tokens[first] == Time(p.start) && tokens[second] == Time(p.end)
      && (forall k :: i <= k < second && k != first ==> tokens[k].Tag?)
      && (p.tags != [] ==> tokens[second - 1] == Tag(p.tags[|p.tags| - 1])))
  {
    var text := PieceTokens(p);
    forall k | i <= k < i + |text| ensures tokens[k] == text[k - i] { assert tokens[i..][k - i] == tokens[k]; }
    hide TagTokens;
  }

  /** One piece at position i is read as what it stands for. */
  lemma PieceParsed(tokens: seq<Token>, i: nat, p: Piece, last: Option<Speaker>)
    requires i <= |tokens| && PieceTokens(p) <= tokens[i..] && IsPiece(p, last)
    ensures i + |PieceTokens(p)| <= |tokens|
    ensures (Parsed(tokens, i, last)
      == SegmentsOf([p]) + Parsed(tokens, i + |PieceTokens(p)|, if p.speaker.Some? then p.speaker else last))
  {
    hide Parsed, PieceTokens;
    PieceAt(tokens, i, p);
    var first := i + |p.stray|;
    var second := first + 1 + |p.tags|;
    TagsSkipped(tokens, i, first, last);
    NextTimeIs(tokens, first + 1, second);
    ParsedPair(tokens, first, second, last);
    assert [p][1..] == [];
  }

  /** The parse of any pieces, whatever is left after them, is what they stand for. */
  lemma {:induction false} PiecesParsed(tokens: seq<Token>, i: nat, pieces: seq<Piece>, rest: seq<Token>, last: Option<Speaker>)
    requires i <= |tokens| && tokens[i..] == PiecesTokens(pieces) + rest
    requires ArePieces(pieces, last) && IsRemainder(rest)
    ensures Parsed(tokens, i, last) == SegmentsOf(pieces)
    decreases |pieces|
  {
    hide Parsed, IsPiece, PieceTokens, IsRemainder;
    if pieces == [] {
      assert tokens[i..] == rest;
      RemainderParsed(tokens, i, last);
    } else {
      var p := pieces[0];
      var one := PieceTokens(p);
      Regroup(one, PiecesTokens(pieces[1..]), rest);
      PieceParsed(tokens, i, p, last);
      assert tokens[i + |one|..] == tokens[i..][|one|..] == PiecesTokens(pieces[1..]) + rest;
      PiecesParsed(tokens, i + |one|, pieces[1..], rest, if p.speaker.Some? then p.speaker else last);
      assert SegmentsOf([p]) + SegmentsOf(pieces[1..]) == SegmentsOf(pieces) by { assert [p][1..] == []; }
    }
  }

  /** Every list of tokens is pieces and a remainder. */
  lemma {:induction false} TakenApart(tokens: seq<Token>, last: Option<Speaker>) returns (pieces: seq<Piece>, rest: seq<Token>)
    ensures ArePieces(pieces, last) && IsRemainder(rest) && tokens == PiecesTokens(pieces) + rest
    decreases |tokens|
  {
    var first := NextTime(tokens, 0);
    var second := if first < |tokens| then NextTime(tokens, first + 1) else first;
    if second == |tokens| {
      return [], tokens;
    }
    var p := PieceOf(tokens, first, second, last);
    hide IsPiece, PieceTokens, IsRemainder;
    var others;
    others, rest := TakenApart(tokens[second + 1..], if p.speaker.Some? then p.speaker else last);
    pieces := [p] + others;
    assert pieces[1..] == others;
    assert tokens == tokens[..second + 1] + tokens[second + 1..];
    Regroup(PieceTokens(p), PiecesTokens(others), rest);
  }

  lemma PieceOf(tokens: seq<Token>, first: nat, second: nat, last: Option<Speaker>) returns (p: Piece)
    requires first < second < |tokens| && tokens[first].Time? && tokens[second].Time?
    requires forall k :: 0 <= k < second && k != first ==> tokens[k].Tag?
    ensures IsPiece(p, last) && PieceTokens(p) == tokens[..second + 1]
  {
    var start, end := tokens[first].at, tokens[second].at;
    var stray := seq(first, k requires 0 <= k < first => tokens[k].speaker);
    var tags := seq(second - first - 1, k requires 0 <= k < second - first - 1 => tokens[first + 1 + k].speaker);
    var speaker := if end <= start then None else if tags == [] then last else Some(tags[|tags| - 1]);
    p := Piece(stray, start, tags, end, speaker);
  }

  lemma {:induction false} PiecesPositive(pieces: seq<Piece>, last: Option<Speaker>)
    requires ArePieces(pieces, last)
    ensures Positive(SegmentsOf(pieces))
  {
    if pieces != [] {
      PiecesPositive(pieces[1..], if pieces[0].speaker.Some? then pieces[0].speaker else last);
    }
  }

  /** Whatever the tokens, every parsed segment has a positive length. */
  lemma ParsedPositive(tokens: seq<Token>, i: nat, last: Option<Speaker>)
    requires i <= |tokens|
    ensures Positive(Parsed(tokens, i, last))
  {
    hide Parsed, ArePieces, IsRemainder, PiecesTokens;
    var pieces, rest := TakenApart(tokens[i..], last);
    PiecesParsed(tokens, i, pieces, rest, last);
    PiecesPositive(pieces, last);
  }

  /** A list is the parse of the tokens exactly when the tokens are pieces that stand for it,
      and a remainder. */
  lemma ParsedIff(tokens: seq<Token>, segments: seq<Segment>)
    ensures segments == Parsed(tokens, 0, None) <==> exists pieces, rest ::
      ArePieces(pieces, None) && IsRemainder(rest) && tokens == PiecesTokens(pieces) + rest && segments == SegmentsOf(pieces)
  {
    hide Parsed, ArePieces, IsRemainder, PiecesTokens, SegmentsOf;
    assert tokens[0..] == tokens;
    var pieces, rest := TakenApart(tokens, None);
    PiecesParsed(tokens, 0, pieces, rest, None);
    forall pieces, rest | ArePieces(pieces, None) && IsRemainder(rest) && tokens == PiecesTokens(pieces) + rest
      ensures SegmentsOf(pieces) == Parsed(tokens, 0, None)
    {
      PiecesParsed(tokens, 0, pieces, rest, None);
    }
  }

  // ----- who is active

  function Labels(segments: seq<Segment>): set<Speaker> { set s | s in segments :: s.speaker }

  /** The speakers with a segment that contains tick t: the independent, pointwise
      notion the sweep is compared with. */
  ghost function ActiveAt(segments: seq<Segment>, t: int): set<Speaker> {
    set s | s in segments && s.start <= t < s.end :: s.speaker
  }

  function ActiveSpeakers(segments: seq<Segment>, start: int, end: int): set<Speaker> {
    set s | s in segments && s.start < end && s.end > start :: s.speaker
  }

  ghost function Indicator(s: Segment, t: int): int { if s.start <= t < s.end then 1 else 0 }

  /** How many of a speaker's own segments contain tick t. */
  ghost function Count(segments: seq<Segment>, speaker: Speaker, t: int): nat {
    if segments == [] then 0 else
    var n := |segments| - 1;
    Count(segments[..n], speaker, t) + if segments[n].speaker == speaker then Indicator(segments[n], t) else 0
  }

  /** A speaker is active at tick t, and in the interval [t, t + 1) by the interval test,
      exactly when one of its segments contains t. */
  lemma {:induction false} CountActive(segments: seq<Segment>, speaker: Speaker, t: int)
    ensures Count(segments, speaker, t) > 0 <==> speaker in ActiveAt(segments, t)
    ensures Count(segments, speaker, t) > 0 <==> speaker in ActiveSpeakers(segments, t, t + 1)
  {
    if segments != [] {
      var n := |segments| - 1;
      CountActive(segments[..n], speaker, t);
      assert segments == segments[..n] + [segments[n]];
    }
  }

  ghost predicate Covers(segments: seq<Segment>, lo: int, hi: int) {
    lo <= hi && forall s :: s in segments ==> lo <= s.start && s.end <= hi
  }

  // ----- the overlap of two speakers

  function SegmentOverlap(a: Segment, b: Segment): int {
    Max(0, Min(a.end, b.end) - Max(a.start, b.start))
  }

  /** The summed overlap of one segment with the segments of one speaker. */
  ghost function SegmentSpeakerOverlap(a: Segment, segments: seq<Segment>, speaker: Speaker): int {
    if segments == [] then 0 else
    var n := |segments| - 1;
    SegmentSpeakerOverlap(a, segments[..n], speaker)
    + if segments[n].speaker == speaker then SegmentOverlap(a, segments[n]) else 0
  }

  /** The summed overlap of all pairs of segments of two speakers. */
  ghost function Overlap(reference: seq<Segment>, prediction: seq<Segment>, r: Speaker, h: Speaker): int {
    if reference == [] then 0 else
    var n := |reference| - 1;
    Overlap(reference[..n], prediction, r, h)
    + if reference[n].speaker == r then SegmentSpeakerOverlap(reference[n], prediction, h) else 0
  }

  ghost function Both(a: Segment, b: Segment): int -> int { t => Indicator(a, t) * Indicator(b, t) }

  ghost function Weighted(a: Segment, segments: seq<Segment>, speaker: Speaker): int -> int {
    t => Indicator(a, t) * Count(segments, speaker, t)
  }

  ghost function Product(reference: seq<Segment>, prediction: seq<Segment>, r: Speaker, h: Speaker): int -> int {
    t => Count(reference, r, t) * Count(prediction, h, t)
  }

  lemma SegmentOverlapTicks(a: Segment, b: Segment, lo: int, hi: int)
    requires lo <= a.start && a.end <= hi && lo <= hi
    ensures SegmentOverlap(a, b) == SumTo(Both(a, b), lo, hi)
  {
    var s, e := Max(a.start, b.start), Min(a.end, b.end);
    if s < e {
      SumToSplit(Both(a, b), lo, s, hi);
      SumToSplit(Both(a, b), s, e, hi);
      SumToConstant(Both(a, b), 0, lo, s);
      SumToConstant(Both(a, b), 1, s, e);
      SumToConstant(Both(a, b), 0, e, hi);
    } else {
      SumToConstant(Both(a, b), 0, lo, hi);
    }
  }

  lemma {:induction false} SegmentSpeakerOverlapTicks(a: Segment, segments: seq<Segment>, speaker: Speaker, lo: int, hi: int)
    requires lo <= a.start && a.end <= hi && lo <= hi
    ensures SegmentSpeakerOverlap(a, segments, speaker) == SumTo(Weighted(a, segments, speaker), lo, hi)
  {
    if segments == [] {
      SumToConstant(Weighted(a, segments, speaker), 0, lo, hi);
    } else {
      var n := |segments| - 1;
      var shorter := segments[..n];
      var last := segments[n];
      SegmentSpeakerOverlapTicks(a, shorter, speaker, lo, hi);
      SegmentOverlapTicks(a, last, lo, hi);
      var k := if last.speaker == speaker then 1 else 0;
      forall t | lo <= t < hi
        ensures Weighted(a, segments, speaker)(t) == Weighted(a, shorter, speaker)(t) + k * Both(a, last)(t)
      {
        assert Indicator(a, t) == 0 || Indicator(a, t) == 1;
      }
      SumToLinear(Weighted(a, shorter, speaker), Both(a, last), Weighted(a, segments, speaker), lo, hi, k);
    }
  }

  /** The overlap of two speakers is the inner product of their counts over ticks. */
  lemma {:induction false} OverlapIsInnerProduct(reference: seq<Segment>, prediction: seq<Segment>, r: Speaker, h: Speaker, lo: int, hi: int)
    requires Covers(reference, lo, hi)
    ensures Overlap(reference, prediction, r, h) == SumTo(Product(reference, prediction, r, h), lo, hi)
  {
    if reference == [] {
      SumToConstant(Product(reference, prediction, r, h), 0, lo, hi);
    } else {
      var n := |reference| - 1;
      var shorter := reference[..n];
      var last := reference[n];
      assert last in reference;
      OverlapIsInnerProduct(shorter, prediction, r, h, lo, hi);
      SegmentSpeakerOverlapTicks(last, prediction, h, lo, hi);
      var k := if last.speaker == r then 1 else 0;
      forall t | lo <= t < hi
        ensures Product(reference, prediction, r, h)(t)
             == Product(shorter, prediction, r, h)(t) + k * Weighted(last, prediction, h)(t)
      {
        assert Indicator(last, t) == 0 || Indicator(last, t) == 1;
        var c := Count(prediction, h, t);
        assert (Count(shorter, r, t) + k * Indicator(last, t)) * c
            == Count(shorter, r, t) * c + k * (Indicator(last, t) * c);
      }
      SumToLinear(Product(shorter, prediction, r, h), Weighted(last, prediction, h), Product(reference, prediction, r, h), lo, hi, k);
    }
  }
}
