/** The hypothesis-to-reference speaker mapping, and the pipeline around the sweep. */
module DiarizationMapping {
  import opened Wrappers
  import opened Sums
  import opened Assignment
  import opened Segments
  import opened DiarizationSweep

  // ----- mappings between speakers, without any matrix

  /** A partial injective mapping from prediction speakers to reference speakers. */
  ghost predicate IsMatching(m: Mapping, reference: seq<Segment>, prediction: seq<Segment>) {
    && m.Keys <= Labels(prediction)
    && (forall h :: h in m ==> m[h] in Labels(reference))
    && (forall h, k :: h in m && k in m && m[h] == m[k] ==> h == k)
  }

  ghost function MappedOverlap(m: Mapping, reference: seq<Segment>, prediction: seq<Segment>): Speaker -> int {
    h => if h in m then Overlap(reference, prediction, m[h], h) else 0
  }

  /** The overlap a mapping collects. */
  ghost function Weight(m: Mapping, reference: seq<Segment>, prediction: seq<Segment>): int {
    SumOver(m.Keys, MappedOverlap(m, reference, prediction))
  }

  ghost function Smaller(reference: seq<Segment>, prediction: seq<Segment>): int {
    Min(|Labels(reference)|, |Labels(prediction)|)
  }

  /** Matches as many speakers as possible, with the largest overlap of all such mappings. */
  ghost predicate IsBestMapping(m: Mapping, reference: seq<Segment>, prediction: seq<Segment>) {
    && IsMatching(m, reference, prediction) && |m| == Smaller(reference, prediction)
    && forall n :: IsMatching(n, reference, prediction) && |n| == Smaller(reference, prediction)
         ==> Weight(n, reference, prediction) <= Weight(m, reference, prediction)
  }

  // ----- the overlap matrix

  /** Each element of the set exactly once. */
  ghost predicate Lists<T(!new)>(s: seq<T>, elements: set<T>) {
    Distinct(s) && forall x :: x in s <==> x in elements
  }

  method SortedLabels(segments: seq<Segment>) returns (labels: seq<Speaker>)
    ensures Lists(labels, Labels(segments))
  {
    var points := seq(|segments|, i requires 0 <= i < |segments| => segments[i].speaker as int);
    var sorted := SortedPoints(points);
    forall i | 0 <= i < |sorted| ensures sorted[i] >= 0 {
      assert sorted[i] in sorted;
      var j :| 0 <= j < |points| && points[j] == sorted[i];
    }
    labels := seq(|sorted|, i requires 0 <= i < |sorted| => sorted[i] as Speaker);
    forall s ensures s in labels <==> s in Labels(segments) {
      if s in labels {
        var i :| 0 <= i < |labels| && labels[i] == s;
        var p := sorted[i];
        assert p in points;
        var j :| 0 <= j < |points| && points[j] == p;
        assert segments[j] in segments;
      }
      if s in Labels(segments) {
        var x :| x in segments && x.speaker == s;
        var j :| 0 <= j < |segments| && segments[j] == x;
        assert points[j] in points;
        var i :| 0 <= i < |sorted| && sorted[i] == s;
        assert labels[i] == s;
      }
    }
  }

  function IndexOf(labels: seq<Speaker>): (index: map<Speaker, nat>)
    requires Distinct(labels)
    ensures forall s :: s in index <==> s in labels
    ensures forall s :: s in labels ==> index[s] < |labels| && labels[index[s]] == s
  {
    map i: nat | i < |labels| :: labels[i] := i
  }

  ghost predicate Filled(overlap: array2<int>, reference: seq<Segment>, prediction: seq<Segment>,
                         rows: seq<Speaker>, columns: seq<Speaker>)
    reads overlap
    requires overlap.Length0 == |rows| && overlap.Length1 == |columns|
  {
    forall r, c :: 0 <= r < |rows| && 0 <= c < |columns|
      ==> overlap[r, c] == Overlap(reference, prediction, rows[r], columns[c])
  }

  /** The overlap of the first i reference segments, plus segment i against the first j. */
  ghost function PartialOverlap(reference: seq<Segment>, prediction: seq<Segment>, i: nat, j: nat, r: Speaker, h: Speaker): int
    requires i < |reference| && j <= |prediction|
  {
    Overlap(reference[..i], prediction, r, h)
    + if reference[i].speaker == r then SegmentSpeakerOverlap(reference[i], prediction[..j], h) else 0
  }

  ghost predicate PartlyFilled(overlap: array2<int>, reference: seq<Segment>, prediction: seq<Segment>,
                               rows: seq<Speaker>, columns: seq<Speaker>, i: nat, j: nat)
    reads overlap
    requires overlap.Length0 == |rows| && overlap.Length1 == |columns|
    requires i < |reference| && j <= |prediction|
  {
    forall r, c :: 0 <= r < |rows| && 0 <= c < |columns|
      ==> overlap[r, c] == PartialOverlap(reference, prediction, i, j, rows[r], columns[c])
  }

  /** The inner loop: reference segment i against every prediction segment. */
  method AddReferenceSegment(overlap: array2<int>, reference: seq<Segment>, prediction: seq<Segment>,
                             rows: seq<Speaker>, columns: seq<Speaker>, i: nat)
    requires Lists(rows, Labels(reference)) && Lists(columns, Labels(prediction))
    requires overlap.Length0 == |rows| && overlap.Length1 == |columns| && i < |reference|
    requires Filled(overlap, reference[..i], prediction, rows, columns)
    modifies overlap
    ensures Filled(overlap, reference[..i + 1], prediction, rows, columns)
  {
    hide SegmentOverlap, PartialOverlap, Labels, Distinct, IndexOf;
    var rowIndex, columnIndex := IndexOf(rows), IndexOf(columns);
    LabelOf(reference, i);
    PartialEnds(reference, prediction, i);
    for j := 0 to |prediction|
      invariant PartlyFilled(overlap, reference, prediction, rows, columns, i, j)
    {
      LabelOf(prediction, j);
      var duration := SegmentOverlap(reference[i], prediction[j]);
      var r, c := rowIndex[reference[i].speaker], columnIndex[prediction[j].speaker];
      OnlyPosition(rows, r);
      OnlyPosition(columns, c);
      NextPartial(reference, prediction, i, j);
      OverlapNotNegative(reference[i], prediction[j]);
      if duration > 0 {
        overlap[r, c] := overlap[r, c] + duration;
      }
    }
  }

  /** The double loop over segment pairs fills in the overlap of every two speakers. */
  method OverlapMatrix(reference: seq<Segment>, prediction: seq<Segment>, rows: seq<Speaker>, columns: seq<Speaker>)
    returns (overlap: array2<int>)
    requires Lists(rows, Labels(reference)) && Lists(columns, Labels(prediction))
    ensures fresh(overlap) && overlap.Length0 == |rows| && overlap.Length1 == |columns|
    ensures Filled(overlap, reference, prediction, rows, columns)
  {
    overlap := new int[|rows|, |columns|]((r, c) => 0);
    for i := 0 to |reference|
      invariant fresh(overlap) && overlap.Length0 == |rows| && overlap.Length1 == |columns|
      invariant Filled(overlap, reference[..i], prediction, rows, columns)
    {
      AddReferenceSegment(overlap, reference, prediction, rows, columns, i);
    }
    assert reference[..|reference|] == reference;
  }

  lemma OverlapNotNegative(a: Segment, b: Segment)
    ensures SegmentOverlap(a, b) >= 0
  {
  }

  lemma OnlyPosition(labels: seq<Speaker>, i: nat)
    requires Distinct(labels) && i < |labels|
    ensures forall j :: 0 <= j < |labels| && labels[j] == labels[i] ==> j == i
  {
  }

  lemma LabelOf(segments: seq<Segment>, i: nat)
    requires i < |segments|
    ensures segments[i].speaker in Labels(segments)
  {
    assert segments[i] in segments;
  }

  lemma NextPartial(reference: seq<Segment>, prediction: seq<Segment>, i: nat, j: nat)
    requires i < |reference| && j < |prediction|
    ensures forall r, h :: (PartialOverlap(reference, prediction, i, j + 1, r, h)
      == PartialOverlap(reference, prediction, i, j, r, h)
       + if reference[i].speaker == r && prediction[j].speaker == h then SegmentOverlap(reference[i], prediction[j]) else 0)
  {
    hide SegmentOverlap, Overlap;
    assert prediction[..j + 1][..j] == prediction[..j];
  }

  lemma PartialEnds(reference: seq<Segment>, prediction: seq<Segment>, i: nat)
    requires i < |reference|
    ensures forall r, h :: PartialOverlap(reference, prediction, i, 0, r, h) == Overlap(reference[..i], prediction, r, h)
    ensures forall r, h :: PartialOverlap(reference, prediction, i, |prediction|, r, h) == Overlap(reference[..i + 1], prediction, r, h)
  {
    assert reference[..i + 1][..i] == reference[..i];
    assert prediction[..|prediction|] == prediction;
  }

  method Negated(overlap: array2<int>) returns (m: Matrix)
    ensures Shape(m, overlap.Length0, overlap.Length1)
    ensures forall r, c :: 0 <= r < overlap.Length0 && 0 <= c < overlap.Length1 ==> m[r][c] == -overlap[r, c]
  {
    m := [];
    for r := 0 to overlap.Length0
      invariant Shape(m, r, overlap.Length1)
      invariant forall i, c :: 0 <= i < r && 0 <= c < overlap.Length1 ==> m[i][c] == -overlap[i, c]
    {
      var row: seq<int> := [];
      for c := 0 to overlap.Length1
        invariant |row| == c
        invariant forall j :: 0 <= j < c ==> row[j] == -overlap[r, j]
      {
        row := row + [-overlap[r, c]];
      }
      m := m + [row];
    }
  }

  // ----- from the solver's pairs to a mapping

  /** The mapping holds exactly the labels of the solver's pairs. */
  ghost predicate MapsPairs(m: Mapping, p: Pairs, rows: seq<Speaker>, columns: seq<Speaker>)
    requires forall x :: x in p ==> x.row < |rows| && x.column < |columns|
  {
    && (forall x :: x in p ==> columns[x.column] in m && m[columns[x.column]] == rows[x.row])
    && (forall h :: h in m ==> exists x :: x in p && columns[x.column] == h)
  }

  /** The dictionary built from the zipped index arrays. */
  method MappingOfPairs(s: seq<Pair>, rows: seq<Speaker>, columns: seq<Speaker>) returns (mapping: Mapping)
    requires Distinct(columns) && Distinct(s) && Separate(PairSet(s), |rows|, |columns|)
    ensures MapsPairs(mapping, PairSet(s), rows, columns)
  {
    assert forall i :: 0 <= i < |s| ==> s[i] in PairSet(s);
    mapping := map[];
    for i := 0 to |s|
      invariant forall x :: x in s[..i] ==> columns[x.column] in mapping && mapping[columns[x.column]] == rows[x.row]
      invariant forall h :: h in mapping ==> exists x :: x in s[..i] && columns[x.column] == h
    {
      var Pair(r, c) := s[i];
      assert s[..i + 1] == s[..i] + [s[i]];
      forall x | x in s[..i] ensures columns[x.column] != columns[c] {
        var k :| 0 <= k < i && s[k] == x;
        assert s[k] != s[i];
        assert x in PairSet(s);
      }
      mapping := mapping[columns[c] := rows[r]];
    }
    assert s[..|s|] == s;
  }

  method BestHypToRefMapping(reference: seq<Segment>, prediction: seq<Segment>,
                             solve: (Matrix, nat, nat) -> seq<Pair>) returns (mapping: Mapping)
    requires Solves(solve)
    ensures IsBestMapping(mapping, reference, prediction)
  {
    hide Overlap, IsBestMapping, Cost, Labels, Entry, PairSet, MapsPairs;
    var rows := SortedLabels(reference);
    var columns := SortedLabels(prediction);
    if rows == [] || columns == [] {
      NoSpeakers(reference, prediction, rows, columns);
      return map[];
    }
    var overlap := OverlapMatrix(reference, prediction, rows, columns);
    var cost := Negated(overlap);
    var s := solve(cost, |rows|, |columns|);
    assert IsOptimal(cost, |rows|, |columns|, PairSet(s));
    mapping := MappingOfPairs(s, rows, columns);
    OptimalIsBest(reference, prediction, rows, columns, cost, PairSet(s), mapping);
  }

  lemma LabelCount(segments: seq<Segment>, labels: seq<Speaker>)
    requires Lists(labels, Labels(segments))
    ensures |Labels(segments)| == |labels|
  {
    ListSize(labels, Labels(segments));
  }

  lemma {:induction false} ListSize<T(!new)>(s: seq<T>, elements: set<T>)
    requires Lists(s, elements)
    ensures |elements| == |s|
  {
    if s == [] {
      assert elements == {};
    } else {
      var n := |s| - 1;
      assert s == s[..n] + [s[n]];
      assert Lists(s[..n], elements - {s[n]});
      ListSize(s[..n], elements - {s[n]});
    }
  }

  lemma NoSpeakers(reference: seq<Segment>, prediction: seq<Segment>, rows: seq<Speaker>, columns: seq<Speaker>)
    requires Lists(rows, Labels(reference)) && Lists(columns, Labels(prediction))
    requires rows == [] || columns == []
    ensures IsBestMapping(map[], reference, prediction)
  {
    LabelCount(reference, rows);
    LabelCount(prediction, columns);
    forall n: Mapping | |n| == 0 ensures n == map[] {
      assert n.Keys == {};
    }
  }

  /** The matrix handed to the solver. */
  ghost predicate NegatedOverlaps(cost: Matrix, reference: seq<Segment>, prediction: seq<Segment>,
                                  rows: seq<Speaker>, columns: seq<Speaker>)
  {
    && Shape(cost, |rows|, |columns|)
    && forall r, c :: 0 <= r < |rows| && 0 <= c < |columns|
         ==> cost[r][c] == -Overlap(reference, prediction, rows[r], columns[c])
  }

  ghost predicate Separate(p: Pairs, rows: nat, columns: nat) {
    && (forall x :: x in p ==> x.row < rows && x.column < columns)
    && (forall x, y :: x in p && y in p && (x.row == y.row || x.column == y.column) ==> x == y)
  }

  ghost function ColumnLabel(columns: seq<Speaker>): Pair -> Speaker {
    (x: Pair) => if x.column < |columns| then columns[x.column] else 0
  }

  ghost function NegatedEntry(cost: Matrix): Pair -> int { (x: Pair) => -Entry(cost)(x) }

  ghost function ZeroEntry(): Pair -> int { (x: Pair) => 0 }

  lemma ColumnsInjective(p: Pairs, rows: nat, columns: seq<Speaker>)
    requires Distinct(columns) && Separate(p, rows, |columns|)
    ensures InjectiveOn(p, ColumnLabel(columns))
  {
    forall x, y | x in p && y in p && ColumnLabel(columns)(x) == ColumnLabel(columns)(y) ensures x == y {
      assert columns[x.column] == columns[y.column];
    }
  }

  lemma MappingKeys(p: Pairs, rows: seq<Speaker>, columns: seq<Speaker>, m: Mapping)
    requires Separate(p, |rows|, |columns|) && MapsPairs(m, p, rows, columns)
    ensures Image(p, ColumnLabel(columns)) == m.Keys
  {
    var keys := Image(p, ColumnLabel(columns));
    forall h | h in m.Keys ensures h in keys {
      var x :| x in p && columns[x.column] == h;
      assert ColumnLabel(columns)(x) == h;
    }
    forall h | h in keys ensures h in m.Keys {
      var x :| x in p && ColumnLabel(columns)(x) == h;
    }
  }

  lemma MappingEntries(reference: seq<Segment>, prediction: seq<Segment>, rows: seq<Speaker>, columns: seq<Speaker>,
                       cost: Matrix, p: Pairs, m: Mapping)
    requires NegatedOverlaps(cost, reference, prediction, rows, columns)
    requires Separate(p, |rows|, |columns|) && MapsPairs(m, p, rows, columns)
    ensures forall x :: x in p ==> NegatedEntry(cost)(x) == MappedOverlap(m, reference, prediction)(ColumnLabel(columns)(x))
  {
    hide Overlap;
    forall x | x in p ensures NegatedEntry(cost)(x) == MappedOverlap(m, reference, prediction)(ColumnLabel(columns)(x)) {
      var h := columns[x.column];
      assert cost[x.row][x.column] == -Overlap(reference, prediction, rows[x.row], h);
      assert Entry(cost)(x) == cost[x.row][x.column];
      assert ColumnLabel(columns)(x) == h && m[h] == rows[x.row];
      assert MappedOverlap(m, reference, prediction)(h) == Overlap(reference, prediction, m[h], h);
    }
  }

  lemma MappingWeight(reference: seq<Segment>, prediction: seq<Segment>, rows: seq<Speaker>, columns: seq<Speaker>,
                      cost: Matrix, p: Pairs, m: Mapping)
    requires Distinct(columns)
    requires NegatedOverlaps(cost, reference, prediction, rows, columns)
    requires Separate(p, |rows|, |columns|)
    requires MapsPairs(m, p, rows, columns)
    ensures |m| == |p| && Weight(m, reference, prediction) == -Cost(cost, p)
  {
    hide Overlap, SumOver, InjectiveOn, Image, MappedOverlap, NegatedOverlaps, MapsPairs, Separate;
    ColumnsInjective(p, |rows|, columns);
    MappingKeys(p, rows, columns, m);
    ImageSize(p, ColumnLabel(columns));
    MappingEntries(reference, prediction, rows, columns, cost, p, m);
    SumOverImage(p, ColumnLabel(columns), MappedOverlap(m, reference, prediction), NegatedEntry(cost));
    SumOverLinear(p, ZeroEntry(), Entry(cost), NegatedEntry(cost), -1);
    SumOverZero(p, ZeroEntry());
  }

  /** The pairs of indices behind a mapping between labels. */
  ghost function PairsOf(m: Mapping, rows: seq<Speaker>, columns: seq<Speaker>): Pairs
    requires Distinct(rows) && Distinct(columns)
    requires forall h :: h in m ==> h in columns && m[h] in rows
  {
    set h | h in m.Keys :: Pair(IndexOf(rows)[m[h]], IndexOf(columns)[h])
  }

  lemma PairsOfMatching(reference: seq<Segment>, prediction: seq<Segment>, rows: seq<Speaker>, columns: seq<Speaker>, m: Mapping)
    requires Lists(rows, Labels(reference)) && Lists(columns, Labels(prediction))
    requires IsMatching(m, reference, prediction)
    ensures Separate(PairsOf(m, rows, columns), |rows|, |columns|)
    ensures MapsPairs(m, PairsOf(m, rows, columns), rows, columns)
  {
    var p := PairsOf(m, rows, columns);
    forall x | x in p ensures exists h :: h in m && x == Pair(IndexOf(rows)[m[h]], IndexOf(columns)[h])
    {
    }
    forall h | h in m ensures exists x :: x in p && columns[x.column] == h {
      var x := Pair(IndexOf(rows)[m[h]], IndexOf(columns)[h]);
      assert x in p && columns[x.column] == h;
    }
  }

  lemma OptimalIsBest(reference: seq<Segment>, prediction: seq<Segment>, rows: seq<Speaker>, columns: seq<Speaker>,
                      cost: Matrix, p: Pairs, m: Mapping)
    requires Lists(rows, Labels(reference)) && Lists(columns, Labels(prediction))
    requires NegatedOverlaps(cost, reference, prediction, rows, columns)
    requires IsOptimal(cost, |rows|, |columns|, p)
    requires MapsPairs(m, p, rows, columns)
    ensures IsBestMapping(m, reference, prediction)
  {
    hide Overlap, Weight, Cost, PairsOf, MapsPairs, NegatedOverlaps, Labels, Distinct, IsMatching;
    assert Separate(p, |rows|, |columns|);
    LabelCount(reference, rows);
    LabelCount(prediction, columns);
    MappingWeight(reference, prediction, rows, columns, cost, p, m);
    PairsGiveMatching(reference, prediction, rows, columns, p, m);
    forall n | IsMatching(n, reference, prediction) && |n| == Smaller(reference, prediction)
      ensures Weight(n, reference, prediction) <= Weight(m, reference, prediction)
    {
      var q := CompetingPairs(reference, prediction, rows, columns, n);
      MappingWeight(reference, prediction, rows, columns, cost, q, n);
      assert IsAssignment(q, |rows|, |columns|);
    }
  }

  lemma CompetingPairs(reference: seq<Segment>, prediction: seq<Segment>, rows: seq<Speaker>, columns: seq<Speaker>, n: Mapping)
    returns (q: Pairs)
    requires Lists(rows, Labels(reference)) && Lists(columns, Labels(prediction))
    requires IsMatching(n, reference, prediction)
    ensures Separate(q, |rows|, |columns|) && MapsPairs(n, q, rows, columns)
  {
    q := PairsOf(n, rows, columns);
    PairsOfMatching(reference, prediction, rows, columns, n);
  }

  lemma PairsGiveMatching(reference: seq<Segment>, prediction: seq<Segment>, rows: seq<Speaker>, columns: seq<Speaker>,
                          p: Pairs, m: Mapping)
    requires Lists(rows, Labels(reference)) && Lists(columns, Labels(prediction))
    requires Separate(p, |rows|, |columns|) && MapsPairs(m, p, rows, columns)
    ensures IsMatching(m, reference, prediction)
  {
    hide Labels;
    forall h | h in m ensures h in Labels(prediction) && m[h] in Labels(reference) {
      var x :| x in p && columns[x.column] == h;
      assert columns[x.column] in columns && rows[x.row] in rows;
    }
    forall h, k | h in m && k in m && m[h] == m[k] ensures h == k {
      var x :| x in p && columns[x.column] == h;
      var y :| y in p && columns[y.column] == k;
      assert rows[x.row] == rows[y.row];
    }
  }

  /** The whole score from tokens: parse both sides, map, sweep. The mapping is also
      returned so that the contract can speak about it. */
  method TimestampDerOne(reference: seq<Token>, prediction: seq<Token>, collar: int,
                         solve: (Matrix, nat, nat) -> seq<Pair>) returns (d: DerDetail, mapping: Mapping)
    requires Solves(solve)
    ensures IsBestMapping(mapping, Parsed(reference, 0, None), Parsed(prediction, 0, None))
    ensures IsDer(d, Parsed(reference, 0, None), Parsed(prediction, 0, None), mapping, collar)
  {
    hide *;
    var referenceSegments := ParseTimestampedSpeakerSegments(reference);
    var predictionSegments := ParseTimestampedSpeakerSegments(prediction);
    mapping := BestHypToRefMapping(referenceSegments, predictionSegments, solve);
    d := Sweep(referenceSegments, predictionSegments, mapping, collar);
  }
}
