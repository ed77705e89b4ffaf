/** The permutation-minimal character error rate (cpCER), from speaker turns on. */
module CharacterErrors {
  import opened Wrappers
  import opened Sums
  import opened Assignment
  import opened Levenshtein

  /** One tagged stretch of a transcript: canonical speaker number, cleaned content. */
  datatype Turn = Turn(speaker: nat, content: string)

  /** A cleaned transcript: its turns, and its flattened text for when it has no tag. */
  datatype Transcript = Transcript(turns: seq<Turn>, plain: string)

  datatype Entry = Entry(speaker: nat, text: string)

  datatype CharStats = CharStats(refChars: int, predChars: int, errors: int) {
    function Rate(): Option<real> { if refChars > 0 then Some(errors as real / refChars as real) else None }
  }

  datatype InvalidReason = NoRefSpeakerTags | EmptyRefAfterClean

  datatype CpCerStats = Valid(stats: CharStats) | Invalid(predChars: int, reason: InvalidReason)

  // ----- one text per speaker

  /** All a speaker says, in order. */
  ghost function SpeakerText(turns: seq<Turn>, speaker: nat): string {
    if turns == [] then "" else
    var n := |turns| - 1;
    SpeakerText(turns[..n], speaker) + if turns[n].speaker == speaker then turns[n].content else ""
  }

  /** The speakers in the order of the first turn in which they say something. */
  ghost function SpeakersIn(turns: seq<Turn>): seq<nat> {
    if turns == [] then [] else
    var n := |turns| - 1;
    var earlier := SpeakersIn(turns[..n]);
    if turns[n].content != "" && turns[n].speaker !in earlier then earlier + [turns[n].speaker] else earlier
  }

  /** The keys of the dictionary, in its order. */
  ghost function SpeakersOf(entries: seq<Entry>): seq<nat> {
    seq(|entries|, i requires 0 <= i < |entries| => entries[i].speaker)
  }

  /** One entry for each speaker who says something, with all they say. No further result
      depends on the order. */
  ghost predicate IsSplit(entries: seq<Entry>, turns: seq<Turn>) {
    && DistinctSpeakers(entries)
    && (forall e :: e in entries ==> e.text == SpeakerText(turns, e.speaker) && e.text != "")
    && forall s: nat :: SpeakerText(turns, s) != "" ==> exists e :: e in entries && e.speaker == s
  }

  ghost predicate DistinctSpeakers(entries: seq<Entry>) {
    forall i, j :: 0 <= i < j < |entries| ==> entries[i].speaker != entries[j].speaker
  }

  /** The speaker's entry after the content is appended to `before`. */
  ghost predicate IsAppended(e: Entry, before: seq<Entry>, speaker: nat, content: string) {
    || (e.text == content && forall d :: d in before ==> d.speaker != speaker)
    || (exists d :: d in before && d.speaker == speaker && e.text == d.text + content)
  }

  /** The entries after the content is appended: only the speaker's own changes. */
  ghost predicate AppendedTo(after: seq<Entry>, before: seq<Entry>, speaker: nat, content: string) {
    && DistinctSpeakers(after)
    && (forall e :: e in after && e.speaker != speaker ==> e in before)
    && (forall e :: e in before && e.speaker != speaker ==> e in after)
    && (exists e :: e in after && e.speaker == speaker)
    && (forall e :: e in after && e.speaker == speaker ==> IsAppended(e, before, speaker, content))
  }

  /** `speaker_text[speaker] = speaker_text.get(speaker, "") + content`. */
  method AddContent(entries: seq<Entry>, speaker: nat, content: string) returns (r: seq<Entry>)
    requires DistinctSpeakers(entries)
    ensures AppendedTo(r, entries, speaker, content)
    ensures SpeakersOf(r) == if speaker in SpeakersOf(entries) then SpeakersOf(entries) else SpeakersOf(entries) + [speaker]
  {
    var k := 0;
    while k < |entries| && entries[k].speaker != speaker
      invariant k <= |entries|
      invariant forall j :: 0 <= j < k ==> entries[j].speaker != speaker
    {
      k := k + 1;
    }
    if k == |entries| {
      r := entries + [Entry(speaker, content)];
      assert r[k].speaker == speaker;
    } else {
      var d := entries[k];
      assert d in entries && SpeakersOf(entries)[k] == speaker;
      r := entries[k := Entry(speaker, d.text + content)];
      assert r[k] in r;
      forall e | e in entries && e.speaker != speaker ensures e in r {
        var j :| 0 <= j < |entries| && entries[j] == e;
        assert r[j] == e;
      }
    }
  }

  method SplitTurns(turns: seq<Turn>) returns (entries: seq<Entry>)
    ensures IsSplit(entries, turns) && SpeakersOf(entries) == SpeakersIn(turns)
  {
    entries := [];
    for i := 0 to |turns|
      invariant IsSplit(entries, turns[..i]) && SpeakersOf(entries) == SpeakersIn(turns[..i])
    {
      assert turns[..i + 1][..i] == turns[..i];
      ghost var before := entries;
      var Turn(speaker, content) := turns[i];
      if content != "" {
        entries := AddContent(entries, speaker, content);
      }
      SplitStep(before, entries, turns, i);
    }
    assert turns[..|turns|] == turns;
  }

  lemma NextText(turns: seq<Turn>, i: nat, s: nat)
    requires i < |turns|
    ensures SpeakerText(turns[..i + 1], s)
      == if turns[i].speaker == s then SpeakerText(turns[..i], s) + turns[i].content else SpeakerText(turns[..i], s)
  {
    assert turns[..i + 1][..i] == turns[..i];
    assert SpeakerText(turns[..i], s) + "" == SpeakerText(turns[..i], s);
  }

  lemma SplitStep(before: seq<Entry>, entries: seq<Entry>, turns: seq<Turn>, i: nat)
    requires i < |turns| && IsSplit(before, turns[..i])
    requires turns[i].content == "" ==> entries == before
    requires turns[i].content != "" ==> AppendedTo(entries, before, turns[i].speaker, turns[i].content)
    ensures IsSplit(entries, turns[..i + 1])
  {
    var speaker, content := turns[i].speaker, turns[i].content;
    var earlier, later := turns[..i], turns[..i + 1];
    var said := SpeakerText(earlier, speaker);
    forall s: nat ensures SpeakerText(later, s) == if s == speaker then said + content else SpeakerText(earlier, s) {
      NextText(turns, i, s);
    }
    hide SpeakerText;
    assert "" + content == content && said + "" == said;
    if content != "" {
      forall e | e in entries ensures e.text == SpeakerText(later, e.speaker) && e.text != "" {
        if e.speaker == speaker {
          assert IsAppended(e, before, speaker, content);
          if forall d :: d in before ==> d.speaker != speaker { assert said == ""; }
        }
      }
      forall s: nat | SpeakerText(later, s) != "" ensures exists e :: e in entries && e.speaker == s {
        if s != speaker {
          assert SpeakerText(earlier, s) != "";
          var d :| d in before && d.speaker == s;
          assert d in entries;
        }
      }
    }
  }

  /** The texts of the speakers. Without any tag the whole text belongs to one
      implicit speaker, if the caller allows that. */
  method SplitCleanBySpeaker(t: Transcript, implicitSingleSpeaker: bool) returns (texts: seq<string>)
    ensures IsTexts(texts, t, implicitSingleSpeaker)
  {
    if t.turns == [] {
      return if !implicitSingleSpeaker || t.plain == "" then [] else [t.plain];
    }
    var entries := SplitTurns(t.turns);
    texts := Texts(entries);
  }

  function Texts(entries: seq<Entry>): (texts: seq<string>)
    ensures |texts| == |entries|
    ensures forall i :: 0 <= i < |texts| ==> texts[i] == entries[i].text
  {
    seq(|entries|, i requires 0 <= i < |entries| => entries[i].text)
  }

  ghost predicate IsTexts(texts: seq<string>, t: Transcript, implicitSingleSpeaker: bool) {
    if t.turns == [] then
      texts == if !implicitSingleSpeaker || t.plain == "" then [] else [t.plain]
    else
      exists entries :: IsSplit(entries, t.turns) && texts == Texts(entries)
  }

  // ----- pairings

  function TotalLength(texts: seq<string>): nat {
    if texts == [] then 0 else TotalLength(texts[..|texts| - 1]) + |texts[|texts| - 1]|
  }

  ghost function PairErrors(refs: seq<string>, preds: seq<string>): Pair -> int {
    (x: Pair) => if x.row < |refs| && x.column < |preds| then Distance(refs[x.row], preds[x.column]) else 0
  }

  ghost function PairingErrors(refs: seq<string>, preds: seq<string>, p: Pairs): int {
    SumOver(p, PairErrors(refs, preds))
  }

  /** The number is the summed edit distance of some pairing of the two equally long
      lists, and no pairing has a smaller one. */
  ghost predicate IsLeastPairing(errors: int, refs: seq<string>, preds: seq<string>) {
    && (exists p :: IsAssignment(p, |refs|, |preds|) && PairingErrors(refs, preds, p) == errors)
    && forall p :: IsAssignment(p, |refs|, |preds|) ==> errors <= PairingErrors(refs, preds, p)
  }

  function Padded(texts: seq<string>, n: nat): (r: seq<string>)
    requires |texts| <= n
    ensures |r| == n && texts <= r
    ensures forall i :: |texts| <= i < n ==> r[i] == ""
  {
    texts + seq(n - |texts|, i => "")
  }

  function StatsOf(reference: string, prediction: string): (s: CharStats)
    ensures s == CharStats(|reference|, |prediction|, Distance(reference, prediction))
  {
    if reference == "" then CharStats(0, |prediction|, |prediction|)
    else CharStats(|reference|, |prediction|, Distance(reference, prediction))
  }

  ghost function RefLength(refs: seq<string>): Pair -> int { (x: Pair) => if x.row < |refs| then |refs[x.row]| else 0 }

  ghost function PredLength(preds: seq<string>): Pair -> int { (x: Pair) => if x.column < |preds| then |preds[x.column]| else 0 }

  ghost function LengthAt(texts: seq<string>): nat -> int { (i: nat) => if i < |texts| then |texts[i]| else 0 }

  ghost function Below(n: nat): (s: set<nat>)
    ensures forall i: nat :: i in s <==> i < n
    ensures |s| == n
  {
    if n == 0 then {} else Below(n - 1) + {n - 1}
  }

  lemma {:induction false} TotalLengthSum(texts: seq<string>)
    ensures TotalLength(texts) == SumOver(Below(|texts|), LengthAt(texts))
  {
    if texts == [] {
    } else {
      var n := |texts| - 1;
      TotalLengthSum(texts[..n]);
      SumOverAdd<nat>(Below(n), LengthAt(texts), n);
      SumOverCongruent<nat>(Below(n), LengthAt(texts), LengthAt(texts[..n]));
    }
  }

  /** Every pairing of two equally long lists uses every row and every column once, so
      the summed lengths do not depend on it. */
  lemma PairingLengths(p: Pairs, refs: seq<string>, preds: seq<string>)
    requires |refs| == |preds| && IsAssignment(p, |refs|, |preds|)
    ensures SumOver(p, RefLength(refs)) == TotalLength(refs)
    ensures SumOver(p, PredLength(preds)) == TotalLength(preds)
  {
    hide SumOver, TotalLength;
    var n := |refs|;
    var row, column := (x: Pair) => x.row, (x: Pair) => x.column;
    ImageSize(p, row);
    ImageSize(p, column);
    SubsetSameSize(Image(p, row), Below(n));
    SubsetSameSize(Image(p, column), Below(n));
    SumOverImage(p, row, LengthAt(refs), RefLength(refs));
    SumOverImage(p, column, LengthAt(preds), PredLength(preds));
    TotalLengthSum(refs);
    TotalLengthSum(preds);
  }

  /** The least errors are at least the difference of the total lengths. */
  lemma ErrorsBoundLengths(errors: int, refs: seq<string>, preds: seq<string>)
    requires |refs| == |preds| && IsLeastPairing(errors, refs, preds)
    ensures errors >= TotalLength(refs) - TotalLength(preds)
    ensures errors >= TotalLength(preds) - TotalLength(refs)
  {
    hide TotalLength, SumOver, Distance;
    var p :| IsAssignment(p, |refs|, |preds|) && PairingErrors(refs, preds, p) == errors;
    PairingLengths(p, refs, preds);
    var surplus := (x: Pair) => RefLength(refs)(x) - PredLength(preds)(x);
    var deficit := (x: Pair) => PredLength(preds)(x) - RefLength(refs)(x);
    forall x | x in p ensures surplus(x) <= PairErrors(refs, preds)(x) && deficit(x) <= PairErrors(refs, preds)(x) {
      LengthBounds(refs[x.row], preds[x.column]);
    }
    SumOverLinear(p, RefLength(refs), PredLength(preds), surplus, -1);
    SumOverLinear(p, PredLength(preds), RefLength(refs), deficit, -1);
    SumOverMonotone(p, surplus, PairErrors(refs, preds));
    SumOverMonotone(p, deficit, PairErrors(refs, preds));
  }

  // ----- the computation

  method ErrorMatrix(refs: seq<string>, preds: seq<string>) returns (cost: Matrix, stats: seq<seq<CharStats>>)
    ensures Shape(cost, |refs|, |preds|) && |stats| == |refs|
    ensures forall r :: 0 <= r < |refs| ==> |stats[r]| == |preds|
    ensures forall r, c :: 0 <= r < |refs| && 0 <= c < |preds| ==> stats[r][c] == StatsOf(refs[r], preds[c])
    ensures forall r, c :: 0 <= r < |refs| && 0 <= c < |preds| ==> cost[r][c] == Distance(refs[r], preds[c])
  {
    hide Distance;
    cost, stats := [], [];
    for r := 0 to |refs|
      invariant |cost| == |stats| == r
      invariant forall i :: 0 <= i < r ==> |cost[i]| == |stats[i]| == |preds|
      invariant forall i, c :: 0 <= i < r && 0 <= c < |preds| ==> stats[i][c] == StatsOf(refs[i], preds[c])
      invariant forall i, c :: 0 <= i < r && 0 <= c < |preds| ==> cost[i][c] == Distance(refs[i], preds[c])
    {
      var costRow: seq<int>, statsRow: seq<CharStats> := [], [];
      for c := 0 to |preds|
        invariant |costRow| == |statsRow| == c
        invariant forall j :: 0 <= j < c ==> statsRow[j] == StatsOf(refs[r], preds[j]) && costRow[j] == Distance(refs[r], preds[j])
      {
        var s := StatsOf(refs[r], preds[c]);
        costRow := costRow + [s.errors];
        statsRow := statsRow + [s];
      }
      cost, stats := cost + [costRow], stats + [statsRow];
    }
  }

  lemma NextPair(s: seq<Pair>, i: nat, f: Pair -> int)
    requires i < |s| && Distinct(s)
    ensures SumOver(PairSet(s[..i + 1]), f) == SumOver(PairSet(s[..i]), f) + f(s[i])
  {
    hide SumOver;
    assert s[..i + 1] == s[..i] + [s[i]];
    assert PairSet(s[..i + 1]) == PairSet(s[..i]) + {s[i]};
    assert s[i] !in s[..i];
    SumOverAdd(PairSet(s[..i]), f, s[i]);
  }

  method SumAssigned(s: seq<Pair>, stats: seq<seq<CharStats>>, refs: seq<string>, preds: seq<string>) returns (sum: CharStats)
    requires Distinct(s)
    requires forall x :: x in s ==> x.row < |refs| && x.column < |preds|
    requires |stats| == |refs| && forall r :: 0 <= r < |refs| ==> |stats[r]| == |preds|
    requires forall r, c :: 0 <= r < |refs| && 0 <= c < |preds| ==> stats[r][c] == StatsOf(refs[r], preds[c])
    ensures sum.refChars == SumOver(PairSet(s), RefLength(refs))
    ensures sum.predChars == SumOver(PairSet(s), PredLength(preds))
    ensures sum.errors == PairingErrors(refs, preds, PairSet(s))
  {
    hide Distance, SumOver, PairSet, Distinct;
    sum := CharStats(0, 0, 0);
    EmptyPairs(s, RefLength(refs));
    EmptyPairs(s, PredLength(preds));
    EmptyPairs(s, PairErrors(refs, preds));
    for i := 0 to |s|
      invariant sum.refChars == SumOver(PairSet(s[..i]), RefLength(refs))
      invariant sum.predChars == SumOver(PairSet(s[..i]), PredLength(preds))
      invariant sum.errors == SumOver(PairSet(s[..i]), PairErrors(refs, preds))
    {
      NextPair(s, i, RefLength(refs));
      NextPair(s, i, PredLength(preds));
      NextPair(s, i, PairErrors(refs, preds));
      assert s[i] in s;
      var item := stats[s[i].row][s[i].column];
      sum := CharStats(sum.refChars + item.refChars, sum.predChars + item.predChars, sum.errors + item.errors);
    }
    assert s[..|s|] == s;
  }

  lemma EmptyPairs(s: seq<Pair>, f: Pair -> int)
    ensures SumOver(PairSet(s[..0]), f) == 0
  {
    assert PairSet(s[..0]) == {};
  }

  lemma MatrixCost(cost: Matrix, refs: seq<string>, preds: seq<string>, p: Pairs)
    requires Shape(cost, |refs|, |preds|)
    requires forall r, c :: 0 <= r < |refs| && 0 <= c < |preds| ==> cost[r][c] == Distance(refs[r], preds[c])
    requires IsAssignment(p, |refs|, |preds|)
    ensures Cost(cost, p) == PairingErrors(refs, preds, p)
  {
    hide Distance, SumOver;
    SumOverCongruent(p, Assignment.Entry(cost), PairErrors(refs, preds));
  }

  lemma {:induction false} PaddedLength(texts: seq<string>, n: nat)
    requires |texts| <= n
    ensures TotalLength(Padded(texts, n)) == TotalLength(texts)
    decreases n
  {
    var p := Padded(texts, n);
    if |texts| == n {
      assert p == texts;
    } else {
      PaddedLength(texts, n - 1);
      assert p[..n - 1] == Padded(texts, n - 1);
    }
  }

  /** What the function reports, for the texts of the two sides. */
  ghost predicate Reports(r: CpCerStats, refs: seq<string>, preds: seq<string>) {
    if TotalLength(refs) == 0 then
      r == Invalid(TotalLength(preds), EmptyRefAfterClean)
    else
      var n := Max(|refs|, |preds|);
      && r.Valid?
      && r.stats.refChars == TotalLength(refs) && r.stats.predChars == TotalLength(preds)
      && IsLeastPairing(r.stats.errors, Padded(refs, n), Padded(preds, n))
  }

  ghost predicate ReportsFor(r: CpCerStats, hasTags: bool, refs: seq<string>, preds: seq<string>) {
    if hasTags then Reports(r, refs, preds) else r == Invalid(TotalLength(preds), NoRefSpeakerTags)
  }

  ghost predicate IsCpCer(r: CpCerStats, hasTags: bool, reference: Transcript, prediction: Transcript) {
    exists refs, preds ::
      IsTexts(refs, reference, false) && IsTexts(preds, prediction, true) && ReportsFor(r, hasTags, refs, preds)
  }

  method CpCerStatsOf(referenceHasTags: bool, reference: Transcript, prediction: Transcript,
                      solve: (Matrix, nat, nat) -> seq<Pair>) returns (r: CpCerStats)
    requires Solves(solve)
    ensures IsCpCer(r, referenceHasTags, reference, prediction)
  {
    hide Distance, IsTexts, TotalLength, SumOver, Cost, PairingErrors, PairSet, IsSplit, IsAssignment;
    var refs := SplitCleanBySpeaker(reference, false);
    var preds := SplitCleanBySpeaker(prediction, true);
    if !referenceHasTags {
      r := Invalid(TotalLength(preds), NoRefSpeakerTags);
      assert ReportsFor(r, referenceHasTags, refs, preds);
      return;
    }
    if TotalLength(refs) == 0 {
      r := Invalid(TotalLength(preds), EmptyRefAfterClean);
      assert ReportsFor(r, referenceHasTags, refs, preds);
      return;
    }
    var n := Max(|refs|, |preds|);
    var paddedRefs, paddedPreds := Padded(refs, n), Padded(preds, n);
    var sum := LeastPairing(paddedRefs, paddedPreds, solve);
    PaddedLength(refs, n);
    PaddedLength(preds, n);
    r := Valid(sum);
    assert ReportsFor(r, referenceHasTags, refs, preds);
  }

  method LeastPairing(refs: seq<string>, preds: seq<string>, solve: (Matrix, nat, nat) -> seq<Pair>) returns (sum: CharStats)
    requires Solves(solve) && |refs| == |preds|
    ensures sum.refChars == TotalLength(refs) && sum.predChars == TotalLength(preds)
    ensures IsLeastPairing(sum.errors, refs, preds)
  {
    hide Distance, TotalLength, Cost, PairingErrors, SumOver, Assignment.Entry;
    var cost, stats := ErrorMatrix(refs, preds);
    var s := solve(cost, |refs|, |preds|);
    assert IsOptimal(cost, |refs|, |preds|, PairSet(s));
    forall x | x in s ensures x.row < |refs| && x.column < |preds| { assert x in PairSet(s); }
    sum := SumAssigned(s, stats, refs, preds);
    hide PairSet, StatsOf;
    PairingLengths(PairSet(s), refs, preds);
    forall p | IsAssignment(p, |refs|, |preds|) ensures Cost(cost, p) == PairingErrors(refs, preds, p) {
      MatrixCost(cost, refs, preds, p);
    }
  }

  // ----- independence of order and names

  /** List `from` rearranged: position i of `from` is position move(i) of `to`. */
  ghost predicate Rearranges(move: nat -> nat, from: seq<string>, to: seq<string>) {
    && |from| == |to|
    && (forall i :: 0 <= i < |from| ==> move(i) < |to| && to[move(i)] == from[i])
    && forall i, j :: 0 <= i < |from| && 0 <= j < |from| && move(i) == move(j) ==> i == j
  }

  ghost function MovedPair(moveRow: nat -> nat, moveColumn: nat -> nat): Pair -> Pair {
    (x: Pair) => Pair(moveRow(x.row), moveColumn(x.column))
  }

  lemma MovedAssignment(p: Pairs, refs: seq<string>, refs': seq<string>, from: seq<string>, to: seq<string>,
                        moveRow: nat -> nat, moveColumn: nat -> nat)
    requires Rearranges(moveRow, refs, refs') && Rearranges(moveColumn, from, to)
    requires IsAssignment(p, |refs|, |from|)
    ensures InjectiveOn(p, MovedPair(moveRow, moveColumn))
    ensures IsAssignment(Image(p, MovedPair(moveRow, moveColumn)), |refs'|, |to|)
  {
    assert InjectiveOn(p, MovedPair(moveRow, moveColumn));
    ImageSize(p, MovedPair(moveRow, moveColumn));
  }

  lemma MovedErrors(p: Pairs, refs: seq<string>, refs': seq<string>, from: seq<string>, to: seq<string>,
                    moveRow: nat -> nat, moveColumn: nat -> nat)
    requires Rearranges(moveRow, refs, refs') && Rearranges(moveColumn, from, to)
    requires IsAssignment(p, |refs|, |from|)
    ensures PairingErrors(refs', to, Image(p, MovedPair(moveRow, moveColumn))) == PairingErrors(refs, from, p)
  {
    hide SumOver, Distance, InjectiveOn, Image;
    MovedAssignment(p, refs, refs', from, to, moveRow, moveColumn);
    SumOverImage(p, MovedPair(moveRow, moveColumn), PairErrors(refs', to), PairErrors(refs, from));
  }

  lemma RearrangedNotBetter(errors: int, errors': int, refs: seq<string>, refs': seq<string>,
                            from: seq<string>, to: seq<string>, moveRow: nat -> nat, moveColumn: nat -> nat)
    requires Rearranges(moveRow, refs, refs') && Rearranges(moveColumn, from, to)
    requires IsLeastPairing(errors, refs, from) && IsLeastPairing(errors', refs', to)
    ensures errors' <= errors
  {
    hide PairingErrors, Image, Rearranges;
    var p :| IsAssignment(p, |refs|, |from|) && PairingErrors(refs, from, p) == errors;
    MovedAssignment(p, refs, refs', from, to, moveRow, moveColumn);
    MovedErrors(p, refs, refs', from, to, moveRow, moveColumn);
  }

  lemma Preimage(move: nat -> nat, n: nat, j: nat) returns (i: nat)
    requires InjectiveOn(Below(n), move) && Image(Below(n), move) <= Below(n)
    requires j < n
    ensures i < n && move(i) == j
  {
    hide InjectiveOn;
    ImageSize(Below(n), move);
    SubsetSameSize(Image(Below(n), move), Below(n));
    assert j in Image(Below(n), move);
    i :| i in Below(n) && move(i) == j;
  }

  ghost predicate Hits(move: nat -> nat, n: nat, i: nat, j: nat) { i < n && move(i) == j }

  ghost function Inverse(move: nat -> nat, n: nat): nat -> nat {
    (j: nat) => if exists i: nat :: Hits(move, n, i, j) then (var i: nat :| Hits(move, n, i, j); i) else 0
  }

  /** Every rearrangement has an inverse. */
  lemma InverseRearranges(from: seq<string>, to: seq<string>, move: nat -> nat)
    requires Rearranges(move, from, to)
    ensures Rearranges(Inverse(move, |from|), to, from)
  {
    var back := Inverse(move, |from|);
    forall j: nat | j < |to| ensures Hits(move, |from|, back(j), j) {
      var i := Preimage(move, |from|, j);
      assert Hits(move, |from|, i, j);
    }
  }

  /** Reordering the texts of either side does not change the least errors. */
  lemma OrderDoesNotMatter(errors: int, errors': int, refs: seq<string>, refs': seq<string>,
                           from: seq<string>, to: seq<string>, moveRow: nat -> nat, moveColumn: nat -> nat)
    requires Rearranges(moveRow, refs, refs') && Rearranges(moveColumn, from, to)
    requires IsLeastPairing(errors, refs, from) && IsLeastPairing(errors', refs', to)
    ensures errors == errors'
  {
    hide IsLeastPairing, Rearranges, Inverse;
    InverseRearranges(refs, refs', moveRow);
    InverseRearranges(from, to, moveColumn);
    RearrangedNotBetter(errors, errors', refs, refs', from, to, moveRow, moveColumn);
    RearrangedNotBetter(errors', errors, refs', refs, to, from, Inverse(moveRow, |refs|), Inverse(moveColumn, |from|));
  }

  lemma RearrangedLength(from: seq<string>, to: seq<string>, move: nat -> nat)
    requires Rearranges(move, from, to)
    ensures TotalLength(from) == TotalLength(to)
  {
    hide SumOver, TotalLength;
    var n := |from|;
    TotalLengthSum(from);
    TotalLengthSum(to);
    assert InjectiveOn(Below(n), move);
    ImageSize(Below(n), move);
    SubsetSameSize(Image(Below(n), move), Below(n));
    SumOverImage(Below(n), move, LengthAt(to), LengthAt(from));
  }

  ghost function RenamedTurns(turns: seq<Turn>, rename: nat -> nat): seq<Turn> {
    if turns == [] then [] else
    var n := |turns| - 1;
    RenamedTurns(turns[..n], rename) + [Turn(rename(turns[n].speaker), turns[n].content)]
  }

  ghost predicate InjectiveRename(rename: nat -> nat) {
    forall a: nat, b: nat :: rename(a) == rename(b) ==> a == b
  }

  lemma {:induction false} RenamedText(turns: seq<Turn>, rename: nat -> nat, s: nat)
    requires InjectiveRename(rename)
    ensures SpeakerText(RenamedTurns(turns, rename), rename(s)) == SpeakerText(turns, s)
  {
    if turns != [] {
      var n := |turns| - 1;
      RenamedText(turns[..n], rename, s);
      var renamed := RenamedTurns(turns, rename);
      assert renamed[..|renamed| - 1] == RenamedTurns(turns[..n], rename);
    }
  }

  lemma {:induction false} NoOtherNames(turns: seq<Turn>, rename: nat -> nat, name: nat)
    requires SpeakerText(RenamedTurns(turns, rename), name) != ""
    ensures exists s :: rename(s) == name
  {
    if turns != [] {
      var n := |turns| - 1;
      var renamed := RenamedTurns(turns, rename);
      assert renamed[..|renamed| - 1] == RenamedTurns(turns[..n], rename);
      if SpeakerText(RenamedTurns(turns[..n], rename), name) != "" {
        NoOtherNames(turns[..n], rename, name);
      } else {
        assert rename(turns[n].speaker) == name;
      }
    }
  }

  lemma RenamedEntry(entries: seq<Entry>, renamed: seq<Entry>, turns: seq<Turn>, rename: nat -> nat, i: nat) returns (j: nat)
    requires InjectiveRename(rename) && i < |entries|
    requires IsSplit(entries, turns) && IsSplit(renamed, RenamedTurns(turns, rename))
    ensures j < |renamed| && renamed[j] == Entry(rename(entries[i].speaker), entries[i].text)
  {
    hide SpeakerText, RenamedTurns, InjectiveRename;
    var e := entries[i];
    assert e in entries;
    RenamedText(turns, rename, e.speaker);
    var d :| d in renamed && d.speaker == rename(e.speaker);
    j :| 0 <= j < |renamed| && renamed[j] == d;
  }

  lemma OriginalEntry(entries: seq<Entry>, renamed: seq<Entry>, turns: seq<Turn>, rename: nat -> nat, j: nat) returns (i: nat)
    requires InjectiveRename(rename) && j < |renamed|
    requires IsSplit(entries, turns) && IsSplit(renamed, RenamedTurns(turns, rename))
    ensures i < |entries| && renamed[j].speaker == rename(entries[i].speaker)
  {
    hide SpeakerText, RenamedTurns, InjectiveRename;
    var d := renamed[j];
    assert d in renamed;
    NoOtherNames(turns, rename, d.speaker);
    var s: nat :| rename(s) == d.speaker;
    RenamedText(turns, rename, s);
    var e :| e in entries && e.speaker == s;
    i :| 0 <= i < |entries| && entries[i] == e;
  }

  lemma RenamedRearranges(entries: seq<Entry>, renamed: seq<Entry>, turns: seq<Turn>, rename: nat -> nat, n: nat)
    returns (move: nat -> nat)
    requires InjectiveRename(rename)
    requires IsSplit(entries, turns) && IsSplit(renamed, RenamedTurns(turns, rename))
    requires |entries| <= n && |renamed| <= n
    ensures |entries| == |renamed|
    ensures Rearranges(move, Padded(Texts(entries), n), Padded(Texts(renamed), n))
  {
    hide SpeakerText, RenamedTurns;
    var m := |entries|;
    move := (i: nat) =>
      if i < m && exists j: nat :: j < |renamed| && renamed[j] == Entry(rename(entries[i].speaker), entries[i].text)
      then (var j: nat :| j < |renamed| && renamed[j] == Entry(rename(entries[i].speaker), entries[i].text); j)
      else i;
    forall i: nat | i < m
      ensures move(i) < |renamed| && renamed[move(i)] == Entry(rename(entries[i].speaker), entries[i].text)
    {
      var j := RenamedEntry(entries, renamed, turns, rename, i);
    }
    SameCount(entries, renamed, turns, rename, move);
  }

  lemma SameCount(entries: seq<Entry>, renamed: seq<Entry>, turns: seq<Turn>, rename: nat -> nat, move: nat -> nat)
    requires InjectiveRename(rename)
    requires IsSplit(entries, turns) && IsSplit(renamed, RenamedTurns(turns, rename))
    requires forall i: nat :: i < |entries| ==> move(i) < |renamed|
    requires forall i: nat :: i < |entries| ==> renamed[move(i)] == Entry(rename(entries[i].speaker), entries[i].text)
    ensures |entries| == |renamed|
  {
    hide SpeakerText, RenamedTurns;
    assert InjectiveOn(Below(|entries|), move);
    ImageSize(Below(|entries|), move);
    forall j | j in Below(|renamed|) ensures j in Image(Below(|entries|), move) {
      var i := OriginalEntry(entries, renamed, turns, rename, j);
      assert renamed[move(i)].speaker == renamed[j].speaker;
      assert move(i) == j;
    }
    assert Image(Below(|entries|), move) == Below(|renamed|);
  }

  lemma SameTexts(texts: seq<string>, texts': seq<string>, t: Transcript, rename: nat -> nat, implicitSingleSpeaker: bool, n: nat)
    returns (move: nat -> nat)
    requires InjectiveRename(rename)
    requires IsTexts(texts, t, implicitSingleSpeaker)
    requires IsTexts(texts', Transcript(RenamedTurns(t.turns, rename), t.plain), implicitSingleSpeaker)
    requires |texts| <= n && |texts'| <= n
    ensures |texts| == |texts'| && Rearranges(move, Padded(texts, n), Padded(texts', n))
  {
    hide IsSplit, InjectiveRename;
    if t.turns == [] {
      move := (i: nat) => i;
    } else {
      var entries :| IsSplit(entries, t.turns) && texts == Texts(entries);
      var renamed :| IsSplit(renamed, RenamedTurns(t.turns, rename)) && texts' == Texts(renamed);
      hide Rearranges;
      move := RenamedRearranges(entries, renamed, t.turns, rename, n);
    }
  }

  lemma {:induction false} IdentityRename(turns: seq<Turn>)
    ensures RenamedTurns(turns, (s: nat) => s) == turns
  {
    if turns != [] { IdentityRename(turns[..|turns| - 1]); }
  }

  lemma SameReports(r: CpCerStats, r': CpCerStats, refs: seq<string>, refs': seq<string>, preds: seq<string>, preds': seq<string>,
                    moveRow: nat -> nat, moveColumn: nat -> nat)
    requires |refs| == |refs'| && |preds| == |preds'|
    requires var n := Max(|refs|, |preds|);
      Rearranges(moveRow, Padded(refs, n), Padded(refs', n)) && Rearranges(moveColumn, Padded(preds, n), Padded(preds', n))
    requires Reports(r, refs, preds) && Reports(r', refs', preds')
    ensures r == r' && TotalLength(preds) == TotalLength(preds')
  {
    hide Rearranges, TotalLength, IsLeastPairing, Padded;
    var n := Max(|refs|, |preds|);
    SamePaddedLength(refs, refs', n, moveRow);
    SamePaddedLength(preds, preds', n, moveColumn);
    if TotalLength(refs) != 0 {
      OrderDoesNotMatter(r.stats.errors, r'.stats.errors, Padded(refs, n), Padded(refs', n), Padded(preds, n), Padded(preds', n),
                         moveRow, moveColumn);
    }
  }

  lemma SamePaddedLength(texts: seq<string>, texts': seq<string>, n: nat, move: nat -> nat)
    requires |texts| == |texts'| <= n && Rearranges(move, Padded(texts, n), Padded(texts', n))
    ensures TotalLength(texts) == TotalLength(texts')
  {
    PaddedLength(texts, n);
    PaddedLength(texts', n);
    RearrangedLength(Padded(texts, n), Padded(texts', n), move);
  }

  /** The result depends on the two transcripts alone, not on dictionary order or on the
      optimum the solver picks; and renaming the prediction's speakers injectively does
      not change it. */
  lemma NamesDoNotMatter(r: CpCerStats, r': CpCerStats, hasTags: bool, reference: Transcript, prediction: Transcript, rename: nat -> nat)
    requires InjectiveRename(rename)
    requires IsCpCer(r, hasTags, reference, prediction)
    requires IsCpCer(r', hasTags, reference, Transcript(RenamedTurns(prediction.turns, rename), prediction.plain))
    ensures r == r'
  {
    hide IsTexts, Reports, TotalLength, Rearranges;
    var refs, preds :| IsTexts(refs, reference, false) && IsTexts(preds, prediction, true) && ReportsFor(r, hasTags, refs, preds);
    var renamed := Transcript(RenamedTurns(prediction.turns, rename), prediction.plain);
    var refs', preds' :| IsTexts(refs', reference, false) && IsTexts(preds', renamed, true) && ReportsFor(r', hasTags, refs', preds');
    IdentityRename(reference.turns);
    var n := Max(Max(|refs|, |preds|), Max(|refs'|, |preds'|));
    var moveRow := SameTexts(refs, refs', reference, (s: nat) => s, false, n);
    var moveColumn := SameTexts(preds, preds', prediction, rename, true, n);
    if hasTags {
      SameReports(r, r', refs, refs', preds, preds', moveRow, moveColumn);
    } else {
      SamePaddedLength(preds, preds', n, moveColumn);
    }
  }
}
