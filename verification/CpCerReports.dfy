/** What a cpCER report says about the two transcripts: the lengths it counts, when it is
    valid, when it is perfect, and the implicit speaker of an untagged prediction. */
module CpCerReports {
  import opened Wrappers
  import opened Sums
  import opened Assignment
  import opened Levenshtein
  import opened CharacterErrors

  // ----- what a speaker says, from the first turn on

  ghost predicate SaysInOrder(turns: seq<Turn>, more: seq<Turn>, speaker: nat) {
    SpeakerText(turns + more, speaker) == SpeakerText(turns, speaker) + SpeakerText(more, speaker)
  }

  /** One turn gives its content to its own speaker alone. */
  lemma OneTurnText(t: Turn, speaker: nat)
    ensures SpeakerText([], speaker) == "" && SpeakerText([t], speaker) == if t.speaker == speaker then t.content else ""
  {
    assert [t][..0] == [];
  }

  /** Texts are concatenated in the order of the turns. */
  lemma {:induction false} TextsConcatenate(turns: seq<Turn>, more: seq<Turn>, speaker: nat)
    ensures SaysInOrder(turns, more, speaker)
  {
    if more == [] {
      assert turns + more == turns;
    } else {
      var n := |more| - 1;
      TextsConcatenate(turns, more[..n], speaker);
      LastTurn(more, speaker);
      LastTurn(turns + more, speaker);
      assert (turns + more)[..|turns| + n] == turns + more[..n];
      hide SpeakerText;
      var said: string := if more[n].speaker == speaker then more[n].content else "";
      Joined(SpeakerText(turns, speaker), SpeakerText(more[..n], speaker), said);
    }
  }

  lemma LastTurn(turns: seq<Turn>, speaker: nat)
    requires turns != []
    ensures (var n := |turns| - 1;
      SpeakerText(turns, speaker) == SpeakerText(turns[..n], speaker) + if turns[n].speaker == speaker then turns[n].content else "")
  {
  }

  lemma Joined(a: string, b: string, c: string)
    ensures (a + b) + c == a + (b + c)
  {
  }

  // ----- lengths

  /** How many characters the turns have in all. */
  ghost function ContentLength(turns: seq<Turn>): nat {
    if turns == [] then 0 else |turns[0].content| + ContentLength(turns[1..])
  }

  /** How many characters count: all contents, or the plain text where it has a speaker. */
  ghost function CountedLength(t: Transcript, implicitSingleSpeaker: bool): nat {
    if t.turns != [] then ContentLength(t.turns) else if implicitSingleSpeaker then |t.plain| else 0
  }

  ghost function TextLength(turns: seq<Turn>): nat -> int { (s: nat) => |SpeakerText(turns, s)| }

  /** Taking the first turn away shortens one speaker's text by its content. */
  lemma FirstTurn(turns: seq<Turn>, s: nat)
    requires turns != []
    ensures (|SpeakerText(turns, s)|
      == |SpeakerText(turns[1..], s)| + if turns[0].speaker == s then |turns[0].content| else 0)
  {
    TextsConcatenate([turns[0]], turns[1..], s);
    OneTurnText(turns[0], s);
    assert [turns[0]] + turns[1..] == turns;
    hide SpeakerText;
  }

  lemma {:induction false} LengthsAddUp(turns: seq<Turn>, speakers: set<nat>)
    requires forall k :: 0 <= k < |turns| && turns[k].content != "" ==> turns[k].speaker in speakers
    ensures SumOver(speakers, TextLength(turns)) == ContentLength(turns)
    decreases |turns|
  {
    hide SpeakerText, SumOver;
    if turns == [] {
      forall s | s in speakers ensures TextLength(turns)(s) == 0 { OneTurnText(Turn(0, ""), s); }
      SumOverZero(speakers, TextLength(turns));
    } else {
      var first, rest := turns[0], turns[1..];
      LengthsAddUp(rest, speakers);
      forall s: nat ensures TextLength(turns)(s) == TextLength(rest)(s) + if first.speaker == s then |first.content| else 0 {
        FirstTurn(turns, s);
      }
      if first.speaker in speakers {
        SumOverRemove(speakers, TextLength(turns), first.speaker);
        SumOverRemove(speakers, TextLength(rest), first.speaker);
        SumOverCongruent(speakers - {first.speaker}, TextLength(turns), TextLength(rest));
      } else {
        SumOverCongruent(speakers, TextLength(turns), TextLength(rest));
      }
    }
  }

  /** A turn that says something gives its speaker a text. */
  lemma SpeakerSaysSomething(turns: seq<Turn>, k: nat)
    requires k < |turns| && turns[k].content != ""
    ensures SpeakerText(turns, turns[k].speaker) != ""
  {
    hide SpeakerText;
    var s := turns[k].speaker;
    TextsConcatenate(turns[..k], turns[k..], s);
    assert turns[..k] + turns[k..] == turns;
    FirstTurn(turns[k..], s);
    Longer(SpeakerText(turns[..k], s), SpeakerText(turns[k..], s));
  }

  lemma Longer(a: string, b: string)
    ensures |a + b| >= |b|
  {
  }

  ghost function SpeakerAt(entries: seq<Entry>): nat -> nat { (i: nat) => if i < |entries| then entries[i].speaker else 0 }

  ghost function SpeakerSet(entries: seq<Entry>): set<nat> { Image(Below(|entries|), SpeakerAt(entries)) }

  lemma SpeakersAre(entries: seq<Entry>, i: nat)
    requires i < |entries|
    ensures entries[i].speaker in SpeakerSet(entries)
  {
    assert i in Below(|entries|) && SpeakerAt(entries)(i) == entries[i].speaker;
  }

  lemma EntriesLength(entries: seq<Entry>, turns: seq<Turn>)
    requires IsSplit(entries, turns)
    ensures TotalLength(Texts(entries)) == SumOver(SpeakerSet(entries), TextLength(turns))
  {
    hide SpeakerText, SumOver, TotalLength;
    TotalLengthSum(Texts(entries));
    forall i: nat | i < |entries| ensures TextLength(turns)(entries[i].speaker) == |Texts(entries)[i]| {
      assert entries[i] in entries;
    }
    assert InjectiveOn(Below(|entries|), SpeakerAt(entries));
    SumOverImage(Below(|entries|), SpeakerAt(entries), TextLength(turns), LengthAt(Texts(entries)));
  }

  lemma SplitLength(entries: seq<Entry>, turns: seq<Turn>)
    requires IsSplit(entries, turns)
    ensures TotalLength(Texts(entries)) == ContentLength(turns)
  {
    EntriesLength(entries, turns);
    forall k | 0 <= k < |turns| && turns[k].content != "" ensures turns[k].speaker in SpeakerSet(entries) {
      var i := EntryOfTurn(entries, turns, k);
      SpeakersAre(entries, i);
    }
    hide *;
    LengthsAddUp(turns, SpeakerSet(entries));
  }

  lemma EntryOfTurn(entries: seq<Entry>, turns: seq<Turn>, k: nat) returns (i: nat)
    requires IsSplit(entries, turns) && k < |turns| && turns[k].content != ""
    ensures i < |entries| && entries[i].speaker == turns[k].speaker
  {
    hide SpeakerText;
    SpeakerSaysSomething(turns, k);
    var e :| e in entries && e.speaker == turns[k].speaker;
    i :| 0 <= i < |entries| && entries[i] == e;
  }

  lemma TextsLength(texts: seq<string>, t: Transcript, implicitSingleSpeaker: bool)
    requires IsTexts(texts, t, implicitSingleSpeaker)
    ensures TotalLength(texts) == CountedLength(t, implicitSingleSpeaker)
  {
    if t.turns != [] {
      var entries :| IsSplit(entries, t.turns) && texts == Texts(entries);
      SplitLength(entries, t.turns);
    } else {
      assert [t.plain][..0] == [];
    }
  }

  /** A report counts every character of the prediction, in the error reports too, and of a
      tagged reference; it is valid exactly when the reference is tagged and says something. */
  lemma ReportedLengths(r: CpCerStats, hasTags: bool, reference: Transcript, prediction: Transcript)
    requires IsCpCer(r, hasTags, reference, prediction)
    ensures r.Valid? <==> hasTags && CountedLength(reference, false) > 0
    ensures r.Valid? ==> r.stats.refChars == CountedLength(reference, false)
    ensures (if r.Valid? then r.stats.predChars else r.predChars) == CountedLength(prediction, true)
    ensures r.Invalid? ==> r.reason == if hasTags then EmptyRefAfterClean else NoRefSpeakerTags
  {
    hide IsTexts, TotalLength, IsLeastPairing, Padded, CountedLength;
    var refs, preds :| IsTexts(refs, reference, false) && IsTexts(preds, prediction, true) && ReportsFor(r, hasTags, refs, preds);
    TextsLength(refs, reference, false);
    TextsLength(preds, prediction, true);
  }

  // ----- the implicit speaker

  lemma OneTurn(entries: seq<Entry>, s: nat, p: string)
    requires p != "" && IsSplit(entries, [Turn(s, p)])
    ensures entries == [Entry(s, p)]
  {
    forall x: nat ensures SpeakerText([Turn(s, p)], x) == if x == s then p else "" {
      OneTurnText(Turn(s, p), x);
    }
    hide SpeakerText;
    assert SpeakerText([Turn(s, p)], s) != "";
    var e :| e in entries && e.speaker == s;
    assert forall i :: 0 <= i < |entries| ==> entries[i] in entries && entries[i] == Entry(s, p);
    assert |entries| > 1 ==> entries[0].speaker == entries[1].speaker;
  }

  /** A prediction without tags is scored as one speaker who says all of it. */
  lemma UntaggedIsOneSpeaker(r: CpCerStats, r': CpCerStats, hasTags: bool, reference: Transcript, p: string, s: nat, q: string)
    requires p != ""
    requires IsCpCer(r, hasTags, reference, Transcript([], p))
    requires IsCpCer(r', hasTags, reference, Transcript([Turn(s, p)], q))
    ensures r == r'
  {
    hide Reports, TotalLength, Rearranges;
    var plain, tagged := Transcript([], p), Transcript([Turn(s, p)], q);
    var refs, preds :| IsTexts(refs, reference, false) && IsTexts(preds, plain, true) && ReportsFor(r, hasTags, refs, preds);
    var refs', preds' :|
      IsTexts(refs', reference, false) && IsTexts(preds', tagged, true) && ReportsFor(r', hasTags, refs', preds');
    var entries :| IsSplit(entries, tagged.turns) && preds' == Texts(entries);
    OneTurn(entries, s, p);
    assert preds == [p] == preds';
    hide IsTexts, IsSplit, Texts, Padded;
    SameReference(r, r', hasTags, reference, refs, refs', preds);
  }

  /** The report does not depend on the order the reference's speakers come in. */
  lemma SameReference(r: CpCerStats, r': CpCerStats, hasTags: bool, reference: Transcript, refs: seq<string>, refs': seq<string>,
                      preds: seq<string>)
    requires IsTexts(refs, reference, false) && IsTexts(refs', reference, false)
    requires ReportsFor(r, hasTags, refs, preds) && ReportsFor(r', hasTags, refs', preds)
    ensures r == r'
  {
    hide IsTexts, Reports, TotalLength, Rearranges;
    IdentityRename(reference.turns);
    assert reference == Transcript(RenamedTurns(reference.turns, (s: nat) => s), reference.plain);
    var n := Max(Max(|refs|, |refs'|), |preds|);
    var moveRow := SameTexts(refs, refs', reference, (s: nat) => s, false, n);
    Itself(Padded(preds, n));
    if hasTags { SameReports(r, r', refs, refs', preds, preds, moveRow, (i: nat) => i); }
  }

  lemma Itself(texts: seq<string>)
    ensures Rearranges((i: nat) => i, texts, texts)
  {
  }

  // ----- perfect predictions

  lemma ZeroPairs(p: Pairs, refs: seq<string>, preds: seq<string>)
    requires |refs| == |preds| && IsAssignment(p, |refs|, |preds|) && PairingErrors(refs, preds, p) == 0
    ensures forall x :: x in p ==> refs[x.row] == preds[x.column]
  {
    hide Distance, SumOver;
    forall x | x in p ensures PairErrors(refs, preds)(x) >= 0 { LengthBounds(refs[x.row], preds[x.column]); }
    SumOverZeroTerms(p, PairErrors(refs, preds));
    forall x | x in p ensures refs[x.row] == preds[x.column] {
      assert PairErrors(refs, preds)(x) == 0;
      ZeroIffEqual(refs[x.row], preds[x.column]);
    }
  }

  ghost predicate IsRow(p: Pairs, x: Pair, i: nat) { x in p && x.row == i }

  lemma RowIsUsed(p: Pairs, n: nat, i: nat) returns (x: Pair)
    requires IsAssignment(p, n, n) && i < n
    ensures IsRow(p, x, i)
  {
    var row: Pair -> nat := (x: Pair) => x.row;
    ImageSize(p, row);
    SubsetSameSize(Image(p, row), Below(n));
    assert i in Image(p, row);
    x :| x in p && row(x) == i;
  }

  lemma ZeroPairing(p: Pairs, refs: seq<string>, preds: seq<string>) returns (move: nat -> nat)
    requires |refs| == |preds| && IsAssignment(p, |refs|, |preds|) && PairingErrors(refs, preds, p) == 0
    ensures Rearranges(move, refs, preds)
  {
    ZeroPairs(p, refs, preds);
    hide PairingErrors, Distance;
    move := (i: nat) => if exists x :: IsRow(p, x, i) then (var x :| IsRow(p, x, i); x.column) else i;
    forall i: nat | i < |refs| ensures IsRow(p, Pair(i, move(i)), i) { var x := RowIsUsed(p, |refs|, i); }
  }

  ghost function PairOf(move: nat -> nat): nat -> Pair { (i: nat) => Pair(i, move(i)) }

  lemma PairsAssign(move: nat -> nat, refs: seq<string>, preds: seq<string>)
    requires Rearranges(move, refs, preds)
    ensures IsAssignment(Image(Below(|refs|), PairOf(move)), |refs|, |preds|)
  {
    var p := Image(Below(|refs|), PairOf(move));
    forall x | x in p ensures x.row < |refs| && x.column == move(x.row) < |preds| {
      var i :| i in Below(|refs|) && x == PairOf(move)(i);
    }
    PairsAreDistinct(move, |refs|);
    forall x, y | x in p && y in p && (x.row == y.row || x.column == y.column) ensures x == y {
      assert move(x.row) == x.column && move(y.row) == y.column;
    }
    hide Image;
  }

  lemma PairsAreDistinct(move: nat -> nat, n: nat)
    ensures |Image(Below(n), PairOf(move))| == n
  {
    assert InjectiveOn(Below(n), PairOf(move));
    ImageSize(Below(n), PairOf(move));
  }

  lemma PairingOf(move: nat -> nat, refs: seq<string>, preds: seq<string>) returns (p: Pairs)
    requires Rearranges(move, refs, preds)
    ensures IsAssignment(p, |refs|, |preds|) && PairingErrors(refs, preds, p) == 0
  {
    hide Distance, SumOver, IsAssignment;
    PairsAssign(move, refs, preds);
    p := Image(Below(|refs|), PairOf(move));
    forall x | x in p ensures PairErrors(refs, preds)(x) == 0 { ZeroIffEqual(refs[x.row], preds[x.column]); }
    SumOverZero(p, PairErrors(refs, preds));
  }

  /** There are no errors exactly when the prediction's texts are the reference's, rearranged. */
  lemma PerfectIff(errors: int, refs: seq<string>, preds: seq<string>)
    requires |refs| == |preds| && IsLeastPairing(errors, refs, preds)
    ensures errors == 0 <==> exists move :: Rearranges(move, refs, preds)
  {
    hide PairingErrors, IsAssignment, Rearranges;
    if errors == 0 {
      var p :| IsAssignment(p, |refs|, |preds|) && PairingErrors(refs, preds, p) == errors;
      var move := ZeroPairing(p, refs, preds);
    }
    if move :| Rearranges(move, refs, preds) {
      var p := PairingOf(move, refs, preds);
      ErrorsBoundLengths(errors, refs, preds);
    }
  }

  lemma RateTimesLength(s: CharStats)
    ensures s.Rate().Some? <==> s.refChars > 0
    ensures s.refChars > 0 ==> s.Rate().value * s.refChars as real == s.errors as real
  {
  }

  /** The reported rate is the errors for each reference character, and every valid report
      has one. */
  lemma RateIsErrorsPerCharacter(r: CpCerStats, hasTags: bool, reference: Transcript, prediction: Transcript)
    requires IsCpCer(r, hasTags, reference, prediction) && r.Valid?
    ensures r.stats.Rate().Some? && r.stats.Rate().value * CountedLength(reference, false) as real == r.stats.errors as real
  {
    hide IsCpCer, CountedLength;
    ReportedLengths(r, hasTags, reference, prediction);
    RateTimesLength(r.stats);
  }
}
