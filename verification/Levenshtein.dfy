/** The two-row edit-distance loop, and why its result is the length of a shortest
    edit script and a metric. */
module Levenshtein {
  import opened Wrappers

  // ----- edit scripts

  /** One edit at a position of the current string. */
  datatype Edit = Insert(at: nat, c: char) | Delete(at: nat) | Substitute(at: nat, c: char)

  /** The string after one edit, if the position exists. */
  function ApplyEdit(a: string, e: Edit): Option<string> {
    match e
    case Insert(i, c) => if i <= |a| then Some(a[..i] + [c] + a[i..]) else None
    case Delete(i) => if i < |a| then Some(a[..i] + a[i + 1..]) else None
    case Substitute(i, c) => if i < |a| then Some(a[..i] + [c] + a[i + 1..]) else None
  }

  /** The edits, applied one after the other, turn a into b. */
  ghost predicate Rewrites(edits: seq<Edit>, a: string, b: string) {
    if edits == [] then a == b else
    var next := ApplyEdit(a, edits[0]);
    next.Some? && Rewrites(edits[1..], next.value, b)
  }

  // ----- the recurrence and the loop

  /** The recurrence the table satisfies, on the last characters. */
  function Distance(a: string, b: string): nat {
    if a == "" then |b| else if b == "" then |a| else
    var a', b' := a[..|a| - 1], b[..|b| - 1];
    Min(Min(Distance(a', b) + 1, Distance(a, b') + 1),
        Distance(a', b') + if a[|a| - 1] == b[|b| - 1] then 0 else 1)
  }

  /** The row of the table for one prefix of the reference. */
  ghost predicate IsRow(row: seq<nat>, a: string, b: string, length: nat)
    requires length <= |b| + 1
  {
    |row| == length && forall j :: 0 <= j < length ==> row[j] == Distance(a, b[..j])
  }

  lemma NextCell(a: string, b: string, i: nat, j: nat)
    requires i < |a| && j < |b|
    ensures Distance(a[..i + 1], b[..j + 1])
      == Min(Min(Distance(a[..i], b[..j + 1]) + 1, Distance(a[..i + 1], b[..j]) + 1),
             Distance(a[..i], b[..j]) + if a[i] == b[j] then 0 else 1)
  {
    assert a[..i + 1][..i] == a[..i];
    assert b[..j + 1][..j] == b[..j];
  }

  lemma EmptySide(a: string)
    ensures Distance("", a) == |a| && Distance(a, "") == |a|
  {
  }

  method LevenshteinDistance(reference: string, prediction: string) returns (d: nat)
    ensures d == Distance(reference, prediction)
  {
    hide Distance;
    var previousRow: seq<nat> := seq(|prediction| + 1, j => j);
    forall j | 0 <= j <= |prediction| ensures j == Distance("", prediction[..j]) {
      EmptySide(prediction[..j]);
    }
    for i := 0 to |reference|
      invariant IsRow(previousRow, reference[..i], prediction, |prediction| + 1)
    {
      var currentRow: seq<nat> := [i + 1];
      EmptySide(reference[..i + 1]);
      for j := 0 to |prediction|
        invariant IsRow(currentRow, reference[..i + 1], prediction, j + 1)
      {
        var substitutionCost := if reference[i] == prediction[j] then 0 else 1;
        NextCell(reference, prediction, i, j);
        currentRow := currentRow + [Min(Min(previousRow[j + 1] + 1, currentRow[j] + 1),
                                        previousRow[j] + substitutionCost)];
      }
      previousRow := currentRow;
    }
    assert reference[..|reference|] == reference && prediction[..|prediction|] == prediction;
    d := previousRow[|prediction|];
  }

  // ----- alignments

  /** A path through the table, last column first. */
  datatype Alignment =
    | Done
    | Keep(init: Alignment, c: char)
    | Change(init: Alignment, c: char, d: char)
    | Add(init: Alignment, d: char)
    | Drop(init: Alignment, c: char)
  {
    ghost function Source(): string {
      match this
      case Done => ""
      case Keep(p, c) => p.Source() + [c]
      case Change(p, c, _) => p.Source() + [c]
      case Add(p, _) => p.Source()
      case Drop(p, c) => p.Source() + [c]
    }

    ghost function Target(): string {
      match this
      case Done => ""
      case Keep(p, c) => p.Target() + [c]
      case Change(p, _, d) => p.Target() + [d]
      case Add(p, d) => p.Target() + [d]
      case Drop(p, _) => p.Target()
    }

    ghost function Cost(): nat {
      match this
      case Done => 0
      case Keep(p, _) => p.Cost()
      case Change(p, _, _) => p.Cost() + 1
      case Add(p, _) => p.Cost() + 1
      case Drop(p, _) => p.Cost() + 1
    }
  }

  ghost predicate Aligns(s: Alignment, a: string, b: string) { s.Source() == a && s.Target() == b }

  lemma Snoc(p: string, c: char, a: string)
    requires p + [c] == a
    ensures |a| > 0 && a[..|a| - 1] == p && a[|a| - 1] == c
  {
  }

  /** No alignment is cheaper than the distance. */
  lemma {:induction false} DistanceIsLower(s: Alignment)
    ensures Distance(s.Source(), s.Target()) <= s.Cost()
  {
    match s
    case Done =>
    case Keep(p, c) =>
      DistanceIsLower(p);
      LastPair(p.Source(), p.Target(), c, c);
    case Change(p, c, d) =>
      DistanceIsLower(p);
      LastPair(p.Source(), p.Target(), c, d);
    case Add(p, d) =>
      DistanceIsLower(p);
      LastAdded(p.Source(), p.Target(), d);
    case Drop(p, c) =>
      DistanceIsLower(p);
      LastDropped(p.Source(), p.Target(), c);
  }

  lemma LastPair(a: string, b: string, c: char, d: char)
    ensures Distance(a + [c], b + [d]) <= Distance(a, b) + if c == d then 0 else 1
  {
    Snoc(a, c, a + [c]);
    Snoc(b, d, b + [d]);
  }

  lemma LastAdded(a: string, b: string, d: char)
    ensures Distance(a, b + [d]) <= Distance(a, b) + 1
  {
    Snoc(b, d, b + [d]);
  }

  lemma LastDropped(a: string, b: string, c: char)
    ensures Distance(a + [c], b) <= Distance(a, b) + 1
  {
    Snoc(a, c, a + [c]);
  }

  lemma LastColumn(a: string, b: string)
    requires a != "" && b != ""
    ensures var a', b' := a[..|a| - 1], b[..|b| - 1];
      || Distance(a, b) == Distance(a', b) + 1
      || Distance(a, b) == Distance(a, b') + 1
      || Distance(a, b) == Distance(a', b') + if a[|a| - 1] == b[|b| - 1] then 0 else 1
  {
  }

  lemma EmptyColumn(a: string)
    requires a != ""
    ensures Distance("", a) == Distance("", a[..|a| - 1]) + 1
    ensures Distance(a, "") == Distance(a[..|a| - 1], "") + 1
  {
  }

  /** Some alignment costs exactly the distance. */
  lemma {:induction false} BestAlignment(a: string, b: string) returns (s: Alignment)
    ensures Aligns(s, a, b) && s.Cost() == Distance(a, b)
    decreases |a| + |b|
  {
    hide Distance;
    if a == "" && b == "" {
      EmptySide(a);
      return Done;
    }
    var a', b' := if a == "" then a else a[..|a| - 1], if b == "" then b else b[..|b| - 1];
    if a == "" {
      EmptyColumn(b);
      var p := BestAlignment(a, b');
      s := Add(p, b[|b| - 1]);
    } else if b == "" {
      EmptyColumn(a);
      var p := BestAlignment(a', b);
      s := Drop(p, a[|a| - 1]);
    } else {
      LastColumn(a, b);
      var c, d := a[|a| - 1], b[|b| - 1];
      if Distance(a, b) == Distance(a', b) + 1 {
        var p := BestAlignment(a', b);
        s := Drop(p, c);
      } else if Distance(a, b) == Distance(a, b') + 1 {
        var p := BestAlignment(a, b');
        s := Add(p, d);
      } else {
        var p := BestAlignment(a', b');
        s := if c == d then Keep(p, c) else Change(p, c, d);
      }
    }
  }

  // ----- the metric laws

  ghost function Reversed(s: Alignment): Alignment {
    match s
    case Done => Done
    case Keep(p, c) => Keep(Reversed(p), c)
    case Change(p, c, d) => Change(Reversed(p), d, c)
    case Add(p, d) => Drop(Reversed(p), d)
    case Drop(p, c) => Add(Reversed(p), c)
  }

  lemma {:induction false} ReversedAligns(s: Alignment)
    ensures Aligns(Reversed(s), s.Target(), s.Source()) && Reversed(s).Cost() == s.Cost()
  {
    if s != Done { ReversedAligns(s.init); }
  }

  /** Reading an alignment from the other side costs the same. */
  lemma {:induction false} Symmetry(a: string, b: string)
    ensures Distance(a, b) == Distance(b, a)
  {
    var s := BestAlignment(a, b);
    var t := BestAlignment(b, a);
    ReversedAligns(s);
    ReversedAligns(t);
    DistanceIsLower(Reversed(s));
    DistanceIsLower(Reversed(t));
  }

  /** An alignment from a to b, then one from b to c, merged into one from a to c. */
  lemma {:induction false} Compose(s: Alignment, t: Alignment) returns (u: Alignment)
    requires s.Target() == t.Source()
    ensures Aligns(u, s.Source(), t.Target()) && u.Cost() <= s.Cost() + t.Cost()
    decreases s, t
  {
    if t.Add? {
      var p := Compose(s, t.init);
      u := Add(p, t.d);
    } else if s.Drop? {
      var p := Compose(s.init, t);
      u := Drop(p, s.c);
    } else if s.Done? {
      u := Done;
    } else if t.Done? {
      assert false;
    } else {
      SameLast(s, t);
      var p := Compose(s.init, t.init);
      if s.Add? {
        u := if t.Drop? then p else Add(p, t.Target()[|t.Target()| - 1]);
      } else if t.Drop? {
        u := Drop(p, s.c);
      } else if s.Keep? && t.Keep? {
        u := Keep(p, s.c);
      } else {
        u := Change(p, s.c, t.Target()[|t.Target()| - 1]);
      }
    }
  }

  lemma SameLast(s: Alignment, t: Alignment)
    requires s.Target() == t.Source()
    requires !s.Done? && !s.Drop? && !t.Done? && !t.Add?
    ensures s.init.Target() == t.init.Source()
    ensures s.Keep? ==> s.c == t.c
    ensures s.Change? || s.Add? ==> s.d == t.c
  {
    Snoc(t.init.Source(), t.c, t.Source());
    Snoc(s.init.Target(), if s.Keep? then s.c else s.d, s.Target());
  }

  /** Going through a third string is never cheaper. */
  lemma {:induction false} TriangleInequality(a: string, b: string, c: string)
    ensures Distance(a, c) <= Distance(a, b) + Distance(b, c)
  {
    var s := BestAlignment(a, b);
    var t := BestAlignment(b, c);
    var u := Compose(s, t);
    DistanceIsLower(u);
  }

  lemma {:induction false} FreeAlignment(s: Alignment)
    requires s.Cost() == 0
    ensures s.Source() == s.Target()
  {
    if s != Done { FreeAlignment(s.init); }
  }

  lemma {:induction false} Reflexive(a: string)
    ensures Distance(a, a) == 0
  {
    if a != "" { Reflexive(a[..|a| - 1]); }
  }

  /** Only equal strings need no edit. */
  lemma {:induction false} ZeroIffEqual(a: string, b: string)
    ensures Distance(a, b) == 0 <==> a == b
  {
    Reflexive(a);
    var s := BestAlignment(a, b);
    if Distance(a, b) == 0 { FreeAlignment(s); }
  }

  lemma {:induction false} AlignmentLengths(s: Alignment)
    ensures |s.Source()| - |s.Target()| <= s.Cost() && |s.Target()| - |s.Source()| <= s.Cost()
  {
    if s != Done { AlignmentLengths(s.init); }
  }

  /** The distance lies between the length difference and the longer length. */
  lemma {:induction false} LengthBounds(a: string, b: string)
    ensures |a| - |b| <= Distance(a, b) && |b| - |a| <= Distance(a, b)
    ensures Distance(a, b) <= Max(|a|, |b|)
  {
    var s := BestAlignment(a, b);
    AlignmentLengths(s);
    UpperBound(a, b);
  }

  lemma {:induction false} UpperBound(a: string, b: string)
    ensures Distance(a, b) <= Max(|a|, |b|)
  {
    if a != "" && b != "" { UpperBound(a[..|a| - 1], b[..|b| - 1]); }
  }

  // ----- alignments and edit scripts

  lemma {:induction false} CommonSuffix(a: string, b: string, s: string)
    ensures Distance(a + s, b + s) <= Distance(a, b)
    decreases |s|
  {
    hide Distance;
    if s == "" {
      assert a + s == a && b + s == b;
    } else {
      var s', c := s[..|s| - 1], s[|s| - 1];
      CommonSuffix(a, b, s');
      LastPair(a + s', b + s', c, c);
      assert a + s == (a + s') + [c] && b + s == (b + s') + [c];
    }
  }

  /** One edit changes the distance by at most one. */
  lemma OneEdit(a: string, e: Edit)
    requires ApplyEdit(a, e).Some?
    ensures Distance(a, ApplyEdit(a, e).value) <= 1
  {
    var before, after := a[..e.at], if e.Insert? then a[e.at..] else a[e.at + 1..];
    Reflexive(before);
    if e.Insert? {
      assert a == before + after;
      LastAdded(before, before, e.c);
      CommonSuffix(before, before + [e.c], after);
    } else if e.Delete? {
      assert a == before + [a[e.at]] + after;
      LastDropped(before, before, a[e.at]);
      CommonSuffix(before + [a[e.at]], before, after);
    } else {
      assert a == before + [a[e.at]] + after;
      LastPair(before, before, a[e.at], e.c);
      CommonSuffix(before + [a[e.at]], before + [e.c], after);
    }
  }

  /** No script of single edits, at any positions in any order, is shorter than the distance. */
  lemma {:induction false} ScriptsAreLonger(edits: seq<Edit>, a: string, b: string)
    requires Rewrites(edits, a, b)
    ensures Distance(a, b) <= |edits|
  {
    if edits == [] {
      Reflexive(a);
    } else {
      var next := ApplyEdit(a, edits[0]).value;
      OneEdit(a, edits[0]);
      ScriptsAreLonger(edits[1..], next, b);
      TriangleInequality(a, next, b);
    }
  }

  lemma {:induction false} ThenEdit(edits: seq<Edit>, a: string, b: string, e: Edit, c: string)
    requires Rewrites(edits, a, b) && ApplyEdit(b, e) == Some(c)
    ensures Rewrites(edits + [e], a, c)
  {
    if edits == [] {
      assert edits + [e] == [e];
    } else {
      ThenEdit(edits[1..], ApplyEdit(a, edits[0]).value, b, e, c);
      assert (edits + [e])[1..] == edits[1..] + [e];
    }
  }

  /** A script for the front works unchanged when a common end is attached. */
  lemma {:induction false} WithSuffix(edits: seq<Edit>, a: string, b: string, c: char)
    requires Rewrites(edits, a, b)
    ensures Rewrites(edits, a + [c], b + [c])
  {
    if edits != [] {
      var e := edits[0];
      var next := ApplyEdit(a, e).value;
      WithSuffix(edits[1..], next, b, c);
      EditWithSuffix(a, e, c);
    }
  }

  lemma EditWithSuffix(a: string, e: Edit, c: char)
    requires ApplyEdit(a, e).Some?
    ensures ApplyEdit(a + [c], e) == Some(ApplyEdit(a, e).value + [c])
  {
    var i := e.at;
    assert ApplyEdit(a + [c], e).value == ApplyEdit(a, e).value + [c];
  }

  lemma LastEdits(p: string, c: char, d: char)
    ensures ApplyEdit(p + [c], Substitute(|p|, d)) == Some(p + [d])
    ensures ApplyEdit(p, Insert(|p|, d)) == Some(p + [d])
    ensures ApplyEdit(p + [c], Delete(|p|)) == Some(p)
  {
    assert ApplyEdit(p + [c], Substitute(|p|, d)).value == p + [d];
    assert ApplyEdit(p, Insert(|p|, d)).value == p + [d];
    assert ApplyEdit(p + [c], Delete(|p|)).value == p;
  }

  /** An alignment read as a script: every paid column becomes one edit. */
  lemma {:induction false} AlignmentScript(s: Alignment) returns (edits: seq<Edit>)
    ensures |edits| == s.Cost() && Rewrites(edits, s.Source(), s.Target())
  {
    match s
    case Done =>
      edits := [];
    case Keep(p, c) =>
      edits := AlignmentScript(p);
      WithSuffix(edits, p.Source(), p.Target(), c);
    case Change(p, c, d) =>
      var rest := AlignmentScript(p);
      WithSuffix(rest, p.Source(), p.Target(), c);
      var e := Substitute(|p.Target()|, d);
      LastEdits(p.Target(), c, d);
      ThenEdit(rest, p.Source() + [c], p.Target() + [c], e, p.Target() + [d]);
      edits := rest + [e];
    case Add(p, d) =>
      var rest := AlignmentScript(p);
      var e := Insert(|p.Target()|, d);
      LastEdits(p.Target(), d, d);
      ThenEdit(rest, p.Source(), p.Target(), e, p.Target() + [d]);
      edits := rest + [e];
    case Drop(p, c) =>
      var rest := AlignmentScript(p);
      WithSuffix(rest, p.Source(), p.Target(), c);
      var e := Delete(|p.Target()|);
      LastEdits(p.Target(), c, c);
      ThenEdit(rest, p.Source() + [c], p.Target() + [c], e, p.Target());
      edits := rest + [e];
  }

  /** The distance is the length of a shortest edit script. */
  lemma DistanceIsShortestScript(a: string, b: string)
    ensures exists edits :: Rewrites(edits, a, b) && |edits| == Distance(a, b)
    ensures forall edits :: Rewrites(edits, a, b) ==> |edits| >= Distance(a, b)
  {
    var s := BestAlignment(a, b);
    var script := AlignmentScript(s);
    forall edits | Rewrites(edits, a, b) ensures |edits| >= Distance(a, b) {
      ScriptsAreLonger(edits, a, b);
    }
  }
}
