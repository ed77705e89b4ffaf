/** The selector: eligible candidates, and fairness of its two deterministic policies. */
module WorkerSelection {
  import opened Wrappers
  import opened RouterWorker

  /** What selection reads of a worker. */
  datatype Snapshot = Snapshot(routable: bool, model: Option<string>, capabilities: set<Capability>, active: nat)

  function SnapshotOf(w: Worker): Snapshot
    reads w
  {
    Snapshot(w.IsRoutable(), w.config.model, w.config.capabilities, w.activeRequests)
  }

  function SnapshotsOf(workers: seq<Worker>): (s: seq<Snapshot>)
    reads workers
    ensures |s| == |workers|
    ensures forall i :: 0 <= i < |s| ==> s[i] == SnapshotOf(workers[i])
  {
    if workers == [] then [] else SnapshotsOf(workers[..|workers| - 1]) + [SnapshotOf(workers[|workers| - 1])]
  }

  predicate Supports(w: Snapshot, required: set<Capability>) { w.routable && required <= w.capabilities }

  /** The positions below n that satisfy a condition, in order. */
  function Positions(n: nat, p: nat -> bool): (r: seq<nat>)
    ensures forall i: nat :: i in r <==> i < n && p(i)
    ensures forall a, b :: 0 <= a < b < |r| ==> r[a] < r[b]
  {
    if n == 0 then [] else
    var r := Positions(n - 1, p);
    assert forall a :: 0 <= a < |r| ==> r[a] in r;
    if p(n - 1) then r + [n - 1] else r
  }

  function Supporting(ws: seq<Snapshot>, required: set<Capability>): seq<nat> {
    Positions(|ws|, (i: nat) => i < |ws| && Supports(ws[i], required))
  }

  predicate AnyModel(ws: seq<Snapshot>, positions: seq<nat>) {
    exists i :: i in positions && i < |ws| && ws[i].model.Some?
  }

  /** Routable workers with the required capabilities; of these only those with the
      requested model, if one is requested and any of them names a model. */
  function Candidates(ws: seq<Snapshot>, required: set<Capability>, model: Option<string>): seq<nat> {
    var supporting := Supporting(ws, required);
    if model.Some? && AnyModel(ws, supporting) then
      Positions(|ws|, (i: nat) => i in supporting && i < |ws| && ws[i].model == model)
    else
      supporting
  }

  /** Position i is a candidate. */
  ghost predicate IsCandidate(ws: seq<Snapshot>, required: set<Capability>, model: Option<string>, i: nat) {
    && i < |ws| && Supports(ws[i], required)
    && (model.Some? && (exists k :: 0 <= k < |ws| && Supports(ws[k], required) && ws[k].model.Some?) ==> ws[i].model == model)
  }

  lemma CandidatesAre(ws: seq<Snapshot>, required: set<Capability>, model: Option<string>)
    ensures forall i: nat :: i in Candidates(ws, required, model) <==> IsCandidate(ws, required, model, i)
  {
    var supporting := Supporting(ws, required);
    assert AnyModel(ws, supporting) <==> exists k :: 0 <= k < |ws| && Supports(ws[k], required) && ws[k].model.Some? by {
      if exists k :: 0 <= k < |ws| && Supports(ws[k], required) && ws[k].model.Some? {
        var k :| 0 <= k < |ws| && Supports(ws[k], required) && ws[k].model.Some?;
        assert (k as nat) in supporting;
      }
    }
  }

  // ----- eligibility, on the worker objects

  /** The worker is healthy, not disabled, and has the capabilities. */
  ghost predicate IsAble(w: Worker, required: set<Capability>)
    reads w
  {
    w.state.Healthy? && !w.disabled && required <= w.config.capabilities
  }

  /** The worker is able; and where a model is requested it names that one, unless no able
      worker names any. */
  ghost predicate IsEligible(workers: seq<Worker>, required: set<Capability>, model: Option<string>, w: Worker)
    reads w, workers
  {
    && w in workers && IsAble(w, required)
    && (model.None? || w.config.model == model || forall v :: v in workers && IsAble(v, required) ==> v.config.model.None?)
  }

  lemma SnapshotAgrees(workers: seq<Worker>, required: set<Capability>, i: nat)
    requires i < |workers|
    ensures Supports(SnapshotsOf(workers)[i], required) <==> IsAble(workers[i], required)
    ensures SnapshotsOf(workers)[i].model == workers[i].config.model && workers[i] in workers
  {
  }

  /** The positions selection considers are those of the eligible workers. */
  lemma EligibleIff(workers: seq<Worker>, required: set<Capability>, model: Option<string>)
    ensures forall i: nat ::
      IsCandidate(SnapshotsOf(workers), required, model, i) <==> i < |workers| && IsEligible(workers, required, model, workers[i])
  {
    hide IsAble, Supports, SnapshotsOf;
    var ws := SnapshotsOf(workers);
    assert |ws| == |workers|;
    forall i: nat | i < |workers|
      ensures Supports(ws[i], required) <==> IsAble(workers[i], required)
      ensures ws[i].model == workers[i].config.model && workers[i] in workers
    {
      SnapshotAgrees(workers, required, i);
    }
    SameModelRule(ws, workers, required);
    forall i: nat
      ensures IsCandidate(ws, required, model, i) <==> i < |workers| && IsEligible(workers, required, model, workers[i])
    {
    }
  }

  lemma SameModelRule(ws: seq<Snapshot>, workers: seq<Worker>, required: set<Capability>)
    requires |ws| == |workers|
    requires forall i: nat :: i < |workers| ==> (Supports(ws[i], required) <==> IsAble(workers[i], required))
    requires forall i: nat :: i < |workers| ==> ws[i].model == workers[i].config.model && workers[i] in workers
    ensures ((exists k :: 0 <= k < |ws| && Supports(ws[k], required) && ws[k].model.Some?)
      <==> !forall v :: v in workers && IsAble(v, required) ==> v.config.model.None?)
  {
    hide IsAble, Supports;
  }

  lemma EligibleIsThere(workers: seq<Worker>, required: set<Capability>, model: Option<string>, w: Worker)
    requires IsEligible(workers, required, model, w)
    ensures exists i: nat :: i < |workers| && workers[i] == w
  {
    var i :| 0 <= i < |workers| && workers[i] == w;
  }

  function MinActive(ws: seq<Snapshot>, candidates: seq<nat>): (m: nat)
    requires candidates != [] && forall i: nat :: i in candidates ==> i < |ws|
    ensures forall i: nat :: i in candidates ==> m <= ws[i].active
    ensures exists i: nat :: i in candidates && ws[i].active == m
  {
    var i := candidates[0];
    assert i in candidates;
    if |candidates| == 1 then
      assert candidates == [i];
      ws[i].active
    else
      assert forall k: nat :: k in candidates[1..] ==> k in candidates;
      assert forall k: nat :: k in candidates ==> k == i || k in candidates[1..];
      var rest := MinActive(ws, candidates[1..]);
      Min(ws[i].active, rest)
  }

  function LeastLoaded(ws: seq<Snapshot>, candidates: seq<nat>): (r: seq<nat>)
    requires candidates != [] && forall i: nat :: i in candidates ==> i < |ws|
    ensures r != []
    ensures forall i: nat :: i in r <==> i in candidates && forall k: nat :: k in candidates ==> ws[i].active <= ws[k].active
  {
    var m := MinActive(ws, candidates);
    var r := Positions(|ws|, (i: nat) => i in candidates && i < |ws| && ws[i].active == m);
    assert exists i: nat :: i in candidates && ws[i].active == m && i in r;
    r
  }

  datatype Policy = RoundRobin | LeastRequest

  /** The list a policy rotates through. */
  function Pool(policy: Policy, ws: seq<Snapshot>, required: set<Capability>, model: Option<string>): seq<nat> {
    var candidates := Candidates(ws, required, model);
    if candidates == [] || policy.RoundRobin? then candidates
    else CandidatesInRange(ws, required, model); LeastLoaded(ws, candidates)
  }

  class WorkerSelector {
    const policy: Policy
    var rrIndex: nat

    constructor (policy: Policy)
      ensures this.policy == policy && rrIndex == 0
    {
      this.policy := policy;
      rrIndex := 0;
    }

    /** `None` is the error that no worker is eligible: raised exactly when none is, and then
        the stored index is unchanged. */
    method Select(workers: seq<Worker>, required: set<Capability>, model: Option<string>) returns (r: Option<nat>)
      modifies this`rrIndex
      ensures r.None? <==> forall w :: !IsEligible(workers, required, model, w)
      ensures r.Some? ==> r.value < |workers| && IsEligible(workers, required, model, workers[r.value])
      ensures r.Some? && policy.LeastRequest? ==>
        forall w :: IsEligible(workers, required, model, w) ==> workers[r.value].activeRequests <= w.activeRequests
      ensures r.Some? ==>
        var c := Pool(policy, SnapshotsOf(workers), required, model);
        c != [] && r.value == c[Pick(old(rrIndex), |c|)] && rrIndex == NextIndex(old(rrIndex), |c|)
      ensures r.None? ==> rrIndex == old(rrIndex)
    {
      hide IsEligible, IsCandidate, Pool, Pick, NextIndex;
      r := SelectPosition(SnapshotsOf(workers), required, model);
      EligibleIff(workers, required, model);
      forall w | IsEligible(workers, required, model, w) ensures exists i: nat :: i < |workers| && workers[i] == w {
        EligibleIsThere(workers, required, model, w);
      }
    }

    method SelectPosition(ws: seq<Snapshot>, required: set<Capability>, model: Option<string>) returns (r: Option<nat>)
      modifies this`rrIndex
      ensures r.None? <==> forall i: nat :: !IsCandidate(ws, required, model, i)
      ensures r.Some? ==> IsCandidate(ws, required, model, r.value) && r.value < |ws|
      ensures r.Some? && policy.LeastRequest? ==>
        forall i: nat :: i < |ws| && IsCandidate(ws, required, model, i) ==> ws[r.value].active <= ws[i].active
      ensures r.Some? ==>
        var c := Pool(policy, ws, required, model);
        c != [] && r.value == c[Pick(old(rrIndex), |c|)] && rrIndex == NextIndex(old(rrIndex), |c|)
      ensures r.None? ==> rrIndex == old(rrIndex)
    {
      var candidates := Candidates(ws, required, model);
      CandidatesAre(ws, required, model);
      CandidatesInRange(ws, required, model);
      hide Candidates, IsCandidate, LeastLoaded, Positions;
      if candidates == [] {
        forall i: nat ensures !IsCandidate(ws, required, model, i) { assert i !in candidates; }
        return None;
      }
      match policy
      case RoundRobin =>
        var i := SelectRoundRobin(candidates);
        assert IsCandidate(ws, required, model, i);
        r := Some(i);
      case LeastRequest =>
        var least := LeastLoaded(ws, candidates);
        var i := SelectRoundRobin(least);
        assert IsCandidate(ws, required, model, i);
        r := Some(i);
    }

    method SelectRoundRobin(candidates: seq<nat>) returns (i: nat)
      requires candidates != []
      modifies this`rrIndex
      ensures i == candidates[Pick(old(rrIndex), |candidates|)] && i in candidates
      ensures rrIndex == NextIndex(old(rrIndex), |candidates|)
    {
      i := candidates[rrIndex % |candidates|];
      rrIndex := (rrIndex + 1) % |candidates|;
    }
  }

  lemma CandidatesInRange(ws: seq<Snapshot>, required: set<Capability>, model: Option<string>)
    ensures forall i: nat :: i in Candidates(ws, required, model) ==> i < |ws|
  {
  }

  // ----- round robin over a fixed candidate list

  /** The place in a list of n candidates picked with a stored index. */
  function Pick(stored: nat, n: nat): (p: nat)
    requires n > 0
    ensures p < n
  {
    stored % n
  }

  function NextIndex(stored: nat, n: nat): (p: nat)
    requires n > 0
    ensures p == if Pick(stored, n) + 1 == n then 0 else Pick(stored, n) + 1
  {
    NextModulo(stored, n);
    (stored + 1) % n
  }

  lemma NextModulo(a: nat, n: nat)
    requires n > 0
    ensures (a + 1) % n == if a % n + 1 == n then 0 else a % n + 1
  {
    var q, r := a / n, a % n;
    if r + 1 == n {
      assert a + 1 == (q + 1) * n;
      ModuloIs(a + 1, q + 1, 0, n);
    } else {
      ModuloIs(a + 1, q, r + 1, n);
    }
  }

  lemma BigMultiple(x: int, n: nat)
    ensures x >= 1 ==> x * n >= n
    ensures x <= -1 ==> x * n <= -(n as int)
  {
    assert (x - 1) * n == x * n - n;
    assert (x + 1) * n == x * n + n;
    if x >= 1 { assert (x - 1) * n >= 0; }
    if x <= -1 { assert (x + 1) * n <= 0; }
  }

  lemma SmallMultiple(x: int, n: nat)
    requires -(n as int) < x * n < n
    ensures x == 0
  {
    BigMultiple(x, n);
  }

  lemma ModuloIs(a: nat, q: nat, r: nat, n: nat)
    requires n > 0 && r < n && a == q * n + r
    ensures a % n == r
  {
    var s, t := a / n, a % n;
    Difference(q, s, n);
    SmallMultiple(q - s, n);
  }

  lemma Difference(q: int, s: int, n: int)
    ensures (q - s) * n == q * n - s * n
  {
  }

  /** The places of k consecutive picks. */
  ghost function Picks(stored: nat, n: nat, k: nat): seq<nat>
    requires n > 0
    decreases k
  {
    if k == 0 then [] else [Pick(stored, n)] + Picks(NextIndex(stored, n), n, k - 1)
  }

  ghost function Occurrences(s: seq<nat>, c: nat): nat {
    if s == [] then 0 else (if s[0] == c then 1 else 0) + Occurrences(s[1..], c)
  }

  /** How far place c is ahead of the next pick. */
  ghost function Ahead(stored: nat, n: nat, c: nat): nat
    requires n > 0 && c < n
  {
    if c >= Pick(stored, n) then c - Pick(stored, n) else c + n - Pick(stored, n)
  }

  lemma RoundsOfNothing(n: nat, q: nat, r: nat)
    requires n > 0 && q * n + r == 0
    ensures q == 0 && r == 0
  {
    SmallMultiple(q, n);
  }

  lemma OneRoundLess(n: nat, k: nat, q: nat)
    requires k > 0 && k == q * n
    ensures q > 0 && (q - 1) * n + (n - 1) == k - 1
  {
    Difference(q, 1, n);
  }

  /** q full rounds and r further picks hit a place q times, and once more if it is
      among the next r places. */
  lemma {:induction false} RoundsAndRest(stored: nat, n: nat, k: nat, q: nat, r: nat, c: nat)
    requires n > 0 && c < n && k == q * n + r && r < n
    ensures Occurrences(Picks(stored, n, k), c) == q + if Ahead(stored, n, c) < r then 1 else 0
    decreases k
  {
    if k == 0 {
      RoundsOfNothing(n, q, r);
    } else {
      var next := NextIndex(stored, n);
      if r > 0 {
        RoundsAndRest(next, n, k - 1, q, r - 1, c);
      } else {
        OneRoundLess(n, k, q);
        RoundsAndRest(next, n, k - 1, q - 1, n - 1, c);
      }
      var tail := Picks(next, n, k - 1);
      assert ([Pick(stored, n)] + tail)[1..] == tail;
      NextIndexIsReduced(stored, n);
    }
  }

  lemma NextIndexIsReduced(stored: nat, n: nat)
    requires n > 0
    ensures Pick(NextIndex(stored, n), n) == NextIndex(stored, n)
  {
    ModuloIs(NextIndex(stored, n), 0, NextIndex(stored, n), n);
  }

  /** From any stored index, n consecutive picks choose each of n candidates exactly
      once, and after any number of picks the counts differ by at most one. */
  lemma RoundRobinIsFair(stored: nat, n: nat, k: nat, c: nat, d: nat)
    requires n > 0 && c < n && d < n
    ensures Occurrences(Picks(stored, n, n), c) == 1
    ensures Occurrences(Picks(stored, n, k), c) <= Occurrences(Picks(stored, n, k), d) + 1
  {
    RoundsAndRest(stored, n, n, 1, 0, c);
    RoundsAndRest(stored, n, k, k / n, k % n, c);
    RoundsAndRest(stored, n, k, k / n, k % n, d);
  }

  // ----- least requests with a fixed eligible set and no completions

  type Loads = seq<nat>

  function Dispatch(loads: Loads, i: nat): Loads
    requires i < |loads|
  {
    loads[i := loads[i] + 1]
  }

  ghost predicate IsLeast(loads: Loads, i: nat) { i < |loads| && forall k :: 0 <= k < |loads| ==> loads[i] <= loads[k] }

  ghost predicate InRange(picks: seq<nat>, n: nat) { forall k :: 0 <= k < |picks| ==> picks[k] < n }

  /** The loads after dispatching to the listed places. */
  ghost function Dispatched(loads: Loads, picks: seq<nat>): (r: Loads)
    requires InRange(picks, |loads|)
    ensures |r| == |loads|
  {
    if picks == [] then loads else Dispatch(Dispatched(loads, picks[..|picks| - 1]), picks[|picks| - 1])
  }

  /** Every pick went to a least loaded place at its time. */
  ghost predicate LeastRequestPicks(loads: Loads, picks: seq<nat>)
    requires InRange(picks, |loads|)
  {
    forall k :: 0 <= k < |picks| ==> IsLeast(Dispatched(loads, picks[..k]), picks[k])
  }

  lemma EarlierPicks(loads: Loads, picks: seq<nat>)
    requires picks != [] && InRange(picks, |loads|) && LeastRequestPicks(loads, picks)
    ensures var n := |picks| - 1;
      LeastRequestPicks(loads, picks[..n]) && IsLeast(Dispatched(loads, picks[..n]), picks[n])
  {
    hide Dispatched;
    var n := |picks| - 1;
    forall k | 0 <= k < n ensures IsLeast(Dispatched(loads, picks[..n][..k]), picks[..n][k]) {
      assert picks[..n][..k] == picks[..k];
    }
  }

  ghost function Sum(loads: Loads): nat {
    if loads == [] then 0 else Sum(loads[..|loads| - 1]) + loads[|loads| - 1]
  }

  ghost predicate IsMax(loads: Loads, m: nat) {
    (exists k :: 0 <= k < |loads| && loads[k] == m) && forall k :: 0 <= k < |loads| ==> loads[k] <= m
  }

  lemma {:induction false} SumDispatch(loads: Loads, i: nat)
    requires i < |loads|
    ensures Sum(Dispatch(loads, i)) == Sum(loads) + 1
  {
    var n := |loads| - 1;
    var after := Dispatch(loads, i);
    if i == n {
      assert after[..n] == loads[..n];
    } else {
      SumDispatch(loads[..n], i);
      assert after[..n] == Dispatch(loads[..n], i);
    }
  }

  lemma {:induction false} SumDispatched(loads: Loads, picks: seq<nat>)
    requires InRange(picks, |loads|)
    ensures Sum(Dispatched(loads, picks)) == Sum(loads) + |picks|
    ensures forall k :: 0 <= k < |loads| ==> Dispatched(loads, picks)[k] >= loads[k]
  {
    if picks != [] {
      var n := |picks| - 1;
      SumDispatched(loads, picks[..n]);
      SumDispatch(Dispatched(loads, picks[..n]), picks[n]);
    }
  }

  lemma {:induction false} SumAtMost(loads: Loads, m: int)
    requires m >= 0 && forall k :: 0 <= k < |loads| ==> loads[k] <= m
    ensures Sum(loads) <= |loads| * m
  {
    if loads != [] {
      var n := |loads| - 1;
      SumAtMost(loads[..n], m);
      assert (n + 1) * m == n * m + m;
    }
  }

  lemma {:induction false} SumAtLeast(loads: Loads, m: int)
    requires m >= 0 && forall k :: 0 <= k < |loads| ==> loads[k] >= m
    ensures Sum(loads) >= |loads| * m
  {
    if loads != [] {
      var n := |loads| - 1;
      SumAtLeast(loads[..n], m);
      assert (n + 1) * m == n * m + m;
    }
  }

  /** Either the largest load is still the initial one, or the loads are so even that
      their sum exceeds what a smaller largest load allows. */
  ghost predicate Balanced(initial: nat, loads: Loads, m: nat) {
    IsMax(loads, m) && (m == initial || (m > initial && Sum(loads) > |loads| * (m - 1)))
  }

  lemma {:induction false} LeastRequestBalances(loads: Loads, picks: seq<nat>, initial: nat) returns (m: nat)
    requires loads != [] && IsMax(loads, initial)
    requires InRange(picks, |loads|) && LeastRequestPicks(loads, picks)
    ensures Balanced(initial, Dispatched(loads, picks), m)
    decreases |picks|
  {
    hide LeastRequestPicks, Balanced;
    if picks == [] {
      m := initial;
      StartsBalanced(loads, initial);
    } else {
      var n := |picks| - 1;
      EarlierPicks(loads, picks);
      var before := Dispatched(loads, picks[..n]);
      var earlier := LeastRequestBalances(loads, picks[..n], initial);
      m := BalanceStep(initial, before, earlier, picks[n]);
    }
  }

  lemma StartsBalanced(loads: Loads, initial: nat)
    requires IsMax(loads, initial)
    ensures Balanced(initial, loads, initial)
  {
  }

  lemma BalanceStep(initial: nat, before: Loads, earlier: nat, i: nat) returns (m: nat)
    requires Balanced(initial, before, earlier) && IsLeast(before, i)
    ensures Balanced(initial, Dispatch(before, i), m)
  {
    var after := Dispatch(before, i);
    SumDispatch(before, i);
    if before[i] == earlier {
      m := earlier + 1;
      assert after[i] == m;
      SumAtLeast(before, earlier);
    } else {
      m := earlier;
      var k :| 0 <= k < |before| && before[k] == earlier;
      assert after[k] == earlier;
    }
  }

  /** k least-request dispatches reach a largest load no greater than any other
      assignment of k requests reaches. */
  lemma LeastRequestMinimizesLargestLoad(loads: Loads, picks: seq<nat>, others: seq<nat>, m: nat, o: nat)
    requires loads != [] && InRange(picks, |loads|) && LeastRequestPicks(loads, picks)
    requires InRange(others, |loads|) && |others| == |picks|
    requires IsMax(Dispatched(loads, picks), m) && IsMax(Dispatched(loads, others), o)
    ensures m <= o
  {
    hide LeastRequestPicks, Dispatched, IsMax, Sum;
    var initial := LargestOf(loads);
    var b := LeastRequestBalances(loads, picks, initial);
    MaxIsUnique(Dispatched(loads, picks), b, m);
    SumDispatched(loads, picks);
    SumDispatched(loads, others);
    LargestOnlyGrows(loads, Dispatched(loads, others), initial, o);
    if o < m {
      LoadsBelow(Dispatched(loads, others), o, m - 1);
    }
  }

  lemma LargestOnlyGrows(before: Loads, after: Loads, m: nat, o: nat)
    requires |before| == |after| && forall k :: 0 <= k < |before| ==> after[k] >= before[k]
    requires IsMax(before, m) && IsMax(after, o)
    ensures m <= o
  {
    var k :| 0 <= k < |before| && before[k] == m;
    assert after[k] <= o;
  }

  lemma LoadsBelow(loads: Loads, o: nat, m: nat)
    requires IsMax(loads, o) && o <= m
    ensures Sum(loads) <= |loads| * m
  {
    SumAtMost(loads, m);
  }

  lemma MaxIsUnique(loads: Loads, a: nat, b: nat)
    requires IsMax(loads, a) && IsMax(loads, b)
    ensures a == b
  {
  }

  lemma {:induction false} LargestOf(loads: Loads) returns (m: nat)
    requires loads != []
    ensures IsMax(loads, m)
  {
    var n := |loads| - 1;
    if n == 0 {
      m := loads[0];
    } else {
      var rest := LargestOf(loads[..n]);
      m := Max(rest, loads[n]);
      var k :| 0 <= k < n && loads[..n][k] == rest;
      assert loads[k] == rest;
      forall j | 0 <= j <= n ensures loads[j] <= m { if j < n { assert loads[..n][j] <= rest; } }
    }
  }

  /** No two loads differ by more than s. */
  ghost predicate Spread(loads: Loads, s: nat) {
    forall j, k :: 0 <= j < |loads| && 0 <= k < |loads| ==> loads[j] <= loads[k] + s
  }

  /** Least-request dispatches never widen the spread beyond one. */
  lemma {:induction false} LeastRequestKeepsSpread(loads: Loads, picks: seq<nat>, s: nat)
    requires Spread(loads, s) && InRange(picks, |loads|) && LeastRequestPicks(loads, picks)
    ensures Spread(Dispatched(loads, picks), Max(1, s))
    decreases |picks|
  {
    if picks != [] {
      var n := |picks| - 1;
      EarlierPicks(loads, picks);
      LeastRequestKeepsSpread(loads, picks[..n], s);
    }
  }
}
