/** The load generator of the speech benchmark: the scheduled stage, whose arrivals do not wait
    for completions, and the closed-loop stage, whose workers share one iterator. Scenarios
    are their positions in the stage. */
module LoadGenerator {
  import opened Wrappers

  /** One entry of a stage's results. */
  datatype Entry =
    | Completed(scenario: nat)
    | Saturated(scenario: nat, activeRequests: nat)
    | TaskException                                    // carries no scenario

  ghost predicate NoDuplicates(s: seq<nat>) { forall i, j :: 0 <= i < j < |s| ==> s[i] != s[j] }

  // ----- the scheduled stage, described without its variables

  /** What the event loop and the requests decide: which tasks complete while the generator
      waits for an arrival, and which raise. */
  datatype Timing = Timing(completes: (nat, nat) -> bool, raises: nat -> bool)

  /** The tasks that complete in the wait before arrival k. */
  function Completing(time: Timing, k: nat, tasks: set<nat>): set<nat> { set t | t in tasks && time.completes(k, t) }

  /** The scenarios in flight when scenario k arrives: admitted earlier and not complete at
      any arrival since. */
  ghost function InFlight(time: Timing, max: nat, k: nat): set<nat>
    decreases k, 0
  {
    set t: nat | t < k && Admitted(time, max, t) && !CompletesBy(time, t, k)
  }

  /** Scenario t starts: when it arrives there is room. */
  ghost predicate Admitted(time: Timing, max: nat, t: nat)
    decreases t, 1
  {
    |InFlight(time, max, t)| < max
  }

  /** Task t completes during one of the waits after its own arrival, up to arrival k. */
  ghost predicate CompletesBy(time: Timing, t: nat, k: nat) { exists j: nat :: t < j <= k && time.completes(j, t) }

  /** The entry the stage owes scenario t. */
  ghost function EntryOf(time: Timing, max: nat, t: nat): Entry {
    if !Admitted(time, max, t) then Saturated(t, max)
    else if time.raises(t) then TaskException
    else Completed(t)
  }

  /** The most scenarios in flight at once, over the first n arrivals. */
  ghost predicate IsPeak(time: Timing, max: nat, n: nat, peak: nat) {
    && (forall t: nat :: t < n && Admitted(time, max, t) ==> |InFlight(time, max, t)| + 1 <= peak)
    && (peak > 0 ==> exists t: nat :: t < n && Admitted(time, max, t) && |InFlight(time, max, t)| + 1 == peak)
  }

  /** A scenario is in flight exactly from its own arrival, if there was room then, until the
      wait in which it completes. */
  lemma InFlightIff(time: Timing, max: nat, k: nat, t: nat)
    ensures t in InFlight(time, max, k)
      <==> t < k && |InFlight(time, max, t)| < max && forall j: nat :: t < j <= k ==> !time.completes(j, t)
  {
  }

  /** The entries of the first n scenarios, in any order: a result for each that started and did
      not raise, the bound for each that found no room, and an exception for each other one. */
  ghost predicate AreResults(time: Timing, max: nat, n: nat, results: seq<Entry>) {
    && |results| == n
    && (forall t: nat :: Completed(t) in results <==> t < n && |InFlight(time, max, t)| < max && !time.raises(t))
    && (forall t: nat, a: nat :: Saturated(t, a) in results <==> t < n && a == max && |InFlight(time, max, t)| >= max)
    && forall i, j :: 0 <= i < j < |results| && results[i] == results[j] ==> results[i].TaskException?
  }

  /** The entries are those owed to the scenarios, and no scenario has two. */
  lemma EntriesAre(time: Timing, max: nat, n: nat, origin: seq<nat>, results: seq<Entry>)
    requires EntriesFor(time, max, origin, results) && NoDuplicates(origin)
    requires forall t: nat :: t in origin <==> t < n
    ensures forall t: nat :: t < n ==> EntryOf(time, max, t) in results
    ensures forall e :: e in results ==> exists t: nat :: t < n && e == EntryOf(time, max, t)
    ensures forall i, j :: 0 <= i < j < |results| && results[i] == results[j] ==> results[i].TaskException?
  {
    hide InFlight, Admitted;
    forall t: nat | t < n ensures EntryOf(time, max, t) in results {
      assert t in origin;
      var i :| 0 <= i < |origin| && origin[i] == t;
      assert results[i] == EntryOf(time, max, t);
    }
    forall i | 0 <= i < |results| ensures origin[i] < n && results[i] == EntryOf(time, max, origin[i]) {
      assert origin[i] in origin;
    }
  }

  lemma ResultsAre(time: Timing, max: nat, n: nat, origin: seq<nat>, results: seq<Entry>)
    requires EntriesFor(time, max, origin, results) && NoDuplicates(origin) && |results| == n
    requires forall t: nat :: t in origin <==> t < n
    ensures AreResults(time, max, n, results)
  {
    EntriesAre(time, max, n, origin, results);
    hide InFlight, EntriesFor, NoDuplicates;
    forall t: nat ensures Completed(t) in results <==> t < n && |InFlight(time, max, t)| < max && !time.raises(t) {
      assert t < n ==> EntryOf(time, max, t) in results;
      if Completed(t) in results { var u: nat :| u < n && Completed(t) == EntryOf(time, max, u); }
    }
    forall t: nat, a: nat ensures Saturated(t, a) in results <==> t < n && a == max && |InFlight(time, max, t)| >= max {
      assert t < n ==> EntryOf(time, max, t) in results;
      if Saturated(t, a) in results { var u: nat :| u < n && Saturated(t, a) == EntryOf(time, max, u); }
    }
  }

  ghost predicate EntriesFor(time: Timing, max: nat, origin: seq<nat>, results: seq<Entry>) {
    |origin| == |results| && forall i :: 0 <= i < |origin| ==> results[i] == EntryOf(time, max, origin[i])
  }

  /** One more arrival: the tasks that complete in the wait before it leave. */
  lemma InFlightNext(time: Timing, max: nat, k: nat, before: set<nat>)
    requires before == InFlight(time, max, k) + if Admitted(time, max, k) then {k} else {}
    ensures InFlight(time, max, k + 1) == before - Completing(time, k + 1, before)
    ensures forall t :: t in before ==> t <= k && Admitted(time, max, t)
  {
    hide Admitted;
    forall t: nat | t <= k
      ensures CompletesBy(time, t, k + 1) <==> CompletesBy(time, t, k) || time.completes(k + 1, t)
    {
      if time.completes(k + 1, t) { assert CompletesBy(time, t, k + 1); }
    }
    assert !CompletesBy(time, k, k);
  }

  lemma InFlightFirst(time: Timing, max: nat)
    ensures InFlight(time, max, 0) == {}
  {
  }

  /** The bound holds at every instant: before an arrival and with it. */
  lemma {:induction false} NeverAboveTheBound(time: Timing, max: nat, k: nat)
    ensures |InFlight(time, max, k)| <= max
    ensures Admitted(time, max, k) ==> |InFlight(time, max, k) + {k}| <= max
    ensures !Admitted(time, max, k) <==> |InFlight(time, max, k)| == max
  {
    hide InFlight, Admitted;
    if k == 0 {
      InFlightFirst(time, max);
    } else {
      NeverAboveTheBound(time, max, k - 1);
      var before := InFlight(time, max, k - 1) + if Admitted(time, max, k - 1) then {k - 1} else {};
      InFlightNext(time, max, k - 1, before);
      Smaller(InFlight(time, max, k), before);
    }
    WithTheArrival(time, max, k);
  }

  lemma WithTheArrival(time: Timing, max: nat, k: nat)
    requires |InFlight(time, max, k)| <= max
    ensures Admitted(time, max, k) ==> |InFlight(time, max, k) + {k}| <= max
    ensures !Admitted(time, max, k) <==> |InFlight(time, max, k)| == max
  {
    hide InFlight;
  }

  lemma Smaller(a: set<nat>, b: set<nat>)
    requires a <= b
    ensures |a| <= |b|
  {
    assert b == a + (b - a);
  }

  /** The tasks that are pending when the wait before arrival k begins. */
  ghost predicate PendingFits(time: Timing, max: nat, k: nat, pending: set<nat>) {
    && pending - Completing(time, k, pending) == InFlight(time, max, k)
    && forall t :: t in pending ==> t < k && Admitted(time, max, t)
  }

  lemma PendingNext(time: Timing, max: nat, k: nat, pending: set<nat>)
    requires pending == InFlight(time, max, k) + if Admitted(time, max, k) then {k} else {}
    ensures PendingFits(time, max, k + 1, pending)
  {
    hide InFlight, Admitted, Completing;
    InFlightNext(time, max, k, pending);
  }

  lemma PendingFirst(time: Timing, max: nat)
    ensures PendingFits(time, max, 0, {})
  {
    InFlightFirst(time, max);
    hide InFlight;
  }

  lemma Waited(time: Timing, max: nat, k: nat, pending: set<nat>)
    requires PendingFits(time, max, k, pending)
    ensures pending - Completing(time, k, pending) == InFlight(time, max, k) && Completing(time, k, pending) <= pending
    ensures |InFlight(time, max, k)| == |pending| - |Completing(time, k, pending)|
    ensures forall t :: t in pending ==> t < k && Admitted(time, max, t)
  {
    hide InFlight, Admitted;
    Taken(pending, Completing(time, k, pending));
  }

  lemma NoPeakYet(time: Timing, max: nat)
    ensures IsPeak(time, max, 0, 0)
  {
  }

  lemma PeakNext(time: Timing, max: nat, k: nat, peak: nat)
    requires IsPeak(time, max, k, peak)
    ensures IsPeak(time, max, k + 1, if Admitted(time, max, k) then Max(peak, |InFlight(time, max, k)| + 1) else peak)
  {
    hide InFlight, Admitted;
  }

  lemma Taken(a: set<nat>, b: set<nat>)
    requires b <= a
    ensures |a - b| == |a| - |b|
  {
    assert a == (a - b) + b;
  }

  // ----- the scheduled stage

  /** The entries of completed tasks, in the arbitrary order of a set. */
  method HarvestCompletedTasks(ghost max: nat, time: Timing, tasks: set<nat>)
      returns (results: seq<Entry>, ghost origin: seq<nat>)
    requires forall t :: t in tasks ==> Admitted(time, max, t)
    ensures EntriesFor(time, max, origin, results) && NoDuplicates(origin) && |results| == |origin|
    ensures forall t: nat :: t in origin <==> t in tasks
  {
    results, origin := [], [];
    var left := tasks;
    while left != {}
      invariant left <= tasks && EntriesFor(time, max, origin, results) && NoDuplicates(origin)
      invariant forall t: nat :: t in origin <==> t in tasks && t !in left
      decreases left
    {
      var t :| t in left;
      results := results + [if time.raises(t) then TaskException else Completed(t)];
      origin := origin + [t];
      left := left - {t};
    }
  }

  lemma NoDuplicatesTogether(a: seq<nat>, b: seq<nat>)
    requires NoDuplicates(a) && NoDuplicates(b) && forall t :: t in a ==> t !in b
    ensures NoDuplicates(a + b)
  {
    forall i, j | 0 <= i < j < |a + b| ensures (a + b)[i] != (a + b)[j] {
      assert i < |a| ==> a[i] in a;
      assert j >= |a| ==> b[j - |a|] in b;
    }
  }

  lemma NothingYet(time: Timing, max: nat)
    ensures NoDuplicates([]) && EntriesFor(time, max, [], [])
  {
  }

  lemma EntriesTogether(time: Timing, max: nat, a: seq<nat>, r: seq<Entry>, b: seq<nat>, q: seq<Entry>)
    requires EntriesFor(time, max, a, r) && EntriesFor(time, max, b, q)
    ensures EntriesFor(time, max, a + b, r + q) && |r + q| == |a + b|
  {
    hide EntryOf;
  }

  /** The results hold the entries of the first k scenarios that are not pending. */
  ghost predicate Settled(time: Timing, max: nat, k: nat, origin: seq<nat>, results: seq<Entry>, pending: set<nat>) {
    && EntriesFor(time, max, origin, results) && NoDuplicates(origin)
    && forall t: nat :: t in origin <==> t < k && t !in pending
  }

  lemma NothingSettled(time: Timing, max: nat)
    ensures Settled(time, max, 0, [], [], {})
  {
    NothingYet(time, max);
  }

  /** Tasks that are done leave the pending ones, and their entries join the results. */
  lemma DoneSettles(time: Timing, max: nat, k: nat, origin: seq<nat>, results: seq<Entry>, pending: set<nat>,
                    from: seq<nat>, entries: seq<Entry>, done: set<nat>)
    requires Settled(time, max, k, origin, results, pending)
    requires EntriesFor(time, max, from, entries) && NoDuplicates(from)
    requires done <= pending && (forall t :: t in pending ==> t < k) && forall t: nat :: t in from <==> t in done
    ensures Settled(time, max, k, origin + from, results + entries, pending - done)
  {
    hide EntriesFor, NoDuplicates;
    EntriesTogether(time, max, origin, results, from, entries);
    NoDuplicatesTogether(origin, from);
  }

  /** Scenario k finds no room and is settled at once. */
  lemma SaturatedSettles(time: Timing, max: nat, k: nat, origin: seq<nat>, results: seq<Entry>, pending: set<nat>)
    requires Settled(time, max, k, origin, results, pending) && !Admitted(time, max, k) && k !in pending
    ensures Settled(time, max, k + 1, origin + [k], results + [Saturated(k, max)], pending)
  {
    hide EntriesFor, NoDuplicates, Admitted;
    OneEntry(time, max, k);
    EntriesTogether(time, max, origin, results, [k], [Saturated(k, max)]);
    NoDuplicatesTogether(origin, [k]);
  }

  /** Scenario k starts and is pending. */
  lemma StartedIsPending(time: Timing, max: nat, k: nat, origin: seq<nat>, results: seq<Entry>, pending: set<nat>)
    requires Settled(time, max, k, origin, results, pending)
    ensures Settled(time, max, k + 1, origin, results, pending + {k})
  {
    hide EntriesFor, NoDuplicates;
  }

  lemma OneEntry(time: Timing, max: nat, k: nat)
    requires !Admitted(time, max, k)
    ensures EntriesFor(time, max, [k], [Saturated(k, max)]) && NoDuplicates([k])
  {
    hide Admitted;
  }

  lemma WithoutOne(s: seq<nat>, i: nat)
    requires NoDuplicates(s) && i < |s|
    ensures NoDuplicates(s[..i] + s[i + 1..])
    ensures forall t: nat :: t in s[..i] + s[i + 1..] <==> t in s && t != s[i]
  {
    var rest := s[..i] + s[i + 1..];
    forall t: nat | t in s && t != s[i] ensures t in rest {
      var j :| 0 <= j < |s| && s[j] == t;
      assert rest[if j < i then j else j - 1] == t;
    }
  }

  /** A list without duplicates of all the numbers below n has length n. */
  lemma {:induction false} AllOnce(origin: seq<nat>, n: nat)
    requires NoDuplicates(origin) && forall t: nat :: t in origin <==> t < n
    ensures |origin| == n
  {
    hide NoDuplicates;
    if origin == [] {
      var first: nat := 0;
      assert first in origin <==> first < n;
    } else {
      assert origin[0] in origin;
      var last: nat := n - 1;
      assert last in origin;
      var i :| 0 <= i < |origin| && origin[i] == last;
      WithoutOne(origin, i);
      var rest := origin[..i] + origin[i + 1..];
      forall t: nat ensures t in rest <==> t < last {
        assert t in origin <==> t < n;
      }
      AllOnce(rest, last);
    }
  }

  /** One entry for every scenario, saturated exactly when the bound is reached at its
      arrival; the two peaks the stage reports are the same number. */
  method RunScheduledStage(n: nat, max: nat, time: Timing)
      returns (results: seq<Entry>, peakInflight: nat, peakPendingTasks: nat, scheduledTaskCount: nat,
               ghost origin: seq<nat>)
    ensures EntriesFor(time, max, origin, results) && NoDuplicates(origin)
    ensures forall t: nat :: t in origin <==> t < n
    ensures AreResults(time, max, n, results) && scheduledTaskCount == n
    ensures peakInflight <= max && peakPendingTasks == peakInflight && IsPeak(time, max, n, peakInflight)
  {
    hide InFlight, Admitted, Settled, PendingFits, IsPeak, Completing, AreResults, EntriesFor, NoDuplicates;
    var activeRequests := 0;
    var pending: set<nat> := {};
    results, origin := [], [];
    NothingSettled(time, max);
    PendingFirst(time, max);
    NoPeakYet(time, max);
    peakInflight, peakPendingTasks, scheduledTaskCount := 0, 0, 0;
    var k := 0;
    while k < n
      invariant k <= n && scheduledTaskCount == k && activeRequests == |pending|
      invariant PendingFits(time, max, k, pending) && Settled(time, max, k, origin, results, pending)
      invariant peakPendingTasks == peakInflight <= max && IsPeak(time, max, k, peakInflight)
    {
      // The wait: each task that completes decrements the count.
      var done := Completing(time, k, pending);
      activeRequests := activeRequests - |done|;
      Waited(time, max, k, pending);
      var harvested, from := HarvestCompletedTasks(max, time, done);
      DoneSettles(time, max, k, origin, results, pending, from, harvested, done);
      pending := pending - done;
      results, origin := results + harvested, origin + from;
      scheduledTaskCount := scheduledTaskCount + 1;
      NeverAboveTheBound(time, max, k);
      PeakNext(time, max, k, peakInflight);
      PendingNext(time, max, k, pending + if Admitted(time, max, k) then {k} else {});
      if activeRequests >= max {
        SaturatedSettles(time, max, k, origin, results, pending);
        results, origin := results + [Saturated(k, activeRequests)], origin + [k];
        k := k + 1;
        continue;
      }
      StartedIsPending(time, max, k, origin, results, pending);
      activeRequests := activeRequests + 1;
      peakInflight := Max(peakInflight, activeRequests);
      pending := pending + {k};
      peakPendingTasks := Max(peakPendingTasks, |pending|);
      k := k + 1;
    }
    Waited(time, max, n, pending);
    if pending != {} {
      var gathered, from := HarvestCompletedTasks(max, time, pending);
      DoneSettles(time, max, n, origin, results, pending, from, gathered, pending);
      assert pending - pending == {};
      results, origin := results + gathered, origin + from;
    }
    AllSettled(time, max, n, origin, results);
  }

  lemma AllSettled(time: Timing, max: nat, n: nat, origin: seq<nat>, results: seq<Entry>)
    requires Settled(time, max, n, origin, results, {})
    ensures EntriesFor(time, max, origin, results) && NoDuplicates(origin) && forall t: nat :: t in origin <==> t < n
    ensures AreResults(time, max, n, results)
  {
    AllOnce(origin, n);
    ResultsAre(time, max, n, origin, results);
  }

  // ----- the closed-loop stage

  /** Where one worker of the closed loop is between two steps of the event loop. */
  datatype Worker = NotStarted | Running(scenario: nat) | Exited

  ghost function RunningWorkers(workers: seq<Worker>): set<nat> {
    set i: nat | i < |workers| && workers[i].Running?
  }

  ghost function LiveWorkers(workers: seq<Worker>): set<nat> {
    set i: nat | i < |workers| && !workers[i].Exited?
  }

  /** Every scenario handed out is running on one worker or recorded once. */
  ghost predicate HandedOut(workers: seq<Worker>, next: nat, results: seq<nat>) {
    && NoDuplicates(results)
    && (forall t: nat :: t in results ==> t < next && !RunsSomewhere(workers, t))
    && (forall t: nat :: t < next ==> t in results || RunsSomewhere(workers, t))
    && (forall i: nat :: i < |workers| && workers[i].Running? ==> workers[i].scenario < next)
    && (forall i: nat, j: nat :: i < j < |workers| && workers[i].Running? && workers[j].Running? ==>
      workers[i].scenario != workers[j].scenario)
  }

  ghost predicate RunsSomewhere(workers: seq<Worker>, t: nat) {
    exists i: nat :: i < |workers| && workers[i] == Running(t)
  }

  lemma Started(workers: seq<Worker>, next: nat, results: seq<nat>, i: nat)
    requires HandedOut(workers, next, results) && i < |workers| && !workers[i].Running?
    ensures HandedOut(workers[i := Running(next)], next + 1, results)
    ensures HandedOut(workers[i := Exited], next, results)
  {
    hide NoDuplicates;
    var ws := workers[i := Running(next)];
    assert ws[i] == Running(next);
    forall t: nat | t != next ensures RunsSomewhere(ws, t) <==> RunsSomewhere(workers, t) {
      RunsElsewhere(workers, i, Running(next), t);
    }
    forall t: nat ensures RunsSomewhere(workers[i := Exited], t) <==> RunsSomewhere(workers, t) {
      RunsElsewhere(workers, i, Exited, t);
    }
  }

  lemma RunsElsewhere(workers: seq<Worker>, i: nat, w: Worker, t: nat)
    requires i < |workers| && workers[i] != Running(t) && w != Running(t)
    ensures RunsSomewhere(workers[i := w], t) <==> RunsSomewhere(workers, t)
  {
    if j: nat :| j < |workers| && workers[j] == Running(t) {
      assert workers[i := w][j] == Running(t);
    }
    var ws := workers[i := w];
    if j: nat :| j < |ws| && ws[j] == Running(t) {
      assert workers[j] == Running(t);
    }
  }

  lemma Recorded(workers: seq<Worker>, next: nat, results: seq<nat>, i: nat)
    requires HandedOut(workers, next, results) && i < |workers| && workers[i].Running?
    ensures HandedOut(workers[i := NotStarted], next, results + [workers[i].scenario])
  {
    var done := workers[i].scenario;
    assert RunsSomewhere(workers, done);
    NoDuplicatesTogether(results, [done]);
    hide NoDuplicates;
    forall t: nat | t != done ensures RunsSomewhere(workers[i := NotStarted], t) <==> RunsSomewhere(workers, t) {
      RunsElsewhere(workers, i, NotStarted, t);
    }
  }

  lemma CountsChange(workers: seq<Worker>, i: nat, w: Worker)
    requires i < |workers|
    ensures (RunningWorkers(workers[i := w])
          == if w.Running? then RunningWorkers(workers) + {i} else RunningWorkers(workers) - {i})
    ensures (LiveWorkers(workers[i := w])
          == if !w.Exited? then LiveWorkers(workers) + {i} else LiveWorkers(workers) - {i})
  {
  }

  lemma {:induction false} AtMost(s: set<nat>, n: nat)
    requires forall t :: t in s ==> t < n
    ensures |s| <= n
  {
    if n > 0 { AtMost(s - {n - 1}, n - 1); }
    if n == 0 { assert s == {}; }
  }

  /** The end of a scenario on worker i: the count goes down and the result is recorded. */
  method Record(workers: seq<Worker>, ghost next: nat, activeRequests: nat, results: seq<nat>, i: nat)
      returns (workers': seq<Worker>, activeRequests': nat, results': seq<nat>)
    requires HandedOut(workers, next, results) && i < |workers| && workers[i].Running?
    requires activeRequests == |RunningWorkers(workers)|
    ensures HandedOut(workers', next, results') && workers' == workers[i := NotStarted]
    ensures activeRequests' == |RunningWorkers(workers')| == activeRequests - 1
    ensures LiveWorkers(workers') == LiveWorkers(workers) && results' == results + [workers[i].scenario]
  {
    hide HandedOut, RunningWorkers, LiveWorkers;
    RunningMember(workers, i);
    LiveMember(workers, i);
    Recorded(workers, next, results, i);
    CountsChange(workers, i, NotStarted);
    activeRequests' := activeRequests - 1;
    workers', results' := workers[i := NotStarted], results + [workers[i].scenario];
  }

  /** Worker i asks the shared iterator: it starts the next scenario or exits. */
  method TakeNext(n: nat, workers: seq<Worker>, next: nat, activeRequests: nat, peak: nat, ghost results: seq<nat>, i: nat)
      returns (workers': seq<Worker>, next': nat, activeRequests': nat, peak': nat)
    requires HandedOut(workers, next, results) && next <= n && i < |workers| && workers[i].NotStarted?
    requires activeRequests == |RunningWorkers(workers)| && peak <= |workers|
    ensures HandedOut(workers', next', results) && activeRequests' == |RunningWorkers(workers')|
    ensures peak' == if next < n then Max(peak, activeRequests') else peak
    ensures peak' <= |workers| && activeRequests' == activeRequests + if next < n then 1 else 0
    ensures next < n ==> next' == next + 1 && workers' == workers[i := Running(next)] && LiveWorkers(workers') == LiveWorkers(workers)
    ensures next == n ==> next' == next && workers' == workers[i := Exited] && LiveWorkers(workers') == LiveWorkers(workers) - {i}
  {
    hide HandedOut, RunningWorkers, LiveWorkers;
    NotRunningMember(workers, i);
    LiveMember(workers, i);
    Started(workers, next, results, i);
    if next < n {
      CountsChange(workers, i, Running(next));
      workers', next' := workers[i := Running(next)], next + 1;
      activeRequests' := activeRequests + 1;
      peak' := Max(peak, activeRequests');
      RunningBound(workers');
    } else {
      CountsChange(workers, i, Exited);
      workers', next', activeRequests', peak' := workers[i := Exited], next, activeRequests, peak;
    }
  }

  lemma RunningMember(workers: seq<Worker>, i: nat)
    requires i < |workers| && workers[i].Running?
    ensures i in RunningWorkers(workers)
  {
  }

  lemma NotRunningMember(workers: seq<Worker>, i: nat)
    requires i < |workers| && !workers[i].Running?
    ensures i !in RunningWorkers(workers)
  {
  }

  lemma LiveMember(workers: seq<Worker>, i: nat)
    requires i < |workers| && !workers[i].Exited?
    ensures i in LiveWorkers(workers)
  {
  }

  lemma RunningBound(workers: seq<Worker>)
    ensures |RunningWorkers(workers)| <= |workers|
  {
    AtMost(RunningWorkers(workers), |workers|);
  }

  lemma NobodyRuns(workers: seq<Worker>)
    requires forall i :: 0 <= i < |workers| ==> !workers[i].Running?
    ensures RunningWorkers(workers) == {}
  {
  }

  lemma NothingHandedOut(workers: seq<Worker>)
    requires forall i :: 0 <= i < |workers| ==> workers[i].NotStarted?
    ensures HandedOut(workers, 0, [])
  {
  }

  lemma AllRecorded(workers: seq<Worker>, next: nat, results: seq<nat>)
    requires HandedOut(workers, next, results) && forall i :: 0 <= i < |workers| ==> workers[i].Exited?
    ensures NoDuplicates(results) && |results| == next && forall t: nat :: t in results <==> t < next
  {
    assert forall t: nat :: !RunsSomewhere(workers, t);
    AllOnce(results, next);
  }

  // ----- every order in which the event loop can resume the workers

  datatype Loop = Loop(workers: seq<Worker>, next: nat, results: seq<nat>)

  ghost predicate CanResume(s: Loop, i: nat) { i < |s.workers| && !s.workers[i].Exited? }

  ghost predicate IsOver(s: Loop) { forall i :: 0 <= i < |s.workers| ==> s.workers[i].Exited? }

  /** Worker i runs from one await to the next. */
  ghost function Resumed(n: nat, s: Loop, i: nat): Loop
    requires CanResume(s, i)
  {
    var results := if s.workers[i].Running? then s.results + [s.workers[i].scenario] else s.results;
    if s.next < n then Loop(s.workers[i := Running(s.next)], s.next + 1, results)
    else Loop(s.workers[i := Exited], s.next, results)
  }

  /** The stage after the listed workers were resumed. */
  ghost function After(n: nat, max: nat, schedule: seq<nat>): Loop {
    if schedule == [] then Loop(seq(Min(max, n), _ => NotStarted), 0, []) else
    var k := |schedule| - 1;
    var before := After(n, max, schedule[..k]);
    if CanResume(before, schedule[k]) then Resumed(n, before, schedule[k]) else before
  }

  ghost predicate IsSchedule(n: nat, max: nat, schedule: seq<nat>) {
    forall k :: 0 <= k < |schedule| ==> CanResume(After(n, max, schedule[..k]), schedule[k])
  }

  /** How many scenarios run after the first k steps. */
  ghost function RunningAt(n: nat, max: nat, schedule: seq<nat>, k: nat): nat
    requires k <= |schedule|
  {
    |RunningWorkers(After(n, max, schedule[..k]).workers)|
  }

  /** The most scenarios that ever run at a time. */
  ghost predicate IsLoopPeak(n: nat, max: nat, schedule: seq<nat>, peak: nat) {
    && (forall k: nat :: k <= |schedule| ==> RunningAt(n, max, schedule, k) <= peak)
    && (exists k: nat :: k <= |schedule| && RunningAt(n, max, schedule, k) == peak)
  }

  lemma Longer(n: nat, max: nat, schedule: seq<nat>, i: nat)
    requires IsSchedule(n, max, schedule) && CanResume(After(n, max, schedule), i)
    ensures IsSchedule(n, max, schedule + [i])
    ensures After(n, max, schedule + [i]) == Resumed(n, After(n, max, schedule), i)
    ensures RunningAt(n, max, schedule + [i], |schedule| + 1) == |RunningWorkers(Resumed(n, After(n, max, schedule), i).workers)|
    ensures forall k: nat :: k <= |schedule| ==> RunningAt(n, max, schedule + [i], k) == RunningAt(n, max, schedule, k)
  {
    hide After, CanResume, Resumed, RunningWorkers;
    var all := schedule + [i];
    assert all[..|schedule|] == schedule && all[..|schedule| + 1] == all;
    forall k: nat | k <= |schedule| ensures all[..k] == schedule[..k] {}
    LastResumed(n, max, all);
  }

  lemma LastResumed(n: nat, max: nat, schedule: seq<nat>)
    requires schedule != []
    requires CanResume(After(n, max, schedule[..|schedule| - 1]), schedule[|schedule| - 1])
    ensures After(n, max, schedule) == Resumed(n, After(n, max, schedule[..|schedule| - 1]), schedule[|schedule| - 1])
  {
  }

  lemma LongerPeak(n: nat, max: nat, schedule: seq<nat>, i: nat, peak: nat)
    requires IsSchedule(n, max, schedule) && CanResume(After(n, max, schedule), i) && IsLoopPeak(n, max, schedule, peak)
    ensures IsLoopPeak(n, max, schedule + [i], Max(peak, |RunningWorkers(After(n, max, schedule + [i]).workers)|))
  {
    hide After, CanResume, Resumed, RunningWorkers, IsSchedule, RunningAt;
    Longer(n, max, schedule, i);
    var all := schedule + [i];
    var k: nat :| k <= |schedule| && RunningAt(n, max, schedule, k) == peak;
    assert RunningAt(n, max, all, k) == peak;
    assert RunningAt(n, max, all, |all|) == |RunningWorkers(After(n, max, all).workers)|;
  }

  /** What holds in whichever order the workers are resumed: every scenario handed out runs on
      one worker or is recorded once, no more run than the bound allows, and while scenarios
      are left no worker exits; each step hands out a scenario or ends a worker. */
  lemma {:induction false} LoopInv(n: nat, max: nat, schedule: seq<nat>)
    requires IsSchedule(n, max, schedule)
    ensures (var s := After(n, max, schedule);
      && |s.workers| == Min(max, n) && s.next <= n && HandedOut(s.workers, s.next, s.results)
      && |RunningWorkers(s.workers)| <= Min(max, n)
      && (s.next < n ==> forall i :: 0 <= i < |s.workers| ==> !s.workers[i].Exited?)
      && (s.workers == [] ==> s.next == 0)
      && |schedule| + |LiveWorkers(s.workers)| == s.next + Min(max, n))
    decreases |schedule|
  {
    if schedule == [] {
      StartOfLoop(n, max);
    } else {
      hide After, HandedOut, RunningWorkers, LiveWorkers;
      var k := |schedule| - 1;
      var front, i := schedule[..k], schedule[k];
      forall j | 0 <= j < k ensures front[..j] == schedule[..j] {}
      LoopInv(n, max, front);
      LastResumed(n, max, schedule);
      LoopStep(n, After(n, max, front), i);
      RunningBound(After(n, max, schedule).workers);
    }
  }

  lemma StartOfLoop(n: nat, max: nat)
    ensures (var s := After(n, max, []);
      && |s.workers| == Min(max, n) && s.next == 0 && HandedOut(s.workers, s.next, s.results)
      && RunningWorkers(s.workers) == {} && |LiveWorkers(s.workers)| == Min(max, n))
  {
    var workers := After(n, max, []).workers;
    NobodyRuns(workers);
    NothingHandedOut(workers);
    hide RunningWorkers, HandedOut;
    AllLive(workers);
  }

  lemma {:induction false} AllLive(workers: seq<Worker>)
    requires forall i :: 0 <= i < |workers| ==> !workers[i].Exited?
    ensures |LiveWorkers(workers)| == |workers|
  {
    if workers == [] {
      assert LiveWorkers(workers) == {};
    } else {
      var n := |workers| - 1;
      AllLive(workers[..n]);
      assert LiveWorkers(workers) == LiveWorkers(workers[..n]) + {n};
    }
  }

  lemma LoopStep(n: nat, s: Loop, i: nat)
    requires CanResume(s, i) && s.next <= n && HandedOut(s.workers, s.next, s.results)
    ensures (var t := Resumed(n, s, i);
      && HandedOut(t.workers, t.next, t.results) && t.next + |LiveWorkers(s.workers)| == s.next + 1 + |LiveWorkers(t.workers)|)
  {
    hide HandedOut, LiveWorkers;
    LiveMember(s.workers, i);
    CountsChange(s.workers, i, if s.next < n then Running(s.next) else Exited);
    var idle := s.workers;
    if s.workers[i].Running? {
      Recorded(s.workers, s.next, s.results, i);
      idle := s.workers[i := NotStarted];
    }
    var results := Resumed(n, s, i).results;
    Started(idle, s.next, results, i);
    assert idle[i := Running(s.next)] == s.workers[i := Running(s.next)] && idle[i := Exited] == s.workers[i := Exited];
    LiveStays(s.workers, i);
  }

  lemma LiveStays(workers: seq<Worker>, i: nat)
    requires i in LiveWorkers(workers)
    ensures LiveWorkers(workers) + {i} == LiveWorkers(workers) && |LiveWorkers(workers) - {i}| == |LiveWorkers(workers)| - 1
  {
    hide LiveWorkers;
    assert LiveWorkers(workers) + {i} == LiveWorkers(workers);
  }

  /** When every worker has exited, each scenario was recorded exactly once, after exactly one
      step for each scenario and each worker. */
  lemma EachScenarioOnce(n: nat, max: nat, schedule: seq<nat>)
    requires IsSchedule(n, max, schedule) && IsOver(After(n, max, schedule))
    ensures NoDuplicates(After(n, max, schedule).results)
    ensures forall t: nat :: t in After(n, max, schedule).results <==> t < n && max > 0
    ensures |schedule| == if max > 0 then n + Min(max, n) else 0
  {
    LoopInv(n, max, schedule);
    hide After, HandedOut, RunningWorkers, NoDuplicates;
    var s := After(n, max, schedule);
    AllRecorded(s.workers, s.next, s.results);
    assert LiveWorkers(s.workers) == {};
    assert s.workers == [] || s.workers[0].Exited?;
  }

  /** What the event loop resumes next, given all it resumed before; while a worker is left it
      resumes one. */
  ghost predicate Drives(choose: seq<nat> -> nat, n: nat, max: nat) {
    forall schedule :: IsSchedule(n, max, schedule) && !IsOver(After(n, max, schedule))
      ==> CanResume(After(n, max, schedule), choose(schedule))
  }

  /** The variables of the stage are those of the schedule so far. */
  ghost predicate Follows(n: nat, max: nat, schedule: seq<nat>, workers: seq<Worker>, next: nat, activeRequests: nat,
                          peak: nat, results: seq<nat>)
  {
    && IsSchedule(n, max, schedule) && After(n, max, schedule) == Loop(workers, next, results)
    && |workers| == Min(max, n) && next <= n && HandedOut(workers, next, results)
    && activeRequests == |RunningWorkers(workers)| <= peak <= |workers| && IsLoopPeak(n, max, schedule, peak)
  }

  /** Worker i, from one await to the next. */
  method Resume(n: nat, ghost max: nat, ghost schedule: seq<nat>, workers: seq<Worker>, next: nat, activeRequests: nat,
                peak: nat, results: seq<nat>, i: nat)
      returns (workers': seq<Worker>, next': nat, activeRequests': nat, peak': nat, results': seq<nat>)
    requires Follows(n, max, schedule, workers, next, activeRequests, peak, results)
    requires i < |workers| && !workers[i].Exited?
    ensures Follows(n, max, schedule + [i], workers', next', activeRequests', peak', results')
    ensures next' <= n && (next' > next || (next' == next && |LiveWorkers(workers')| < |LiveWorkers(workers)|))
  {
    hide After, HandedOut, RunningWorkers, LiveWorkers, IsLoopPeak, IsSchedule, Resumed, RunningAt;
    LiveMember(workers, i);
    Longer(n, max, schedule, i);
    LongerPeak(n, max, schedule, i, peak);
    ResumedIs(n, Loop(workers, next, results), i);
    workers', activeRequests', results' := workers, activeRequests, results;
    if workers[i].Running? {
      workers', activeRequests', results' := Record(workers, next, activeRequests, results, i);
    }
    workers', next', activeRequests', peak' := TakeNext(n, workers', next, activeRequests', peak, results', i);
    assert After(n, max, schedule + [i]) == Loop(workers', next', results');
    assert peak' == Max(peak, activeRequests');
  }

  /** For every event loop: the stage follows its schedule to the end, returns the results
      recorded on the way, and reports the most scenarios that ran at a time. */
  method RunClosedLoopStage(n: nat, max: nat, choose: seq<nat> -> nat)
      returns (results: seq<nat>, peakInflight: nat, schedule: seq<nat>)
    requires Drives(choose, n, max)
    ensures IsSchedule(n, max, schedule) && IsOver(After(n, max, schedule))
    ensures forall k :: 0 <= k < |schedule| ==> schedule[k] == choose(schedule[..k])
    ensures results == After(n, max, schedule).results && IsLoopPeak(n, max, schedule, peakInflight)
    ensures NoDuplicates(results) && forall t: nat :: t in results <==> t < n && max > 0
    ensures peakInflight <= Min(max, n)
  {
    hide Drives, After, IsSchedule, HandedOut, RunningWorkers, LiveWorkers, NoDuplicates, IsLoopPeak;
    var workers := seq(Min(max, n), _ => NotStarted);
    var next, activeRequests := 0, 0;
    results, peakInflight, schedule := [], 0, [];
    NothingResumed(n, max, workers);
    while exists i :: 0 <= i < |workers| && !workers[i].Exited?
      invariant Follows(n, max, schedule, workers, next, activeRequests, peakInflight, results)
      invariant forall k :: 0 <= k < |schedule| ==> schedule[k] == choose(schedule[..k])
      decreases n - next, |LiveWorkers(workers)|
    {
      var i := choose(schedule);
      Driven(n, max, choose, schedule);
      workers, next, activeRequests, peakInflight, results :=
        Resume(n, max, schedule, workers, next, activeRequests, peakInflight, results, i);
      Extended(schedule, i, choose);
      schedule := schedule + [i];
    }
    EachScenarioOnce(n, max, schedule);
  }

  lemma NothingResumed(n: nat, max: nat, workers: seq<Worker>)
    requires workers == seq(Min(max, n), _ => NotStarted)
    ensures Follows(n, max, [], workers, 0, 0, 0, [])
  {
    StartOfLoop(n, max);
    assert After(n, max, []) == Loop(workers, 0, []);
    hide After, HandedOut, RunningWorkers;
    assert RunningAt(n, max, [], 0) == 0;
  }

  lemma Driven(n: nat, max: nat, choose: seq<nat> -> nat, schedule: seq<nat>)
    requires Drives(choose, n, max) && IsSchedule(n, max, schedule) && !IsOver(After(n, max, schedule))
    ensures CanResume(After(n, max, schedule), choose(schedule))
  {
  }

  lemma ResumedIs(n: nat, s: Loop, i: nat)
    requires CanResume(s, i)
    ensures (Resumed(n, s, i).results
          == if s.workers[i].Running? then s.results + [s.workers[i].scenario] else s.results)
    ensures Resumed(n, s, i).next == if s.next < n then s.next + 1 else s.next
    ensures (Resumed(n, s, i).workers
          == s.workers[i := NotStarted][i := if s.next < n then Running(s.next) else Exited])
    ensures s.workers[i].NotStarted? ==> s.workers[i := NotStarted] == s.workers
  {
  }

  lemma Extended(schedule: seq<nat>, i: nat, choose: seq<nat> -> nat)
    requires i == choose(schedule) && forall k :: 0 <= k < |schedule| ==> schedule[k] == choose(schedule[..k])
    ensures forall k :: 0 <= k < |schedule + [i]| ==> (schedule + [i])[k] == choose((schedule + [i])[..k])
  {
    forall k | 0 <= k <= |schedule| ensures (schedule + [i])[..k] == schedule[..k] {}
    assert schedule[..|schedule|] == schedule;
  }
}
