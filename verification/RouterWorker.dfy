/** One upstream worker of the router: load counters, the health state machine, and what
    the history of its health events says about its state. */
module RouterWorker {
  import opened Wrappers

  datatype Capability = Chat | Speech | Streaming | ImageInput | AudioInput | VideoInput | AudioOutput

  datatype HealthState = Dead | Healthy | Unknown | Unhealthy

  datatype WorkerConfig = WorkerConfig(url: string, model: Option<string>, capabilities: set<Capability>)

  /** The configured thresholds; the configuration rejects values below one. */
  datatype Thresholds = Thresholds(failure: nat, success: nat) {
    predicate Valid() { failure > 0 && success > 0 }
  }

  /** The part of a worker its health events act on. */
  datatype Health = Health(state: HealthState, failures: nat, successes: nat)

  const NEW_HEALTH := Health(Unknown, 0, 0)

  /** A call on the worker that concerns its health. */
  datatype Event = Probe(ok: bool) | RequestFailure | MarkDead | ClearDead {
    predicate IsFailure() { this == Probe(false) || RequestFailure? }
    predicate IsSuccess() { this == Probe(true) }
  }

  /** The health after one event. */
  function After(h: Health, e: Event, t: Thresholds): Health {
    if e.IsSuccess() then
      Health(if h.successes + 1 >= t.success then Healthy else h.state, 0, h.successes + 1)
    else if e.IsFailure() then
      Health(if h.failures + 1 >= t.failure then Unhealthy else h.state, h.failures + 1, 0)
    else if e.MarkDead? then
      h.(state := Dead)
    else
      Health(if h.state.Dead? then Unknown else h.state, 0, 0)
  }

  class Worker {
    var config: WorkerConfig
    var activeRequests: nat
    var state: HealthState
    var disabled: bool
    var consecutiveFailures: nat
    var consecutiveSuccesses: nat
    var routedRequests: nat
    var successfulRequests: nat
    var failedRequests: nat

    constructor (config: WorkerConfig)
      ensures this.config == config && HealthView() == NEW_HEALTH && !disabled && activeRequests == 0
      ensures routedRequests == successfulRequests == failedRequests == 0
    {
      this.config := config;
      activeRequests, state, disabled := 0, Unknown, false;
      consecutiveFailures, consecutiveSuccesses := 0, 0;
      routedRequests, successfulRequests, failedRequests := 0, 0, 0;
    }

    function HealthView(): Health
      reads this
    {
      Health(state, consecutiveFailures, consecutiveSuccesses)
    }

    predicate IsRoutable()
      reads this
    {
      state.Healthy? && !disabled
    }

    /** Every routed request is counted as successful or as failed. */
    ghost predicate Counted()
      reads this
    {
      routedRequests == successfulRequests + failedRequests
    }

    method IncrementActive()
      modifies this`activeRequests
      ensures activeRequests == old(activeRequests) + 1
    {
      activeRequests := activeRequests + 1;
    }

    /** The assertion of the source is the precondition; the router's step system shows
        when it holds. */
    method DecrementActive()
      requires activeRequests > 0
      modifies this`activeRequests
      ensures activeRequests == old(activeRequests) - 1
    {
      activeRequests := activeRequests - 1;
    }

    method RecordRoutedRequest(statusCode: Option<int>)
      modifies this`routedRequests, this`successfulRequests, this`failedRequests
      ensures routedRequests == old(routedRequests) + 1
      ensures successfulRequests - old(successfulRequests)
           == if statusCode.Some? && 200 <= statusCode.value < 400 then 1 else 0
      ensures failedRequests - old(failedRequests)
           == if statusCode.Some? && 200 <= statusCode.value < 400 then 0 else 1
      ensures old(Counted()) ==> Counted()
    {
      routedRequests := routedRequests + 1;
      if statusCode.Some? && 200 <= statusCode.value < 400 {
        successfulRequests := successfulRequests + 1;
        return;
      }
      failedRequests := failedRequests + 1;
    }

    method SetDisabled(value: bool)
      modifies this`disabled
      ensures disabled == value
    {
      disabled := value;
    }

    method DoMarkDead()
      modifies this`state
      ensures forall t :: HealthView() == After(old(HealthView()), MarkDead, t)
    {
      state := Dead;
    }

    method DoClearDead()
      modifies this`state, this`consecutiveFailures, this`consecutiveSuccesses
      ensures forall t :: HealthView() == After(old(HealthView()), ClearDead, t)
    {
      if state.Dead? {
        state := Unknown;
      }
      consecutiveFailures := 0;
      consecutiveSuccesses := 0;
    }

    method RecordHealthResult(ok: bool, t: Thresholds)
      modifies this`state, this`consecutiveFailures, this`consecutiveSuccesses
      ensures HealthView() == After(old(HealthView()), Probe(ok), t)
    {
      if ok {
        consecutiveSuccesses := consecutiveSuccesses + 1;
        consecutiveFailures := 0;
        if consecutiveSuccesses >= t.success {
          state := Healthy;
        }
        return;
      }
      RecordFailure(t);
    }

    method RecordRequestFailure(t: Thresholds)
      modifies this`state, this`consecutiveFailures, this`consecutiveSuccesses
      ensures HealthView() == After(old(HealthView()), RequestFailure, t)
    {
      RecordFailure(t);
    }

    method RecordFailure(t: Thresholds)
      modifies this`state, this`consecutiveFailures, this`consecutiveSuccesses
      ensures HealthView() == After(old(HealthView()), RequestFailure, t)
    {
      consecutiveFailures := consecutiveFailures + 1;
      consecutiveSuccesses := 0;
      if consecutiveFailures >= t.failure {
        state := Unhealthy;
      }
    }
  }

  // ----- histories

  ghost function Run(events: seq<Event>, t: Thresholds): Health {
    if events == [] then NEW_HEALTH else After(Run(events[..|events| - 1], t), events[|events| - 1], t)
  }

  /** The position after the last event that is a reset, or 0. */
  ghost function LastReset(events: seq<Event>, isReset: Event -> bool): (k: nat)
    ensures k <= |events|
    ensures k > 0 ==> isReset(events[k - 1])
    ensures forall i :: k <= i < |events| ==> !isReset(events[i])
  {
    if events == [] then 0
    else if isReset(events[|events| - 1]) then |events|
    else LastReset(events[..|events| - 1], isReset)
  }

  ghost function Count(events: seq<Event>, isCounted: Event -> bool): nat {
    if events == [] then 0
    else Count(events[..|events| - 1], isCounted) + if isCounted(events[|events| - 1]) then 1 else 0
  }

  ghost function Failure(): Event -> bool { (e: Event) => e == Probe(false) || e == RequestFailure }

  ghost function Success(): Event -> bool { (e: Event) => e == Probe(true) }

  ghost function EndsFailureRun(): Event -> bool { (e: Event) => e == Probe(true) || e == ClearDead }

  ghost function EndsSuccessRun(): Event -> bool { (e: Event) => e == Probe(false) || e == RequestFailure || e == ClearDead }

  /** The failures since the last good probe or clear. */
  ghost function FailureRun(events: seq<Event>): nat {
    Count(events[LastReset(events, EndsFailureRun())..], Failure())
  }

  /** The good probes since the last failure or clear. */
  ghost function SuccessRun(events: seq<Event>): nat {
    Count(events[LastReset(events, EndsSuccessRun())..], Success())
  }

  lemma NextRun(events: seq<Event>, ends: Event -> bool, counted: Event -> bool)
    requires events != []
    ensures var n := |events| - 1; var earlier := events[..n];
      Count(events[LastReset(events, ends)..], counted)
      == if ends(events[n]) then 0
         else Count(earlier[LastReset(earlier, ends)..], counted) + if counted(events[n]) then 1 else 0
  {
    var n := |events| - 1;
    var earlier := events[..n];
    if !ends(events[n]) {
      var k := LastReset(earlier, ends);
      assert LastReset(events, ends) == k;
      var tail := events[k..];
      assert tail[..|tail| - 1] == earlier[k..];
    }
  }

  /** The counters are the lengths of the current failure and success runs, and never
      both positive. */
  lemma {:induction false} CountersAreRuns(events: seq<Event>, t: Thresholds)
    ensures Run(events, t).failures == FailureRun(events)
    ensures Run(events, t).successes == SuccessRun(events)
    ensures Run(events, t).failures == 0 || Run(events, t).successes == 0
  {
    if events != [] {
      CountersAreRuns(events[..|events| - 1], t);
      NextRun(events, EndsFailureRun(), Failure());
      NextRun(events, EndsSuccessRun(), Success());
    }
  }

  /** The k-th event was a good probe that completed a success run of threshold length;
      since then the worker was not marked dead and no failure run reached the threshold. */
  ghost predicate HealthySince(events: seq<Event>, t: Thresholds, k: nat) {
    && 0 < k <= |events|
    && events[k - 1] == Probe(true) && SuccessRun(events[..k]) >= t.success
    && (forall j :: k <= j < |events| ==> !events[j].MarkDead?)
    && (forall j :: k <= j <= |events| ==> FailureRun(events[..j]) < t.failure)
  }

  lemma EarlierPrefixes(events: seq<Event>, t: Thresholds, k: nat)
    requires events != [] && k < |events|
    ensures var n := |events| - 1;
      HealthySince(events, t, k) <==>
        HealthySince(events[..n], t, k) && !events[n].MarkDead? && FailureRun(events) < t.failure
  {
    hide FailureRun, SuccessRun;
    var n := |events| - 1;
    forall j | 0 <= j <= n ensures events[..j] == events[..n][..j] {}
    assert events[..|events|] == events;
    if HealthySince(events, t, k) { assert FailureRun(events[..n + 1]) < t.failure; }
  }

  /** Over every history: healthy if and only if healthy since some good probe. */
  lemma {:induction false} HealthyIff(events: seq<Event>, t: Thresholds)
    requires t.Valid()
    ensures Run(events, t).state.Healthy? <==> exists k: nat :: HealthySince(events, t, k)
  {
    hide FailureRun, SuccessRun;
    if events != [] {
      var n := |events| - 1;
      var earlier := events[..n];
      HealthyIff(earlier, t);
      CountersAreRuns(events, t);
      forall k: nat | k <= n
        ensures HealthySince(events, t, k)
          <==> HealthySince(earlier, t, k) && !events[n].MarkDead? && FailureRun(events) < t.failure
      {
        EarlierPrefixes(events, t, k);
      }
      assert events[..n + 1] == events;
      assert HealthySince(events, t, n + 1)
        <==> events[n].IsSuccess() && SuccessRun(events) >= t.success && FailureRun(events) < t.failure;
      hide HealthySince;
      HealthyStep(events, t);
    }
  }

  lemma HealthyStep(events: seq<Event>, t: Thresholds)
    requires t.Valid() && events != []
    requires var n := |events| - 1;
      && (Run(events[..n], t).state.Healthy? <==> exists k: nat :: HealthySince(events[..n], t, k))
      && (forall k: nat :: k <= n ==> (HealthySince(events, t, k)
            <==> HealthySince(events[..n], t, k) && !events[n].MarkDead? && FailureRun(events) < t.failure))
      && (HealthySince(events, t, n + 1) <==>
            (events[n].IsSuccess() && SuccessRun(events) >= t.success && FailureRun(events) < t.failure))
    ensures Run(events, t).state.Healthy? <==> exists k: nat :: HealthySince(events, t, k)
  {
    hide FailureRun, SuccessRun;
    var n := |events| - 1;
    var earlier := events[..n];
    CountersAreRuns(events, t);
    CountersAreRuns(earlier, t);
    forall k: nat | HealthySince(events, t, k) ensures k <= n + 1 {}
    forall k: nat | HealthySince(earlier, t, k) ensures k <= n {}
    hide HealthySince;
    if Run(events, t).state.Healthy? {
      if events[n].IsSuccess() && SuccessRun(events) >= t.success {
        assert HealthySince(events, t, n + 1);
      } else {
        var k: nat :| HealthySince(earlier, t, k);
        assert HealthySince(events, t, k);
      }
    }
    if exists k: nat :: HealthySince(events, t, k) {
      var k: nat :| HealthySince(events, t, k);
      if k <= n { assert HealthySince(earlier, t, k); }
    }
  }

  lemma RunThen(events: seq<Event>, e: Event, t: Thresholds)
    ensures Run(events + [e], t) == After(Run(events, t), e, t)
  {
    assert (events + [e])[..|events|] == events;
  }

  /** Clearing also resets the failure count of a worker that is not dead: with the
      default thresholds, four failures after the last good probe leave it healthy. */
  lemma ClearForgetsFailures()
    ensures var events := [Probe(true)] + [Probe(true)] + [Probe(false)] + [Probe(false)] + [ClearDead] + [Probe(false)] + [Probe(false)];
      Run(events, Thresholds(3, 2)).state.Healthy?
  {
    var t := Thresholds(3, 2);
    var a := [Probe(true)] + [Probe(true)];
    var b := a + [Probe(false)] + [Probe(false)];
    var c := b + [ClearDead];
    RunThen([], Probe(true), t);
    assert [] + [Probe(true)] == [Probe(true)];
    RunThen([Probe(true)], Probe(true), t);
    RunThen(a, Probe(false), t);
    RunThen(a + [Probe(false)], Probe(false), t);
    RunThen(b, ClearDead, t);
    RunThen(c, Probe(false), t);
    RunThen(c + [Probe(false)], Probe(false), t);
  }

  // ----- the other states

  /** The last event is a good probe that makes a success run of threshold length. */
  ghost predicate EndsGood(events: seq<Event>, t: Thresholds) {
    events != [] && events[|events| - 1] == Probe(true) && SuccessRun(events) >= t.success
  }

  /** The last event is a failure that makes a failure run of threshold length. */
  ghost predicate EndsBad(events: seq<Event>, t: Thresholds) {
    events != [] && events[|events| - 1] in {Probe(false), RequestFailure} && FailureRun(events) >= t.failure
  }

  ghost function LastIs(e: Event): seq<Event> -> bool {
    (h: seq<Event>) => h != [] && h[|h| - 1] == e
  }

  /** After k events the history began it, and none of the events since ended it. */
  ghost predicate Since(events: seq<Event>, begins: seq<Event> -> bool, ends: seq<Event> -> bool, k: nat) {
    k <= |events| && begins(events[..k]) && forall j :: k < j <= |events| ==> !ends(events[..j])
  }

  ghost predicate Lasts(events: seq<Event>, begins: seq<Event> -> bool, ends: seq<Event> -> bool) {
    exists k: nat :: Since(events, begins, ends, k)
  }

  ghost function MadeGoodRun(t: Thresholds): seq<Event> -> bool { (h: seq<Event>) => EndsGood(h, t) }

  ghost function MadeBadRun(t: Thresholds): seq<Event> -> bool { (h: seq<Event>) => EndsBad(h, t) }

  ghost function Either(p: seq<Event> -> bool, q: seq<Event> -> bool): seq<Event> -> bool { (h: seq<Event>) => p(h) || q(h) }

  /** Some event was a mark; since then the worker was not cleared, and no probe or failure
      made a run of threshold length. */
  ghost predicate IsDead(events: seq<Event>, t: Thresholds) {
    Lasts(events, LastIs(MarkDead), Either(LastIs(ClearDead), Either(MadeGoodRun(t), MadeBadRun(t))))
  }

  /** Some failure made a failure run of threshold length; since then the worker was not
      marked dead, and no good probe made a success run of its length. */
  ghost predicate IsUnhealthy(events: seq<Event>, t: Thresholds) {
    Lasts(events, MadeBadRun(t), Either(LastIs(MarkDead), MadeGoodRun(t)))
  }

  ghost function NewOrRevived(t: Thresholds): seq<Event> -> bool {
    (h: seq<Event>) => h == [] || (h[|h| - 1] == ClearDead && IsDead(h[..|h| - 1], t))
  }

  /** The worker was new, or cleared while dead; since then it was not marked dead, and no
      probe or failure made a run of threshold length. */
  ghost predicate IsUnknown(events: seq<Event>, t: Thresholds) {
    Lasts(events, NewOrRevived(t), Either(LastIs(MarkDead), Either(MadeGoodRun(t), MadeBadRun(t))))
  }

  lemma LastsStep(events: seq<Event>, begins: seq<Event> -> bool, ends: seq<Event> -> bool)
    requires events != []
    ensures (Lasts(events, begins, ends)
      <==> begins(events) || (Lasts(events[..|events| - 1], begins, ends) && !ends(events)))
  {
    var n := |events| - 1;
    var earlier := events[..n];
    assert events[..n + 1] == events;
    assert forall j :: 0 <= j <= n ==> earlier[..j] == events[..j];
    if k: nat :| Since(events, begins, ends, k) {
      assert k <= n ==> Since(earlier, begins, ends, k) && !ends(events[..n + 1]);
    }
    if begins(events) { assert Since(events, begins, ends, n + 1); }
    if k: nat :| Since(earlier, begins, ends, k) && !ends(events) {
      forall j | k < j <= |events| ensures !ends(events[..j]) { if j <= n { assert earlier[..j] == events[..j]; } }
      assert Since(events, begins, ends, k);
    }
  }

  lemma LastsOfNothing(begins: seq<Event> -> bool, ends: seq<Event> -> bool)
    ensures Lasts([], begins, ends) <==> begins([])
  {
    var none: seq<Event> := [];
    assert none[..0] == none;
    if begins(none) { assert Since(none, begins, ends, 0); }
  }

  /** Over every history: when a worker is dead, unhealthy or of unknown health. Together with
      HealthyIff this is the whole state. */
  lemma {:induction false} StateIff(events: seq<Event>, t: Thresholds)
    requires t.Valid()
    ensures Run(events, t).state.Dead? <==> IsDead(events, t)
    ensures Run(events, t).state.Unhealthy? <==> IsUnhealthy(events, t)
    ensures Run(events, t).state.Unknown? <==> IsUnknown(events, t)
  {
    hide FailureRun, SuccessRun, Lasts;
    var ends := Either(MadeGoodRun(t), MadeBadRun(t));
    if events == [] {
      LastsOfNothing(LastIs(MarkDead), Either(LastIs(ClearDead), ends));
      LastsOfNothing(MadeBadRun(t), Either(LastIs(MarkDead), MadeGoodRun(t)));
      LastsOfNothing(NewOrRevived(t), Either(LastIs(MarkDead), ends));
      NoRunYet(t);
    } else {
      StateIff(events[..|events| - 1], t);
      LastDecides(events, t);
      LastsStep(events, LastIs(MarkDead), Either(LastIs(ClearDead), ends));
      LastsStep(events, MadeBadRun(t), Either(LastIs(MarkDead), MadeGoodRun(t)));
      LastsStep(events, NewOrRevived(t), Either(LastIs(MarkDead), ends));
    }
  }

  lemma NoRunYet(t: Thresholds)
    ensures !EndsGood([], t) && !EndsBad([], t)
  {
  }

  /** The state after the last event. */
  lemma LastDecides(events: seq<Event>, t: Thresholds)
    requires t.Valid() && events != []
    ensures (var n := |events| - 1;
      Run(events, t).state ==
        if events[n] == MarkDead then Dead
        else if EndsGood(events, t) then Healthy
        else if EndsBad(events, t) then Unhealthy
        else if events[n] == ClearDead && Run(events[..n], t).state.Dead? then Unknown
        else Run(events[..n], t).state)
  {
    hide FailureRun, SuccessRun;
    CountersAreRuns(events, t);
    CountersAreRuns(events[..|events| - 1], t);
  }

  /** The same event n times. */
  ghost function Repeated(e: Event, n: nat): seq<Event> { seq(n, i => e) }

  /** A dead worker that is cleared is of unknown health until it has had as many good probes
      in a row as the success threshold says, and healthy from then on; and likewise with
      failures of either kind, the failure threshold, and unhealthy. */
  lemma {:induction false} ClearedIsRevived(events: seq<Event>, t: Thresholds, n: nat, e: Event)
    requires t.Valid() && Run(events, t).state.Dead? && e in {Probe(true), Probe(false), RequestFailure}
    ensures (Run(events + [ClearDead] + Repeated(e, n), t)
      == if e == Probe(true) then Health(if n >= t.success then Healthy else Unknown, 0, n)
         else Health(if n >= t.failure then Unhealthy else Unknown, n, 0))
    decreases n
  {
    var cleared := events + [ClearDead];
    RunThen(events, ClearDead, t);
    if n == 0 {
      assert cleared + Repeated(e, 0) == cleared;
    } else {
      ClearedIsRevived(events, t, n - 1, e);
      RunThen(cleared + Repeated(e, n - 1), e, t);
      assert cleared + Repeated(e, n) == cleared + Repeated(e, n - 1) + [e];
      hide Run;
    }
  }

  // ----- a dead worker

  /** A worker's health and its health checks that wait for an answer. */
  datatype Watched = Watched(health: Health, probes: nat)

  /** The segments between awaits. A check of a dead worker returns at once; a check
      that is already waiting records its result whatever the state is by then; the
      proxy records no request failure on a dead worker. */
  datatype Step = StartProbe | EndProbe(ok: bool) | FailRequest | Kill | Clear

  ghost predicate Enabled(w: Watched, s: Step) { s.EndProbe? ==> w.probes > 0 }

  ghost function Next(w: Watched, s: Step, t: Thresholds): Watched
    requires Enabled(w, s)
  {
    match s
    case StartProbe => if w.health.state.Dead? then w else w.(probes := w.probes + 1)
    case EndProbe(ok) => Watched(After(w.health, Probe(ok), t), w.probes - 1)
    case FailRequest => if w.health.state.Dead? then w else w.(health := After(w.health, RequestFailure, t))
    case Kill => w.(health := After(w.health, MarkDead, t))
    case Clear => w.(health := After(w.health, ClearDead, t))
  }

  ghost predicate Runs(w: Watched, steps: seq<Step>, t: Thresholds, v: Watched)
    decreases |steps|
  {
    if steps == [] then w == v
    else Enabled(w, steps[0]) && Runs(Next(w, steps[0], t), steps[1..], t, v)
  }

  ghost predicate NoClear(steps: seq<Step>) { forall s :: s in steps ==> !s.Clear? }

  /** The probes that still wait can complete a run of either kind. */
  ghost predicate CanRevive(w: Watched, t: Thresholds) {
    w.probes > 0 && (w.health.successes + w.probes >= t.success || w.health.failures + w.probes >= t.failure)
  }

  /** A dead worker whose waiting probes cannot complete a run stays dead until it is
      cleared; without a waiting probe this always holds. */
  lemma {:induction false} StaysDead(w: Watched, steps: seq<Step>, t: Thresholds, v: Watched)
    requires t.Valid() && w.health.state.Dead? && !CanRevive(w, t)
    requires Runs(w, steps, t, v) && NoClear(steps)
    ensures v.health.state.Dead?
    decreases |steps|
  {
    if steps != [] {
      var s := steps[0];
      assert s in steps && !s.Clear?;
      var next := Next(w, s, t);
      assert next.health.state.Dead? && !CanRevive(next, t);
      assert NoClear(steps[1..]) by { assert forall x :: x in steps[1..] ==> x in steps; }
      StaysDead(next, steps[1..], t, v);
    }
  }

  /** All waiting probes end alike. */
  ghost function Ends(ok: bool, n: nat): seq<Step> { if n == 0 then [] else [EndProbe(ok)] + Ends(ok, n - 1) }

  ghost function AfterEnds(w: Watched, ok: bool, n: nat, t: Thresholds): Watched
    requires n <= w.probes
    decreases n
  {
    if n == 0 then w else AfterEnds(Next(w, EndProbe(ok), t), ok, n - 1, t)
  }

  lemma {:induction false} EndsRun(w: Watched, ok: bool, n: nat, t: Thresholds)
    requires t.Valid() && n <= w.probes
    ensures Runs(w, Ends(ok, n), t, AfterEnds(w, ok, n, t)) && NoClear(Ends(ok, n))
    ensures n > 0 && ok && w.health.successes + n >= t.success ==> AfterEnds(w, ok, n, t).health.state.Healthy?
    ensures n > 0 && !ok && w.health.failures + n >= t.failure ==> AfterEnds(w, ok, n, t).health.state.Unhealthy?
    decreases n
  {
    if n > 0 {
      var next := Next(w, EndProbe(ok), t);
      EndsRun(next, ok, n - 1, t);
      assert Ends(ok, n)[1..] == Ends(ok, n - 1);
    }
  }

  /** A dead worker can leave the dead state without being cleared if and only if its
      waiting probes can complete a run. */
  lemma RevivesIff(w: Watched, t: Thresholds)
    requires t.Valid() && w.health.state.Dead?
    ensures CanRevive(w, t) <==> exists steps, v :: Runs(w, steps, t, v) && NoClear(steps) && !v.health.state.Dead?
  {
    if CanRevive(w, t) {
      var ok := w.health.successes + w.probes >= t.success;
      EndsRun(w, ok, w.probes, t);
      var v := AfterEnds(w, ok, w.probes, t);
      assert Runs(w, Ends(ok, w.probes), t, v) && NoClear(Ends(ok, w.probes)) && !v.health.state.Dead?;
    } else {
      forall steps, v | Runs(w, steps, t, v) && NoClear(steps) ensures v.health.state.Dead? {
        StaysDead(w, steps, t, v);
      }
    }
  }
}
