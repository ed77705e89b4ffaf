/** The router's data plane: admission, one-shot release and relay cleanup, and the step
    system of any number of interleaved requests. A step is the code between two awaits. */
module DataPlane {
  import opened Wrappers
  import opened RouterWorker
  import opened Sums

  // ----- the mutable objects

  /** The counts of the admission controller. */
  datatype Admission = Admission(max: nat, inflight: nat, peak: nat, rejected: nat)

  predicate CanAcquire(a: Admission) { a.inflight < a.max }

  function Acquired(a: Admission): Admission { a.(inflight := a.inflight + 1, peak := Max(a.peak, a.inflight + 1)) }

  function Refused(a: Admission): Admission { a.(rejected := a.rejected + 1) }

  function Freed(a: Admission): Admission
    requires a.inflight > 0
  {
    a.(inflight := a.inflight - 1)
  }

  class AdmissionController {
    const maxInflight: nat
    var inflight: nat
    var peakInflight: nat
    var rejectedTotal: nat

    constructor (maxInflight: nat)
      ensures View() == Admission(maxInflight, 0, 0, 0)
    {
      this.maxInflight := maxInflight;
      inflight, peakInflight, rejectedTotal := 0, 0, 0;
    }

    function View(): Admission
      reads this
    {
      Admission(maxInflight, inflight, peakInflight, rejectedTotal)
    }

    method TryAcquire() returns (ok: bool)
      modifies this
      ensures ok == old(CanAcquire(View())) && (ok <==> old(inflight) < maxInflight)
      ensures View() == if ok then Acquired(old(View())) else Refused(old(View()))
      ensures inflight == old(inflight) + if ok then 1 else 0
      ensures peakInflight == if ok then Max(old(peakInflight), inflight) else old(peakInflight)
      ensures rejectedTotal == old(rejectedTotal) + if ok then 0 else 1
      ensures old(inflight <= maxInflight) ==> inflight <= maxInflight
    {
      if inflight >= maxInflight {
        rejectedTotal := rejectedTotal + 1;
        return false;
      }
      inflight := inflight + 1;
      if inflight > peakInflight {
        peakInflight := inflight;
      }
      ok := true;
    }

    /** The assertion of the source is the precondition. */
    method Release()
      requires inflight > 0
      modifies this`inflight
      ensures View() == Freed(old(View())) && inflight == old(inflight) - 1
    {
      inflight := inflight - 1;
    }
  }

  class ReleaseOnce {
    const admission: AdmissionController
    var released: bool

    constructor (admission: AdmissionController)
      ensures this.admission == admission && !released
    {
      this.admission := admission;
      released := false;
    }

    /** The first call frees one slot; every later call does nothing. */
    method Call()
      requires !released ==> admission.inflight > 0
      modifies this`released, admission`inflight
      ensures released
      ensures admission.View() == if old(released) then old(admission.View()) else Freed(old(admission.View()))
      ensures admission.inflight == old(admission.inflight) - if old(released) then 0 else 1
    {
      if released {
        return;
      }
      released := true;
      admission.Release();
    }
  }

  // ----- requests

  type RequestId = nat

  /** A worker object. An object deleted from the pool keeps its identity. */
  type WorkerId = nat

  datatype Ending = EarlyResponse | SendFailed | HeadersFailed | Relayed

  datatype Phase =
    | Rejected                          // no slot was free
    | Reading                           // admitted; nothing charged to a worker yet
    | Sending(worker: WorkerId)         // waits for the upstream response
    | ClosingEarly(worker: WorkerId)    // building headers failed; waits for the upstream to close
    | Relaying(worker: WorkerId)        // the streaming response is handed out
    | Closing(worker: WorkerId)         // cleanup has begun; waits for the upstream to close
    | Finished(ending: Ending)
    | Leaked(worker: WorkerId)          // ended without the decrement

  /** A request, with how often its code incremented and decremented the worker's count,
      released its slot and recorded its completion. */
  datatype Request = Request(phase: Phase, increments: nat, decrements: nat, releases: nat, records: nat)

  datatype State = State(admission: Admission, active: map<WorkerId, nat>, requests: map<RequestId, Request>)

  datatype Outcome = Ok(state: State) | AssertionFailed

  datatype Event =
    | Arrive(r: RequestId)
    | RespondEarly(r: RequestId)              // 413, 400, 503, or an exception before the send
    | Send(r: RequestId, worker: WorkerId)
    | SendFails(r: RequestId)                 // httpx.HTTPError
    | SendReturns(r: RequestId, headers: seq<string>) // with the names and values of the relay's headers
    | HeadersFail(r: RequestId)
    | EarlyClosed(r: RequestId)
    | BeginCleanup(r: RequestId)
    | Closed(r: RequestId)                    // closing returned or raised
    | CleanupAgain(r: RequestId)              // the cleanup is called once more
    | Finalized(r: RequestId)                 // the garbage collector's backstop, after the cleanup
    // the cases the code does not cover
    | SendAborted(r: RequestId)               // cancelled, or another exception, inside the send
    | EarlyCloseRaises(r: RequestId)
    | FinalizedEarly(r: RequestId)            // the same backstop while the cleanup is still to come
    | Abandoned(r: RequestId)                 // the response is collected uncalled: the backstop, and no cleanup ever

  /** The response's constructor encodes every header name and value as Latin-1. The request id
      is one of the values, and neither the body's nor an upstream header's text is filtered. */
  predicate IsLatin1(headers: seq<string>) {
    forall i, k :: 0 <= i < |headers| && 0 <= k < |headers[i]| ==> headers[i][k] as int <= 0xFF
  }

  /** Ends a request whose worker's count stays raised: the send was cancelled or raised
      something else than `httpx.HTTPError`; a header of the relay cannot be encoded, so that
      building the response raised; closing raised; or nobody called the response. */
  ghost predicate IsLeak(e: Event) {
    e.SendAborted? || (e.SendReturns? && !IsLatin1(e.headers)) || e.EarlyCloseRaises? || e.Abandoned?
  }

  ghost predicate IsFault(e: Event) { IsLeak(e) || e.FinalizedEarly? }

  function ActiveOf(s: State, w: WorkerId): nat { if w in s.active then s.active[w] else 0 }

  ghost predicate InPhase(s: State, r: RequestId, p: Phase -> bool) { r in s.requests && p(s.requests[r].phase) }

  ghost predicate Enabled(s: State, e: Event) {
    match e
    case Arrive(r) => r !in s.requests
    case RespondEarly(r) => InPhase(s, r, (p: Phase) => p.Reading?)
    case Send(r, _) => InPhase(s, r, (p: Phase) => p.Reading?)
    case SendFails(r) => InPhase(s, r, (p: Phase) => p.Sending?)
    case SendReturns(r, _) => InPhase(s, r, (p: Phase) => p.Sending?)
    case HeadersFail(r) => InPhase(s, r, (p: Phase) => p.Sending?)
    case EarlyClosed(r) => InPhase(s, r, (p: Phase) => p.ClosingEarly?)
    case BeginCleanup(r) => InPhase(s, r, (p: Phase) => p.Relaying?)
    case Closed(r) => InPhase(s, r, (p: Phase) => p.Closing?)
    case CleanupAgain(r) => InPhase(s, r, (p: Phase) => p.Closing? || p == Finished(Relayed))
    case Finalized(r) => InPhase(s, r, (p: Phase) => p == Finished(Relayed))
    case SendAborted(r) => InPhase(s, r, (p: Phase) => p.Sending?)
    case EarlyCloseRaises(r) => InPhase(s, r, (p: Phase) => p.ClosingEarly?)
    case FinalizedEarly(r) => InPhase(s, r, (p: Phase) => p.Relaying? || p.Closing?)
    case Abandoned(r) => InPhase(s, r, (p: Phase) => p.Relaying?)
  }

  // ----- the pieces of a step

  function Update(s: State, r: RequestId, q: Request): State { s.(requests := s.requests[r := q]) }

  /** `worker.increment_active()` */
  function Charge(s: State, w: WorkerId): State { s.(active := s.active[w := ActiveOf(s, w) + 1]) }

  /** `worker.decrement_active()`, with its assertion. */
  function Discharge(s: State, w: WorkerId): Outcome {
    if ActiveOf(s, w) == 0 then AssertionFailed else Ok(s.(active := s.active[w := ActiveOf(s, w) - 1]))
  }

  /** The one-shot release of request r, with the controller's assertion. */
  function Release(s: State, r: RequestId): Outcome
    requires r in s.requests
  {
    var q := s.requests[r];
    if q.releases > 0 then Ok(s)
    else if s.admission.inflight == 0 then AssertionFailed
    else Ok(Update(s.(admission := Freed(s.admission)), r, q.(releases := q.releases + 1)))
  }

  /** Request r ends in the given phase: its slot is released. */
  function End(s: State, r: RequestId, p: Phase): Outcome
    requires r in s.requests
  {
    Release(Update(s, r, s.requests[r].(phase := p)), r)
  }

  /** Request r ends after the worker's count is decremented. */
  function DischargeAndEnd(s: State, r: RequestId, w: WorkerId, p: Phase, records: nat): Outcome
    requires r in s.requests
  {
    var d := Discharge(s, w);
    if d.AssertionFailed? then d else
    var q := s.requests[r];
    End(Update(d.state, r, q.(decrements := q.decrements + 1, records := q.records + records)), r, p)
  }

  /** What a cleanup can see of a state: the controller, its worker, its request. */
  ghost predicate Shows(s: State, r: RequestId, w: WorkerId, release: ReleaseOnce, worker: Worker)
    reads release, release.admission, worker
  {
    && s.admission == release.admission.View() && ActiveOf(s, w) == worker.activeRequests
    && r in s.requests && s.requests[r].releases == if release.released then 1 else 0
  }

  /** The response was relayed to its end and its status is below 400. */
  predicate IsSuccess(statusCode: Option<int>) { statusCode.Some? && 200 <= statusCode.value < 400 }

  class RelayCleanup {
    const worker: Worker
    const release: ReleaseOnce
    var done: bool

    constructor (worker: Worker, release: ReleaseOnce)
      ensures this.worker == worker && this.release == release && !done
    {
      this.worker := worker;
      this.release := release;
      done := false;
    }

    /** Up to the await: only the first call goes on to close the upstream. */
    method Begin() returns (first: bool)
      modifies this`done
      ensures done && first == !old(done)
    {
      first := !done;
      done := true;
    }

    /** The `finally` block after the await, whether closing returned or raised: it does to the
        worker, the controller and the one-shot release what the step `Closed` does to a
        state that shows them, and it cannot fail an assertion where the step does not. */
    method Finish(statusCode: Option<int>, ghost s: State, ghost r: RequestId, ghost w: WorkerId)
      requires Shows(s, r, w, release, worker) && DischargeAndEnd(s, r, w, Finished(Relayed), 1).Ok?
      modifies worker`activeRequests, worker`routedRequests, worker`successfulRequests, worker`failedRequests,
               release`released, release.admission`inflight
      ensures Shows(DischargeAndEnd(s, r, w, Finished(Relayed), 1).state, r, w, release, worker)
      ensures release.released && worker.activeRequests == old(worker.activeRequests) - 1
      ensures release.admission.inflight == old(release.admission.inflight) - if old(release.released) then 0 else 1
      ensures worker.routedRequests == old(worker.routedRequests) + 1
      ensures worker.successfulRequests == old(worker.successfulRequests) + if IsSuccess(statusCode) then 1 else 0
      ensures worker.failedRequests == old(worker.failedRequests) + if IsSuccess(statusCode) then 0 else 1
      ensures worker.HealthView() == old(worker.HealthView())
    {
      worker.DecrementActive();
      release.Call();
      worker.RecordRoutedRequest(statusCode);
    }
  }

  /** The code of a relay up to the send: what the step `Send` does to the worker's count. */
  method BeginSend(worker: Worker, release: ReleaseOnce, ghost s: State, ghost r: RequestId, ghost w: WorkerId)
    requires Shows(s, r, w, release, worker)
    modifies worker`activeRequests
    ensures Shows(Charge(s, w), r, w, release, worker) && worker.activeRequests == old(worker.activeRequests) + 1
  {
    worker.IncrementActive();
  }

  /** The handler of `httpx.HTTPError` and the release that follows it: what the step
      `SendFails` does. A dead worker's health is left alone. */
  method FailSend(worker: Worker, release: ReleaseOnce, t: Thresholds, ghost s: State, ghost r: RequestId, ghost w: WorkerId)
    requires Shows(s, r, w, release, worker) && DischargeAndEnd(s, r, w, Finished(SendFailed), 1).Ok?
    modifies worker, release`released, release.admission`inflight
    ensures Shows(DischargeAndEnd(s, r, w, Finished(SendFailed), 1).state, r, w, release, worker)
    ensures release.released && worker.activeRequests == old(worker.activeRequests) - 1
    ensures release.admission.inflight == old(release.admission.inflight) - if old(release.released) then 0 else 1
    ensures worker.routedRequests == old(worker.routedRequests) + 1 && worker.failedRequests == old(worker.failedRequests) + 1
    ensures worker.successfulRequests == old(worker.successfulRequests)
    ensures (worker.HealthView()
      == if old(worker.state).Dead? then old(worker.HealthView()) else RouterWorker.After(old(worker.HealthView()), RequestFailure, t))
  {
    worker.DecrementActive();
    worker.RecordRoutedRequest(None);
    if !worker.state.Dead? {
      worker.RecordRequestFailure(t);
    }
    release.Call();
  }

  ghost function Step(s: State, e: Event): Outcome
    requires Enabled(s, e)
  {
    match e
    case Arrive(r) =>
      if CanAcquire(s.admission) then
        Ok(Update(s.(admission := Acquired(s.admission)), r, Request(Reading, 0, 0, 0, 0)))
      else
        Ok(Update(s.(admission := Refused(s.admission)), r, Request(Rejected, 0, 0, 0, 0)))
    case RespondEarly(r) => End(s, r, Finished(EarlyResponse))
    case Send(r, w) =>
      Ok(Update(Charge(s, w), r, s.requests[r].(phase := Sending(w), increments := s.requests[r].increments + 1)))
    case SendFails(r) => DischargeAndEnd(s, r, s.requests[r].phase.worker, Finished(SendFailed), 1)
    case SendReturns(r, headers) =>
      if IsLatin1(headers) then Ok(Update(s, r, s.requests[r].(phase := Relaying(s.requests[r].phase.worker))))
      else End(s, r, Leaked(s.requests[r].phase.worker))
    case HeadersFail(r) => Ok(Update(s, r, s.requests[r].(phase := ClosingEarly(s.requests[r].phase.worker))))
    case EarlyClosed(r) => DischargeAndEnd(s, r, s.requests[r].phase.worker, Finished(HeadersFailed), 0)
    case BeginCleanup(r) => Ok(Update(s, r, s.requests[r].(phase := Closing(s.requests[r].phase.worker))))
    case Closed(r) => DischargeAndEnd(s, r, s.requests[r].phase.worker, Finished(Relayed), 1)
    case CleanupAgain(r) => Ok(s)
    case Finalized(r) => Release(s, r)
    case SendAborted(r) => End(s, r, Leaked(s.requests[r].phase.worker))
    case EarlyCloseRaises(r) => End(s, r, Leaked(s.requests[r].phase.worker))
    case FinalizedEarly(r) => Release(s, r)
    case Abandoned(r) => End(s, r, Leaked(s.requests[r].phase.worker))
  }

  ghost function Initial(max: nat): State { State(Admission(max, 0, 0, 0), map[], map[]) }

  /** The state a run leads to; every event must be enabled when it happens. */
  ghost predicate Leads(first: State, run: seq<Event>, o: Outcome)
    decreases |run|
  {
    if run == [] then o == Ok(first) else
    var n := |run| - 1;
    exists s :: Leads(first, run[..n], Ok(s)) && Enabled(s, run[n]) && o == Step(s, run[n])
  }

  ghost predicate Reaches(max: nat, run: seq<Event>, o: Outcome) { Leads(Initial(max), run, o) }

  // ----- what every reachable state keeps

  /** The worker a phase has charged and not discharged. */
  function ChargedTo(p: Phase): Option<WorkerId> {
    match p
    case Sending(w) => Some(w)
    case ClosingEarly(w) => Some(w)
    case Relaying(w) => Some(w)
    case Closing(w) => Some(w)
    case Leaked(w) => Some(w)
    case Rejected => None
    case Reading => None
    case Finished(_) => None
  }

  ghost function Charged(s: State, w: WorkerId): set<RequestId> {
    set r | r in s.requests && ChargedTo(s.requests[r].phase) == Some(w)
  }

  ghost function Unreleased(s: State): set<RequestId> {
    set r | r in s.requests && !s.requests[r].phase.Rejected? && s.requests[r].releases == 0
  }

  ghost function RejectedSet(s: State): set<RequestId> { set r | r in s.requests && s.requests[r].phase.Rejected? }

  /** How often each call was made, by phase. */
  ghost predicate CallsFit(q: Request) {
    && q.releases <= 1
    && match q.phase
       case Rejected => q == Request(Rejected, 0, 0, 0, 0)
       case Reading => q == Request(Reading, 0, 0, 0, 0)
       case Sending(_) => q.increments == 1 && q.decrements == 0 && q.records == 0 && q.releases == 0
       case ClosingEarly(_) => q.increments == 1 && q.decrements == 0 && q.records == 0 && q.releases == 0
       case Relaying(_) => q.increments == 1 && q.decrements == 0 && q.records == 0
       case Closing(_) => q.increments == 1 && q.decrements == 0 && q.records == 0
       case Leaked(_) => q.increments == 1 && q.decrements == 0 && q.records == 0 && q.releases == 1
       case Finished(EarlyResponse) => q.increments == 0 && q.decrements == 0 && q.records == 0 && q.releases == 1
       case Finished(SendFailed) => q.increments == 1 && q.decrements == 1 && q.records == 1 && q.releases == 1
       case Finished(HeadersFailed) => q.increments == 1 && q.decrements == 1 && q.records == 0 && q.releases == 1
       case Finished(Relayed) => q.increments == 1 && q.decrements == 1 && q.records == 1 && q.releases == 1
  }

  /** Every worker's active count is the number of requests charged to it. */
  ghost predicate CountsFit(s: State) { forall w: WorkerId :: ActiveOf(s, w) == |Charged(s, w)| }

  ghost predicate Inv(s: State) {
    && s.admission.inflight == |Unreleased(s)|
    && s.admission.inflight <= s.admission.peak <= s.admission.max
    && s.admission.rejected == |RejectedSet(s)|
    && CountsFit(s)
    && (forall r: RequestId :: r in s.requests ==> CallsFit(s.requests[r]))
  }

  // ----- how a change of one request changes the sets

  lemma ChargedAfter(s: State, t: State, r: RequestId, q: Request, w: WorkerId)
    requires t.requests == s.requests[r := q]
    ensures Charged(t, w) == if ChargedTo(q.phase) == Some(w) then Charged(s, w) + {r} else Charged(s, w) - {r}
  {
    hide ChargedTo;
  }

  lemma UnreleasedAfter(s: State, t: State, r: RequestId, q: Request)
    requires t.requests == s.requests[r := q]
    ensures (Unreleased(t)
          == if !q.phase.Rejected? && q.releases == 0 then Unreleased(s) + {r} else Unreleased(s) - {r})
  {
  }

  lemma RejectedAfter(s: State, t: State, r: RequestId, q: Request)
    requires t.requests == s.requests[r := q]
    ensures RejectedSet(t) == if q.phase.Rejected? then RejectedSet(s) + {r} else RejectedSet(s) - {r}
  {
  }

  /** A change that keeps the worker a request is charged to keeps every count. */
  lemma CountsKept(s: State, t: State, r: RequestId, q: Request)
    requires CountsFit(s) && t.requests == s.requests[r := q] && t.active == s.active
    requires ChargedTo(q.phase) == if r in s.requests then ChargedTo(s.requests[r].phase) else None
    ensures CountsFit(t)
  {
    hide CountsFit, ChargedTo;
    forall w: WorkerId ensures ActiveOf(t, w) == |Charged(t, w)| {
      ChargedAfter(s, t, r, q, w);
      assert Charged(t, w) == Charged(s, w);
      CountFits(s, w);
    }
    CountsFitIntro(t);
  }

  lemma CountFits(s: State, w: WorkerId)
    requires CountsFit(s)
    ensures ActiveOf(s, w) == |Charged(s, w)|
  {
  }

  lemma CountsFitIntro(s: State)
    requires forall w: WorkerId :: ActiveOf(s, w) == |Charged(s, w)|
    ensures CountsFit(s)
  {
  }

  /** The invariant of the new state, when only request r changed. */
  lemma RequestChanged(s: State, t: State, r: RequestId, q: Request)
    requires Inv(s) && t.requests == s.requests[r := q] && CallsFit(q) && CountsFit(t)
    requires r in s.requests ==> s.requests[r].phase.Rejected? == q.phase.Rejected?
    requires (t.admission.rejected
           == if r !in s.requests && q.phase.Rejected? then s.admission.rejected + 1 else s.admission.rejected)
    requires t.admission.inflight == |Unreleased(t)|
    requires t.admission.inflight <= t.admission.peak <= t.admission.max
    ensures Inv(t)
  {
    hide CallsFit, CountsFit, Unreleased, RejectedSet;
    RejectedCount(s, t, r, q);
  }

  lemma RejectedCount(s: State, t: State, r: RequestId, q: Request)
    requires t.requests == s.requests[r := q]
    requires r in s.requests ==> s.requests[r].phase.Rejected? == q.phase.Rejected?
    ensures |RejectedSet(t)| == |RejectedSet(s)| + if r !in s.requests && q.phase.Rejected? then 1 else 0
  {
    RejectedAfter(s, t, r, q);
    assert r in s.requests ==> RejectedSet(t) == RejectedSet(s);
    assert r !in s.requests ==> r !in RejectedSet(s);
  }

  // ----- the pieces of a step keep the counts

  lemma ReleaseKeeps(s: State, r: RequestId)
    requires r in s.requests && !s.requests[r].phase.Rejected? && s.requests[r].releases <= 1
    requires s.admission.inflight == |Unreleased(s)|
    ensures Release(s, r).Ok?
    ensures (var t := Release(s, r).state;
      && t.active == s.active
      && t.requests == s.requests[r := s.requests[r].(releases := 1)]
      && t.admission.inflight == |Unreleased(t)|
      && t.admission.inflight <= s.admission.inflight
      && t.admission == s.admission.(inflight := t.admission.inflight))
  {
    var q := s.requests[r];
    if q.releases == 0 {
      assert r in Unreleased(s);
      UnreleasedAfter(s, Release(s, r).state, r, q.(releases := 1));
    } else {
      assert s.requests[r := q.(releases := 1)] == s.requests;
    }
  }

  lemma EndKeeps(s: State, r: RequestId, p: Phase)
    requires r in s.requests && !s.requests[r].phase.Rejected? && !p.Rejected? && s.requests[r].releases <= 1
    requires s.admission.inflight == |Unreleased(s)|
    ensures End(s, r, p).Ok?
    ensures (var t := End(s, r, p).state;
      && t.active == s.active
      && t.requests == s.requests[r := s.requests[r].(phase := p, releases := 1)]
      && t.admission.inflight == |Unreleased(t)|
      && t.admission.inflight <= s.admission.inflight
      && t.admission == s.admission.(inflight := t.admission.inflight))
  {
    var q := s.requests[r].(phase := p);
    var t := Update(s, r, q);
    assert Unreleased(t) == Unreleased(s);
    ReleaseKeeps(t, r);
  }

  lemma DischargeKeeps(s: State, t: State, r: RequestId, w: WorkerId, q: Request)
    requires CountsFit(s) && r in s.requests && ChargedTo(s.requests[r].phase) == Some(w) && ChargedTo(q.phase).None?
    ensures Discharge(s, w).Ok?
    ensures t.active == Discharge(s, w).state.active && t.requests == s.requests[r := q] ==> CountsFit(t)
  {
    hide CountsFit, ChargedTo;
    CountFits(s, w);
    assert r in Charged(s, w);
    if t.active == Discharge(s, w).state.active && t.requests == s.requests[r := q] {
      forall v: WorkerId ensures ActiveOf(t, v) == |Charged(t, v)| {
        ChargedAfter(s, t, r, q, v);
        CountFits(s, v);
        if v != w { assert r !in Charged(s, v); }
      }
      CountsFitIntro(t);
    }
  }

  lemma SlotsKept(s: State, t: State, r: RequestId, q: Request)
    requires Inv(s) && r in s.requests && t.requests == s.requests[r := q] && t.admission == s.admission
    requires q.phase.Rejected? == s.requests[r].phase.Rejected? && q.releases == s.requests[r].releases
    ensures t.admission.inflight == |Unreleased(t)| && q.releases <= 1
  {
    hide CountsFit;
    assert CallsFit(s.requests[r]);
    assert Unreleased(t) == Unreleased(s);
  }

  // ----- each kind of step keeps the invariant

  lemma StepDischarges(s: State, r: RequestId, w: WorkerId, p: Phase, records: nat)
    requires Inv(s) && r in s.requests && ChargedTo(s.requests[r].phase) == Some(w) && !s.requests[r].phase.Leaked?
    requires p.Finished? && CallsFit(s.requests[r].(phase := p, decrements := s.requests[r].decrements + 1,
                                                    records := s.requests[r].records + records, releases := 1))
    ensures DischargeAndEnd(s, r, w, p, records).Ok? && Inv(DischargeAndEnd(s, r, w, p, records).state)
  {
    hide CallsFit, Unreleased, RejectedSet, Charged, CountsFit, End;
    var q := s.requests[r];
    var q1 := q.(decrements := q.decrements + 1, records := q.records + records);
    var q2 := q1.(phase := p, releases := 1);
    DischargeKeeps(s, s, r, w, q2);
    var d := Update(Discharge(s, w).state, r, q1);
    SlotsKept(s, d, r, q1);
    EndKeeps(d, r, p);
    var t := End(d, r, p).state;
    assert t.requests == s.requests[r := q2];
    DischargeKeeps(s, t, r, w, q2);
    RequestChanged(s, t, r, q2);
  }

  /** A step that only moves request r to a phase charged to the same worker. */
  lemma StepMoves(s: State, r: RequestId, q: Request)
    requires Inv(s) && r in s.requests && CallsFit(q) && q.releases == s.requests[r].releases
    requires ChargedTo(q.phase) == ChargedTo(s.requests[r].phase)
    requires !q.phase.Rejected? && !s.requests[r].phase.Rejected?
    ensures Inv(Update(s, r, q))
  {
    hide CallsFit, Unreleased, RejectedSet, Charged, CountsFit;
    var t := Update(s, r, q);
    SlotsKept(s, t, r, q);
    CountsKept(s, t, r, q);
    RequestChanged(s, t, r, q);
  }

  lemma StepEnds(s: State, r: RequestId, p: Phase)
    requires Inv(s) && r in s.requests && !s.requests[r].phase.Rejected? && !p.Rejected?
    requires ChargedTo(p) == ChargedTo(s.requests[r].phase)
    requires CallsFit(s.requests[r].(phase := p, releases := 1))
    ensures End(s, r, p).Ok? && Inv(End(s, r, p).state)
  {
    hide CallsFit, Unreleased, RejectedSet, Charged, CountsFit, End;
    var q := s.requests[r].(phase := p, releases := 1);
    assert s.requests[r := s.requests[r]] == s.requests;
    SlotsKept(s, s, r, s.requests[r]);
    EndKeeps(s, r, p);
    var t := End(s, r, p).state;
    CountsKept(s, t, r, q);
    RequestChanged(s, t, r, q);
  }

  lemma StepReleases(s: State, r: RequestId)
    requires Inv(s) && r in s.requests && !s.requests[r].phase.Rejected?
    requires CallsFit(s.requests[r].(releases := 1))
    ensures Release(s, r).Ok? && Inv(Release(s, r).state)
  {
    hide CallsFit, Unreleased, RejectedSet, Charged, CountsFit, Release;
    var q := s.requests[r].(releases := 1);
    assert s.requests[r := s.requests[r]] == s.requests;
    SlotsKept(s, s, r, s.requests[r]);
    ReleaseKeeps(s, r);
    var t := Release(s, r).state;
    CountsKept(s, t, r, q);
    RequestChanged(s, t, r, q);
  }

  lemma StepArrives(s: State, r: RequestId)
    requires Inv(s) && r !in s.requests
    ensures Inv(Step(s, Arrive(r)).state)
  {
    hide CallsFit, RejectedSet, Charged, CountsFit;
    var t := Step(s, Arrive(r)).state;
    var q := t.requests[r];
    assert CallsFit(q) by { FirstCallsFit(q); }
    CountsKept(s, t, r, q);
    UnreleasedAfter(s, t, r, q);
    assert r !in Unreleased(s);
    if !CanAcquire(s.admission) { assert Unreleased(t) == Unreleased(s); }
    RequestChanged(s, t, r, q);
  }

  lemma FirstCallsFit(q: Request)
    requires q == Request(Reading, 0, 0, 0, 0) || q == Request(Rejected, 0, 0, 0, 0)
    ensures CallsFit(q)
  {
  }

  lemma StepSends(s: State, r: RequestId, v: WorkerId)
    requires Inv(s) && r in s.requests && s.requests[r].phase.Reading?
    ensures Inv(Step(s, Send(r, v)).state)
  {
    hide Unreleased, RejectedSet, CountsFit;
    var t := Step(s, Send(r, v)).state;
    assert CallsFit(s.requests[r]);
    var q := Request(Sending(v), 1, 0, 0, 0);
    assert t.requests == s.requests[r := q];
    SlotsKept(s, t, r, q);
    SendCounts(s, t, r, v, q);
    RequestChanged(s, t, r, q);
  }

  lemma SendCounts(s: State, t: State, r: RequestId, v: WorkerId, q: Request)
    requires CountsFit(s) && r in s.requests && s.requests[r].phase.Reading? && q.phase == Sending(v)
    requires t.requests == s.requests[r := q] && t.active == Charge(s, v).active
    ensures CountsFit(t)
  {
    hide CountsFit;
    forall w: WorkerId ensures ActiveOf(t, w) == |Charged(t, w)| {
      ChargedAfter(s, t, r, q, w);
      CountFits(s, w);
      assert r !in Charged(s, w);
    }
    CountsFitIntro(t);
  }

  /** Every step, faults included, succeeds and keeps the invariant: no assertion of the
      code can fail. */
  lemma StepKeepsInv(s: State, e: Event)
    requires Inv(s) && Enabled(s, e)
    ensures Step(s, e).Ok? && Inv(Step(s, e).state)
  {
    hide Unreleased, RejectedSet, Charged, CountsFit, End, DischargeAndEnd, Release;
    assert e.r in s.requests ==> CallsFit(s.requests[e.r]);
    match e
    case Arrive(r) => StepArrives(s, r);
    case RespondEarly(r) => StepEnds(s, r, Finished(EarlyResponse));
    case Send(r, w) => StepSends(s, r, w);
    case SendFails(r) => StepDischarges(s, r, s.requests[r].phase.worker, Finished(SendFailed), 1);
    case SendReturns(r, headers) =>
      if IsLatin1(headers) {
        StepMoves(s, r, s.requests[r].(phase := Relaying(s.requests[r].phase.worker)));
      } else {
        StepEnds(s, r, Leaked(s.requests[r].phase.worker));
      }
    case HeadersFail(r) => StepMoves(s, r, s.requests[r].(phase := ClosingEarly(s.requests[r].phase.worker)));
    case EarlyClosed(r) => StepDischarges(s, r, s.requests[r].phase.worker, Finished(HeadersFailed), 0);
    case BeginCleanup(r) => StepMoves(s, r, s.requests[r].(phase := Closing(s.requests[r].phase.worker)));
    case Closed(r) => StepDischarges(s, r, s.requests[r].phase.worker, Finished(Relayed), 1);
    case CleanupAgain(r) =>
    case Finalized(r) => StepReleases(s, r);
    case SendAborted(r) => StepEnds(s, r, Leaked(s.requests[r].phase.worker));
    case EarlyCloseRaises(r) => StepEnds(s, r, Leaked(s.requests[r].phase.worker));
    case FinalizedEarly(r) => StepReleases(s, r);
    case Abandoned(r) => StepEnds(s, r, Leaked(s.requests[r].phase.worker));
  }

  // ----- every run

  lemma {:induction false} LeadsInv(first: State, run: seq<Event>, o: Outcome)
    requires Inv(first) && Leads(first, run, o)
    ensures o.Ok? && Inv(o.state) && o.state.admission.max == first.admission.max
    decreases |run|
  {
    var n := |run| - 1;
    if run != [] {
      hide Inv, Step, Enabled;
      var s :| Leads(first, run[..n], Ok(s)) && Enabled(s, run[n]) && o == Step(s, run[n]);
      LeadsInv(first, run[..n], Ok(s));
      StepKeepsInv(s, run[n]);
      StepKeepsMax(s, run[n]);
    }
  }

  /** No run reaches a failed assertion, and every state a run reaches keeps the invariant. */
  lemma ReachableInv(max: nat, run: seq<Event>, o: Outcome)
    requires Reaches(max, run, o)
    ensures o.Ok? && Inv(o.state) && o.state.admission.max == max
  {
    InitialInv(max);
    hide Inv, Leads;
    LeadsInv(Initial(max), run, o);
  }

  lemma InitialInv(max: nat)
    ensures Inv(Initial(max))
  {
    assert Unreleased(Initial(max)) == {} && RejectedSet(Initial(max)) == {};
    assert forall w: WorkerId :: Charged(Initial(max), w) == {};
  }

  lemma StepKeepsMax(s: State, e: Event)
    requires Enabled(s, e) && Step(s, e).Ok?
    ensures Step(s, e).state.admission.max == s.admission.max
  {
  }

  /** A request whose relay is over was charged, discharged, released and recorded exactly once. */
  lemma RelayedExactlyOnce(max: nat, run: seq<Event>, s: State, r: RequestId)
    requires Reaches(max, run, Ok(s)) && r in s.requests && s.requests[r].phase == Finished(Relayed)
    ensures s.requests[r] == Request(Finished(Relayed), 1, 1, 1, 1)
  {
    ReachableInv(max, run, Ok(s));
    assert CallsFit(s.requests[r]);
  }

  // ----- the reported peak

  lemma {:induction false} LeadsOnce(first: State, run: seq<Event>, o: Outcome, p: Outcome)
    requires Leads(first, run, o) && Leads(first, run, p)
    ensures o == p
    decreases |run|
  {
    if run != [] {
      hide Enabled, Step;
      var n := |run| - 1;
      var s :| Leads(first, run[..n], Ok(s)) && Enabled(s, run[n]) && o == Step(s, run[n]);
      var u :| Leads(first, run[..n], Ok(u)) && Enabled(u, run[n]) && p == Step(u, run[n]);
      LeadsOnce(first, run[..n], Ok(s), Ok(u));
    }
  }

  lemma StepPeak(s: State, e: Event)
    requires Enabled(s, e) && Step(s, e).Ok? && s.admission.inflight <= s.admission.peak
    ensures Step(s, e).state.admission.peak == Max(s.admission.peak, Step(s, e).state.admission.inflight)
  {
  }

  /** After k events of the run the in-flight count was n. */
  ghost predicate WasInFlight(max: nat, run: seq<Event>, k: nat, n: nat) {
    k <= |run| && exists u :: Reaches(max, run[..k], Ok(u)) && u.admission.inflight == n
  }

  /** The peak is the greatest in-flight count the run has seen. */
  lemma {:induction false} PeakIsGreatest(max: nat, run: seq<Event>, s: State)
    requires Reaches(max, run, Ok(s))
    ensures exists k: nat :: WasInFlight(max, run, k, s.admission.peak)
    ensures forall k: nat, n: nat :: WasInFlight(max, run, k, n) ==> n <= s.admission.peak
    decreases |run|
  {
    ReachableInv(max, run, Ok(s));
    assert run[..|run|] == run;
    assert WasInFlight(max, run, |run|, s.admission.inflight);
    if run == [] {
      forall k: nat, n: nat | WasInFlight(max, run, k, n) ensures n == 0 {
        assert run[..k] == [];
      }
    } else {
      hide Inv, Step, Enabled;
      var last := |run| - 1;
      var before :| Leads(Initial(max), run[..last], Ok(before)) && Enabled(before, run[last]) && Ok(s) == Step(before, run[last]);
      PeakIsGreatest(max, run[..last], before);
      ReachableInv(max, run[..last], Ok(before));
      assert before.admission.inflight <= before.admission.peak by { InFlightBelowPeak(before); }
      StepPeak(before, run[last]);
      forall k: nat, n: nat | k <= last ensures WasInFlight(max, run, k, n) <==> WasInFlight(max, run[..last], k, n) {
        assert run[..last][..k] == run[..k];
      }
      forall n: nat | WasInFlight(max, run, |run|, n) ensures n == s.admission.inflight {
        var u :| Reaches(max, run, Ok(u)) && u.admission.inflight == n;
        LeadsOnce(Initial(max), run, Ok(s), Ok(u));
      }
      forall k: nat, n: nat | WasInFlight(max, run, k, n) ensures k <= last || k == |run| {}
      hide WasInFlight;
    }
  }

  lemma InFlightBelowPeak(s: State)
    requires Inv(s)
    ensures s.admission.inflight <= s.admission.peak
  {
  }

  // ----- faults

  ghost function LeakCount(run: seq<Event>): nat {
    if run == [] then 0 else LeakCount(run[..|run| - 1]) + if IsLeak(run[|run| - 1]) then 1 else 0
  }

  ghost function LeakedSet(s: State): set<RequestId> { set r | r in s.requests && s.requests[r].phase.Leaked? }

  /** The requests that still count for a worker but no longer hold a slot. */
  ghost function Drift(s: State): set<RequestId> {
    set r | r in s.requests && ChargedTo(s.requests[r].phase).Some? && s.requests[r].releases > 0
  }

  lemma EndShape(s: State, r: RequestId, p: Phase)
    requires r in s.requests && End(s, r, p).Ok?
    ensures End(s, r, p).state.requests
         == s.requests[r := s.requests[r].(phase := p, releases := Max(1, s.requests[r].releases))]
  {
  }

  lemma DischargeShape(s: State, r: RequestId, w: WorkerId, p: Phase, records: nat)
    requires r in s.requests && DischargeAndEnd(s, r, w, p, records).Ok?
    ensures r in DischargeAndEnd(s, r, w, p, records).state.requests
    ensures DischargeAndEnd(s, r, w, p, records).state.requests[r].phase == p
    ensures (DischargeAndEnd(s, r, w, p, records).state.requests
          == s.requests[r := DischargeAndEnd(s, r, w, p, records).state.requests[r]])
  {
    hide End;
    var q := s.requests[r];
    var q1 := q.(decrements := q.decrements + 1, records := q.records + records);
    EndShape(Update(Discharge(s, w).state, r, q1), r, p);
  }

  /** The one request a step changes; only a leak leaks, only a fault adds to the drift. */
  lemma StepShape(s: State, e: Event) returns (q: Request)
    requires e.r in s.requests ==> CallsFit(s.requests[e.r])
    requires Enabled(s, e) && Step(s, e).Ok?
    ensures Step(s, e).state.requests == s.requests[e.r := q]
    ensures q.phase.Leaked? == IsLeak(e) && (e.r in s.requests ==> !s.requests[e.r].phase.Leaked?)
    ensures (!IsFault(e) && ChargedTo(q.phase).Some? && q.releases > 0
         ==> e.r in s.requests && ChargedTo(s.requests[e.r].phase).Some? && s.requests[e.r].releases > 0)
  {
    hide End, DischargeAndEnd;
    match e {
      case RespondEarly(r) => EndShape(s, r, Finished(EarlyResponse));
      case SendAborted(r) => EndShape(s, r, Leaked(s.requests[r].phase.worker));
      case SendReturns(r, _) => if !IsLatin1(e.headers) { EndShape(s, r, Leaked(s.requests[r].phase.worker)); }
      case EarlyCloseRaises(r) => EndShape(s, r, Leaked(s.requests[r].phase.worker));
      case Abandoned(r) => EndShape(s, r, Leaked(s.requests[r].phase.worker));
      case SendFails(r) => DischargeShape(s, r, s.requests[r].phase.worker, Finished(SendFailed), 1);
      case EarlyClosed(r) => DischargeShape(s, r, s.requests[r].phase.worker, Finished(HeadersFailed), 0);
      case Closed(r) => DischargeShape(s, r, s.requests[r].phase.worker, Finished(Relayed), 1);
      case _ =>
    }
    q := Step(s, e).state.requests[e.r];
  }

  lemma CallsFitIn(s: State, r: RequestId)
    requires Inv(s)
    ensures r in s.requests ==> CallsFit(s.requests[r])
  {
    hide CallsFit;
  }

  lemma LeakedAfter(s: State, t: State, r: RequestId, q: Request)
    requires t.requests == s.requests[r := q] && (r in s.requests ==> !s.requests[r].phase.Leaked?)
    ensures |LeakedSet(t)| == |LeakedSet(s)| + if q.phase.Leaked? then 1 else 0
  {
    assert LeakedSet(t) == if q.phase.Leaked? then LeakedSet(s) + {r} else LeakedSet(s);
  }

  /** From any state each leak leaves one more request leaked forever. */
  lemma {:induction false} LeaksCounted(first: State, run: seq<Event>, s: State)
    requires Inv(first) && Leads(first, run, Ok(s))
    ensures |LeakedSet(s)| == |LeakedSet(first)| + LeakCount(run)
    decreases |run|
  {
    var n := |run| - 1;
    if run != [] {
      hide Inv, Step, Enabled, CallsFit, ChargedTo, IsLeak, IsFault, LeakedSet;
      var before :| Leads(first, run[..n], Ok(before)) && Enabled(before, run[n]) && Ok(s) == Step(before, run[n]);
      LeaksCounted(first, run[..n], before);
      LeadsInv(first, run[..n], Ok(before));
      CallsFitIn(before, run[n].r);
      var q := StepShape(before, run[n]);
      LeakedAfter(before, s, run[n].r, q);
    }
  }

  ghost predicate FaultFree(run: seq<Event>) { forall i :: 0 <= i < |run| ==> !IsFault(run[i]) }

  lemma DriftAfter(s: State, t: State, r: RequestId, q: Request)
    requires t.requests == s.requests[r := q]
    requires (ChargedTo(q.phase).Some? && q.releases > 0
      ==> r in s.requests && ChargedTo(s.requests[r].phase).Some? && s.requests[r].releases > 0)
    ensures Drift(t) <= Drift(s)
  {
    hide ChargedTo;
  }

  /** Without faults nothing joins the drift. */
  lemma {:induction false} NoFaultNoDrift(first: State, run: seq<Event>, s: State)
    requires Inv(first) && Leads(first, run, Ok(s)) && FaultFree(run)
    ensures Drift(s) <= Drift(first)
    decreases |run|
  {
    var n := |run| - 1;
    if run != [] {
      hide Inv, Step, Enabled, CallsFit, ChargedTo, IsFault, Drift;
      var before :| Leads(first, run[..n], Ok(before)) && Enabled(before, run[n]) && Ok(s) == Step(before, run[n]);
      NoFaultNoDrift(first, run[..n], before);
      LeadsInv(first, run[..n], Ok(before));
      CallsFitIn(before, run[n].r);
      var q := StepShape(before, run[n]);
      DriftAfter(before, s, run[n].r, q);
    }
  }

  // ----- totals over all workers

  ghost function Count(s: State): WorkerId -> int { (w: WorkerId) => ActiveOf(s, w) }

  ghost function TotalActive(s: State): int { SumOver(s.active.Keys, Count(s)) }

  ghost function ChargedWithin(s: State, workers: set<WorkerId>): set<RequestId> {
    set r | r in s.requests && ChargedTo(s.requests[r].phase).Some? && ChargedTo(s.requests[r].phase).value in workers
  }

  ghost function AllCharged(s: State): set<RequestId> {
    set r | r in s.requests && ChargedTo(s.requests[r].phase).Some?
  }

  ghost function ReadingSet(s: State): set<RequestId> { set r | r in s.requests && s.requests[r].phase.Reading? }

  lemma {:induction false} SumIsCharged(s: State, workers: set<WorkerId>)
    requires CountsFit(s)
    ensures SumOver(workers, Count(s)) == |ChargedWithin(s, workers)|
  {
    hide CountsFit, ChargedWithin, Charged;
    if workers == {} {
      NoneWithin(s);
    } else {
      var w :| w in workers;
      SumOverRemove(workers, Count(s), w);
      SumIsCharged(s, workers - {w});
      CountFits(s, w);
      OneMoreWithin(s, workers, w);
    }
  }

  lemma NoneWithin(s: State)
    ensures ChargedWithin(s, {}) == {}
  {
  }

  lemma OneMoreWithin(s: State, workers: set<WorkerId>, w: WorkerId)
    requires w in workers
    ensures |ChargedWithin(s, workers)| == |ChargedWithin(s, workers - {w})| + |Charged(s, w)|
  {
    hide ChargedTo;
    assert ChargedWithin(s, workers) == ChargedWithin(s, workers - {w}) + Charged(s, w);
    assert ChargedWithin(s, workers - {w}) !! Charged(s, w);
  }

  lemma TotalIsCharged(s: State)
    requires CountsFit(s)
    ensures TotalActive(s) == |AllCharged(s)|
  {
    SumIsCharged(s, s.active.Keys);
    forall r | r in AllCharged(s) ensures r in ChargedWithin(s, s.active.Keys) {
      var w := ChargedTo(s.requests[r].phase).value;
      CountFits(s, w);
      assert r in Charged(s, w);
    }
    assert ChargedWithin(s, s.active.Keys) == AllCharged(s);
  }

  /** What the workers count and what the controller counts differ by exactly the requests
      that have not reached a worker yet and the drift. */
  lemma Conservation(s: State)
    requires Inv(s)
    ensures TotalActive(s) + |ReadingSet(s)| == s.admission.inflight + |Drift(s)|
  {
    TotalIsCharged(s);
    forall r | r in s.requests ensures CallsFit(s.requests[r]) {}
    hide CountsFit, Inv;
    PartsOfUnreleased(s);
  }

  lemma PartsOfUnreleased(s: State)
    requires forall r: RequestId :: r in s.requests ==> CallsFit(s.requests[r])
    ensures |AllCharged(s)| + |ReadingSet(s)| == |Unreleased(s)| + |Drift(s)|
  {
    var held := AllCharged(s) - Drift(s);
    assert Unreleased(s) == held + ReadingSet(s);
    assert held !! ReadingSet(s);
    assert Drift(s) <= AllCharged(s);
    assert AllCharged(s) == held + Drift(s) && held !! Drift(s);
  }

  /** Without faults the workers together never carry more than the admission bound. */
  lemma ActiveWithinBound(max: nat, run: seq<Event>, s: State)
    requires Reaches(max, run, Ok(s)) && FaultFree(run)
    ensures TotalActive(s) <= s.admission.inflight <= max
  {
    ReachableInv(max, run, Ok(s));
    InitialInv(max);
    NoFaultNoDrift(Initial(max), run, s);
    Conservation(s);
  }

  ghost predicate AllDone(s: State) {
    forall r: RequestId :: r in s.requests ==>
      s.requests[r].phase.Rejected? || s.requests[r].phase.Finished? || s.requests[r].phase.Leaked?
  }

  /** When no request waits for anything, no slot is held, and what the workers still count
      is one for each leak; so every count is back to zero exactly when there was none. */
  lemma CountsAtRest(max: nat, run: seq<Event>, s: State)
    requires Reaches(max, run, Ok(s)) && AllDone(s)
    ensures s.admission.inflight == 0 && TotalActive(s) == LeakCount(run)
    ensures (forall w: WorkerId :: ActiveOf(s, w) == 0) <==> (forall i :: 0 <= i < |run| ==> !IsLeak(run[i]))
  {
    ReachableInv(max, run, Ok(s));
    InitialInv(max);
    LeaksCounted(Initial(max), run, s);
    assert LeakedSet(Initial(max)) == {};
    TotalIsCharged(s);
    AtRestSets(s);
    ZeroIffNoneCharged(s);
    NoLeakIff(run);
    hide *;
    if LeakCount(run) == 0 { assert LeakedSet(s) == {}; }
  }

  lemma AtRestSets(s: State)
    requires Inv(s) && AllDone(s)
    ensures Unreleased(s) == {} && AllCharged(s) == LeakedSet(s)
  {
    forall r | r in s.requests ensures CallsFit(s.requests[r]) {}
  }

  lemma ZeroIffNoneCharged(s: State)
    requires CountsFit(s)
    ensures (forall w: WorkerId :: ActiveOf(s, w) == 0) <==> AllCharged(s) == {}
  {
    forall w: WorkerId ensures ActiveOf(s, w) == |Charged(s, w)| && Charged(s, w) <= AllCharged(s) {
      CountFits(s, w);
    }
    if r :| r in AllCharged(s) {
      assert r in Charged(s, ChargedTo(s.requests[r].phase).value);
    }
  }

  lemma {:induction false} NoLeakIff(run: seq<Event>)
    ensures LeakCount(run) == 0 <==> forall i :: 0 <= i < |run| ==> !IsLeak(run[i])
  {
    if run != [] {
      var n := |run| - 1;
      NoLeakIff(run[..n]);
      if LeakCount(run) == 0 {
        forall i | 0 <= i < |run| ensures !IsLeak(run[i]) {
          if i < n { assert run[..n][i] == run[i]; }
        }
      } else if !IsLeak(run[n]) {
        var i :| 0 <= i < n && IsLeak(run[..n][i]);
        assert IsLeak(run[i]);
      }
    }
  }

  // ----- exactly when the bound can break

  lemma {:induction false} AfterFirst(s: State, e: Event, t: State, run: seq<Event>, o: Outcome)
    requires Enabled(s, e) && Step(s, e) == Ok(t) && Leads(t, run, o)
    ensures Leads(s, [e] + run, o)
    decreases |run|
  {
    hide Enabled, Step;
    var all := [e] + run;
    if run == [] {
      assert all[..0] == [] && Leads(s, [], Ok(s));
    } else {
      var n := |run| - 1;
      var u :| Leads(t, run[..n], Ok(u)) && Enabled(u, run[n]) && o == Step(u, run[n]);
      AfterFirst(s, e, t, run[..n], Ok(u));
      assert all[..n + 1] == [e] + run[..n] && all[n + 1] == run[n];
    }
  }

  lemma {:induction false} Fresh(ids: set<RequestId>) returns (r: RequestId)
    ensures forall x :: x in ids ==> x < r
  {
    if ids == {} {
      r := 0;
    } else {
      var x :| x in ids;
      var rest := Fresh(ids - {x});
      r := Max(rest, x + 1);
      assert forall y :: y in ids ==> y == x || y in ids - {x};
    }
  }

  ghost predicate SendsOnlyTo(run: seq<Event>, w: WorkerId) {
    forall i :: 0 <= i < |run| && run[i].Send? ==> run[i].worker == w
  }

  lemma SendNext(s: State, r: RequestId, w: WorkerId) returns (t: State)
    requires Inv(s) && r in ReadingSet(s)
    ensures Enabled(s, Send(r, w)) && Step(s, Send(r, w)) == Ok(t) && t.admission == s.admission
    ensures Drift(t) == Drift(s) && |ReadingSet(t)| < |ReadingSet(s)|
  {
    hide CountsFit, RejectedSet, Unreleased;
    t := Step(s, Send(r, w)).state;
    assert CallsFit(s.requests[r]);
    assert ReadingSet(t) == ReadingSet(s) - {r};
  }

  lemma ArriveNext(s: State, r: RequestId) returns (t: State)
    requires r !in s.requests && CanAcquire(s.admission)
    ensures Enabled(s, Arrive(r)) && Step(s, Arrive(r)) == Ok(t) && t.admission == Acquired(s.admission)
    ensures Drift(t) == Drift(s) && |ReadingSet(t)| == |ReadingSet(s)| + 1
  {
    t := Step(s, Arrive(r)).state;
    NewReader(s, t, r);
    hide Drift, ReadingSet;
  }

  lemma NewReader(s: State, t: State, r: RequestId)
    requires r !in s.requests && t.requests == s.requests[r := Request(Reading, 0, 0, 0, 0)]
    ensures Drift(t) == Drift(s) && |ReadingSet(t)| == |ReadingSet(s)| + 1
  {
    assert ReadingSet(t) == ReadingSet(s) + {r};
  }

  /** The next step on the way to a state with every slot at a worker: send a request that is
      still reading, or else admit another. */
  lemma FillStep(s: State, w: WorkerId) returns (e: Event, t: State)
    requires Inv(s) && (ReadingSet(s) != {} || s.admission.inflight < s.admission.max)
    ensures !IsFault(e) && (e.Send? ==> e.worker == w) && Enabled(s, e) && Step(s, e) == Ok(t)
    ensures Drift(t) == Drift(s) && t.admission.max == s.admission.max
    ensures (2 * (t.admission.max - t.admission.inflight) + |ReadingSet(t)|
           < 2 * (s.admission.max - s.admission.inflight) + |ReadingSet(s)|)
  {
    hide Inv, Step, Enabled, Drift, ReadingSet;
    if r :| r in ReadingSet(s) {
      e := Send(r, w);
      t := SendNext(s, r, w);
    } else {
      var r := Fresh(s.requests.Keys);
      e := Arrive(r);
      t := ArriveNext(s, r);
    }
  }

  lemma {:induction false} FillUp(s: State, w: WorkerId) returns (run: seq<Event>, t: State)
    requires Inv(s)
    ensures FaultFree(run) && SendsOnlyTo(run, w) && Leads(s, run, Ok(t)) && Inv(t)
    ensures Drift(t) == Drift(s) && ReadingSet(t) == {} && t.admission.inflight == s.admission.max
    decreases 2 * (s.admission.max - s.admission.inflight) + |ReadingSet(s)|
  {
    hide Enabled, Step, Drift, IsFault, CountsFit, CallsFit;
    if ReadingSet(s) == {} && s.admission.inflight == s.admission.max {
      run, t := [], s;
    } else {
      var e, u := FillStep(s, w);
      StepKeepsInv(s, e);
      var rest;
      rest, t := FillUp(u, w);
      run := [e] + rest;
      AfterFirst(s, e, u, rest, Ok(t));
    }
  }

  /** From any reachable state: if some request lost its slot but still counts, a further run
      without faults that sends to nobody but a given worker makes the workers carry more
      than the bound; and if there is none, no further run without faults does. */
  lemma OverloadIff(max: nat, run: seq<Event>, s: State, w: WorkerId)
    requires Reaches(max, run, Ok(s))
    ensures Drift(s) != {} <==> exists more, t ::
      FaultFree(more) && SendsOnlyTo(more, w) && Leads(s, more, Ok(t)) && TotalActive(t) > max
    ensures Drift(s) != {} <==> exists more, t :: FaultFree(more) && Leads(s, more, Ok(t)) && TotalActive(t) > max
  {
    ReachableInv(max, run, Ok(s));
    hide Reaches, Leads, FaultFree, SendsOnlyTo, TotalActive, Drift;
    if Drift(s) != {} {
      var more, t := FillUp(s, w);
      Conservation(t);
    }
    forall more, t | FaultFree(more) && Leads(s, more, Ok(t)) && TotalActive(t) > max ensures Drift(s) != {} {
      NoFaultNoDrift(s, more, t);
      LeadsInv(s, more, Ok(t));
      Conservation(t);
    }
  }

  /** Every leak is such a request, for ever. */
  lemma LeakedDrift(s: State)
    requires Inv(s)
    ensures LeakedSet(s) <= Drift(s)
  {
    forall r | r in LeakedSet(s) ensures r in Drift(s) { assert CallsFit(s.requests[r]); }
  }

  /** The request id `id` reaches the relay's headers as it is in the body: one character outside
      Latin-1 in it is enough for a leak, and then the slot is free while the worker counts the
      request for ever. */
  lemma RequestIdLeaksIff(s: State, r: RequestId, id: string, others: seq<string>)
    requires Inv(s) && r in s.requests && s.requests[r].phase.Sending? && IsLatin1(others)
    ensures Enabled(s, SendReturns(r, [id] + others)) && Step(s, SendReturns(r, [id] + others)).Ok?
    ensures (var t := Step(s, SendReturns(r, [id] + others)).state;
      && (r in LeakedSet(t) <==> exists k :: 0 <= k < |id| && id[k] as int > 0xFF)
      && t.active == s.active
      && (r in LeakedSet(t) ==> t.admission.inflight == s.admission.inflight - 1 && r in Drift(t)))
  {
    hide CountsFit, Unreleased, RejectedSet;
    var headers := [id] + others;
    assert IsLatin1(headers) <==> forall k :: 0 <= k < |id| ==> id[k] as int <= 0xFF by {
      assert headers[0] == id && headers[1..] == others;
      forall i | 0 <= i < |others| ensures headers[i + 1] == others[i] {}
    }
    assert CallsFit(s.requests[r]);
    StepKeepsInv(s, SendReturns(r, headers));
    hide IsLatin1;
  }

  // ----- a fault does break it

  /** A finalizer that frees the slot of a response nobody has cleaned up lets the workers
      carry more than the bound. */
  lemma FinalizerOverloads()
    ensures exists run, s :: Reaches(1, run, Ok(s)) && ActiveOf(s, 7) > s.admission.max
  {
    hide Leads;
    var run, s := SecondSend();
  }

  lemma SecondSend() returns (run: seq<Event>, s: State)
    ensures Reaches(1, run, Ok(s)) && ActiveOf(s, 7) == 2 && s.admission.max == 1
  {
    hide Leads, Step, Enabled;
    run := RelayOne();
    var s3 := State(Admission(1, 1, 1, 0), map[7 := 1], map[0 := Request(Relaying(7), 1, 0, 0, 0)]);
    var s4 := FinalizeStep(s3, 0);
    run := RunOne(1, run, s3, FinalizedEarly(0), s4);
    var s5 := ArriveStep(s4, 1);
    run := RunOne(1, run, s4, Arrive(1), s5);
    s := SendStep(s5, 1, 7);
    run := RunOne(1, run, s5, Send(1, 7), s);
  }

  lemma FinalizeStep(s: State, r: RequestId) returns (t: State)
    requires r in s.requests && s.requests[r].phase.Relaying? && s.requests[r].releases == 0 && s.admission.inflight > 0
    ensures Enabled(s, FinalizedEarly(r)) && Step(s, FinalizedEarly(r)) == Ok(t)
    ensures t.admission == Freed(s.admission) && t.active == s.active && t.requests.Keys == s.requests.Keys
  {
    t := Step(s, FinalizedEarly(r)).state;
  }

  lemma ArriveStep(s: State, r: RequestId) returns (t: State)
    requires r !in s.requests && CanAcquire(s.admission)
    ensures Enabled(s, Arrive(r)) && Step(s, Arrive(r)) == Ok(t) && t.active == s.active
    ensures t.admission.max == s.admission.max && r in t.requests && t.requests[r].phase.Reading?
  {
    t := Step(s, Arrive(r)).state;
  }

  lemma SendStep(s: State, r: RequestId, w: WorkerId) returns (t: State)
    requires r in s.requests && s.requests[r].phase.Reading?
    ensures Enabled(s, Send(r, w)) && Step(s, Send(r, w)) == Ok(t)
    ensures ActiveOf(t, w) == ActiveOf(s, w) + 1 && t.admission.max == s.admission.max
  {
    t := Step(s, Send(r, w)).state;
  }

  lemma RelayOne() returns (run: seq<Event>)
    ensures Reaches(1, run, Ok(State(Admission(1, 1, 1, 0), map[7 := 1], map[0 := Request(Relaying(7), 1, 0, 0, 0)])))
  {
    hide Leads;
    var full := Admission(1, 1, 1, 0);
    var reading := Request(Reading, 0, 0, 0, 0);
    var sending := Request(Sending(7), 1, 0, 0, 0);
    var s1 := State(full, map[], map[0 := reading]);
    var s2 := State(full, map[7 := 1], map[0 := sending]);
    var s3 := State(full, map[7 := 1], map[0 := Request(Relaying(7), 1, 0, 0, 0)]);
    assert s1.requests[0 := sending] == s2.requests && s2.requests[0 := s3.requests[0]] == s3.requests;
    RunNone(1);
    run := RunOne(1, [], Initial(1), Arrive(0), s1);
    run := RunOne(1, run, s1, Send(0, 7), s2);
    run := RunOne(1, run, s2, SendReturns(0, []), s3);
  }

  lemma RunNone(max: nat)
    ensures Reaches(max, [], Ok(Initial(max)))
  {
  }

  lemma RunOne(max: nat, run: seq<Event>, s: State, e: Event, t: State) returns (longer: seq<Event>)
    requires Reaches(max, run, Ok(s)) && Enabled(s, e) && Step(s, e) == Ok(t)
    ensures Reaches(max, longer, Ok(t))
  {
    longer := run + [e];
    assert longer[..|run|] == run;
  }
}
