/** What the selector can return while admin broadcasts run: the `Route` events of the step
    system are the picks of the selector on the worker objects. */
module BroadcastSelection {
  import opened Wrappers
  import opened RouterWorker
  import opened WorkerSelection
  import opened AdminBroadcast

  /** The worker objects of the pool are in the state of the step system. */
  ghost predicate IsPool(s: State, workers: seq<Worker>)
    reads workers
  {
    && Names(s.pool, workers)
    && forall i :: 0 <= i < |workers| ==>
      workers[i].state == s.health(s.pool[i]) && (workers[i].disabled <==> s.pool[i] in s.disabled)
  }

  /** A worker of the pool can be routed to exactly when it is eligible for some request. */
  lemma RouteIff(s: State, workers: seq<Worker>, i: nat)
    requires IsPool(s, workers) && i < |workers|
    ensures AdminBroadcast.Enabled(s, Route(s.pool[i])) <==> exists required, model :: IsEligible(workers, required, model, workers[i])
  {
    assert s.pool[i] in s.pool && workers[i] in workers;
    if AdminBroadcast.Enabled(s, Route(s.pool[i])) { assert IsEligible(workers, {}, None, workers[i]); }
  }

  /** In every run: a target between its disable and its restore is eligible for some request
      if and only if it is healthy and the operator's last write since the disable was `false`. */
  lemma HeldIsEligibleIff(first: State, run: seq<AdminBroadcast.Event>, s: State, b: BroadcastId, workers: seq<Worker>, i: nat)
    requires Initial(first) && Leads(first, run, Some(s)) && IsPool(s, workers) && i < |workers|
    requires Holds(s, b) && s.pool[i] in s.broadcasts[b].targets
    ensures (exists required, model :: IsEligible(workers, required, model, workers[i]))
      <==> workers[i].state.Healthy? && LastWrite(run, b, s.pool[i]) == Some(false)
  {
    hide Leads, Initial, Holds, LastWrite, IsEligible, AdminBroadcast.Enabled;
    RouteIff(s, workers, i);
    HeldIsSelectedIff(first, run, s, b, s.pool[i]);
    assert s.pool[i] in s.pool;
  }

  /** The proxy's call of the selector on the current workers, at any point of any run: the pick
      is one the step system allows, and no target of a running update broadcast unless the
      operator's last write to it was `false`. */
  method SelectWorker(selector: WorkerSelector, workers: seq<Worker>, required: set<Capability>, model: Option<string>,
                      ghost first: State, ghost run: seq<AdminBroadcast.Event>, ghost s: State) returns (r: Option<nat>)
    requires Initial(first) && Leads(first, run, Some(s)) && IsPool(s, workers)
    modifies selector`rrIndex
    ensures r.None? <==> forall w :: !IsEligible(workers, required, model, w)
    ensures r.Some? ==> r.value < |workers| && AdminBroadcast.Enabled(s, Route(s.pool[r.value]))
    ensures r.Some? ==> forall b: BroadcastId ::
      Holds(s, b) && s.pool[r.value] in s.broadcasts[b].targets ==> LastWrite(run, b, s.pool[r.value]) == Some(false)
  {
    hide Leads, Initial, LastWrite, IsEligible, AdminBroadcast.Enabled;
    r := selector.Select(workers, required, model);
    if r.Some? {
      RouteIff(s, workers, r.value);
      forall b: BroadcastId | Holds(s, b) && s.pool[r.value] in s.broadcasts[b].targets
        ensures LastWrite(run, b, s.pool[r.value]) == Some(false)
      {
        HeldIsEligibleIff(first, run, s, b, workers, r.value);
      }
    }
  }
}
