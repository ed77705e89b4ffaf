/** Admin broadcasts: update broadcasts take turns under a lock, disable their targets while
    the upstream requests run, and restore the flags. The rest of the router runs in between. */
module AdminBroadcast {
  import opened Wrappers
  import opened RouterWorker

  // ----- the two segments that write flags, on worker objects

  datatype Path = InitGroup | OtherUpdate | Query

  predicate IsUpdate(p: Path) { !p.Query? }

  /** What `_send_admin_to_worker` reports for one worker. */
  datatype Report = Report(worker: string, success: bool)

  /** A worker object. Its URL cannot change, and two objects may have the same URL. */
  datatype Ref = Ref(id: nat, url: string)

  function UrlsOf(targets: seq<Ref>): set<string> { set w | w in targets :: w.url }

  /** The URLs a group-init broadcast leaves disabled; no results means that gathering raised. */
  function KeepDisabled(p: Path, targets: seq<Ref>, results: Option<seq<Report>>): set<string> {
    if !p.InitGroup? then {}
    else if results.None? then UrlsOf(targets)
    else set r | r in results.value && !r.success :: r.worker
  }

  /** The flags the broadcast found, by URL; a later target with the same URL wins. */
  function Previous(targets: seq<Ref>, disabled: set<Ref>): map<string, bool> {
    if targets == [] then map[] else
    var w := targets[|targets| - 1];
    Previous(targets[..|targets| - 1], disabled)[w.url := w in disabled]
  }

  predicate ReDisabled(w: Ref, keep: set<string>, previous: map<string, bool>) {
    w.url in keep || (w.url in previous && previous[w.url])
  }

  /** The disabled workers after a restore. */
  function Restored(targets: seq<Ref>, disabled: set<Ref>, keep: set<string>, previous: map<string, bool>): set<Ref> {
    set w | w in disabled + Members(targets) && (w in targets ==> ReDisabled(w, keep, previous))
  }

  function Members(targets: seq<Ref>): set<Ref> { set w | w in targets }

  predicate DistinctUrls(ws: seq<Ref>) { forall i, j :: 0 <= i < j < |ws| ==> ws[i].url != ws[j].url }

  /** References for a list of objects: one for each object, with its URL. */
  ghost predicate Names(refs: seq<Ref>, workers: seq<Worker>)
    reads workers
  {
    && |refs| == |workers|
    && (forall i :: 0 <= i < |refs| ==> refs[i].url == workers[i].config.url)
    && (forall i, j :: 0 <= i < |refs| && 0 <= j < |refs| ==> (refs[i] == refs[j] <==> workers[i] == workers[j]))
  }

  /** The flags of a list of objects as the set of the disabled ones. */
  ghost function DisabledOf(workers: seq<Worker>, refs: seq<Ref>): set<Ref>
    requires |refs| == |workers|
    reads workers
  {
    set i | 0 <= i < |workers| && workers[i].disabled :: refs[i]
  }

  /** No later target has the URL of target i. */
  ghost predicate IsLastNamed(refs: seq<Ref>, i: nat) {
    i < |refs| && forall j :: i < j < |refs| ==> refs[j].url != refs[i].url
  }

  lemma {:induction false} LastNamed(refs: seq<Ref>, disabled: set<Ref>, i: nat)
    requires i < |refs|
    ensures refs[i].url in Previous(refs, disabled)
    ensures IsLastNamed(refs, i) ==> Previous(refs, disabled)[refs[i].url] == (refs[i] in disabled)
    decreases |refs|
  {
    var n := |refs| - 1;
    if i < n { LastNamed(refs[..n], disabled, i); }
  }

  /** The flags of the targets, by URL. */
  method RememberFlags(workers: seq<Worker>, ghost refs: seq<Ref>) returns (previous: map<string, bool>)
    requires Names(refs, workers)
    ensures previous == Previous(refs, DisabledOf(workers, refs))
    ensures forall i :: 0 <= i < |workers| ==> workers[i].config.url in previous
    ensures forall i :: 0 <= i < |workers| && IsLastNamed(refs, i) ==> previous[workers[i].config.url] == workers[i].disabled
  {
    ghost var before := DisabledOf(workers, refs);
    assert forall i :: 0 <= i < |workers| ==> (refs[i] in before <==> workers[i].disabled);
    hide DisabledOf, IsLastNamed;
    previous := map[];
    for i := 0 to |workers|
      invariant previous == Previous(refs[..i], before)
    {
      assert refs[..i + 1][..i] == refs[..i];
      previous := previous[workers[i].config.url := workers[i].disabled];
    }
    assert refs[..|workers|] == refs;
    forall i | 0 <= i < |workers|
      ensures refs[i].url in previous && (IsLastNamed(refs, i) ==> previous[refs[i].url] == workers[i].disabled)
    {
      LastNamed(refs, before, i);
    }
  }

  method DisableTargets(workers: seq<Worker>, disable: bool, ghost refs: seq<Ref>) returns (previous: map<string, bool>)
    requires Names(refs, workers)
    modifies (set w | w in workers)`disabled
    ensures previous == Previous(refs, old(DisabledOf(workers, refs)))
    ensures forall i :: 0 <= i < |workers| ==> workers[i].config.url in previous
    ensures forall i :: 0 <= i < |workers| && IsLastNamed(refs, i) ==> previous[workers[i].config.url] == old(workers[i].disabled)
    ensures forall w :: w in workers ==> w.disabled == (disable || old(w.disabled))
  {
    hide Previous, IsLastNamed, DisabledOf;
    previous := RememberFlags(workers, refs);
    if disable {
      for i := 0 to |workers|
        invariant forall j :: 0 <= j < i ==> workers[j].disabled
        invariant forall w :: w in workers && !w.disabled ==> !old(w.disabled)
      {
        workers[i].SetDisabled(true);
      }
    }
  }

  /** A group-init raised, or reported a failure for this URL. */
  ghost predicate InitFailed(p: Path, url: string, results: Option<seq<Report>>) {
    p == InitGroup && (results.None? || Report(url, false) in results.value)
  }

  method RestoreAdminDisabledState(p: Path, workers: seq<Worker>, previous: map<string, bool>,
                                   results: Option<seq<Report>>, ghost refs: seq<Ref>)
    requires Names(refs, workers) && forall w :: w in workers ==> w.config.url in previous
    modifies (set w | w in workers)`disabled
    ensures forall i :: 0 <= i < |workers| ==>
      workers[i].disabled == ReDisabled(refs[i], KeepDisabled(p, refs, results), previous)
    ensures forall i :: 0 <= i < |workers| ==>
      (workers[i].disabled <==> previous[workers[i].config.url] || InitFailed(p, workers[i].config.url, results))
  {
    var keep: set<string> := {};
    if p.InitGroup? {
      if results.None? {
        keep := set w | w in workers :: w.config.url;
        KeepsAll(workers, refs);
      } else {
        keep := set r | r in results.value && !r.success :: r.worker;
      }
    }
    for i := 0 to |workers|
      invariant forall j :: 0 <= j < i ==> workers[j].disabled == ReDisabled(refs[j], keep, previous)
    {
      if workers[i].config.url in keep {
        workers[i].SetDisabled(true);
        continue;
      }
      workers[i].SetDisabled(previous[workers[i].config.url]);
    }
  }

  lemma KeepsAll(workers: seq<Worker>, refs: seq<Ref>)
    requires Names(refs, workers)
    ensures (set w | w in workers :: w.config.url) == UrlsOf(refs)
  {
    forall i | 0 <= i < |workers| ensures workers[i].config.url in UrlsOf(refs) {
      assert refs[i] in refs;
    }
    forall u | u in UrlsOf(refs) ensures u in (set w | w in workers :: w.config.url) {
      var i :| 0 <= i < |workers| && refs[i].url == u;
      assert workers[i] in workers;
    }
  }

  // ----- the step system

  type BroadcastId = nat

  datatype Phase = Waiting | ReadingBody | Gathering(previous: map<string, bool>) | Done

  datatype Broadcast = Broadcast(path: Path, targets: seq<Ref>, phase: Phase)

  /** `original` and `initFailed` are history: the flags set before the run or by an operator
      while no update broadcast holds the worker, and the workers a group-init broadcast
      failed on since. No step reads them. */
  datatype State = State(
    known: set<Ref>, pool: seq<Ref>, health: Ref -> HealthState, disabled: set<Ref>,
    lock: Option<BroadcastId>, broadcasts: map<BroadcastId, Broadcast>,
    original: set<Ref>, initFailed: set<Ref>)

  datatype Event =
    | Arrive(b: BroadcastId, path: Path)
    | Acquire(b: BroadcastId)
    | GiveUp(b: BroadcastId)                                 // timeout or cancellation while waiting
    | BodyRead(b: BroadcastId)
    | BodyFails(b: BroadcastId)                              // reading the body raised or was cancelled
    | GatherEnds(b: BroadcastId, success: Option<seq<bool>>) // no value: gathering raised or was cancelled
    | SetHealth(w: Ref, state: HealthState)                  // probes, request failures, mark and clear dead
    | Create(w: Ref)
    | Delete(w: Ref)
    | Route(w: Ref)                                          // selection picks this worker
    | Put(w: Ref, value: bool)                               // an operator writes the flag

  function Live(s: State, ws: seq<Ref>): (r: seq<Ref>)
    ensures forall w :: w in r <==> w in ws && !s.health(w).Dead?
  {
    if ws == [] then [] else
    var rest := Live(s, ws[..|ws| - 1]);
    if s.health(ws[|ws| - 1]).Dead? then rest else rest + [ws[|ws| - 1]]
  }

  predicate InPhase(s: State, b: BroadcastId, p: Phase) { b in s.broadcasts && s.broadcasts[b].phase == p }

  predicate IsGathering(s: State, b: BroadcastId) { b in s.broadcasts && s.broadcasts[b].phase.Gathering? }

  predicate Holds(s: State, b: BroadcastId) { IsGathering(s, b) && IsUpdate(s.broadcasts[b].path) }

  /** An update broadcast is between its disable and its restore, with w as a target. */
  ghost predicate Held(s: State, w: Ref) { exists b: BroadcastId :: Holds(s, b) && w in s.broadcasts[b].targets }

  predicate IsRoutable(s: State, w: Ref) { w in s.pool && s.health(w).Healthy? && w !in s.disabled }

  ghost predicate Enabled(s: State, e: Event) {
    match e
    case Arrive(b, _) => b !in s.broadcasts
    case Acquire(b) => InPhase(s, b, Waiting) && s.lock.None?
    case GiveUp(b) => InPhase(s, b, Waiting)
    case BodyRead(b) => InPhase(s, b, ReadingBody)
    case BodyFails(b) => InPhase(s, b, ReadingBody)
    case GatherEnds(b, success) =>
      IsGathering(s, b) && (success.Some? ==> |success.value| == |s.broadcasts[b].targets|)
    case SetHealth(w, _) => w in s.known
    case Create(w) => w !in s.known
    case Delete(w) => w in s.pool
    case Route(w) => IsRoutable(s, w)
    case Put(w, _) => w in s.known
  }

  function Reports(targets: seq<Ref>, success: Option<seq<bool>>): Option<seq<Report>>
    requires success.Some? ==> |success.value| == |targets|
  {
    if success.None? then None
    else Some(seq(|targets|, i requires 0 <= i < |targets| => Report(targets[i].url, success.value[i])))
  }

  /** The targets a group-init broadcast failed on. */
  function FailedOn(p: Path, targets: seq<Ref>, success: Option<seq<bool>>): set<Ref>
    requires success.Some? ==> |success.value| == |targets|
  {
    if !p.InitGroup? then {}
    else set i | 0 <= i < |targets| && (success.None? || !success.value[i]) :: targets[i]
  }

  function Moved(s: State, b: BroadcastId, p: Phase): State
    requires b in s.broadcasts
  {
    s.(broadcasts := s.broadcasts[b := s.broadcasts[b].(phase := p)])
  }

  function Unlocked(s: State, p: Path): State { if IsUpdate(p) then s.(lock := None) else s }

  function SetFlag(flags: set<Ref>, w: Ref, value: bool): set<Ref> { if value then flags + {w} else flags - {w} }

  function Without(ws: seq<Ref>, w: Ref): (r: seq<Ref>)
    ensures forall v :: v in r ==> v in ws
  {
    if ws == [] then [] else if ws[0] == w then ws[1..] else [ws[0]] + Without(ws[1..], w)
  }

  function Arrived(s: State, b: BroadcastId, path: Path): State {
    var targets := Live(s, s.pool);
    var phase :=
      if targets == [] || (path.InitGroup? && |targets| > 1) then Done
      else if IsUpdate(path) then Waiting
      else ReadingBody;
    s.(broadcasts := s.broadcasts[b := Broadcast(path, targets, phase)])
  }

  function Started(s: State, b: BroadcastId): State
    requires b in s.broadcasts
  {
    var c := s.broadcasts[b];
    var t := Moved(s, b, Gathering(Previous(c.targets, s.disabled)));
    if IsUpdate(c.path) then t.(disabled := s.disabled + Members(c.targets)) else t
  }

  /** `None` is a `KeyError` in the restore. */
  function Ended(s: State, b: BroadcastId, success: Option<seq<bool>>): Option<State>
    requires IsGathering(s, b) && (success.Some? ==> |success.value| == |s.broadcasts[b].targets|)
  {
    var c := s.broadcasts[b];
    var t := Unlocked(Moved(s, b, Done), c.path);
    if !IsUpdate(c.path) then Some(t) else
    var keep := KeepDisabled(c.path, c.targets, Reports(c.targets, success));
    if exists w :: w in c.targets && w.url !in keep && w.url !in c.phase.previous then None
    else Some(t.(disabled := Restored(c.targets, s.disabled, keep, c.phase.previous),
                 initFailed := s.initFailed + FailedOn(c.path, c.targets, success)))
  }

  /** While a broadcast holds the worker, its restore is going to overwrite the flag. */
  ghost function Written(s: State, w: Ref, value: bool): State {
    var t := s.(disabled := SetFlag(s.disabled, w, value));
    if Held(s, w) then t else t.(original := SetFlag(s.original, w, value), initFailed := s.initFailed - {w})
  }

  ghost function Step(s: State, e: Event): Option<State>
    requires Enabled(s, e)
  {
    match e
    case Arrive(b, path) => Some(Arrived(s, b, path))
    case Acquire(b) => Some(Moved(s, b, ReadingBody).(lock := Some(b)))
    case GiveUp(b) => Some(Moved(s, b, Done))
    case BodyRead(b) => Some(Started(s, b))
    case BodyFails(b) => Some(Unlocked(Moved(s, b, Done), s.broadcasts[b].path))
    case GatherEnds(b, success) => Ended(s, b, success)
    case SetHealth(w, state) => Some(s.(health := (v: Ref) => if v == w then state else s.health(v)))
    case Create(w) =>
      Some(if w.url in UrlsOf(s.pool) then s else s.(known := s.known + {w}, pool := s.pool + [w]))
    case Delete(w) => Some(s.(pool := Without(s.pool, w)))
    case Route(_) => Some(s)
    case Put(w, value) => Some(Written(s, w, value))
  }

  /** The router at rest: distinct URLs, no broadcast, any flags. */
  ghost predicate Initial(s: State) {
    && s.lock.None? && s.broadcasts == map[]
    && DistinctUrls(s.pool) && Members(s.pool) <= s.known && s.disabled <= s.known
    && s.original == s.disabled && s.initFailed == {}
  }

  /** The state a run leads to; every event must be enabled when it happens. */
  ghost predicate Leads(first: State, run: seq<Event>, o: Option<State>)
    decreases |run|
  {
    if run == [] then o == Some(first) else
    var n := |run| - 1;
    exists s :: Leads(first, run[..n], Some(s)) && Enabled(s, run[n]) && o == Step(s, run[n])
  }

  ghost predicate Reaches(run: seq<Event>, o: Option<State>) { exists first :: Initial(first) && Leads(first, run, o) }

  // ----- what every reachable state keeps

  /** The lock names exactly the update broadcast between its acquire and its release; only
      update broadcasts wait for it. */
  ghost predicate LockFits(s: State) {
    && (forall b: BroadcastId :: s.lock == Some(b) <==>
      b in s.broadcasts && IsUpdate(s.broadcasts[b].path) &&
      (s.broadcasts[b].phase.ReadingBody? || s.broadcasts[b].phase.Gathering?))
    && (forall b: BroadcastId :: InPhase(s, b, Waiting) ==> IsUpdate(s.broadcasts[b].path))
  }

  ghost function HeldSet(s: State): set<Ref> {
    if s.lock.Some? && Holds(s, s.lock.value) then Members(s.broadcasts[s.lock.value].targets) else {}
  }

  ghost predicate FlagsFit(s: State) {
    forall w: Ref :: w !in HeldSet(s) ==> (w in s.disabled <==> w in s.original + s.initFailed)
  }

  ghost predicate TargetsFit(s: State) {
    forall b: BroadcastId :: b in s.broadcasts ==>
      DistinctUrls(s.broadcasts[b].targets) && Members(s.broadcasts[b].targets) <= s.known
  }

  /** The holder remembers the flags its targets go back to. */
  ghost predicate PreviousFits(s: State) {
    s.lock.Some? && Holds(s, s.lock.value) ==>
      s.broadcasts[s.lock.value].phase.previous
      == Previous(s.broadcasts[s.lock.value].targets, s.original + s.initFailed)
  }

  ghost predicate PoolFits(s: State) {
    && DistinctUrls(s.pool) && Members(s.pool) <= s.known
    && s.original + s.initFailed <= s.known
  }

  ghost predicate Inv(s: State) { LockFits(s) && FlagsFit(s) && TargetsFit(s) && PreviousFits(s) && PoolFits(s) }

  // ----- lists of workers

  lemma {:induction false} LiveDistinct(s: State, ws: seq<Ref>)
    requires DistinctUrls(ws)
    ensures DistinctUrls(Live(s, ws))
  {
    if ws != [] {
      var front := ws[..|ws| - 1];
      LiveDistinct(s, front);
      forall i | 0 <= i < |Live(s, front)| ensures Live(s, front)[i].url != ws[|ws| - 1].url {
        assert Live(s, front)[i] in front;
      }
    }
  }

  lemma {:induction false} WithoutDistinct(ws: seq<Ref>, w: Ref)
    requires DistinctUrls(ws)
    ensures DistinctUrls(Without(ws, w))
  {
    if ws != [] && ws[0] != w {
      WithoutDistinct(ws[1..], w);
      forall i | 0 <= i < |Without(ws[1..], w)| ensures Without(ws[1..], w)[i].url != ws[0].url {
        assert Without(ws[1..], w)[i] in ws[1..];
      }
    }
  }

  // ----- the remembered flags

  lemma {:induction false} PreviousOf(targets: seq<Ref>, disabled: set<Ref>, w: Ref)
    requires DistinctUrls(targets) && w in targets
    ensures w.url in Previous(targets, disabled) && Previous(targets, disabled)[w.url] == (w in disabled)
  {
    var last := targets[|targets| - 1];
    if w != last {
      var i :| 0 <= i < |targets| && targets[i] == w;
      assert targets[..|targets| - 1][i] == w;
      PreviousOf(targets[..|targets| - 1], disabled, w);
    }
  }

  /** Only the flags of the targets are remembered. */
  lemma {:induction false} PreviousAgrees(targets: seq<Ref>, a: set<Ref>, b: set<Ref>)
    requires forall w :: w in targets ==> (w in a <==> w in b)
    ensures Previous(targets, a) == Previous(targets, b)
  {
    if targets != [] { PreviousAgrees(targets[..|targets| - 1], a, b); }
  }

  /** Matching by URL is matching by object, since the URLs of one broadcast differ. */
  lemma KeptAreFailed(p: Path, targets: seq<Ref>, success: Option<seq<bool>>, w: Ref)
    requires DistinctUrls(targets) && w in targets && (success.Some? ==> |success.value| == |targets|)
    ensures w.url in KeepDisabled(p, targets, Reports(targets, success)) <==> w in FailedOn(p, targets, success)
  {
    var i :| 0 <= i < |targets| && targets[i] == w;
    if p.InitGroup? && success.Some? {
      var reports := Reports(targets, success).value;
      if !success.value[i] {
        assert reports[i] in reports;
      } else {
        forall j | 0 <= j < |targets| && reports[j].worker == w.url ensures j == i {}
        assert forall r :: r in reports && r.worker == w.url ==> r.success;
      }
    }
  }

  /** What a restore leaves, whatever was written to the flags of its targets meanwhile: the
      flags from before the disable, and the failed group-inits. */
  lemma RestoredFlags(p: Path, targets: seq<Ref>, success: Option<seq<bool>>, before: set<Ref>, now: set<Ref>)
    requires DistinctUrls(targets) && (success.Some? ==> |success.value| == |targets|)
    requires forall w :: w !in targets ==> (w in now <==> w in before)
    ensures (Restored(targets, now, KeepDisabled(p, targets, Reports(targets, success)), Previous(targets, before))
          == before + FailedOn(p, targets, success))
  {
    hide KeepDisabled, Reports, Previous;
    forall w | w in targets
      ensures (w.url in KeepDisabled(p, targets, Reports(targets, success)) <==> w in FailedOn(p, targets, success))
      ensures w.url in Previous(targets, before) && Previous(targets, before)[w.url] == (w in before)
    {
      KeptAreFailed(p, targets, success, w);
      PreviousOf(targets, before, w);
    }
    assert forall w :: w in FailedOn(p, targets, success) ==> w in targets;
  }

  // ----- each step keeps the invariant

  lemma HolderIsTheLock(s: State, b: BroadcastId)
    requires LockFits(s) && Holds(s, b)
    ensures s.lock == Some(b)
  {
  }

  lemma HeldIsHeldSet(s: State, w: Ref)
    requires LockFits(s)
    ensures Held(s, w) <==> w in HeldSet(s)
  {
    if Held(s, w) {
      var b: BroadcastId :| Holds(s, b) && w in s.broadcasts[b].targets;
      HolderIsTheLock(s, b);
    }
  }

  lemma StepArrives(s: State, b: BroadcastId, path: Path)
    requires Inv(s) && b !in s.broadcasts
    ensures Inv(Arrived(s, b, path))
  {
    LiveDistinct(s, s.pool);
    hide DistinctUrls, Live, Previous;
    var targets := Live(s, s.pool);
    assert Members(targets) <= Members(s.pool);
  }

  lemma StepMoves(s: State, b: BroadcastId, p: Phase, t: State)
    requires Inv(s) && b in s.broadcasts && !s.broadcasts[b].phase.Gathering? && !p.Gathering?
    requires t == Moved(s, b, p).(lock := t.lock) && LockFits(t)
    ensures Inv(t)
  {
    hide DistinctUrls, Previous, LockFits;
    HeldBefore(s, b, p, t);
  }

  lemma HeldBefore(s: State, b: BroadcastId, p: Phase, t: State)
    requires LockFits(s) && b in s.broadcasts && !s.broadcasts[b].phase.Gathering? && !p.Gathering?
    requires t == Moved(s, b, p).(lock := t.lock) && LockFits(t)
    ensures HeldSet(t) == HeldSet(s)
    ensures (t.lock.Some? && Holds(t, t.lock.value)) ==> t.lock == s.lock && t.lock.value != b
  {
  }

  lemma StepStarts(s: State, b: BroadcastId)
    requires Inv(s) && InPhase(s, b, ReadingBody)
    ensures Inv(Started(s, b))
  {
    hide DistinctUrls, Previous;
    var c := s.broadcasts[b];
    if IsUpdate(c.path) {
      assert s.lock == Some(b) && HeldSet(s) == {};
      assert s.disabled == s.original + s.initFailed;
    } else {
      assert s.lock != Some(b);
    }
  }

  lemma StepEnds(s: State, b: BroadcastId, success: Option<seq<bool>>)
    requires Inv(s) && Enabled(s, GatherEnds(b, success))
    ensures Ended(s, b, success).Some? && Inv(Ended(s, b, success).value)
  {
    hide DistinctUrls, Previous, Restored, KeepDisabled, Reports, FailedOn;
    var c := s.broadcasts[b];
    if IsUpdate(c.path) {
      HolderIsTheLock(s, b);
      var before := s.original + s.initFailed;
      RestoredFlags(c.path, c.targets, success, before, s.disabled);
      forall w | w in c.targets ensures w.url in c.phase.previous { PreviousOf(c.targets, before, w); }
      FailedAreKnown(s, b, success);
    } else {
      assert s.lock != Some(b);
    }
  }

  lemma FailedAreKnown(s: State, b: BroadcastId, success: Option<seq<bool>>)
    requires TargetsFit(s) && Enabled(s, GatherEnds(b, success))
    ensures FailedOn(s.broadcasts[b].path, s.broadcasts[b].targets, success) <= s.known
  {
    assert forall i :: 0 <= i < |s.broadcasts[b].targets| ==> s.broadcasts[b].targets[i] in Members(s.broadcasts[b].targets);
  }

  lemma StepCreates(s: State, w: Ref)
    requires Inv(s) && Enabled(s, Create(w))
    ensures Inv(Step(s, Create(w)).value)
  {
    hide Previous, LockFits, FlagsFit, PreviousFits;
    var t := Step(s, Create(w)).value;
    assert HeldSet(t) == HeldSet(s);
    SamePart(s, t);
    forall i | 0 <= i < |s.pool| ensures s.pool[i].url in UrlsOf(s.pool) {}
  }

  lemma SamePart(s: State, t: State)
    requires LockFits(s) && FlagsFit(s) && PreviousFits(s)
    requires t == s.(known := t.known, pool := t.pool, health := t.health)
    ensures LockFits(t) && FlagsFit(t) && PreviousFits(t)
  {
  }

  lemma StepDeletes(s: State, w: Ref)
    requires Inv(s)
    ensures Inv(s.(pool := Without(s.pool, w)))
  {
    WithoutDistinct(s.pool, w);
    SamePart(s, s.(pool := Without(s.pool, w)));
    hide DistinctUrls, Previous, LockFits, FlagsFit, PreviousFits;
  }

  lemma StepPuts(s: State, w: Ref, value: bool)
    requires Inv(s) && Enabled(s, Put(w, value))
    ensures Inv(Step(s, Put(w, value)).value)
  {
    HeldIsHeldSet(s, w);
    hide DistinctUrls, Previous, Held;
    var t := Step(s, Put(w, value)).value;
    assert HeldSet(t) == HeldSet(s);
    if s.lock.Some? && Holds(s, s.lock.value) {
      PreviousAgrees(s.broadcasts[s.lock.value].targets, s.original + s.initFailed, t.original + t.initFailed);
    }
  }

  lemma StepKeepsInv(s: State, e: Event)
    requires Inv(s) && Enabled(s, e)
    ensures Step(s, e).Some? && Inv(Step(s, e).value)
  {
    hide Inv, Ended, Started, Arrived;
    match e
    case Arrive(b, path) => StepArrives(s, b, path);
    case Acquire(b) => AcquireKeepsLock(s, b); StepMoves(s, b, ReadingBody, Step(s, e).value);
    case GiveUp(b) => GiveUpKeepsLock(s, b); StepMoves(s, b, Done, Step(s, e).value);
    case BodyRead(b) => StepStarts(s, b);
    case BodyFails(b) => BodyFailsKeepsLock(s, b); StepMoves(s, b, Done, Step(s, e).value);
    case GatherEnds(b, success) => StepEnds(s, b, success);
    case SetHealth(w, state) => HealthKeeps(s, e);
    case Create(w) => StepCreates(s, w);
    case Delete(w) => StepDeletes(s, w);
    case Route(w) =>
    case Put(w, value) => StepPuts(s, w, value);
  }

  lemma HealthKeeps(s: State, e: Event)
    requires Inv(s) && Enabled(s, e) && e.SetHealth?
    ensures Inv(Step(s, e).value)
  {
    SamePart(s, Step(s, e).value);
    hide DistinctUrls, Previous, LockFits, FlagsFit, PreviousFits;
  }

  lemma AcquireKeepsLock(s: State, b: BroadcastId)
    requires Inv(s) && Enabled(s, Acquire(b))
    ensures LockFits(Step(s, Acquire(b)).value)
  {
    hide FlagsFit, TargetsFit, PreviousFits, PoolFits;
  }

  lemma GiveUpKeepsLock(s: State, b: BroadcastId)
    requires Inv(s) && Enabled(s, GiveUp(b))
    ensures LockFits(Step(s, GiveUp(b)).value)
  {
    hide FlagsFit, TargetsFit, PreviousFits, PoolFits;
  }

  lemma BodyFailsKeepsLock(s: State, b: BroadcastId)
    requires Inv(s) && Enabled(s, BodyFails(b))
    ensures LockFits(Step(s, BodyFails(b)).value)
  {
    hide FlagsFit, TargetsFit, PreviousFits, PoolFits;
  }

  // ----- every run

  lemma {:induction false} LeadsInv(first: State, run: seq<Event>, o: Option<State>)
    requires Inv(first) && Leads(first, run, o)
    ensures o.Some? && Inv(o.value)
    decreases |run|
  {
    var n := |run| - 1;
    if run != [] {
      hide Inv, Step, Enabled;
      var s :| Leads(first, run[..n], Some(s)) && Enabled(s, run[n]) && o == Step(s, run[n]);
      LeadsInv(first, run[..n], Some(s));
      StepKeepsInv(s, run[n]);
    }
  }

  /** No restore misses a key, and every state a run reaches keeps the invariant. */
  lemma ReachableInv(run: seq<Event>, o: Option<State>)
    requires Reaches(run, o)
    ensures o.Some? && Inv(o.value)
  {
    hide DistinctUrls, Leads;
    var first :| Initial(first) && Leads(first, run, o);
    LeadsInv(first, run, o);
  }

  /** At most one update broadcast is between its acquire and its release. */
  lemma OneOwner(run: seq<Event>, s: State, b: BroadcastId, c: BroadcastId)
    requires Reaches(run, Some(s))
    requires b in s.broadcasts && IsUpdate(s.broadcasts[b].path)
    requires c in s.broadcasts && IsUpdate(s.broadcasts[c].path)
    requires s.broadcasts[b].phase.ReadingBody? || s.broadcasts[b].phase.Gathering?
    requires s.broadcasts[c].phase.ReadingBody? || s.broadcasts[c].phase.Gathering?
    ensures b == c
  {
    ReachableInv(run, Some(s));
    hide FlagsFit, TargetsFit, PreviousFits, PoolFits;
    assert s.lock == Some(b) && s.lock == Some(c);
  }

  /** At every instant the flag of a worker no update broadcast holds is its original value,
      or true because a group-init broadcast failed on the worker; nothing else changed it. */
  lemma FlagsAtRest(run: seq<Event>, s: State, w: Ref)
    requires Reaches(run, Some(s)) && !Held(s, w)
    ensures w in s.disabled <==> w in s.original || w in s.initFailed
  {
    ReachableInv(run, Some(s));
    HeldIsHeldSet(s, w);
  }

  /** Only an operator changes what counts as original, only while no broadcast holds the
      worker, and only a failed group-init adds to the failed workers. */
  lemma HistoryIsHistory(s: State, e: Event, w: Ref)
    requires Enabled(s, e) && Step(s, e).Some? && !(e.Put? && e.w == w && !Held(s, w))
    ensures w in Step(s, e).value.original <==> w in s.original
    ensures (w in Step(s, e).value.initFailed
        <==> (w in s.initFailed
          || (e.GatherEnds? && w in FailedOn(s.broadcasts[e.b].path, s.broadcasts[e.b].targets, e.success))))
  {
    hide Restored, KeepDisabled, Reports, Previous, Live, DistinctUrls;
  }

  /** A broadcast that is not an update changes no flag and never waits. */
  lemma QueryKeepsFlags(s: State, e: Event)
    requires Enabled(s, e) && (e.Acquire? || e.GiveUp? || e.BodyRead? || e.BodyFails? || e.GatherEnds?)
    requires LockFits(s) && s.broadcasts[e.b].path.Query?
    ensures Step(s, e).Some? && Step(s, e).value.disabled == s.disabled && Step(s, e).value.lock == s.lock
    ensures !e.Acquire? && !e.GiveUp?
  {
    hide Restored, KeepDisabled, Reports, Previous, Live, DistinctUrls;
  }

  /** When every broadcast is over, nobody has the lock and every flag is at rest. */
  lemma AllOver(run: seq<Event>, s: State)
    requires Reaches(run, Some(s))
    requires forall b: BroadcastId :: b in s.broadcasts ==> s.broadcasts[b].phase.Done?
    ensures s.lock.None? && s.disabled == s.original + s.initFailed
  {
    ReachableInv(run, Some(s));
    assert forall b: BroadcastId :: s.lock != Some(b);
    if lock: BroadcastId :| s.lock == Some(lock) {}
  }

  // ----- which broadcasts get to work

  /** An arrival takes the live workers of the pool as its targets. It is over at once if there
      is none, or if it is a group-init and there are several; otherwise an update waits for the
      lock and a query reads its body. */
  lemma ArrivalIs(s: State, b: BroadcastId, path: Path)
    requires b !in s.broadcasts
    ensures (var t := Arrived(s, b, path);
      && b in t.broadcasts && t.broadcasts[b].path == path
      && (forall w :: w in t.broadcasts[b].targets <==> w in s.pool && s.health(w) != Dead)
      && (t.broadcasts[b].phase == Done
          <==> (forall w :: w in s.pool ==> s.health(w) == Dead) || (path == InitGroup && |t.broadcasts[b].targets| > 1))
      && (t.broadcasts[b].phase != Done ==> t.broadcasts[b].phase == if path == Query then ReadingBody else Waiting))
  {
    var targets := Live(s, s.pool);
    assert targets != [] ==> targets[0] in targets;
  }

  /** A broadcast that is not over has a target, and a group-init has no other. */
  ghost predicate HasWork(s: State) {
    forall b: BroadcastId :: b in s.broadcasts && s.broadcasts[b].phase != Done ==>
      |s.broadcasts[b].targets| >= 1 && (s.broadcasts[b].path == InitGroup ==> |s.broadcasts[b].targets| == 1)
  }

  lemma StepKeepsWork(s: State, e: Event)
    requires HasWork(s) && Enabled(s, e) && Step(s, e).Some?
    ensures HasWork(Step(s, e).value)
  {
    hide Live, Previous, Restored, KeepDisabled, Reports, FailedOn, Held, DistinctUrls;
  }

  /** In every run: no broadcast works without targets, and no group-init on more than one. */
  lemma {:induction false} AlwaysHasWork(first: State, run: seq<Event>, s: State)
    requires Initial(first) && Leads(first, run, Some(s))
    ensures HasWork(s)
    decreases |run|
  {
    if run != [] {
      hide HasWork, Step, Enabled, Initial;
      var n := |run| - 1;
      var before :| Leads(first, run[..n], Some(before)) && Enabled(before, run[n]) && Some(s) == Step(before, run[n]);
      AlwaysHasWork(first, run[..n], before);
      StepKeepsWork(before, run[n]);
    }
  }

  // ----- a held worker

  /** What the operator wrote last to a worker since broadcast b disabled its targets. */
  ghost function LastWrite(run: seq<Event>, b: BroadcastId, w: Ref): Option<bool> {
    if run == [] then None else
    var last := run[|run| - 1];
    if last == BodyRead(b) then None
    else if last.Put? && last.w == w then Some(last.value)
    else LastWrite(run[..|run| - 1], b, w)
  }

  /** A broadcast that holds after a step has just started, or held before the step and then
      nothing but a write touched its targets. */
  lemma HoldStep(s: State, e: Event, b: BroadcastId, w: Ref)
    requires Inv(s) && Enabled(s, e) && Step(s, e).Some?
    requires Holds(Step(s, e).value, b) && w in Step(s, e).value.broadcasts[b].targets
    ensures e == BodyRead(b) ==> w in Step(s, e).value.disabled
    ensures e != BodyRead(b) ==> Holds(s, b) && w in s.broadcasts[b].targets
    ensures (e != BodyRead(b)
      ==> (w in Step(s, e).value.disabled <==> if e.Put? && e.w == w then e.value else w in s.disabled))
  {
    hide Restored, KeepDisabled, Reports, Previous, Live, DistinctUrls, FlagsFit, TargetsFit, PreviousFits, PoolFits, Held, FailedOn;
    if e != BodyRead(b) { assert s.lock == Some(b); }
  }

  /** In every run: the flag of a held worker is off if and only if the operator's last write
      to it since the disable was `false`. */
  lemma {:induction false} HeldFlagIff(first: State, run: seq<Event>, s: State, b: BroadcastId, w: Ref)
    requires Initial(first) && Leads(first, run, Some(s)) && Holds(s, b) && w in s.broadcasts[b].targets
    ensures w !in s.disabled <==> LastWrite(run, b, w) == Some(false)
    decreases |run|
  {
    if run != [] {
      hide Inv, Step, Enabled, Initial, Holds;
      var n := |run| - 1;
      var before :| Leads(first, run[..n], Some(before)) && Enabled(before, run[n]) && Some(s) == Step(before, run[n]);
      ReachableInv(run[..n], Some(before));
      HoldStep(before, run[n], b, w);
      if run[n] != BodyRead(b) { HeldFlagIff(first, run[..n], before, b, w); }
    }
  }

  /** So a target can be selected between its disable and its restore if and only if it is a
      healthy worker of the pool and the operator's last write since the disable was `false`;
      without such a write it never is. */
  lemma HeldIsSelectedIff(first: State, run: seq<Event>, s: State, b: BroadcastId, w: Ref)
    requires Initial(first) && Leads(first, run, Some(s)) && Holds(s, b) && w in s.broadcasts[b].targets
    ensures (Enabled(s, Route(w))
        <==> w in s.pool && s.health(w).Healthy? && LastWrite(run, b, w) == Some(false))
    ensures (forall i :: 0 <= i < |run| ==> run[i] != Put(w, false)) ==> !Enabled(s, Route(w))
  {
    hide Initial, Leads, Holds, Held, DistinctUrls;
    HeldFlagIff(first, run, s, b, w);
    if LastWrite(run, b, w) == Some(false) {
      WriteInRun(run, b, w);
    }
    hide LastWrite;
  }

  lemma {:induction false} WriteInRun(run: seq<Event>, b: BroadcastId, w: Ref)
    requires LastWrite(run, b, w) == Some(false)
    ensures exists i :: 0 <= i < |run| && run[i] == Put(w, false)
  {
    var n := |run| - 1;
    if run[n] != Put(w, false) {
      WriteInRun(run[..n], b, w);
      var i :| 0 <= i < n && run[..n][i] == Put(w, false);
      assert run[i] == Put(w, false);
    }
  }

  /** The write that exposes a healthy target is possible at any time. */
  lemma PutHeldExposes(s: State, w: Ref)
    requires Inv(s) && Held(s, w) && w in s.pool && s.health(w).Healthy?
    ensures Enabled(s, Put(w, false))
    ensures Enabled(Step(s, Put(w, false)).value, Route(w)) && Held(Step(s, Put(w, false)).value, w)
  {
    var b: BroadcastId :| Holds(s, b) && w in s.broadcasts[b].targets;
    assert Holds(Step(s, Put(w, false)).value, b);
    assert w in Members(s.pool);
  }

  /** The record of a broadcast after its disable: the targets and the flags it remembers. */
  ghost predicate IsRunning(s: State, b: BroadcastId, path: Path, targets: seq<Ref>, before: set<Ref>) {
    b in s.broadcasts && s.broadcasts[b] == Broadcast(path, targets, Gathering(Previous(targets, before)))
  }

  lemma RecordStep(s: State, e: Event, b: BroadcastId, path: Path, targets: seq<Ref>, before: set<Ref>)
    requires IsRunning(s, b, path, targets, before) || InPhase(s, b, Done)
    requires Enabled(s, e) && Step(s, e).Some?
    ensures IsRunning(Step(s, e).value, b, path, targets, before) || InPhase(Step(s, e).value, b, Done)
  {
    hide Restored, KeepDisabled, Reports, Previous, Live, FailedOn, Held;
  }

  lemma {:induction false} RecordKept(first: State, run: seq<Event>, s: State, b: BroadcastId, path: Path, targets: seq<Ref>, before: set<Ref>)
    requires IsRunning(first, b, path, targets, before) && Leads(first, run, Some(s))
    ensures IsRunning(s, b, path, targets, before) || InPhase(s, b, Done)
    decreases |run|
  {
    if run != [] {
      hide IsRunning, InPhase, Enabled, Step;
      var n := |run| - 1;
      var u :| Leads(first, run[..n], Some(u)) && Enabled(u, run[n]) && Some(s) == Step(u, run[n]);
      RecordKept(first, run[..n], u, b, path, targets, before);
      RecordStep(u, run[n], b, path, targets, before);
    }
  }

  lemma RestoredFlag(u: State, b: BroadcastId, path: Path, targets: seq<Ref>, before: set<Ref>,
                     success: Option<seq<bool>>, w: Ref)
    requires IsRunning(u, b, path, targets, before) && IsUpdate(path) && DistinctUrls(targets) && w in targets
    requires (success.Some? ==> |success.value| == |targets|) && Ended(u, b, success).Some?
    ensures w in Ended(u, b, success).value.disabled <==> w in before || w in FailedOn(path, targets, success)
  {
    KeptAreFailed(path, targets, success, w);
    PreviousOf(targets, before, w);
    hide KeepDisabled, Reports, FailedOn, Previous, DistinctUrls;
  }

  /** Whatever happens between a broadcast's disable and its restore, any number of operator
      writes to its targets included: each target's flag ends as it was before the disable,
      or true because a group-init failed on the target. The writes are lost. */
  lemma RestoreForgetsWrites(earlier: seq<Event>, s: State, b: BroadcastId, between: seq<Event>, u: State,
                             success: Option<seq<bool>>, w: Ref)
    requires Reaches(earlier, Some(s)) && InPhase(s, b, ReadingBody) && IsUpdate(s.broadcasts[b].path)
    requires Leads(Started(s, b), between, Some(u)) && Enabled(u, GatherEnds(b, success))
    requires w in s.broadcasts[b].targets
    ensures u.broadcasts[b].path == s.broadcasts[b].path && u.broadcasts[b].targets == s.broadcasts[b].targets
    ensures Step(u, GatherEnds(b, success)).Some?
    ensures (w in Step(u, GatherEnds(b, success)).value.disabled
      <==> w in s.disabled || InitFailedOn(s.broadcasts[b].path, s.broadcasts[b].targets, success, w))
  {
    hide Leads, Reaches, Started, Ended, Restored, FailedOn, InitFailedOn;
    ReachableInv(earlier, Some(s));
    StepStarts(s, b);
    LeadsInv(Started(s, b), between, Some(u));
    var c := s.broadcasts[b];
    StartedIsRunning(s, b);
    RecordKept(Started(s, b), between, u, b, c.path, c.targets, s.disabled);
    StepEnds(u, b, success);
    assert DistinctUrls(c.targets);
    hide Inv, DistinctUrls;
    RestoredFlag(u, b, c.path, c.targets, s.disabled, success, w);
    FailedIff(c.path, c.targets, success, w);
  }

  /** The broadcast was a group-init that raised, or that failed on this target. */
  ghost predicate InitFailedOn(p: Path, targets: seq<Ref>, success: Option<seq<bool>>, w: Ref) {
    && p == InitGroup
    && (success.None? || exists i :: 0 <= i < |success.value| && i < |targets| && targets[i] == w && !success.value[i])
  }

  lemma FailedIff(p: Path, targets: seq<Ref>, success: Option<seq<bool>>, w: Ref)
    requires (success.Some? ==> |success.value| == |targets|) && w in targets
    ensures w in FailedOn(p, targets, success) <==> InitFailedOn(p, targets, success, w)
  {
  }

  lemma StartedIsRunning(s: State, b: BroadcastId)
    requires b in s.broadcasts
    ensures IsRunning(Started(s, b), b, s.broadcasts[b].path, s.broadcasts[b].targets, s.disabled)
  {
  }
}
