/**
 The race in `spawnAndReap`: a provider promise against polling of the agent's process, over
 callbacks that share a few flags. Every order of callbacks is a run of this action system.
 */
module AgentReaper {

  /** `onSpawn` stores the pid first, then waits for the database. */
  datatype Spawn = NotSpawned | Saving | Saved | SaveFailed

  datatype Provider = Pending | Fulfilled | Failed

  /** The wait for the provider after the process is seen dead. */
  datatype Grace = NoGrace | Racing | TimedOut | GraceOver

  datatype Source = FromProvider | FromLog

  datatype Outcome = Open | Resolved(source: Source) | Rejected

  /**
   `awaitsSpawn`: the provider waits for `onSpawn`, as every provider that spawns a detached agent
   does. `handled`: the provider promise's own callback has run. `resolves` counts calls of `resolve`.
   */
  datatype Reaper = Reaper(
    awaitsSpawn: bool,
    spawn: Spawn,
    alive: bool,
    provider: Provider,
    handled: bool,
    settled: bool,
    reaping: bool,
    polling: bool,
    grace: Grace,
    resolves: nat,
    outcome: Outcome)

  function Initial(awaitsSpawn: bool): Reaper {
    Reaper(awaitsSpawn, NotSpawned, false, Pending, false, false, false, false, NoGrace, 0, Open)
  }

  datatype Action =
    | OnSpawn
    | OnSaved(ok: bool)
    | Exit
    | PollTick
    | ProviderSettles(ok: bool)
    | OnProvider
    | GraceTimeout
    | GraceEnds

  /**
   A provider that awaits `onSpawn` calls it before it settles, does not settle while the pid is
   being stored, and fails when storing it failed.
   */
  predicate KeepsOrder(r: Reaper, action: Action) {
    match action
    case OnSpawn => r.provider == Pending
    case ProviderSettles(ok) => r.spawn != Saving && (r.spawn == SaveFailed ==> !ok)
    case _ => true
  }

  predicate Enabled(r: Reaper, action: Action) {
    && (r.awaitsSpawn ==> KeepsOrder(r, action))
    && match action
       case OnSpawn => r.spawn == NotSpawned
       case OnSaved(_) => r.spawn == Saving
       case Exit => r.alive
       case PollTick => r.polling
       case ProviderSettles(_) => r.provider == Pending
       case OnProvider => r.provider != Pending && !r.handled
       case GraceTimeout => r.grace == Racing && r.provider == Pending
       case GraceEnds => r.grace == TimedOut || (r.grace == Racing && r.provider != Pending)
  }

  function Settle(r: Reaper, source: Source): Reaper {
    if r.settled then r
    else
      r.(settled := true,
         polling := false,
         resolves := r.resolves + 1,
         outcome := if r.outcome == Open then Resolved(source) else r.outcome)
  }

  function SettleFromPollPath(r: Reaper): Reaper {
    if r.settled || r.reaping then r else r.(reaping := true, grace := Racing)
  }

  /** The two reactions to the provider promise. */
  function HandleProvider(r: Reaper): Reaper {
    if r.provider == Fulfilled then
      if r.spawn == NotSpawned || !r.alive then Settle(r, FromProvider) else r
    else if r.settled || r.outcome != Open then r
    else r.(outcome := Rejected)
  }

  function Step(r: Reaper, action: Action): Reaper {
    match action
    case OnSpawn => r.(spawn := Saving, alive := true)
    case OnSaved(ok) =>
      if !ok then r.(spawn := SaveFailed)
      else if !r.alive then SettleFromPollPath(r.(spawn := Saved))
      else r.(spawn := Saved, polling := true)
    case Exit => r.(alive := false)
    case PollTick => if r.alive then r else SettleFromPollPath(r)
    case ProviderSettles(ok) => r.(provider := if ok then Fulfilled else Failed)
    case OnProvider => HandleProvider(r.(handled := true))
    case GraceTimeout => r.(grace := TimedOut)
    case GraceEnds =>
      Settle(r.(grace := GraceOver), if r.grace == Racing && r.provider == Fulfilled then FromProvider else FromLog)
  }

  /** Callbacks that are not due are skipped. */
  function Next(r: Reaper, action: Action): Reaper {
    if Enabled(r, action) then Step(r, action) else r
  }

  function Run(r: Reaper, actions: seq<Action>): Reaper
    decreases |actions|
  {
    if actions == [] then r else Run(Next(r, actions[0]), actions[1..])
  }

  // ---------------------------------------------------------------------------
  // Safety
  // ---------------------------------------------------------------------------

  /** What every callback keeps, also half-way. */
  ghost predicate Consistent(r: Reaper) {
    && r.resolves == (if r.settled then 1 else 0)
    && (r.outcome.Resolved? ==> r.settled)
    && (r.settled ==> r.outcome != Open)
    && (r.outcome == Rejected ==> r.handled && r.provider == Failed)
    && (r.handled ==> r.provider != Pending)
    && (r.spawn == NotSpawned ==> !r.alive)
    && (r.polling ==> r.spawn == Saved)
    && (r.reaping <==> r.grace != NoGrace)
    && (r.reaping ==> r.spawn == Saved && !r.alive)
    && (r.grace == GraceOver ==> r.settled)
    && (r.provider == Failed && r.handled ==> r.outcome != Open)
    && (r.provider == Fulfilled && r.handled && r.spawn == NotSpawned ==> r.settled)
    && (r.settled && r.spawn == NotSpawned ==> r.provider == Fulfilled)
    && (r.awaitsSpawn && r.spawn == Saving ==> r.provider == Pending)
    && (r.awaitsSpawn && r.spawn == SaveFailed ==> r.provider != Fulfilled)
  }

  /** Once the pid is stored, something watches the agent until the run is settled. */
  ghost predicate Watched(r: Reaper) {
    r.spawn == Saved && !r.settled ==> r.polling || r.reaping
  }

  ghost predicate Coherent(r: Reaper) {
    Consistent(r) && Watched(r)
  }

  lemma SettleKeepsCoherent(r: Reaper, source: Source)
    requires Coherent(r) && (r.spawn == NotSpawned ==> r.provider == Fulfilled)
    ensures Coherent(Settle(r, source))
  {
  }

  /** A settled run has no running agent and no timer. */
  ghost predicate Reaped(r: Reaper) {
    r.settled ==> !r.alive && !r.polling
  }

  /** A success can be heard, or was heard, before an agent is spawned: the provider does not await the spawn. */
  predicate CanLeak(r: Reaper) {
    !r.awaitsSpawn && r.spawn == NotSpawned && r.provider != Failed
  }

  lemma NextKeepsCoherent(r: Reaper, action: Action)
    requires Coherent(r)
    ensures Coherent(Next(r, action))
    ensures r.outcome != Open ==> Next(r, action).outcome == r.outcome
    ensures Next(r, action).awaitsSpawn == r.awaitsSpawn
  {
  }

  /** The promise settles at most once, and the first outcome stays, whatever the order of callbacks. */
  lemma {:induction false} RunSettlesOnce(r: Reaper, actions: seq<Action>)
    requires Coherent(r)
    ensures Coherent(Run(r, actions)) && Run(r, actions).resolves <= 1
    ensures r.outcome != Open ==> Run(r, actions).outcome == r.outcome
    decreases |actions|
  {
    if actions != [] {
      NextKeepsCoherent(r, actions[0]);
      RunSettlesOnce(Next(r, actions[0]), actions[1..]);
    }
  }

  lemma NextKeepsReaped(r: Reaper, action: Action)
    requires Coherent(r) && Reaped(r) && !CanLeak(r)
    ensures Reaped(Next(r, action)) && !CanLeak(Next(r, action))
  {
  }

  lemma {:induction false} RunStaysReaped(r: Reaper, actions: seq<Action>)
    requires Coherent(r) && Reaped(r) && !CanLeak(r)
    ensures Reaped(Run(r, actions))
    decreases |actions|
  {
    if actions != [] {
      NextKeepsCoherent(r, actions[0]);
      NextKeepsReaped(r, actions[0]);
      RunStaysReaped(Next(r, actions[0]), actions[1..]);
    }
  }

  /** With a provider that awaits the spawn, a result means no running agent and no timer, in every run. */
  lemma ResultMeansReaped(actions: seq<Action>)
    ensures var r := Run(Initial(true), actions);
            r.outcome.Resolved? ==> r.settled && !r.alive && !r.polling
  {
    RunSettlesOnce(Initial(true), actions);
    RunStaysReaped(Initial(true), actions);
  }

  lemma {:induction false} TimerOfSettledRunStays(r: Reaper, actions: seq<Action>)
    requires r.settled && r.polling
    ensures Run(r, actions).settled && Run(r, actions).polling
    decreases |actions|
  {
    if actions != [] {
      TimerOfSettledRunStays(Next(r, actions[0]), actions[1..]);
    }
  }

  /** An early success, then the spawn: a result with a running agent, and a timer that is never cleared. */
  lemma EarlySuccessLeaks(r: Reaper) returns (actions: seq<Action>)
    requires Coherent(r) && CanLeak(r)
    ensures Run(r, actions).settled && Run(r, actions).alive && Run(r, actions).polling
    ensures forall more :: Run(Run(r, actions), more).polling
  {
    var heard := if r.provider == Pending then Step(r, ProviderSettles(true)) else r;
    var early := if heard.handled then heard else Step(heard, OnProvider);
    var saved := Step(Step(early, OnSpawn), OnSaved(true));
    assert Run(Step(early, OnSpawn), [OnSaved(true)]) == Run(saved, []);
    assert Run(early, [OnSpawn, OnSaved(true)]) == saved;
    actions := [OnSpawn, OnSaved(true)];
    if !heard.handled {
      assert ([OnProvider] + actions)[1..] == actions;
      actions := [OnProvider] + actions;
    }
    if r.provider == Pending {
      assert ([ProviderSettles(true)] + actions)[1..] == actions;
      actions := [ProviderSettles(true)] + actions;
    }
    forall more ensures Run(saved, more).polling {
      TimerOfSettledRunStays(saved, more);
    }
  }

  /** Some run leaves a result beside a running agent or a timer exactly when a success can come before the spawn. */
  lemma LeaksExactly(r: Reaper)
    requires Coherent(r) && Reaped(r)
    ensures (exists actions :: !Reaped(Run(r, actions))) <==> CanLeak(r)
  {
    if CanLeak(r) {
      var actions := EarlySuccessLeaks(r);
      assert !Reaped(Run(r, actions));
    } else {
      forall actions ensures Reaped(Run(r, actions)) {
        RunStaysReaped(r, actions);
      }
    }
  }

  /** The provider has succeeded, and no timeout has given up on it. */
  ghost predicate ProviderInTime(r: Reaper) {
    Coherent(r) && r.provider == Fulfilled && r.grace != TimedOut && r.outcome != Resolved(FromLog)
  }

  lemma NextKeepsProviderInTime(r: Reaper, action: Action)
    requires ProviderInTime(r)
    ensures ProviderInTime(Next(r, action))
  {
    NextKeepsCoherent(r, action);
  }

  /** Such a run never falls back to reading the log. */
  lemma {:induction false} ProviderResultIsUsed(r: Reaper, actions: seq<Action>)
    requires ProviderInTime(r)
    ensures Run(r, actions).outcome != Resolved(FromLog)
    decreases |actions|
  {
    if actions != [] {
      NextKeepsProviderInTime(r, actions[0]);
      ProviderResultIsUsed(Next(r, actions[0]), actions[1..]);
    }
  }

  /** Once the grace period has run out, an open promise gets the log's result, whatever the provider does later. */
  lemma TimedOutUsesLog(r: Reaper, settles: bool)
    requires Coherent(r) && r.grace == TimedOut && r.outcome == Open
    ensures Next(r, GraceEnds).outcome == Resolved(FromLog)
    ensures Next(Next(r, ProviderSettles(settles)), GraceEnds).outcome == Resolved(FromLog)
  {
  }

  ghost predicate ReportsTruly(r: Reaper) {
    r.outcome == Resolved(FromProvider) ==> r.provider == Fulfilled
  }

  lemma NextReportsTruly(r: Reaper, action: Action)
    requires ReportsTruly(r)
    ensures ReportsTruly(Next(r, action))
  {
  }

  /** No run reports the result of a provider that did not succeed. */
  lemma {:induction false} RunReportsTruly(r: Reaper, actions: seq<Action>)
    requires ReportsTruly(r)
    ensures ReportsTruly(Run(r, actions))
    decreases |actions|
  {
    if actions != [] {
      NextReportsTruly(r, actions[0]);
      RunReportsTruly(Next(r, actions[0]), actions[1..]);
    }
  }

  // ---------------------------------------------------------------------------
  // Progress
  // ---------------------------------------------------------------------------

  /**
   Nobody has an answer yet, and one is owed: the agent is dead and its pid is or will be stored, or
   storing it failed and the provider waits for that.
   */
  ghost predicate Waiting(r: Reaper) {
    && Coherent(r) && r.outcome == Open
    && ((!r.alive && (r.spawn == Saving || r.spawn == Saved)) || (r.awaitsSpawn && r.spawn == SaveFailed))
  }

  /** A callback that comes next on its own: the save's end, a poll, the grace period, a failed provider. */
  predicate Due(r: Reaper, action: Action) {
    match r.spawn
    case NotSpawned => false
    case Saving => action.OnSaved? && (action.ok || r.awaitsSpawn)
    case SaveFailed => action == if r.provider == Pending then ProviderSettles(false) else OnProvider
    case Saved =>
      action == if !r.reaping then PollTick
                else if r.grace == Racing && r.provider == Pending then GraceTimeout
                else GraceEnds
  }

  /** How many such callbacks are left at most. */
  function Distance(r: Reaper): nat {
    if r.outcome != Open then 0
    else
      match r.spawn
      case NotSpawned => 5
      case Saving => 4
      case SaveFailed => if r.provider == Pending then 2 else 1
      case Saved =>
        if !r.reaping then 3 else if r.grace == Racing && r.provider == Pending then 2 else 1
  }

  /** The saves that the statements below allow to fail: all of them if the provider awaits the spawn. */
  predicate SavesWell(awaitsSpawn: bool, action: Action) {
    awaitsSpawn || action != OnSaved(false)
  }

  /** No lost wake-up: what is due can happen, nothing takes it away, and it brings the answer closer. */
  lemma NoLostWakeUp(r: Reaper, action: Action)
    requires Waiting(r) && SavesWell(r.awaitsSpawn, action)
    ensures exists due :: Due(r, due)
    ensures forall due :: Due(r, due) ==> Enabled(r, due)
    ensures Waiting(Next(r, action)) || Next(r, action).outcome != Open
    ensures Distance(Next(r, action)) <= Distance(r)
    ensures Distance(Next(r, action)) == Distance(r) ==> forall due :: Due(Next(r, action), due) <==> Due(r, due)
    ensures Due(r, action) ==> Distance(Next(r, action)) < Distance(r)
  {
    var due := if r.spawn == Saving then OnSaved(true)
               else if r.spawn == SaveFailed then (if r.provider == Pending then ProviderSettles(false) else OnProvider)
               else if !r.reaping then PollTick
               else if r.grace == Racing && r.provider == Pending then GraceTimeout
               else GraceEnds;
    assert Due(r, due);
  }

  /** How often a run does what is due. */
  function Progress(r: Reaper, actions: seq<Action>): nat
    decreases |actions|
  {
    if actions == [] || r.outcome != Open then 0
    else (if Due(r, actions[0]) then 1 else 0) + Progress(Next(r, actions[0]), actions[1..])
  }

  ghost predicate AllSaveWell(awaitsSpawn: bool, actions: seq<Action>) {
    forall action :: action in actions ==> SavesWell(awaitsSpawn, action)
  }

  /** Any schedule, failed saves included, ends with an answer once it has done what is due four times. */
  lemma {:induction false} FairRunsSettle(r: Reaper, actions: seq<Action>)
    requires Waiting(r) && AllSaveWell(r.awaitsSpawn, actions)
    ensures Run(r, actions).outcome != Open || Progress(r, actions) + Distance(Run(r, actions)) <= Distance(r)
    ensures Run(r, actions).outcome == Open ==> Waiting(Run(r, actions)) && Progress(r, actions) < 4
    decreases |actions|
  {
    if actions != [] {
      var next := Next(r, actions[0]);
      NoLostWakeUp(r, actions[0]);
      NextKeepsCoherent(r, actions[0]);
      if next.outcome == Open {
        FairRunsSettle(next, actions[1..]);
      } else {
        RunSettlesOnce(next, actions[1..]);
      }
    }
  }

  // ---------------------------------------------------------------------------
  // Providers that do not await the spawn
  // ---------------------------------------------------------------------------

  /** The pid could not be stored, and the provider was heard while the agent still ran. */
  predicate Stuck(r: Reaper) {
    r.outcome == Open && r.spawn == SaveFailed && r.provider == Fulfilled && r.handled
  }

  lemma {:induction false} StuckForever(r: Reaper, actions: seq<Action>)
    requires Coherent(r) && Stuck(r)
    ensures Run(r, actions).outcome == Open
    decreases |actions|
  {
    if actions != [] {
      NextKeepsCoherent(r, actions[0]);
      StuckForever(Next(r, actions[0]), actions[1..]);
    }
  }

  /** Callbacks that bring an answer for a dead agent. */
  lemma {:induction false} Rescue(r: Reaper) returns (actions: seq<Action>)
    requires Waiting(r) || r.outcome != Open
    ensures Run(r, actions).outcome != Open
    decreases Distance(r)
  {
    if r.outcome != Open {
      actions := [];
    } else {
      NoLostWakeUp(r, PollTick);
      var due :| Due(r, due);
      NoLostWakeUp(r, due);
      var rest := Rescue(Next(r, due));
      actions := [due] + rest;
    }
  }

  lemma RescueWithoutPid(r: Reaper) returns (actions: seq<Action>)
    requires Coherent(r) && r.spawn == SaveFailed && !r.alive && !Stuck(r)
    ensures Run(r, actions).outcome != Open
  {
    if r.outcome != Open {
      actions := [];
    } else if r.provider == Pending {
      var failed := Step(r, ProviderSettles(false));
      assert Run(failed, [OnProvider]) == Run(Step(failed, OnProvider), []);
      actions := [ProviderSettles(false), OnProvider];
    } else {
      assert Run(r, [OnProvider]) == Run(Step(r, OnProvider), []);
      actions := [OnProvider];
    }
  }

  /**
   A dead agent without an answer can still get one, exactly unless the run is stuck; and no run of a
   provider that awaits the spawn is.
   */
  lemma StuckExactly(r: Reaper)
    requires Coherent(r) && r.spawn != NotSpawned && !r.alive
    ensures Stuck(r) <==> forall actions :: Run(r, actions).outcome == Open
    ensures r.awaitsSpawn ==> !Stuck(r)
  {
    if Stuck(r) {
      forall actions ensures Run(r, actions).outcome == Open {
        StuckForever(r, actions);
      }
    } else if r.spawn == SaveFailed {
      var actions := RescueWithoutPid(r);
    } else {
      var actions := Rescue(r);
    }
  }

  /** A run that gets stuck: the provider is heard between the spawn and the failed save. */
  lemma UnawaitedSpawnGetsStuck()
    ensures var r := Run(Initial(false), [OnSpawn, ProviderSettles(true), OnProvider, OnSaved(false), Exit]);
            Coherent(r) && Stuck(r) && r.spawn != NotSpawned && !r.alive
  {
    var a := Step(Initial(false), OnSpawn);
    var b := Step(a, ProviderSettles(true));
    var c := Step(b, OnProvider);
    var d := Step(c, OnSaved(false));
    assert Run(d, [Exit]) == Run(Step(d, Exit), []);
    assert Run(c, [OnSaved(false), Exit]) == Run(d, [Exit]);
    assert Run(b, [OnProvider, OnSaved(false), Exit]) == Run(c, [OnSaved(false), Exit]);
    assert Run(a, [ProviderSettles(true), OnProvider, OnSaved(false), Exit])
        == Run(b, [OnProvider, OnSaved(false), Exit]);
  }
}
