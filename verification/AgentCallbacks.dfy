/**
 The callbacks of `spawnAndReap` as they run, over their shared flags. Between callbacks the flags
 are coherent: something watches the agent until the run is settled, and it settles once.
 */
module AgentCallbacks {
  import opened AgentReaper

  class AgentRun {
    const awaitsSpawn: bool
    var spawn: Spawn
    var alive: bool
    var provider: Provider
    var handled: bool
    var settled: bool
    var reaping: bool
    var polling: bool
    var grace: Grace
    var resolves: nat
    var outcome: Outcome

    constructor (awaitsSpawn: bool)
      ensures Valid() && State() == Initial(awaitsSpawn)
    {
      this.awaitsSpawn := awaitsSpawn;
      spawn, alive, provider, handled := NotSpawned, false, Pending, false;
      settled, reaping, polling, grace := false, false, false, NoGrace;
      resolves, outcome := 0, Open;
    }

    function State(): Reaper
      reads this
    {
      Reaper(awaitsSpawn, spawn, alive, provider, handled, settled, reaping, polling, grace, resolves, outcome)
    }

    ghost predicate Valid()
      reads this
    {
      Coherent(State())
    }

    /** What no callback takes back: an outcome, and the one call of `resolve`, made only while unsettled. */
    twostate predicate Final()
      reads this
    {
      && (old(outcome) != Open ==> outcome == old(outcome))
      && old(resolves) <= resolves <= 1
      && (resolves > old(resolves) ==> !old(settled) && settled)
      && (old(settled) ==> settled)
    }

    /** Resolves an unsettled run and clears its timer; a settled run stays as it is. */
    method Settle(source: Source)
      requires Valid() && (spawn == NotSpawned ==> provider == Fulfilled)
      modifies this
      ensures Valid() && Final() && State() == AgentReaper.Settle(old(State()), source)
      ensures settled && outcome != Open
      ensures old(settled) ==> State() == old(State())
      ensures !old(settled) ==> !polling && resolves == old(resolves) + 1
      ensures old(outcome) == Open ==> outcome == Resolved(source)
    {
      if settled {
        return;
      }
      settled := true;
      if polling {
        polling := false;
      }
      resolves := resolves + 1;
      if outcome == Open {
        outcome := Resolved(source);
      }
      assert State() == AgentReaper.Settle(old(State()), source);
      SettleKeepsCoherent(old(State()), source);
    }

    /** Starts the grace period if none was started; either way the run is watched afterwards. */
    method SettleFromPollPath()
      requires Consistent(State()) && spawn == Saved && !alive
      modifies this
      ensures Valid() && Final() && State() == AgentReaper.SettleFromPollPath(old(State()))
      ensures old(settled || reaping) ==> State() == old(State())
      ensures settled || reaping
      ensures !old(settled || reaping) ==> grace == Racing
    {
      if settled || reaping {
        return;
      }
      reaping := true;
      grace := Racing;
    }

    /** The pid is known before it is stored. */
    method OnSpawn()
      requires Valid() && Enabled(State(), Action.OnSpawn)
      modifies this
      ensures Valid() && Final() && State() == Step(old(State()), Action.OnSpawn)
      ensures alive && settled == old(settled)
    {
      spawn, alive := Saving, true;
    }

    /** A stored pid is watched: by the timer while the agent runs, else by the grace period. */
    method OnSaved(ok: bool)
      requires Valid() && Enabled(State(), Action.OnSaved(ok))
      modifies this
      ensures Valid() && Final() && State() == Step(old(State()), Action.OnSaved(ok))
      ensures ok && alive ==> polling
      ensures ok && !alive ==> settled || reaping
      ensures !ok ==> !polling && !reaping
      ensures alive == old(alive) && settled == old(settled)
    {
      if !ok {
        spawn := SaveFailed;
        return;
      }
      spawn := Saved;
      if !alive {
        SettleFromPollPath();
        return;
      }
      polling := true;
    }

    /** A poll does nothing while the agent runs; on a dead agent an unsettled run gets its grace period. */
    method PollTick()
      requires Valid() && Enabled(State(), Action.PollTick)
      modifies this
      ensures Valid() && Final() && State() == Step(old(State()), Action.PollTick)
      ensures old(alive) ==> State() == old(State())
      ensures !old(alive) ==> settled || reaping
      ensures resolves == old(resolves)
    {
      if !alive {
        SettleFromPollPath();
      }
    }

    /** A failure rejects an open promise; a success resolves only if no agent runs. */
    method OnProvider()
      requires Valid() && Enabled(State(), Action.OnProvider)
      modifies this
      ensures Valid() && Final() && State() == Step(old(State()), Action.OnProvider)
      ensures provider == Failed ==> outcome == if old(outcome) == Open then Rejected else old(outcome)
      ensures provider == Fulfilled && !alive ==> settled && (!old(settled) ==> !polling)
      ensures provider == Fulfilled && alive ==> outcome == old(outcome) && polling == old(polling)
    {
      if provider == Fulfilled {
        if spawn == NotSpawned {
          Settle(FromProvider);
        } else if !alive {
          Settle(FromProvider);
        }
      } else if !settled && outcome == Open {
        outcome := Rejected;
      }
      handled := true;
    }

    /** The grace period ends in a settled run without a timer: the provider's result if it came in time. */
    method GraceEnds()
      requires Valid() && Enabled(State(), Action.GraceEnds)
      modifies this
      ensures Valid() && Final() && State() == Step(old(State()), Action.GraceEnds)
      ensures settled && !alive
      ensures !old(settled) ==> !polling
      ensures old(outcome) == Open ==>
                outcome == Resolved(if old(grace) == Racing && provider == Fulfilled then FromProvider else FromLog)
    {
      var source := if grace == Racing && provider == Fulfilled then FromProvider else FromLog;
      Settle(source);
      grace := GraceOver;
      assert State() == Step(old(State()), Action.GraceEnds);
      NextKeepsCoherent(old(State()), Action.GraceEnds);
    }
  }
}
