/**
 What becomes of the rows when any update may fail: when a stopped row is final, when a running
 row has an owner, and when a source has one running row. Each answer is exact.
 */
module RefreshOutcomes {
  import opened Text
  import opened RefreshJobs
  import opened RefreshProtocol

  // ---------------------------------------------------------------- what no failing update can break

  /** The row of an inserting task is its source's, unless the source has been deleted. */
  predicate OwnRow(s: State, t: nat)
    requires t in s.tasks && s.tasks[t].stage.Inserted?
  {
    var job := s.tasks[t].stage.job;
    job in s.usedIds && (job in s.jobs ==> s.jobs[job].source == s.tasks[t].source)
  }

  ghost predicate Guarded(s: State) {
    && GuardsMatch(s)
    && s.jobs.Keys <= s.usedIds
    && (forall t :: t in s.tasks && s.tasks[t].stage.Inserted? ==> OwnRow(s, t))
    && s.tasks.Keys !! s.handlers.Keys
    && (!s.serving ==> s.tasks == map[] && s.registry == {} && s.handlers == map[])
  }

  lemma OwnRowAfter(s: State, e: Event, t: nat)
    requires Guarded(s) && Enabled(s, e) && t in Step(s, e).tasks && Step(s, e).tasks[t].stage.Inserted?
    ensures OwnRow(Step(s, e), t)
  {
    hide GuardsMatch;
    if !(e.InsertJob? && e.ok) {
      StepOnlyStops(s, e);
    }
    assert t in s.tasks && s.tasks[t].stage.Inserted? ==> OwnRow(s, t);
  }

  lemma StepKeepsGuarded(s: State, e: Event)
    requires Guarded(s) && Enabled(s, e)
    ensures Guarded(Step(s, e))
  {
    hide GuardsMatch, OwnRow;
    var after := Step(s, e);
    StepKeepsGuards(s, e);
    if !(e.InsertJob? && e.ok) {
      StepOnlyStops(s, e);
    }
    forall t | t in after.tasks && after.tasks[t].stage.Inserted? ensures OwnRow(after, t) {
      OwnRowAfter(s, e, t);
    }
  }

  lemma {:induction false} RunKeepsGuarded(s: State, events: seq<Event>)
    requires Guarded(s) && AllEnabled(s, events)
    ensures Guarded(Replay(s, events))
    decreases |events|
  {
    hide Guarded, Step, Enabled;
    if events != [] {
      StepKeepsGuarded(s, events[0]);
      RunKeepsGuarded(Step(s, events[0]), events[1..]);
    }
  }

  // ---------------------------------------------------------------- when a stopped row is final

  /** No event that can happen next changes a stopped row, short of deleting it. */
  ghost predicate Final(s: State) {
    forall e, id :: Enabled(s, e) && id in s.jobs && !IsRunning(s.jobs, id) && id in Step(s, e).jobs ==>
      Step(s, e).jobs[id] == s.jobs[id]
  }

  /** The row of an inserting task still runs. */
  predicate RunsOwnRow(s: State, t: nat)
    requires t in s.tasks && s.tasks[t].stage.Inserted?
  {
    s.tasks[t].stage.job in s.jobs ==> IsRunning(s.jobs, s.tasks[t].stage.job)
  }

  ghost predicate Live(s: State) {
    forall t :: t in s.tasks && s.tasks[t].stage.Inserted? ==> RunsOwnRow(s, t)
  }

  /** Task `t` is about to finish a row of the handler's source. */
  predicate Hits(s: State, handler: nat, t: nat)
    requires handler in s.handlers
  {
    && t in s.tasks && s.tasks[t].source == s.handlers[handler]
    && s.tasks[t].stage.Inserted? && s.tasks[t].stage.job in s.jobs
  }

  /** The handler of an aborted refresh fails the row of a later refresh that is still under way. */
  ghost predicate LateHit(s: State, e: Event)
    requires Enabled(s, e)
  {
    e.HandleAbort? && e.ok && exists t :: Hits(s, e.handler, t)
  }

  lemma RunsOwnRowAfter(s: State, e: Event, t: nat)
    requires Guarded(s) && Live(s) && Enabled(s, e) && !(e.HandleAbort? && e.ok && Hits(s, e.handler, t))
    requires t in Step(s, e).tasks && Step(s, e).tasks[t].stage.Inserted?
    ensures RunsOwnRow(Step(s, e), t)
  {
    if t in s.tasks && s.tasks[t].stage.Inserted? {
      assert OwnRow(s, t) && RunsOwnRow(s, t);
      if e.FinishSuccess? || e.FinishFailure? {
        assert OwnRow(s, e.task);
      }
    }
  }

  /** A step keeps every inserting task's row running exactly when it is not a late hit. */
  lemma StepKeepsLiveExactly(s: State, e: Event)
    requires Guarded(s) && Live(s) && Enabled(s, e)
    ensures Live(Step(s, e)) <==> !LateHit(s, e)
  {
    var after := Step(s, e);
    if LateHit(s, e) {
      var t :| Hits(s, e.handler, t);
      assert OwnRow(s, t) && !RunsOwnRow(after, t);
    } else {
      hide Guarded, Step, RunsOwnRow;
      forall t | t in after.tasks && after.tasks[t].stage.Inserted? ensures RunsOwnRow(after, t) {
        RunsOwnRowAfter(s, e, t);
      }
    }
  }

  lemma StoppedRowStays(s: State, e: Event, id: string)
    requires Guarded(s) && Live(s) && Enabled(s, e)
    requires id in s.jobs && !IsRunning(s.jobs, id) && id in Step(s, e).jobs
    ensures Step(s, e).jobs[id] == s.jobs[id]
  {
    hide GuardsMatch;
    if e.FinishSuccess? || e.FinishFailure? {
      assert RunsOwnRow(s, e.task);
    }
  }

  /** Stopped rows are final exactly while every inserting task's row still runs. */
  lemma FinalExactly(s: State)
    requires Guarded(s)
    ensures Final(s) <==> Live(s)
  {
    if Live(s) {
      hide Guarded, Live, Step, Enabled;
      forall e, id | Enabled(s, e) && id in s.jobs && !IsRunning(s.jobs, id) && id in Step(s, e).jobs
        ensures Step(s, e).jobs[id] == s.jobs[id]
      {
        StoppedRowStays(s, e, id);
      }
    } else {
      var t :| t in s.tasks && s.tasks[t].stage.Inserted? && !RunsOwnRow(s, t);
      var row := s.jobs[s.tasks[t].stage.job];
      var e := FinishSuccess(t, if row.finishedAt.Some? then row.finishedAt.value + 1 else 0, 0, true);
      assert Enabled(s, e) && Step(s, e).jobs[s.tasks[t].stage.job] != row;
    }
  }

  /** After a late hit the row has failed, and its own task can still make it successful. */
  lemma LateHitRevives(s: State, e: Event, t: nat, at: int, nodeCount: nat)
    requires Guarded(s) && Enabled(s, e) && e.HandleAbort? && e.ok && Hits(s, e.handler, t)
    requires RunsOwnRow(s, t)
    ensures var (job, hit, finish) := (s.tasks[t].stage.job, Step(s, e), FinishSuccess(t, at, nodeCount, true));
      && hit.jobs[job].status == Failed
      && Enabled(hit, finish)
      && Step(hit, finish).jobs[job].status == Success
  {
    assert OwnRow(s, t);
    hide GuardsMatch;
  }

  ghost predicate LateHitFree(s: State, events: seq<Event>)
    requires AllEnabled(s, events)
    decreases |events|
  {
    events != [] ==> !LateHit(s, events[0]) && LateHitFree(Step(s, events[0]), events[1..])
  }

  ghost predicate AlwaysFinal(s: State, events: seq<Event>)
    requires AllEnabled(s, events)
    decreases |events|
  {
    Final(s) && (events != [] ==> AlwaysFinal(Step(s, events[0]), events[1..]))
  }

  /** Stopped rows are final all along a run exactly when no handler hits a later refresh on it. */
  lemma {:induction false} FinalThroughoutExactly(s: State, events: seq<Event>)
    requires Guarded(s) && Live(s) && AllEnabled(s, events)
    ensures AlwaysFinal(s, events) <==> LateHitFree(s, events)
    decreases |events|
  {
    hide Guarded, Live, Final, Step, Enabled, LateHit;
    FinalExactly(s);
    if events != [] {
      var next := Step(s, events[0]);
      StepKeepsGuarded(s, events[0]);
      StepKeepsLiveExactly(s, events[0]);
      if LateHit(s, events[0]) {
        FinalExactly(next);
      } else {
        FinalThroughoutExactly(next, events[1..]);
      }
    }
  }

  /** So from the start of the program on, over any interleaving and whatever updates fail. */
  lemma ReachableFinalExactly(events: seq<Event>)
    requires AllEnabled(INIT, events)
    ensures AlwaysFinal(INIT, events) <==> LateHitFree(INIT, events)
  {
    FinalThroughoutExactly(INIT, events);
  }

  lemma StepForgetsForGood(s: State, e: Event, id: string)
    requires Enabled(s, e) && id in s.usedIds && id !in s.jobs
    ensures id in Step(s, e).usedIds && id !in Step(s, e).jobs
  {
    if !(e.InsertJob? && e.ok) {
      StepOnlyStops(s, e);
    }
  }

  /** On a run without a late hit a stopped row ends as it was, unless its source has been deleted. */
  lemma {:induction false} StoppedRowsFinal(s: State, events: seq<Event>, id: string)
    requires Guarded(s) && Live(s) && AllEnabled(s, events) && LateHitFree(s, events)
    requires id in s.usedIds && !IsRunning(s.jobs, id)
    ensures !IsRunning(Replay(s, events).jobs, id)
    ensures id in Replay(s, events).jobs ==> id in s.jobs && Replay(s, events).jobs[id] == s.jobs[id]
    decreases |events|
  {
    hide Guarded, Live, Step, Enabled, LateHit;
    if events != [] {
      var next := Step(s, events[0]);
      StepKeepsGuarded(s, events[0]);
      StepKeepsLiveExactly(s, events[0]);
      if id !in s.jobs {
        StepForgetsForGood(s, events[0], id);
      } else {
        KeepsUsedIds(s, events[0]);
        if id in next.jobs {
          StoppedRowStays(s, events[0], id);
        }
      }
      StoppedRowsFinal(next, events[1..], id);
    }
  }

  lemma KeepsUsedIds(s: State, e: Event)
    requires Enabled(s, e)
    ensures s.usedIds <= Step(s, e).usedIds
  {
  }

  // ---------------------------------------------------------------- when a running row has an owner

  /** While serving, a running row has an owner: its own live task, or a handler about to fail it. */
  ghost predicate Owned(s: State) {
    s.serving ==> forall id :: id in s.jobs && IsRunning(s.jobs, id) ==> HasOwner(s, id)
  }

  predicate TaskOwns(s: State, t: nat, id: string)
    requires id in s.jobs
  {
    t in s.tasks && s.tasks[t] == Task(s.jobs[id].source, Inserted(id))
  }

  predicate HandlerOf(s: State, h: nat, source: string) {
    h in s.handlers && s.handlers[h] == source
  }

  ghost predicate HasOwner(s: State, id: string)
    requires id in s.jobs
  {
    (exists t :: TaskOwns(s, t, id)) || (exists h :: HandlerOf(s, h, s.jobs[id].source))
  }

  /** A running row that only its own task will stop: its source has no handler. */
  ghost predicate SoleOwner(s: State, task: nat)
    requires task in s.tasks
  {
    var t := s.tasks[task];
    t.stage.Inserted? && IsRunning(s.jobs, t.stage.job) && forall h :: !HandlerOf(s, h, t.source)
  }

  /** The last handler of a source has a running row to fail that no live task owns. */
  ghost predicate SoleHandler(s: State, handler: nat)
    requires handler in s.handlers
  {
    && (forall h :: HandlerOf(s, h, s.handlers[handler]) ==> h == handler)
    && exists id :: IsRunningFor(s.jobs, id, s.handlers[handler]) && forall t :: !TaskOwns(s, t, id)
  }

  /** The events that leave a running row without an owner. */
  ghost predicate Orphans(s: State, e: Event)
    requires Enabled(s, e)
  {
    match e
    case Panic(task, handled) => !handled && SoleOwner(s, task)
    case FinishSuccess(task, _, _, ok) => !ok && SoleOwner(s, task)
    case FinishFailure(task, _, _, ok) => !ok && SoleOwner(s, task)
    case HandleAbort(handler, _, ok) => !ok && SoleHandler(s, handler)
    case _ => false
  }

  lemma TaskOrphans(s: State, e: Event)
    requires Guarded(s) && Enabled(s, e) && Orphans(s, e) && (e.Panic? || e.FinishSuccess? || e.FinishFailure?)
    ensures !Owned(Step(s, e))
  {
    var (after, id) := (Step(s, e), s.tasks[e.task].stage.job);
    assert OwnRow(s, e.task);
    assert id in after.jobs && IsRunning(after.jobs, id);
    forall t ensures !TaskOwns(after, t, id) {
      assert t in after.tasks && t != e.task ==> s.tasks[t].source != s.tasks[e.task].source;
    }
    forall h ensures !HandlerOf(after, h, after.jobs[id].source) {
      assert !HandlerOf(s, h, s.tasks[e.task].source);
    }
    assert !HasOwner(after, id);
  }

  lemma HandlerOrphans(s: State, e: Event)
    requires Guarded(s) && Enabled(s, e) && Orphans(s, e) && e.HandleAbort?
    ensures !Owned(Step(s, e))
  {
    hide GuardsMatch;
    var after := Step(s, e);
    var id :| IsRunningFor(s.jobs, id, s.handlers[e.handler]) && forall t :: !TaskOwns(s, t, id);
    assert IsRunning(after.jobs, id);
    forall t ensures !TaskOwns(after, t, id) {
      assert !TaskOwns(s, t, id);
    }
    forall h ensures !HandlerOf(after, h, after.jobs[id].source) {
      assert HandlerOf(after, h, after.jobs[id].source) ==> HandlerOf(s, h, s.handlers[e.handler]);
    }
    assert !HasOwner(after, id);
  }

  lemma TaskOwnerSurvives(s: State, e: Event, id: string, t: nat)
    requires Guarded(s) && Enabled(s, e) && !Orphans(s, e)
    requires id in s.jobs && IsRunning(s.jobs, id) && TaskOwns(s, t, id)
    requires id in Step(s, e).jobs && IsRunning(Step(s, e).jobs, id) && Step(s, e).serving
    ensures HasOwner(Step(s, e), id)
  {
    hide GuardsMatch;
    var after := Step(s, e);
    if (e.Panic? || e.FinishSuccess? || e.FinishFailure?) && e.task == t {
      if e.Panic? && e.handled {
        assert HandlerOf(after, t, after.jobs[id].source);
      } else {
        assert !SoleOwner(s, t);
        var h :| HandlerOf(s, h, s.tasks[t].source);
        assert HandlerOf(after, h, after.jobs[id].source);
      }
    } else {
      assert TaskOwns(after, t, id);
    }
  }

  lemma HandlerOwnerSurvives(s: State, e: Event, id: string, h: nat)
    requires Guarded(s) && Enabled(s, e) && !Orphans(s, e) && e != Crash
    requires id in s.jobs && IsRunning(s.jobs, id) && HandlerOf(s, h, s.jobs[id].source)
    requires forall t :: !TaskOwns(s, t, id)
    requires id in Step(s, e).jobs && IsRunning(Step(s, e).jobs, id)
    ensures HasOwner(Step(s, e), id)
  {
    hide GuardsMatch;
    var after := Step(s, e);
    if e.HandleAbort? && e.handler == h {
      assert IsRunningFor(s.jobs, id, s.handlers[h]);
      var other :| HandlerOf(s, other, s.handlers[h]) && other != h;
      assert HandlerOf(after, other, after.jobs[id].source);
    } else {
      assert HandlerOf(after, h, after.jobs[id].source);
    }
  }

  lemma OwnerSurvives(s: State, e: Event, id: string)
    requires Guarded(s) && Enabled(s, e) && !Orphans(s, e) && s.serving && e != Crash
    requires id in s.jobs && IsRunning(s.jobs, id) && HasOwner(s, id)
    requires id in Step(s, e).jobs && IsRunning(Step(s, e).jobs, id)
    ensures HasOwner(Step(s, e), id)
  {
    hide Guarded, Orphans, Step, TaskOwns, HandlerOf;
    if t :| TaskOwns(s, t, id) {
      StillServing(s, e);
      TaskOwnerSurvives(s, e, id, t);
    } else {
      var h :| HandlerOf(s, h, s.jobs[id].source);
      HandlerOwnerSurvives(s, e, id, h);
    }
  }

  lemma StillServing(s: State, e: Event)
    requires Enabled(s, e) && s.serving && e != Crash
    ensures Step(s, e).serving
  {
  }

  lemma RunningBefore(s: State, e: Event, id: string)
    requires Enabled(s, e) && id in Step(s, e).jobs && IsRunning(Step(s, e).jobs, id) && !(e.InsertJob? && e.ok && e.job == id)
    ensures id in s.jobs && IsRunning(s.jobs, id)
  {
    if !(e.InsertJob? && e.ok) {
      StepOnlyStops(s, e);
    }
  }

  lemma RestartOwnsNothing(s: State, e: Event)
    requires Guarded(s) && Enabled(s, e) && (!s.serving || e == Crash)
    ensures Owned(Step(s, e))
  {
  }

  /** A step leaves no running row without an owner exactly when it is not one of the orphaning events. */
  lemma StepKeepsOwnedExactly(s: State, e: Event)
    requires Guarded(s) && Owned(s) && Enabled(s, e)
    ensures Owned(Step(s, e)) <==> !Orphans(s, e)
  {
    var after := Step(s, e);
    if Orphans(s, e) {
      hide Guarded, Owned, SoleOwner, SoleHandler;
      if e.HandleAbort? {
        HandlerOrphans(s, e);
      } else {
        TaskOrphans(s, e);
      }
    } else if !s.serving || e == Crash {
      RestartOwnsNothing(s, e);
    } else {
      forall id | id in after.jobs && IsRunning(after.jobs, id) ensures HasOwner(after, id) {
        if e.InsertJob? && e.ok && e.job == id {
          assert TaskOwns(after, e.task, id);
        } else {
          hide Guarded, Orphans, Step, HasOwner;
          RunningBefore(s, e, id);
          OwnerSurvives(s, e, id);
        }
      }
    }
  }

  ghost predicate OrphanFree(s: State, events: seq<Event>)
    requires AllEnabled(s, events)
    decreases |events|
  {
    events != [] ==> !Orphans(s, events[0]) && OrphanFree(Step(s, events[0]), events[1..])
  }

  ghost predicate AlwaysOwned(s: State, events: seq<Event>)
    requires AllEnabled(s, events)
    decreases |events|
  {
    Owned(s) && (events != [] ==> AlwaysOwned(Step(s, events[0]), events[1..]))
  }

  /** Every running row has an owner all along a run exactly when no event on it orphans a row. */
  lemma {:induction false} OwnedThroughoutExactly(s: State, events: seq<Event>)
    requires Guarded(s) && Owned(s) && AllEnabled(s, events)
    ensures AlwaysOwned(s, events) <==> OrphanFree(s, events)
    decreases |events|
  {
    hide Guarded, Owned, Step, Enabled, Orphans;
    if events != [] {
      StepKeepsGuarded(s, events[0]);
      StepKeepsOwnedExactly(s, events[0]);
      if !Orphans(s, events[0]) {
        OwnedThroughoutExactly(Step(s, events[0]), events[1..]);
      }
    }
  }

  lemma ReachableOwnedExactly(events: seq<Event>)
    requires AllEnabled(INIT, events)
    ensures AlwaysOwned(INIT, events) <==> OrphanFree(INIT, events)
  {
    OwnedThroughoutExactly(INIT, events);
  }

  // ---------------------------------------------------------------- when a source has one running row

  /** An insert while the source still has a running row. */
  predicate Doubles(s: State, e: Event)
    requires Enabled(s, e)
  {
    e.InsertJob? && e.ok && !NoneRunning(s.jobs, s.tasks[e.task].source)
  }

  lemma StopsKeepSingle(before: Jobs, after: Jobs)
    requires SingleRunning(before) && OnlyStops(before, after)
    ensures SingleRunning(after)
  {
  }

  lemma StepKeepsSingleExactly(s: State, e: Event)
    requires SingleRunning(s.jobs) && s.jobs.Keys <= s.usedIds && Enabled(s, e)
    ensures SingleRunning(Step(s, e).jobs) <==> !Doubles(s, e)
  {
    if e.InsertJob? && e.ok {
      InsertKeepsSingleExactly(s.jobs, e.job, s.tasks[e.task].source);
      hide SingleRunning, NoneRunning;
    } else {
      StepOnlyStops(s, e);
      StopsKeepSingle(s.jobs, Step(s, e).jobs);
    }
  }

  predicate DoubleFree(s: State, events: seq<Event>)
    requires AllEnabled(s, events)
    decreases |events|
  {
    events != [] ==> !Doubles(s, events[0]) && DoubleFree(Step(s, events[0]), events[1..])
  }

  predicate AlwaysSingle(s: State, events: seq<Event>)
    requires AllEnabled(s, events)
    decreases |events|
  {
    SingleRunning(s.jobs) && (events != [] ==> AlwaysSingle(Step(s, events[0]), events[1..]))
  }

  /** A source has at most one running row all along a run exactly when no insert meets a running row. */
  lemma {:induction false} SingleThroughoutExactly(s: State, events: seq<Event>)
    requires Guarded(s) && SingleRunning(s.jobs) && AllEnabled(s, events)
    ensures AlwaysSingle(s, events) <==> DoubleFree(s, events)
    decreases |events|
  {
    assert s.jobs.Keys <= s.usedIds;
    hide Guarded, Step, Enabled, SingleRunning, Doubles;
    if events != [] {
      StepKeepsGuarded(s, events[0]);
      StepKeepsSingleExactly(s, events[0]);
      if !Doubles(s, events[0]) {
        SingleThroughoutExactly(Step(s, events[0]), events[1..]);
      }
    }
  }

  // ---------------------------------------------------------------- the concrete runs again

  /** The cancelled refresh of CancelledLeavesRow orphans its row. */
  lemma CancelOrphans()
    ensures AllEnabled(Idle(map[], {}), StartEvents(1, "j1", true))
    ensures var s := Replay(Idle(map[], {}), StartEvents(1, "j1", true));
      Enabled(s, Panic(1, false)) && Orphans(s, Panic(1, false))
  {
    StartReplays(map[], map[], {}, 1, "j1", true);
    hide AllEnabled, Replay;
  }

  /** The handler of FailedRowCanSucceed hits the next refresh. */
  lemma LateHandlerHits()
    ensures var late := State(true, {}, map[], map[1 := "s"], map[], {});
      && AllEnabled(late, StartEvents(2, "j2", true))
      && var s := Replay(late, StartEvents(2, "j2", true));
         Enabled(s, HandleAbort(1, 0, true)) && LateHit(s, HandleAbort(1, 0, true))
  {
    StartReplays(map[], map[1 := "s"], {}, 2, "j2", true);
    hide AllEnabled, Replay;
    var s := Replay(State(true, {}, map[], map[1 := "s"], map[], {}), StartEvents(2, "j2", true));
    assert Hits(s, 1, 2);
  }
}
