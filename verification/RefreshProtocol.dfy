/**
 The refresh protocol as interleaved steps of many tasks: acquiring the guard, taking over
 stale jobs, inserting the job row, finishing it, panics with their late handler, cancelled
 callers, source deletion, crashes and restarts.
 */
module RefreshProtocol {
  import opened Text
  import opened RefreshJobs

  /** Where a live task stands; it holds its source's guard all along. */
  datatype Stage = Acquired | TookOver | Inserted(job: string) | Finished

  datatype Task = Task(source: string, stage: Stage)

  /** `handlers` are the callers of aborted tasks that have yet to mark the source's running rows failed. */
  datatype State = State(
    serving: bool,
    registry: set<string>,
    tasks: map<nat, Task>,
    handlers: map<nat, string>,
    jobs: Jobs,
    usedIds: set<string>)

  datatype Event =
    | Acquire(task: nat, source: string)
    | EarlyError(task: nat)
    | TakeOver(task: nat, at: int, ok: bool)
    | InsertJob(task: nat, job: string, ok: bool)
    | FinishSuccess(task: nat, at: int, nodeCount: nat, ok: bool)
    | FinishFailure(task: nat, at: int, error: string, ok: bool)
    | Return(task: nat)
    | Panic(task: nat, handled: bool)
    | HandleAbort(handler: nat, at: int, ok: bool)
    | DeleteSource(source: string)
    | Crash
    | Restart(at: int, ok: bool)

  const INTERNAL := "E_INTERNAL"

  predicate AtStage(s: State, task: nat, stage: Stage) {
    task in s.tasks && s.tasks[task].stage == stage
  }

  predicate Enabled(s: State, e: Event) {
    match e
    case Acquire(task, _) => s.serving && task !in s.tasks && task !in s.handlers
    case EarlyError(task) => AtStage(s, task, Acquired) || AtStage(s, task, TookOver)
    case TakeOver(task, _, _) => AtStage(s, task, Acquired)
    case InsertJob(task, job, _) => AtStage(s, task, TookOver) && job !in s.usedIds
    case FinishSuccess(task, _, _, _) => task in s.tasks && s.tasks[task].stage.Inserted?
    case FinishFailure(task, _, _, _) => task in s.tasks && s.tasks[task].stage.Inserted?
    case Return(task) => AtStage(s, task, Finished)
    case Panic(task, _) => task in s.tasks
    case HandleAbort(handler, _, _) => handler in s.handlers
    case DeleteSource(_) => s.serving
    case Crash => s.serving
    case Restart(_, _) => !s.serving
  }

  function DropGuard(s: State, task: nat): State
    requires task in s.tasks
  {
    s.(registry := s.registry - {s.tasks[task].source}, tasks := s.tasks - {task})
  }

  function MoveTo(s: State, task: nat, stage: Stage): State
    requires task in s.tasks
  {
    s.(tasks := s.tasks[task := s.tasks[task].(stage := stage)])
  }

  function Step(s: State, e: Event): State
    requires Enabled(s, e)
  {
    match e
    case Acquire(task, source) =>
      if source in s.registry then s
      else s.(registry := s.registry + {source}, tasks := s.tasks[task := Task(source, Acquired)])
    case EarlyError(task) => DropGuard(s, task)
    case TakeOver(task, at, ok) =>
      // The result of the UPDATE is ignored.
      var jobs := if ok then MarkRunningFailedBySource(s.jobs, s.tasks[task].source, at, INTERNAL) else s.jobs;
      MoveTo(s, task, TookOver).(jobs := jobs)
    case InsertJob(task, job, ok) =>
      if ok then
        MoveTo(s, task, Inserted(job)).(jobs := InsertRunning(s.jobs, job, s.tasks[task].source), usedIds := s.usedIds + {job})
      else DropGuard(s, task).(usedIds := s.usedIds + {job})
    case FinishSuccess(task, at, nodeCount, ok) =>
      // A failed UPDATE leaves the row running and returns the error.
      var jobs := if ok then MarkSuccess(s.jobs, s.tasks[task].stage.job, at, nodeCount) else s.jobs;
      MoveTo(s, task, Finished).(jobs := jobs)
    case FinishFailure(task, at, error, ok) =>
      var jobs := if ok then MarkFailed(s.jobs, s.tasks[task].stage.job, at, error) else s.jobs;
      MoveTo(s, task, Finished).(jobs := jobs)
    case Return(task) => DropGuard(s, task)
    case Panic(task, handled) =>
      // Unwinding drops the guard at once; the spawning handler learns of it later. A cancelled caller has no handler.
      var after := DropGuard(s, task);
      if handled then after.(handlers := s.handlers[task := s.tasks[task].source]) else after
    case HandleAbort(handler, at, ok) =>
      var jobs := if ok then MarkRunningFailedBySource(s.jobs, s.handlers[handler], at, INTERNAL) else s.jobs;
      s.(jobs := jobs, handlers := s.handlers - {handler})
    case DeleteSource(source) => s.(jobs := DeleteSourceRows(s.jobs, source))
    case Crash => State(false, {}, map[], map[], s.jobs, s.usedIds)
    case Restart(at, ok) =>
      // Serving starts only after every running row has been marked failed.
      if ok then s.(serving := true, jobs := MarkAllRunningFailed(s.jobs, at, INTERNAL)) else s
  }

  const INIT := State(false, {}, map[], map[], map[], {})

  // ---------------------------------------------------------------- what single events do

  /** A finish whose update succeeds stores its result in the task's row, whatever stood there, and in no other. */
  lemma FinishStoresResult(s: State, e: Event)
    requires Enabled(s, e) && (e.FinishSuccess? || e.FinishFailure?) && e.ok && s.tasks[e.task].stage.job in s.jobs
    ensures var (job, after) := (s.tasks[e.task].stage.job, Step(s, e).jobs);
      && after.Keys == s.jobs.Keys
      && after[job] == (if e.FinishSuccess? then Job(s.jobs[job].source, Success, Some(e.at), Some(e.nodeCount), None)
                        else Job(s.jobs[job].source, Failed, Some(e.at), None, Some(e.error)))
      && forall id :: id in after && id != job ==> after[id] == s.jobs[id]
  {
  }

  /** A takeover, the handler of an aborted refresh and a restart fail exactly the running rows in their reach. */
  lemma BulkUpdateFails(s: State, e: Event, id: string)
    requires Enabled(s, e) && (e.TakeOver? || e.HandleAbort? || e.Restart?) && e.ok && id in s.jobs
    ensures var reached := match e
        case TakeOver(task, _, _) => s.jobs[id].source == s.tasks[task].source
        case HandleAbort(handler, _, _) => s.jobs[id].source == s.handlers[handler]
        case Restart(_, _) => true;
      && Step(s, e).jobs.Keys == s.jobs.Keys
      && Step(s, e).jobs[id] == if s.jobs[id].status == Running && reached
           then Job(s.jobs[id].source, Failed, Some(e.at), None, Some("E_INTERNAL")) else s.jobs[id]
  {
  }

  /** A failed update changes no row. */
  lemma FailedUpdateChangesNothing(s: State, e: Event)
    requires Enabled(s, e)
    requires (e.TakeOver? || e.InsertJob? || e.FinishSuccess? || e.FinishFailure? || e.HandleAbort? || e.Restart?) && !e.ok
    ensures Step(s, e).jobs == s.jobs
  {
  }

  /** However a task ends, its guard is free again at once, and the next request for its source is granted. */
  lemma EndedTaskFreesSource(s: State, e: Event, next: nat)
    requires Enabled(s, e) && (e.EarlyError? || e.Return? || e.Panic? || (e.InsertJob? && !e.ok))
    requires s.serving && next !in s.tasks && next !in s.handlers && next != e.task
    ensures var (source, after) := (s.tasks[e.task].source, Step(s, e));
      && e.task !in after.tasks && source !in after.registry
      && Enabled(after, Acquire(next, source))
      && AtStage(Step(after, Acquire(next, source)), next, Acquired)
  {
  }

  /** A request is granted exactly when no guard of its source is held. */
  lemma GrantedExactly(s: State, task: nat, source: string)
    requires Enabled(s, Acquire(task, source))
    ensures task in Step(s, Acquire(task, source)).tasks <==> source !in s.registry
    ensures source in Step(s, Acquire(task, source)).registry
  {
  }

  /** Guards come and go without a trace in the table, and a crash loses all of them and no row. */
  lemma RowsOutlast(s: State, e: Event)
    requires Enabled(s, e) && (e.Acquire? || e.EarlyError? || e.Return? || e.Crash?)
    ensures Step(s, e).jobs == s.jobs
    ensures e.Crash? ==> !Step(s, e).serving && Step(s, e).registry == {} && Step(s, e).tasks == map[] && Step(s, e).handlers == map[]
  {
  }

  /** Deleting a source deletes exactly its rows, and nothing else happens. */
  lemma DeletionExactly(s: State, source: string)
    requires Enabled(s, DeleteSource(source))
    ensures var after := Step(s, DeleteSource(source));
      && after == s.(jobs := after.jobs)
      && forall id :: (id in after.jobs <==> id in s.jobs && s.jobs[id].source != source)
                      && (id in after.jobs ==> after.jobs[id] == s.jobs[id])
  {
  }

  /** A panic leaves its source to a handler if somebody waits for the task, and every row as it is. */
  lemma PanicExactly(s: State, task: nat, handled: bool)
    requires Enabled(s, Panic(task, handled))
    ensures var after := Step(s, Panic(task, handled));
      && after.jobs == s.jobs && after.tasks.Keys == s.tasks.Keys - {task}
      && after.handlers == (if handled then s.handlers[task := s.tasks[task].source] else s.handlers)
  {
  }

  /** Serving resumes only after a successful recovery, and then no row runs. */
  lemma RestartRecovers(s: State, at: int, ok: bool)
    requires Enabled(s, Restart(at, ok))
    ensures var after := Step(s, Restart(at, ok));
      && (after.serving <==> ok)
      && (ok ==> forall id :: id in after.jobs ==> after.jobs[id].status != Running)
  {
  }

  // ---------------------------------------------------------------- the invariant

  predicate SingleRunning(jobs: Jobs) {
    forall a, b :: a in jobs && b in jobs && IsRunning(jobs, a) && IsRunningFor(jobs, b, jobs[a].source) ==> a == b
  }

  predicate NoneRunning(jobs: Jobs, source: string) {
    forall id :: id in jobs ==> !IsRunningFor(jobs, id, source)
  }

  /** The registry holds exactly the sources of the live guards, one guard per source. */
  ghost predicate GuardsMatch(s: State) {
    && (forall t :: t in s.tasks ==> s.tasks[t].source in s.registry)
    && (forall source :: source in s.registry ==> exists t :: t in s.tasks && s.tasks[t].source == source)
    && (forall t, u :: t in s.tasks && u in s.tasks && s.tasks[t].source == s.tasks[u].source ==> t == u)
  }

  /** What a task knows about the running rows of its source. */
  predicate StageHolds(s: State, t: nat)
    requires t in s.tasks
  {
    match s.tasks[t].stage
    case Acquired => true
    case TookOver => NoneRunning(s.jobs, s.tasks[t].source)
    case Inserted(job) =>
      job in s.usedIds && forall id :: id in s.jobs && IsRunningFor(s.jobs, id, s.tasks[t].source) ==> id == job
    case Finished => true
  }

  ghost predicate Inv(s: State) {
    && GuardsMatch(s)
    && SingleRunning(s.jobs)
    && (forall t :: t in s.tasks ==> StageHolds(s, t))
    && s.jobs.Keys <= s.usedIds
    && (forall id :: id in s.jobs ==> RowConsistent(s.jobs[id]))
    && s.tasks.Keys !! s.handlers.Keys
    && (!s.serving ==> s.tasks == map[] && s.registry == {} && s.handlers == map[])
  }

  /** The assumption about the ignored takeover result: it took effect, or there was nothing to take over. */
  predicate TakeoverEffective(s: State, e: Event)
    requires Enabled(s, e)
  {
    e.TakeOver? ==> e.ok || NoneRunning(s.jobs, s.tasks[e.task].source)
  }

  /** No row that has stopped running, or has been deleted, runs again. */
  predicate NoRevival(before: State, after: State) {
    && before.usedIds <= after.usedIds
    && forall id :: id in before.usedIds && IsRunning(after.jobs, id) ==> IsRunning(before.jobs, id)
  }

  lemma DropGuardKeepsGuards(s: State, task: nat)
    requires GuardsMatch(s) && task in s.tasks
    ensures GuardsMatch(DropGuard(s, task))
  {
    var after := DropGuard(s, task);
    forall source | source in after.registry ensures exists t :: t in after.tasks && after.tasks[t].source == source {
      var t :| t in s.tasks && s.tasks[t].source == source;
      assert t in after.tasks;
    }
  }

  lemma MoveKeepsGuards(s: State, task: nat, stage: Stage)
    requires GuardsMatch(s) && task in s.tasks
    ensures GuardsMatch(MoveTo(s, task, stage))
  {
    var after := MoveTo(s, task, stage);
    forall source | source in after.registry ensures exists t :: t in after.tasks && after.tasks[t].source == source {
      var t :| t in s.tasks && s.tasks[t].source == source;
      assert t in after.tasks;
    }
  }

  lemma AcquireKeepsGuards(s: State, e: Event)
    requires GuardsMatch(s) && e.Acquire? && Enabled(s, e)
    ensures GuardsMatch(Step(s, e))
  {
    var after := Step(s, e);
    forall source | source in after.registry ensures exists t :: t in after.tasks && after.tasks[t].source == source {
      if source in s.registry {
        var t :| t in s.tasks && s.tasks[t].source == source;
        assert t in after.tasks;
      } else {
        assert e.task in after.tasks;
      }
    }
  }

  /** Failing updates play no part in this: the registry matches the live guards on every run. */
  lemma StepKeepsGuards(s: State, e: Event)
    requires GuardsMatch(s) && Enabled(s, e)
    ensures GuardsMatch(Step(s, e))
  {
    match e
    case Acquire(_, _) => AcquireKeepsGuards(s, e);
    case EarlyError(task) => DropGuardKeepsGuards(s, task);
    case Return(task) => DropGuardKeepsGuards(s, task);
    case Panic(task, _) => DropGuardKeepsGuards(s, task);
    case TakeOver(task, _, _) => MoveKeepsGuards(s, task, TookOver);
    case InsertJob(task, job, ok) =>
      if ok {
        MoveKeepsGuards(s, task, Inserted(job));
      } else {
        DropGuardKeepsGuards(s, task);
      }
    case FinishSuccess(task, _, _, _) => MoveKeepsGuards(s, task, Finished);
    case FinishFailure(task, _, _, _) => MoveKeepsGuards(s, task, Finished);
    case _ =>
  }

  /** A table update that adds no running row. */
  predicate OnlyStops(before: Jobs, after: Jobs) {
    && after.Keys <= before.Keys
    && forall id :: id in after ==>
         && after[id].source == before[id].source
         && (after[id].status == Running ==> after[id] == before[id])
         && (RowConsistent(before[id]) ==> RowConsistent(after[id]))
  }

  lemma MarksOnlyStop(jobs: Jobs, id: string, at: int, nodeCount: nat, error: string)
    ensures OnlyStops(jobs, jobs)
    ensures OnlyStops(jobs, MarkSuccess(jobs, id, at, nodeCount))
    ensures OnlyStops(jobs, MarkFailed(jobs, id, at, error))
  {
  }

  lemma BulkMarksOnlyStop(jobs: Jobs, source: string, at: int, error: string)
    ensures OnlyStops(jobs, MarkRunningFailedBySource(jobs, source, at, error))
    ensures NoneRunning(MarkRunningFailedBySource(jobs, source, at, error), source)
    ensures OnlyStops(jobs, MarkAllRunningFailed(jobs, at, error))
  {
  }

  lemma UpdatesOnlyStop(jobs: Jobs, id: string, source: string, at: int, nodeCount: nat, error: string)
    ensures OnlyStops(jobs, jobs)
    ensures OnlyStops(jobs, MarkSuccess(jobs, id, at, nodeCount))
    ensures OnlyStops(jobs, MarkFailed(jobs, id, at, error))
    ensures OnlyStops(jobs, MarkRunningFailedBySource(jobs, source, at, error))
    ensures NoneRunning(MarkRunningFailedBySource(jobs, source, at, error), source)
    ensures OnlyStops(jobs, MarkAllRunningFailed(jobs, at, error))
    ensures OnlyStops(jobs, DeleteSourceRows(jobs, source))
  {
    MarksOnlyStop(jobs, id, at, nodeCount, error);
    BulkMarksOnlyStop(jobs, source, at, error);
    hide MarkSuccess, MarkFailed, MarkRunningFailedBySource, MarkAllRunningFailed, NoneRunning;
  }

  lemma StopsKeepJobs(s: State, jobs: Jobs)
    requires Inv(s) && OnlyStops(s.jobs, jobs)
    ensures Inv(s.(jobs := jobs))
  {
    var after := s.(jobs := jobs);
    forall t | t in after.tasks ensures StageHolds(after, t) {
      assert StageHolds(s, t);
    }
  }

  /** Every event but a successful insert only stops rows. */
  lemma StepOnlyStops(s: State, e: Event)
    requires Enabled(s, e) && !(e.InsertJob? && e.ok)
    ensures OnlyStops(s.jobs, Step(s, e).jobs)
  {
    match e
    case TakeOver(task, at, _) => UpdatesOnlyStop(s.jobs, "", s.tasks[task].source, at, 0, INTERNAL);
    case FinishSuccess(task, at, nodeCount, _) => UpdatesOnlyStop(s.jobs, s.tasks[task].stage.job, "", at, nodeCount, "");
    case FinishFailure(task, at, error, _) => UpdatesOnlyStop(s.jobs, s.tasks[task].stage.job, "", at, 0, error);
    case HandleAbort(handler, at, _) => UpdatesOnlyStop(s.jobs, "", s.handlers[handler], at, 0, INTERNAL);
    case DeleteSource(source) => UpdatesOnlyStop(s.jobs, "", source, 0, 0, "");
    case Restart(at, _) => UpdatesOnlyStop(s.jobs, "", "", at, 0, INTERNAL);
    case _ =>
  }

  lemma TakeoverClears(s: State, e: Event)
    requires Enabled(s, e) && e.TakeOver? && TakeoverEffective(s, e)
    ensures NoneRunning(Step(s, e).jobs, s.tasks[e.task].source)
  {
    UpdatesOnlyStop(s.jobs, "", s.tasks[e.task].source, e.at, 0, INTERNAL);
  }

  lemma StageAfterStop(s: State, e: Event, t: nat)
    requires Inv(s) && Enabled(s, e) && TakeoverEffective(s, e) && !(e.InsertJob? && e.ok)
    requires t in Step(s, e).tasks
    ensures StageHolds(Step(s, e), t)
  {
    hide GuardsMatch, SingleRunning, RowConsistent;
    StepOnlyStops(s, e);
    hide OnlyStops;
    if t in s.tasks {
      StopsKeepJobs(s, Step(s, e).jobs);
      assert StageHolds(s.(jobs := Step(s, e).jobs), t);
    }
    if e.TakeOver? && t == e.task {
      TakeoverClears(s, e);
    }
  }

  lemma StoppingStepKeepsInv(s: State, e: Event)
    requires Inv(s) && Enabled(s, e) && TakeoverEffective(s, e) && !(e.InsertJob? && e.ok)
    ensures Inv(Step(s, e))
  {
    hide GuardsMatch, SingleRunning, RowConsistent, StageHolds, OnlyStops, NoneRunning;
    var after := Step(s, e);
    StepKeepsGuards(s, e);
    StepOnlyStops(s, e);
    StopsKeepJobs(s, after.jobs);
    forall t | t in after.tasks ensures StageHolds(after, t) {
      StageAfterStop(s, e, t);
    }
  }

  /** An insert keeps "one running row per source" exactly when the source has no running row left. */
  lemma InsertKeepsSingleExactly(jobs: Jobs, id: string, source: string)
    requires SingleRunning(jobs) && id !in jobs
    ensures SingleRunning(InsertRunning(jobs, id, source)) <==> NoneRunning(jobs, source)
  {
    var after := InsertRunning(jobs, id, source);
    if SingleRunning(after) {
      forall other | other in jobs ensures !IsRunningFor(jobs, other, source) {
        assert IsRunning(after, id) && (IsRunningFor(jobs, other, source) ==> IsRunningFor(after, other, source));
      }
    }
  }

  lemma StageAfterInsert(s: State, e: Event, t: nat)
    requires Inv(s) && Enabled(s, e) && e.InsertJob? && e.ok
    requires t in s.tasks
    ensures StageHolds(Step(s, e), t)
  {
    assert StageHolds(s, t) && StageHolds(s, e.task);
    assert t != e.task ==> s.tasks[t].source != s.tasks[e.task].source;
  }

  lemma InsertKeepsInv(s: State, e: Event)
    requires Inv(s) && Enabled(s, e) && e.InsertJob? && e.ok
    ensures Inv(Step(s, e))
  {
    hide GuardsMatch, SingleRunning;
    var after := Step(s, e);
    StepKeepsGuards(s, e);
    assert StageHolds(s, e.task);
    InsertKeepsSingleExactly(s.jobs, e.job, s.tasks[e.task].source);
    hide NoneRunning, StageHolds;
    forall t | t in after.tasks ensures StageHolds(after, t) {
      StageAfterInsert(s, e, t);
    }
  }

  lemma StepKeepsInv(s: State, e: Event)
    requires Inv(s) && Enabled(s, e) && TakeoverEffective(s, e)
    ensures Inv(Step(s, e))
    ensures NoRevival(s, Step(s, e))
  {
    if e.InsertJob? && e.ok {
      InsertKeepsInv(s, e);
    } else {
      StoppingStepKeepsInv(s, e);
      StepOnlyStops(s, e);
    }
  }

  // ---------------------------------------------------------------- whole runs

  predicate Allowed(s: State, events: seq<Event>)
    decreases |events|
  {
    events != [] ==>
      && Enabled(s, events[0]) && TakeoverEffective(s, events[0])
      && Allowed(Step(s, events[0]), events[1..])
  }

  function Run(s: State, events: seq<Event>): State
    requires Allowed(s, events)
    decreases |events|
  {
    if events == [] then s else Run(Step(s, events[0]), events[1..])
  }

  /** Safety over any interleaving: the invariant holds at the end, and no row was revived on the way. */
  lemma {:induction false} RunKeepsInv(s: State, events: seq<Event>)
    requires Inv(s) && Allowed(s, events)
    ensures Inv(Run(s, events))
    ensures NoRevival(s, Run(s, events))
    decreases |events|
  {
    hide Inv, Step, TakeoverEffective, Enabled;
    if events != [] {
      StepKeepsInv(s, events[0]);
      RunKeepsInv(Step(s, events[0]), events[1..]);
    }
  }

  /** Every reachable state has at most one running row per source, and a registry equal to the live guards. */
  lemma ReachableIsSafe(events: seq<Event>)
    requires Allowed(INIT, events)
    ensures var s := Run(INIT, events);
      && (forall a, b :: IsRunning(s.jobs, a) && IsRunningFor(s.jobs, b, s.jobs[a].source) ==> a == b)
      && s.registry == (set t | t in s.tasks :: s.tasks[t].source)
      && (forall t, u :: t in s.tasks && u in s.tasks && s.tasks[t].source == s.tasks[u].source ==> t == u)
      && (forall id :: id in s.jobs ==> RowConsistent(s.jobs[id]))
  {
    RunKeepsInv(INIT, events);
  }

  // ---------------------------------------------------------------- runs on which updates may fail

  predicate AllEnabled(s: State, events: seq<Event>)
    decreases |events|
  {
    events != [] ==> Enabled(s, events[0]) && AllEnabled(Step(s, events[0]), events[1..])
  }

  function Replay(s: State, events: seq<Event>): State
    requires AllEnabled(s, events)
    decreases |events|
  {
    if events == [] then s else Replay(Step(s, events[0]), events[1..])
  }

  lemma {:induction false} ReplayTwo(s: State, first: seq<Event>, second: seq<Event>)
    requires AllEnabled(s, first) && AllEnabled(Replay(s, first), second)
    ensures AllEnabled(s, first + second) && Replay(s, first + second) == Replay(Replay(s, first), second)
    decreases |first|
  {
    if first == [] {
      assert first + second == second;
    } else {
      assert (first + second)[1..] == first[1..] + second;
      ReplayTwo(Step(s, first[0]), first[1..], second);
    }
  }

  lemma ReplayThree(s: State, a: Event, b: Event, c: Event)
    requires Enabled(s, a) && Enabled(Step(s, a), b) && Enabled(Step(Step(s, a), b), c)
    ensures AllEnabled(s, [a, b, c]) && Replay(s, [a, b, c]) == Step(Step(Step(s, a), b), c)
  {
    hide Step, Enabled;
    assert [a, b, c][1..] == [b, c] && [b, c][1..] == [c] && [c][1..] == [];
    assert AllEnabled(Step(Step(s, a), b), [c]) && Replay(Step(Step(s, a), b), [c]) == Step(Step(Step(s, a), b), c);
    assert AllEnabled(Step(s, a), [b, c]) && Replay(Step(s, a), [b, c]) == Step(Step(Step(s, a), b), c);
  }

  function RunningJob(source: string): Job {
    Job(source, Running, None, None, None)
  }

  // One refresh of "s" up to its insert, when no row of "s" is there to take over.
  function StartEvents(task: nat, job: string, takeover: bool): seq<Event> {
    [Acquire(task, "s"), TakeOver(task, 0, takeover), InsertJob(task, job, true)]
  }

  function Idle(jobs: Jobs, usedIds: set<string>): State {
    State(true, {}, map[], map[], jobs, usedIds)
  }

  lemma StartReplays(jobs: Jobs, handlers: map<nat, string>, usedIds: set<string>, task: nat, job: string, takeover: bool)
    requires task !in handlers && job !in usedIds
    requires takeover ==> NoneRunning(jobs, "s")
    ensures var s := State(true, {}, map[], handlers, jobs, usedIds);
      && AllEnabled(s, StartEvents(task, job, takeover))
      && Replay(s, StartEvents(task, job, takeover)) ==
           State(true, {"s"}, map[task := Task("s", Inserted(job))], handlers, jobs[job := RunningJob("s")], usedIds + {job})
  {
    var s := State(true, {}, map[], handlers, jobs, usedIds);
    var s1 := Step(s, Acquire(task, "s"));
    assert s1 == State(true, {"s"}, map[task := Task("s", Acquired)], handlers, jobs, usedIds);
    assert MarkRunningFailedBySource(jobs, "s", 0, INTERNAL) == jobs || !takeover;
    var s2 := Step(s1, TakeOver(task, 0, takeover));
    assert s2 == State(true, {"s"}, map[task := Task("s", TookOver)], handlers, jobs, usedIds);
    assert Step(s2, InsertJob(task, job, true)).tasks == map[task := Task("s", Inserted(job))];
    ReplayThree(s, Acquire(task, "s"), TakeOver(task, 0, takeover), InsertJob(task, job, true));
  }

  /** A refresh that is cancelled after its insert leaves its running row behind. */
  lemma CancelledLeavesRow()
    ensures var events := StartEvents(1, "j1", true) + [Panic(1, false)];
      && AllEnabled(Idle(map[], {}), events)
      && Replay(Idle(map[], {}), events) == Idle(map["j1" := RunningJob("s")], {"j1"})
  {
    StartReplays(map[], map[], {}, 1, "j1", true);
    var s := Replay(Idle(map[], {}), StartEvents(1, "j1", true));
    assert map[]["j1" := RunningJob("s")] == map["j1" := RunningJob("s")];
    assert Step(s, Panic(1, false)) == Idle(map["j1" := RunningJob("s")], {"j1"});
    assert [Panic(1, false)][1..] == [];
    assert AllEnabled(s, [Panic(1, false)]) && Replay(s, [Panic(1, false)]) == Step(s, Panic(1, false));
    hide Step, Enabled;
    ReplayTwo(Idle(map[], {}), StartEvents(1, "j1", true), [Panic(1, false)]);
  }

  /**
   The takeover's result is ignored: when it fails after a cancelled refresh, the next refresh
   inserts a second running row for the same source.
   */
  lemma IgnoredTakeoverDoublesRows()
    ensures var events := StartEvents(1, "j1", true) + [Panic(1, false)] + StartEvents(2, "j2", false);
      && AllEnabled(Idle(map[], {}), events)
      && var jobs := Replay(Idle(map[], {}), events).jobs;
         IsRunningFor(jobs, "j1", "s") && IsRunningFor(jobs, "j2", "s") && !SingleRunning(jobs)
  {
    hide Step, Enabled, AllEnabled, Replay;
    var jobs := map["j1" := RunningJob("s")];
    CancelledLeavesRow();
    StartReplays(jobs, map[], {"j1"}, 2, "j2", false);
    ReplayTwo(Idle(map[], {}), StartEvents(1, "j1", true) + [Panic(1, false)], StartEvents(2, "j2", false));
    var after := jobs["j2" := RunningJob("s")];
    assert IsRunningFor(after, "j1", "s") && IsRunningFor(after, "j2", "s");
  }

  /** A task that acquires the guard of "s" and panics leaves a handler that has yet to run. */
  lemma LatePanicReached()
    ensures var events := [Acquire(1, "s"), Panic(1, true)];
      && AllEnabled(Idle(map[], {}), events)
      && Replay(Idle(map[], {}), events) == State(true, {}, map[], map[1 := "s"], map[], {})
  {
    var s := Step(Idle(map[], {}), Acquire(1, "s"));
    assert s == State(true, {"s"}, map[1 := Task("s", Acquired)], map[], map[], {});
    assert Step(s, Panic(1, true)) == State(true, {}, map[], map[1 := "s"], map[], {});
    assert [Panic(1, true)][1..] == [] && [Acquire(1, "s"), Panic(1, true)][1..] == [Panic(1, true)];
    assert AllEnabled(s, [Panic(1, true)]) && Replay(s, [Panic(1, true)]) == Step(s, Panic(1, true));
  }

  /**
   Terminal states are not absorbing, even when every UPDATE succeeds: the late handler of a
   panicked refresh fails the row of the next one, which then finishes successfully. `late`
   is the state that LatePanicReached shows to be reachable.
   */
  lemma FailedRowCanSucceed()
    ensures var events := StartEvents(2, "j2", true) + [HandleAbort(1, 0, true)];
      && var late := State(true, {}, map[], map[1 := "s"], map[], {});
         && AllEnabled(late, events)
         && var s := Replay(late, events);
            && "j2" in s.jobs && s.jobs["j2"].status == Failed
            && Enabled(s, FinishSuccess(2, 0, 3, true))
            && Step(s, FinishSuccess(2, 0, 3, true)).jobs["j2"].status == Success
  {
    var late := State(true, {}, map[], map[1 := "s"], map[], {});
    StartReplays(map[], map[1 := "s"], {}, 2, "j2", true);
    var s1 := Replay(late, StartEvents(2, "j2", true));
    assert [HandleAbort(1, 0, true)][1..] == [];
    assert Enabled(s1, HandleAbort(1, 0, true));
    assert IsRunningFor(s1.jobs, "j2", "s");
    assert AllEnabled(s1, [HandleAbort(1, 0, true)])
        && Replay(s1, [HandleAbort(1, 0, true)]) == Step(s1, HandleAbort(1, 0, true));
    ReplayTwo(late, StartEvents(2, "j2", true), [HandleAbort(1, 0, true)]);
  }
}
