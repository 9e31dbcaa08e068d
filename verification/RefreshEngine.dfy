/** `Engine::refresh_source` on the registry and the job table, as one run of the refresh protocol. */
module RefreshEngine {
  import opened Text
  import opened RefreshJobs
  import opened RefreshProtocol

  function RowOf(jobs: Jobs, id: string): Option<Job> {
    if id in jobs then Some(jobs[id]) else None
  }

  datatype Fetch = Fetched(nodeCount: nat) | FetchFailed(error: string)

  /** What the call meets: whether the source and its plugin load, the fresh job id, the clock, the fetch, and which statements fail. */
  datatype Surroundings = Surroundings(
    loads: bool,
    job: string,
    at: int,
    fetch: Fetch,
    takeoverOk: bool,
    insertOk: bool,
    finishOk: bool)

  datatype Outcome = AlreadyRunning | EarlyFailure | Refreshed(nodeCount: nat) | RefreshFailed(error: string) | FinishLost

  lemma {:induction false} ReplaySnoc(s: State, events: seq<Event>, e: Event)
    requires AllEnabled(s, events) && Enabled(Replay(s, events), e)
    ensures AllEnabled(s, events + [e]) && Replay(s, events + [e]) == Step(Replay(s, events), e)
    decreases |events|
  {
    hide Step, Enabled;
    if events == [] {
      assert [] + [e] == [e] && [e][1..] == [];
    } else {
      assert (events + [e])[1..] == events[1..] + [e];
      ReplaySnoc(Step(s, events[0]), events[1..], e);
    }
  }

  /** The running rows of `source` are gone, or as they were when the takeover failed. */
  function TakenOver(jobs: Jobs, source: string, env: Surroundings): Jobs {
    if env.takeoverOk then MarkRunningFailedBySource(jobs, source, env.at, INTERNAL) else jobs
  }

  function Finished(jobs: Jobs, env: Surroundings): Jobs {
    if !env.finishOk then jobs
    else
      match env.fetch
      case Fetched(nodeCount) => MarkSuccess(jobs, env.job, env.at, nodeCount)
      case FetchFailed(error) => MarkFailed(jobs, env.job, env.at, error)
  }

  method TakeOverRows(table: JobTable, source: string, env: Surroundings)
    modifies table`rows
    ensures table.rows == TakenOver(old(table.rows), source, env)
  {
    if env.takeoverOk {
      var _ := table.FailRunningBySource(source, env.at, INTERNAL);
    }
  }

  method FinishRow(table: JobTable, env: Surroundings) returns (outcome: Outcome)
    modifies table`rows
    ensures table.rows == Finished(old(table.rows), env)
    ensures outcome == match env.fetch
      case Fetched(nodeCount) => if env.finishOk then Refreshed(nodeCount) else FinishLost
      case FetchFailed(error) => RefreshFailed(error)
  {
    match env.fetch
    case Fetched(nodeCount) =>
      if !env.finishOk {
        return FinishLost;
      }
      var _ := table.Succeed(env.job, env.at, nodeCount);
      outcome := Refreshed(nodeCount);
    case FetchFailed(error) =>
      if env.finishOk {
        var _ := table.Fail(env.job, env.at, error);
      }
      outcome := RefreshFailed(error);
  }

  function FinishEvent(task: nat, env: Surroundings): Event {
    match env.fetch
    case Fetched(nodeCount) => FinishSuccess(task, env.at, nodeCount, env.finishOk)
    case FetchFailed(error) => FinishFailure(task, env.at, error, env.finishOk)
  }

  /** The events of a refresh that reaches its job row. */
  function FullRun(task: nat, source: string, env: Surroundings): seq<Event> {
    [Acquire(task, source), TakeOver(task, env.at, env.takeoverOk), InsertJob(task, env.job, true), FinishEvent(task, env), Return(task)]
  }

  ghost predicate Represents(s: State, table: JobTable, registry: Registry)
    reads table, registry
  {
    s.jobs == table.rows && s.registry == registry.running
  }

  /** A state in which `task` can start and `job` is a fresh id. */
  predicate Ready(s: State, task: nat, job: string) {
    s.serving && task !in s.tasks && task !in s.handlers && job !in s.usedIds
  }

  lemma RefusedRun(s: State, task: nat, source: string)
    requires s.serving && task !in s.tasks && task !in s.handlers && source in s.registry
    ensures AllEnabled(s, [Acquire(task, source)]) && Replay(s, [Acquire(task, source)]) == s
  {
    assert [Acquire(task, source)][1..] == [];
  }

  lemma StartRun(s: State, task: nat, source: string)
    requires s.serving && task !in s.tasks && task !in s.handlers && source !in s.registry
    ensures AllEnabled(s, [Acquire(task, source)])
    ensures Replay(s, [Acquire(task, source)]) == s.(registry := s.registry + {source}, tasks := s.tasks[task := Task(source, Acquired)])
  {
    assert [Acquire(task, source)][1..] == [];
  }

  lemma EarlyRun(s: State, task: nat, source: string)
    requires s.serving && task !in s.tasks && task !in s.handlers && source !in s.registry
    ensures var events := [Acquire(task, source), EarlyError(task)];
      AllEnabled(s, events) && Replay(s, events) == s
  {
    StartRun(s, task, source);
    var s1 := Replay(s, [Acquire(task, source)]);
    hide AllEnabled, Replay;
    ReplaySnoc(s, [Acquire(task, source)], EarlyError(task));
    assert [Acquire(task, source)] + [EarlyError(task)] == [Acquire(task, source), EarlyError(task)];
    assert s1.tasks - {task} == s.tasks && s1.registry - {source} == s.registry;
  }

  lemma TakeOverRun(s: State, task: nat, source: string, env: Surroundings)
    requires Ready(s, task, env.job) && source !in s.registry
    ensures var events := [Acquire(task, source), TakeOver(task, env.at, env.takeoverOk)];
      AllEnabled(s, events) && Replay(s, events) == s.(registry := s.registry + {source},
        tasks := s.tasks[task := Task(source, TookOver)], jobs := TakenOver(s.jobs, source, env))
  {
    StartRun(s, task, source);
    hide AllEnabled, Replay, MarkRunningFailedBySource;
    var e := TakeOver(task, env.at, env.takeoverOk);
    ReplaySnoc(s, [Acquire(task, source)], e);
    assert [Acquire(task, source)] + [e] == [Acquire(task, source), e];
    var s1 := Replay(s, [Acquire(task, source)]);
    assert s1.tasks[task := Task(source, TookOver)] == s.tasks[task := Task(source, TookOver)];
  }

  lemma FailedInsertRun(s: State, task: nat, source: string, env: Surroundings)
    requires Ready(s, task, env.job) && source !in s.registry
    ensures var events := [Acquire(task, source), TakeOver(task, env.at, env.takeoverOk), InsertJob(task, env.job, false)];
      AllEnabled(s, events) && Replay(s, events) == s.(jobs := TakenOver(s.jobs, source, env), usedIds := s.usedIds + {env.job})
  {
    TakeOverRun(s, task, source, env);
    hide AllEnabled, Replay, TakenOver;
    var (before, e) := ([Acquire(task, source), TakeOver(task, env.at, env.takeoverOk)], InsertJob(task, env.job, false));
    ReplaySnoc(s, before, e);
    assert before + [e] == [Acquire(task, source), TakeOver(task, env.at, env.takeoverOk), e];
    var s2 := Replay(s, before);
    assert s2.tasks - {task} == s.tasks && s2.registry - {source} == s.registry;
  }

  lemma InsertRun(s: State, task: nat, source: string, env: Surroundings)
    requires Ready(s, task, env.job) && source !in s.registry
    ensures var events := [Acquire(task, source), TakeOver(task, env.at, env.takeoverOk), InsertJob(task, env.job, true)];
      AllEnabled(s, events) && Replay(s, events) == s.(registry := s.registry + {source},
        tasks := s.tasks[task := Task(source, Inserted(env.job))],
        jobs := InsertRunning(TakenOver(s.jobs, source, env), env.job, source), usedIds := s.usedIds + {env.job})
  {
    TakeOverRun(s, task, source, env);
    hide AllEnabled, Replay, TakenOver;
    var (before, e) := ([Acquire(task, source), TakeOver(task, env.at, env.takeoverOk)], InsertJob(task, env.job, true));
    ReplaySnoc(s, before, e);
    assert before + [e] == [Acquire(task, source), TakeOver(task, env.at, env.takeoverOk), e];
    var s2 := Replay(s, before);
    assert s2.tasks[task := Task(source, Inserted(env.job))] == s.tasks[task := Task(source, Inserted(env.job))];
  }

  lemma FinishRun(s: State, task: nat, source: string, env: Surroundings)
    requires Ready(s, task, env.job) && source !in s.registry
    ensures AllEnabled(s, FullRun(task, source, env))
    ensures Replay(s, FullRun(task, source, env)) == s.(
        jobs := Finished(InsertRunning(TakenOver(s.jobs, source, env), env.job, source), env), usedIds := s.usedIds + {env.job})
  {
    InsertRun(s, task, source, env);
    hide AllEnabled, Replay, TakenOver, MarkSuccess, MarkFailed;
    var before := [Acquire(task, source), TakeOver(task, env.at, env.takeoverOk), InsertJob(task, env.job, true)];
    var e := FinishEvent(task, env);
    ReplaySnoc(s, before, e);
    var s3 := Replay(s, before);
    var s4 := Replay(s, before + [e]);
    assert s4 == s3.(tasks := s3.tasks[task := Task(source, Stage.Finished)], jobs := Finished(s3.jobs, env));
    ReplaySnoc(s, before + [e], Return(task));
    assert before + [e] + [Return(task)] == FullRun(task, source, env);
    assert s4.tasks - {task} == s.tasks && s4.registry - {source} == s.registry;
  }

  /**
   `refresh_source`, undisturbed by other tasks. Its effect on the table and the registry is
   that of the returned protocol events, which leave no guard and no task behind.
   */
  method RefreshSource(table: JobTable, registry: Registry, source: string, env: Surroundings, ghost s: State, ghost task: nat)
    returns (outcome: Outcome, ghost events: seq<Event>)
    requires Represents(s, table, registry) && Ready(s, task, env.job) && s.jobs.Keys <= s.usedIds
    modifies table`rows, registry
    ensures AllEnabled(s, events) && Represents(Replay(s, events), table, registry)
    ensures Replay(s, events).tasks == s.tasks && Replay(s, events).handlers == s.handlers && registry.running == old(registry.running)
    ensures outcome.AlreadyRunning? <==> source in old(registry.running)
    ensures outcome.AlreadyRunning? || !env.loads ==> table.rows == old(table.rows)
    ensures outcome.Refreshed? || outcome.RefreshFailed? || outcome.FinishLost? ==> events == FullRun(task, source, env)
    ensures outcome.Refreshed? <==>
      source !in old(registry.running) && env.loads && env.insertOk && source in table.sources && env.fetch.Fetched? && env.finishOk
    ensures outcome.RefreshFailed? <==>
      source !in old(registry.running) && env.loads && env.insertOk && source in table.sources && env.fetch.FetchFailed?
    ensures outcome.FinishLost? <==>
      source !in old(registry.running) && env.loads && env.insertOk && source in table.sources && env.fetch.Fetched? && !env.finishOk
    ensures outcome.Refreshed? ==> outcome.nodeCount == env.fetch.nodeCount
    ensures outcome.Refreshed? ==> RowOf(table.rows, env.job) == Some(Job(source, Success, Some(env.at), Some(outcome.nodeCount), None))
    ensures outcome.RefreshFailed? ==> outcome.error == env.fetch.error
    ensures !outcome.AlreadyRunning? && env.loads && env.takeoverOk ==>
      forall id :: id in old(table.rows) && IsRunningFor(old(table.rows), id, source) ==>
        RowOf(table.rows, id) == Some(Job(source, Failed, Some(env.at), None, Some("E_INTERNAL")))
    ensures forall id :: id in old(table.rows) && !IsRunningFor(old(table.rows), id, source) ==>
      RowOf(table.rows, id) == Some(old(table.rows)[id])
    ensures outcome.RefreshFailed? && env.finishOk ==>
      RowOf(table.rows, env.job) == Some(Job(source, Failed, Some(env.at), None, Some(outcome.error)))
    ensures outcome.FinishLost? || (outcome.RefreshFailed? && !env.finishOk) ==>
      RowOf(table.rows, env.job) == Some(Job(source, Running, None, None, None))
    ensures outcome.EarlyFailure? && env.loads ==> table.rows == TakenOver(old(table.rows), source, env)
  {
    var acquired := registry.TryAcquire(source);
    if !acquired {
      RefusedRun(s, task, source);
      return AlreadyRunning, [Acquire(task, source)];
    }
    if !env.loads {
      registry.Release(source);
      EarlyRun(s, task, source);
      return EarlyFailure, [Acquire(task, source), EarlyError(task)];
    }
    TakeOverRows(table, source, env);
    var inserted := false;
    if env.insertOk {
      inserted := table.Insert(env.job, source);
    }
    if !inserted {
      registry.Release(source);
      FailedInsertRun(s, task, source, env);
      return EarlyFailure, [Acquire(task, source), TakeOver(task, env.at, env.takeoverOk), InsertJob(task, env.job, false)];
    }
    outcome := FinishRow(table, env);
    registry.Release(source);
    FinishRun(s, task, source, env);
    events := FullRun(task, source, env);
  }
}
