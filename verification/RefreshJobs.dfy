/** The refresh_jobs table and the registry of running refreshes. */
module RefreshJobs {
  import opened Text

  datatype Status = Running | Success | Failed

  datatype Job = Job(
    source: string,
    status: Status,
    finishedAt: Option<int>,
    nodeCount: Option<nat>,
    error: Option<string>)

  type Jobs = map<string, Job>

  predicate IsRunning(jobs: Jobs, id: string) {
    id in jobs && jobs[id].status == Running
  }

  predicate IsRunningFor(jobs: Jobs, id: string, source: string) {
    IsRunning(jobs, id) && jobs[id].source == source
  }

  function FailedJob(job: Job, at: int, error: string): Job {
    job.(status := Failed, finishedAt := Some(at), nodeCount := None, error := Some(error))
  }

  function InsertRunning(jobs: Jobs, id: string, source: string): Jobs {
    jobs[id := Job(source, Running, None, None, None)]
  }

  /** No status guard: a failed row may become successful. */
  function MarkSuccess(jobs: Jobs, id: string, at: int, nodeCount: nat): Jobs {
    if id in jobs then jobs[id := jobs[id].(status := Success, finishedAt := Some(at), nodeCount := Some(nodeCount), error := None)]
    else jobs
  }

  function MarkFailed(jobs: Jobs, id: string, at: int, error: string): Jobs {
    if id in jobs then jobs[id := FailedJob(jobs[id], at, error)] else jobs
  }

  function MarkRunningFailedBySource(jobs: Jobs, source: string, at: int, error: string): Jobs {
    map id | id in jobs :: if IsRunningFor(jobs, id, source) then FailedJob(jobs[id], at, error) else jobs[id]
  }

  function MarkAllRunningFailed(jobs: Jobs, at: int, error: string): Jobs {
    map id | id in jobs :: if IsRunning(jobs, id) then FailedJob(jobs[id], at, error) else jobs[id]
  }

  /** Rows of a deleted source go with it (foreign key with cascade). */
  function DeleteSourceRows(jobs: Jobs, source: string): Jobs {
    map id | id in jobs && jobs[id].source != source :: jobs[id]
  }

  /** What the columns of a row say together with its status. */
  predicate RowConsistent(job: Job) {
    match job.status
    case Running => job.finishedAt == None && job.nodeCount == None && job.error == None
    case Success => job.finishedAt.Some? && job.nodeCount.Some? && job.error == None
    case Failed => job.finishedAt.Some? && job.nodeCount == None && job.error.Some?
  }

  /** The rows that an update has changed. */
  function Changed(before: Jobs, after: Jobs): set<string>
    requires after.Keys == before.Keys
  {
    set id | id in before && after[id] != before[id]
  }

  class JobTable {
    var rows: Jobs
    /** The ids of the sources table, which every row refers to. */
    var sources: set<string>

    constructor (sources: set<string>)
      ensures rows == map[] && this.sources == sources
    {
      rows, this.sources := map[], sources;
    }

    /** A taken primary key, or a source that is gone, makes the INSERT fail and changes nothing. */
    method Insert(id: string, source: string) returns (ok: bool)
      modifies `rows
      ensures ok <==> id !in old(rows) && source in sources
      ensures rows == if ok then InsertRunning(old(rows), id, source) else old(rows)
      ensures ok ==> rows == old(rows)[id := Job(source, Running, None, None, None)]
    {
      ok := id !in rows && source in sources;
      if ok {
        rows := rows[id := Job(source, Running, None, None, None)];
      }
    }

    method Succeed(id: string, at: int, nodeCount: nat) returns (affected: nat)
      modifies `rows
      ensures rows == MarkSuccess(old(rows), id, at, nodeCount)
      ensures rows.Keys == old(rows).Keys
      ensures id in rows ==> rows[id] == Job(old(rows)[id].source, Success, Some(at), Some(nodeCount), None)
      ensures forall other :: other in rows && other != id ==> rows[other] == old(rows)[other]
      ensures affected == if id in old(rows) then 1 else 0
    {
      affected := 0;
      if id in rows {
        rows := rows[id := rows[id].(status := Success, finishedAt := Some(at), nodeCount := Some(nodeCount), error := None)];
        affected := 1;
      }
    }

    method Fail(id: string, at: int, error: string) returns (affected: nat)
      modifies `rows
      ensures rows == MarkFailed(old(rows), id, at, error)
      ensures rows.Keys == old(rows).Keys
      ensures id in rows ==> rows[id] == Job(old(rows)[id].source, Failed, Some(at), None, Some(error))
      ensures forall other :: other in rows && other != id ==> rows[other] == old(rows)[other]
      ensures affected == if id in old(rows) then 1 else 0
    {
      affected := 0;
      if id in rows {
        rows := rows[id := FailedJob(rows[id], at, error)];
        affected := 1;
      }
    }

    /**
     Row by row: exactly the running rows of the source become failed, with the given time and
     error and without a node count; every other row stays, and the number of changed rows is
     returned.
     */
    method FailRunningBySource(source: string, at: int, error: string) returns (affected: nat)
      modifies `rows
      ensures rows.Keys == old(rows).Keys
      ensures forall id :: id in rows && IsRunningFor(old(rows), id, source) ==>
        rows[id] == Job(source, Failed, Some(at), None, Some(error))
      ensures forall id :: id in rows && !IsRunningFor(old(rows), id, source) ==> rows[id] == old(rows)[id]
      ensures affected == |Changed(old(rows), rows)|
      ensures rows == MarkRunningFailedBySource(old(rows), source, at, error)
    {
      affected := 0;
      var rest := rows.Keys;
      ghost var changed: set<string> := {};
      while rest != {}
        invariant rest <= rows.Keys == old(rows).Keys
        invariant forall id :: id in rows ==>
          rows[id] == if id !in rest && IsRunningFor(old(rows), id, source) then FailedJob(old(rows)[id], at, error) else old(rows)[id]
        invariant forall id :: id in changed <==> id in rows && id !in rest && IsRunningFor(old(rows), id, source)
        invariant affected == |changed|
        decreases |rest|
      {
        var id :| id in rest;
        rest := rest - {id};
        if rows[id].status == Running && rows[id].source == source {
          rows := rows[id := FailedJob(rows[id], at, error)];
          affected := affected + 1;
          changed := changed + {id};
        }
      }
      assert changed == Changed(old(rows), rows);
    }

    /** The same for the running rows of all sources. */
    method FailAllRunning(at: int, error: string) returns (affected: nat)
      modifies `rows
      ensures rows.Keys == old(rows).Keys
      ensures forall id :: id in rows && IsRunning(old(rows), id) ==>
        rows[id] == Job(old(rows)[id].source, Failed, Some(at), None, Some(error))
      ensures forall id :: id in rows && !IsRunning(old(rows), id) ==> rows[id] == old(rows)[id]
      ensures affected == |Changed(old(rows), rows)|
      ensures rows == MarkAllRunningFailed(old(rows), at, error)
    {
      affected := 0;
      var rest := rows.Keys;
      ghost var changed: set<string> := {};
      while rest != {}
        invariant rest <= rows.Keys == old(rows).Keys
        invariant forall id :: id in rows ==>
          rows[id] == if id !in rest && IsRunning(old(rows), id) then FailedJob(old(rows)[id], at, error) else old(rows)[id]
        invariant forall id :: id in changed <==> id in rows && id !in rest && IsRunning(old(rows), id)
        invariant affected == |changed|
        decreases |rest|
      {
        var id :| id in rest;
        rest := rest - {id};
        if rows[id].status == Running {
          rows := rows[id := FailedJob(rows[id], at, error)];
          affected := affected + 1;
          changed := changed + {id};
        }
      }
      assert changed == Changed(old(rows), rows);
    }
  }

  class Registry {
    var running: set<string>

    constructor ()
      ensures running == {}
    {
      running := {};
    }

    /** `try_acquire`: refuses a source that is already held. */
    method TryAcquire(source: string) returns (ok: bool)
      modifies this
      ensures ok <==> source !in old(running)
      ensures running == old(running) + {source}
    {
      ok := source !in running;
      if ok {
        running := running + {source};
      }
    }

    /** Dropping the guard */
    method Release(source: string)
      modifies this
      ensures running == old(running) - {source}
    {
      running := running - {source};
    }
  }
}
