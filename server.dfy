/** The server's control state and its request handlers: the catalog (index.json,
    read and rewritten whole by the handlers) and the scheduler's live job set. */
module Server {
  import opened Outcomes
  import opened Cron
  import opened Catalog
  import opened Jobs

  /** The answer of the read handler for task records: the whole catalog, one record, or not found. */
  datatype TaskQuery = AllTasks(tasks: seq<TaskDef>) | OneTask(task: TaskDef) | NoTask(id: string)

  /** The answer of the queue read handler: every job, one job, or not found. */
  datatype JobQuery = AllJobs(infos: set<JobInfo>) | OneJob(info: JobInfo) | NoJob(id: string)

  /** The optional identifier of a read request, whose truthiness decides the answer:
      an absent or empty identifier asks for the whole listing. */
  predicate Truthy(id: Option<string>) {
    id.Some? && id.value != ""
  }

  class Controller {
    /** The records of index.json, in file order. */
    var catalog: seq<TaskDef>
    /** The scheduler's live jobs, by id. */
    var jobs: map<string, Job>
    /** The entries of the `tasks` directory, which registration consults. */
    const taskEntries: set<string>
    /** The names `n` for which the module `tasks.n` can be imported. */
    const handlers: set<string>
    /** Which six-field triggers the cron trigger constructor accepts. */
    const accepts: Trigger -> bool

    constructor (catalog: seq<TaskDef>, taskEntries: set<string>, handlers: set<string>,
                 accepts: Trigger -> bool)
      ensures this.catalog == catalog && jobs == map[]
      ensures this.taskEntries == taskEntries && this.handlers == handlers && this.accepts == accepts
    {
      this.catalog := catalog;
      this.jobs := map[];
      this.taskEntries := taskEntries;
      this.handlers := handlers;
      this.accepts := accepts;
    }

    /** The environment of a call made when triggers next fire at `nextFire`. */
    function EnvAt(nextFire: Trigger -> Time): Env {
      Env(handlers, accepts, nextFire)
    }

    /** Startup reconciliation: remove every job, then add the job of each record with
        a truthy status, in catalog order, stopping at the first failure. */
    method Startup(nextFire: Trigger -> Time) returns (failure: Option<ScheduleError>)
      modifies this`jobs
      ensures Loaded(jobs, failure) == Jobs.Startup(catalog, EnvAt(nextFire))
    {
      jobs := map[];
      failure := None;
      var env := EnvAt(nextFire);
      var k := 0;
      while k < |catalog|
        invariant 0 <= k <= |catalog|
        invariant Load(catalog[k..], jobs, env) == Load(catalog, map[], env)
      {
        var t := catalog[k];
        assert catalog[k..][0] == t && catalog[k..][1..] == catalog[k + 1..];
        if Enabled(t) {
          var added := AddJob(jobs, env, t);
          if added.Failure? {
            failure := Some(added.error);
            return;
          }
          jobs := added.value;
        }
        k := k + 1;
      }
    }

    /** The read handler for task records: without an identifier the whole catalog; otherwise
        the first record with that name, or not found. */
    method ReadTask(id: Option<string>) returns (r: TaskQuery)
      ensures !Truthy(id) ==> r == AllTasks(catalog)
      ensures Truthy(id) ==> (r.NoTask? <==> id.value !in Names(catalog))
      ensures Truthy(id) && r.NoTask? ==> r.id == id.value
      ensures Truthy(id) && !r.NoTask? ==>
                r.OneTask? && Find(catalog, id.value).Some? && r.task == catalog[Find(catalog, id.value).value]
    {
      if !Truthy(id) {
        return AllTasks(catalog);
      }
      var name := id.value;
      var k := 0;
      while k < |catalog|
        invariant 0 <= k <= |catalog|
        invariant forall j :: 0 <= j < k ==> catalog[j].name != name
      {
        if catalog[k].name == name {
          FindFirst(catalog, name, k);
          return OneTask(catalog[k]);
        }
        k := k + 1;
      }
      return NoTask(name);
    }

    /** Registering a definition: refused as a duplicate name, an unknown task or an
        invalid cron line, in that order, with nothing changed; otherwise the dumped
        record is appended. The job set is never touched. */
    method Register(req: TaskRequest) returns (r: Result<TaskDef, RegisterError>)
      modifies this`catalog
      ensures match Catalog.Register(old(catalog), taskEntries, req)
              case Success(c) => r == Success(Dump(req)) && catalog == c
              case Failure(e) => r == Failure(e) && catalog == old(catalog)
      ensures UniqueNames(old(catalog)) ==> UniqueNames(catalog)
      ensures jobs == old(jobs)
    {
      if req.name in Names(catalog) {
        return Failure(DuplicateName(req.name));
      }
      if req.task !in taskEntries {
        return Failure(TaskNotFound(req.task));
      }
      if |Fields(req.cron)| != 6 {
        return Failure(InvalidCronFormat(req.cron));
      }
      var t := Dump(req);
      if UniqueNames(catalog) {
        RegisterKeepsNamesUnique(catalog, taskEntries, req);
      }
      catalog := catalog + [t];
      r := Success(t);
    }

    /** The common body of the enable and disable handlers: find the first record
        named `id`; report it unchanged if its status already equals `target`,
        otherwise set its status to `target`. The job set is never touched. */
    method SetStatus(id: string, target: int) returns (e: Effect)
      modifies this`catalog
      ensures Flip(e, catalog) == Catalog.SetStatus(old(catalog), id, target)
      ensures UniqueNames(old(catalog)) ==> UniqueNames(catalog)
      ensures jobs == old(jobs)
    {
      var k := 0;
      while k < |catalog|
        invariant 0 <= k <= |catalog|
        invariant catalog == old(catalog)
        invariant forall j :: 0 <= j < k ==> catalog[j].name != id
      {
        if catalog[k].name == id {
          FindFirst(catalog, id, k);
          if catalog[k].status == target {
            return Unchanged;
          }
          WithStatusKeepsNames(catalog, k, target);
          catalog := catalog[k := catalog[k].(status := target)];
          return Changed;
        }
        k := k + 1;
      }
      return NotFound;
    }

    /** The disable handler (`status == 0` means already disabled). */
    method Disable(id: string) returns (e: Effect)
      modifies this`catalog
      ensures Flip(e, catalog) == Catalog.Disable(old(catalog), id)
      ensures jobs == old(jobs)
    {
      e := SetStatus(id, 0);
    }

    /** The enable handler (`status == 1` means already enabled). */
    method Enable(id: string) returns (e: Effect)
      modifies this`catalog
      ensures Flip(e, catalog) == Catalog.Enable(old(catalog), id)
      ensures jobs == old(jobs)
    {
      e := SetStatus(id, 1);
    }

    /** The queue create handler: an id that already has a job is reported and
        nothing changes; an id no record has is not found; otherwise the record's
        status is set to 1 and then its job is added. */
    method Schedule(id: string, nextFire: Trigger -> Time) returns (e: QueueEffect)
      modifies this
      ensures Queued(e, catalog, jobs) == Jobs.Schedule(old(catalog), old(jobs), EnvAt(nextFire), id)
      ensures UniqueNames(old(catalog)) ==> UniqueNames(catalog)
    {
      if id in jobs {
        return AlreadyExists;
      }
      var k := 0;
      while k < |catalog| && catalog[k].name != id
        invariant 0 <= k <= |catalog|
        invariant forall j :: 0 <= j < k ==> catalog[j].name != id
      {
        k := k + 1;
      }
      if k == |catalog| {
        return QueueNotFound;
      }
      FindFirst(catalog, id, k);
      WithStatusKeepsNames(catalog, k, 1);
      catalog := catalog[k := catalog[k].(status := 1)];
      var added := AddJob(jobs, EnvAt(nextFire), catalog[k]);
      if added.Failure? {
        return QueueFailed(added.error);
      }
      jobs := added.value;
      e := Created;
    }

    /** The queue read handler: without an identifier every job's listing entry;
        otherwise the entry of that job, or not found. */
    method ReadJob(id: Option<string>) returns (r: JobQuery)
      ensures !Truthy(id) ==> r.AllJobs?
      ensures !Truthy(id) ==> forall k :: k in jobs ==> Info(k, jobs[k]) in r.infos
      ensures !Truthy(id) ==> forall i :: i in r.infos ==> i.taskId in jobs && i == Info(i.taskId, jobs[i.taskId])
      ensures Truthy(id) && id.value in jobs ==> r == OneJob(Info(id.value, jobs[id.value]))
      ensures Truthy(id) && id.value !in jobs ==> r == NoJob(id.value)
    {
      if !Truthy(id) {
        return AllJobs(set k | k in jobs :: Info(k, jobs[k]));
      }
      if id.value in jobs {
        return OneJob(Info(id.value, jobs[id.value]));
      }
      return NoJob(id.value);
    }

    /** The pause handler. */
    method Pause(id: string) returns (e: Effect)
      modifies this`jobs
      ensures JobStep(e, jobs) == Jobs.Pause(old(jobs), id)
      ensures catalog == old(catalog)
    {
      if id !in jobs {
        return NotFound;
      }
      if Paused(jobs[id]) {
        return Unchanged;
      }
      jobs := jobs[id := jobs[id].(next := None)];
      return Changed;
    }

    /** The resume handler: a paused job's next run is recomputed as of now. */
    method Resume(id: string, nextFire: Trigger -> Time) returns (e: Effect)
      modifies this`jobs
      ensures JobStep(e, jobs) == Jobs.Resume(old(jobs), id, nextFire)
      ensures catalog == old(catalog)
    {
      if id !in jobs {
        return NotFound;
      }
      if !Paused(jobs[id]) {
        return Unchanged;
      }
      jobs := jobs[id := jobs[id].(next := Some(nextFire(jobs[id].trigger)))];
      return Changed;
    }

    /** The remove handler: the job leaves the live set; its record stays in the catalog. */
    method Remove(id: string) returns (e: Effect)
      modifies this`jobs
      ensures JobStep(e, jobs) == Jobs.Remove(old(jobs), id)
      ensures catalog == old(catalog)
    {
      if id !in jobs {
        return NotFound;
      }
      jobs := jobs - {id};
      return Changed;
    }
  }
}
