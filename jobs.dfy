/** The live job set of the scheduler, as the server drives it: adding the job of a
    catalog record, startup reconciliation, on-demand scheduling, pause, resume,
    remove and the job listing. The scheduling library itself is abstract: which
    handlers can be imported, which triggers it accepts and when a trigger fires
    next are given as an `Env`. */
module Jobs {
  import opened Outcomes
  import opened Cron
  import opened Catalog

  /** A live job, keyed by its id in the job map. `next == None` means paused. */
  datatype Job = Job(handler: string, trigger: Trigger, args: seq<Json>,
                     kwargs: map<string, Json>, next: Option<Time>)

  predicate Paused(j: Job) {
    j.next.None?
  }

  /** What the server may learn from its environment: the modules that
      `importlib.import_module("tasks." + name)` finds, the triggers the cron
      trigger constructor accepts, and the next fire time of a trigger as of now. */
  datatype Env = Env(handlers: set<string>, accepts: Trigger -> bool, nextFire: Trigger -> Time)

  /** Why a record could not be turned into a job. */
  datatype ScheduleError =
    | CronArity(cron: string)       // the cron text does not split into six fields
    | HandlerNotFound(task: string) // no module tasks.<task>
    | BadTrigger(cron: string)      // the trigger constructor refuses a field
    | ConflictingId(id: string)     // a job with this id already exists
    | LoopVariableUnbound           // the record variable was never bound (empty catalog)

  /** A record can be turned into a job: six fields, an importable handler, an accepted trigger. */
  predicate Resolves(t: TaskDef, env: Env) {
    Unpack(t.cron).Some? && t.task in env.handlers && env.accepts(Unpack(t.cron).value)
  }

  /** The job `add_job` creates for a record that resolves: running, with the
      record's handler, trigger fields and arguments. */
  function JobFor(t: TaskDef, env: Env): (j: Job)
    requires Resolves(t, env)
    ensures !Paused(j) && j.handler == t.task && j.args == t.args && j.kwargs == t.kwargs
    ensures FieldList(j.trigger) == Fields(t.cron)
    ensures j.next == Some(env.nextFire(j.trigger))
  {
    var trig := Unpack(t.cron).value;
    Job(t.task, trig, t.args, t.kwargs, Some(env.nextFire(trig)))
  }

  /** Unpack the cron text, import the handler, build the trigger and add the job
      under the record's name, failing at the first step that raises. */
  function AddJob(jobs: map<string, Job>, env: Env, t: TaskDef) : (r: Result<map<string, Job>, ScheduleError>)
    ensures r.Success? <==> Resolves(t, env) && t.name !in jobs
    ensures r.Success? ==> r.value.Keys == jobs.Keys + {t.name} && r.value[t.name] == JobFor(t, env)
    ensures r.Success? ==> forall id :: id in jobs ==> r.value[id] == jobs[id]
  {
    match Unpack(t.cron)
    case None => Failure(CronArity(t.cron))
    case Some(trig) =>
      if t.task !in env.handlers then Failure(HandlerNotFound(t.task))
      else if !env.accepts(trig) then Failure(BadTrigger(t.cron))
      else if t.name in jobs then Failure(ConflictingId(t.name))
      else Success(jobs[t.name := Job(t.task, trig, t.args, t.kwargs, Some(env.nextFire(trig)))])
  }

  /** The job set after a reconciliation pass and the error that stopped it, if any. */
  datatype Loaded = Loaded(jobs: map<string, Job>, failure: Option<ScheduleError>)

  /** The startup loop over the catalog from job set `jobs`: every record with a
      truthy status is added in order; the whole loop sits in one `try`, so the
      first record that fails stops the pass and later records get no job. */
  function Load(cat: seq<TaskDef>, jobs: map<string, Job>, env: Env): (r: Loaded)
    ensures forall id :: id in jobs ==> id in r.jobs && r.jobs[id] == jobs[id]
  {
    if cat == [] then Loaded(jobs, None)
    else if !Enabled(cat[0]) then Load(cat[1..], jobs, env)
    else
      match AddJob(jobs, env, cat[0])
      case Failure(e) => Loaded(jobs, Some(e))
      case Success(j) => Load(cat[1..], j, env)
  }

  /** Every job belongs to a record, and no record with a falsy status has a job. */
  predicate InSync(cat: seq<TaskDef>, jobs: map<string, Job>) {
    && jobs.Keys <= Names(cat)
    && forall i :: 0 <= i < |cat| && !Enabled(cat[i]) ==> cat[i].name !in jobs
  }

  lemma EnabledNamesCons(cat: seq<TaskDef>)
    requires cat != []
    ensures EnabledNames(cat) == (if Enabled(cat[0]) then {cat[0].name} else {}) + EnabledNames(cat[1..])
  {
  }

  /** A pass only ever adds jobs for records with a truthy status. */
  lemma {:induction false} LoadAddsEnabledOnly(cat: seq<TaskDef>, jobs: map<string, Job>, env: Env)
    ensures Load(cat, jobs, env).jobs.Keys <= jobs.Keys + EnabledNames(cat)
  {
    if cat != [] {
      EnabledNamesCons(cat);
      if !Enabled(cat[0]) {
        LoadAddsEnabledOnly(cat[1..], jobs, env);
      } else if AddJob(jobs, env, cat[0]).Success? {
        LoadAddsEnabledOnly(cat[1..], AddJob(jobs, env, cat[0]).value, env);
      }
    }
  }

  /** When every record with a truthy status resolves and no name is taken yet,
      the pass succeeds and adds exactly one job per such record, carrying that
      record's handler, trigger and arguments; jobs already present are kept. */
  lemma {:induction false} LoadAllResolve(cat: seq<TaskDef>, jobs: map<string, Job>, env: Env)
    requires UniqueNames(cat)
    requires forall i :: 0 <= i < |cat| && Enabled(cat[i]) ==> Resolves(cat[i], env) && cat[i].name !in jobs
    ensures Load(cat, jobs, env).failure == None
    ensures Load(cat, jobs, env).jobs.Keys == jobs.Keys + EnabledNames(cat)
    ensures forall id :: id in jobs ==> Load(cat, jobs, env).jobs[id] == jobs[id]
    ensures forall i :: 0 <= i < |cat| && Enabled(cat[i]) ==> Load(cat, jobs, env).jobs[cat[i].name] == JobFor(cat[i], env)
  {
    if cat != [] {
      var rest := cat[1..];
      EnabledNamesCons(cat);
      assert forall i :: 0 <= i < |rest| ==> rest[i] == cat[i + 1];
      if Enabled(cat[0]) {
        var j := AddJob(jobs, env, cat[0]).value;
        LoadAllResolve(rest, j, env);
      } else {
        LoadAllResolve(rest, jobs, env);
      }
    }
  }

  /** Startup: all jobs are cleared, then the catalog is loaded into the empty set. */
  function Startup(cat: seq<TaskDef>, env: Env): (r: Loaded)
    ensures r.jobs.Keys <= EnabledNames(cat)
  {
    LoadAddsEnabledOnly(cat, map[], env);
    Load(cat, map[], env)
  }

  /** After startup every job belongs to a record with a truthy status and so no
      stale job survives, whether or not the pass was stopped by a failure. */
  lemma StartupInSync(cat: seq<TaskDef>, env: Env)
    requires UniqueNames(cat)
    ensures InSync(cat, Startup(cat, env).jobs)
  {
    LoadAddsEnabledOnly(cat, map[], env);
    var keys := Startup(cat, env).jobs.Keys;
    forall i | 0 <= i < |cat| && !Enabled(cat[i]) ensures cat[i].name !in keys {
      assert cat[i].name !in EnabledNames(cat);
    }
  }

  /** When every record with a truthy status resolves, startup succeeds and the
      job ids are exactly the names of those records, each with its record's job. */
  lemma StartupSchedulesEnabled(cat: seq<TaskDef>, env: Env)
    requires UniqueNames(cat)
    requires forall i :: 0 <= i < |cat| && Enabled(cat[i]) ==> Resolves(cat[i], env)
    ensures Startup(cat, env).failure == None
    ensures Startup(cat, env).jobs.Keys == EnabledNames(cat)
    ensures forall i :: 0 <= i < |cat| && Enabled(cat[i]) ==> Startup(cat, env).jobs[cat[i].name] == JobFor(cat[i], env)
  {
    LoadAllResolve(cat, map[], env);
  }

  /** A pass that completes without failure can be continued on the rest of the catalog. */
  lemma {:induction false} LoadAppend(a: seq<TaskDef>, b: seq<TaskDef>, jobs: map<string, Job>, env: Env)
    requires Load(a, jobs, env).failure == None
    ensures Load(a + b, jobs, env) == Load(b, Load(a, jobs, env).jobs, env)
  {
    if a != [] {
      assert (a + b)[0] == a[0];
      assert (a + b)[1..] == a[1..] + b;
      if !Enabled(a[0]) {
        LoadAppend(a[1..], b, jobs, env);
      } else {
        LoadAppend(a[1..], b, AddJob(jobs, env, a[0]).value, env);
      }
    } else {
      assert a + b == b;
    }
  }

  /** One failing record stops startup: if record k is the first with a truthy status
      that does not resolve, the pass reports a failure, the jobs are those of the
      records before k, and no record from k on has a job. */
  lemma StartupStopsAtFirstFailure(cat: seq<TaskDef>, env: Env, k: nat)
    requires UniqueNames(cat)
    requires k < |cat| && Enabled(cat[k]) && !Resolves(cat[k], env)
    requires forall i :: 0 <= i < k && Enabled(cat[i]) ==> Resolves(cat[i], env)
    ensures Startup(cat, env).failure.Some?
    ensures Startup(cat, env).jobs.Keys == EnabledNames(cat[..k])
    ensures forall j :: k <= j < |cat| ==> cat[j].name !in Startup(cat, env).jobs
  {
    var pre, post := cat[..k], cat[k..];
    assert forall i :: 0 <= i < |pre| ==> pre[i] == cat[i];
    LoadAllResolve(pre, map[], env);
    LoadAppend(pre, post, map[], env);
    assert pre + post == cat;
    assert post[0] == cat[k];
    forall j | k <= j < |cat| ensures cat[j].name !in Startup(cat, env).jobs {
      assert cat[j].name !in EnabledNames(pre);
    }
  }

  /** Disabling touches only the catalog: a record that has a job keeps it after
      being disabled, so the catalog and the job set drift apart. */
  lemma DisableKeepsJob(cat: seq<TaskDef>, jobs: map<string, Job>, name: string)
    requires InSync(cat, jobs) && name in jobs
    ensures Disable(cat, name).effect == Changed
    ensures !InSync(Disable(cat, name).catalog, jobs)
  {
    var k := Find(cat, name).value;
    assert cat[k].status != 0;
    var c := Disable(cat, name).catalog;
    assert c[k].name == name && !Enabled(c[k]);
  }

  /** Enabling touches only the catalog: a disabled record without a job is
      enabled and still has no job until the next startup. */
  lemma EnableAddsNoJob(cat: seq<TaskDef>, jobs: map<string, Job>, name: string)
    requires InSync(cat, jobs) && Find(cat, name).Some? && cat[Find(cat, name).value].status == 0
    ensures Enable(cat, name).effect == Changed
    ensures var k := Find(cat, name).value;
            Enabled(Enable(cat, name).catalog[k]) && name !in jobs
  {
  }

  /** What scheduling a catalog entry on demand did. */
  datatype QueueEffect = Created | AlreadyExists | QueueNotFound | QueueFailed(error: ScheduleError)

  /** The effect and the new catalog and job set of an on-demand scheduling. */
  datatype Queued = Queued(effect: QueueEffect, catalog: seq<TaskDef>, jobs: map<string, Job>)

  /** Scheduling the record named `id` on demand, with the lookup as evidently
      intended: an existing job is reported and nothing changes; an unknown id is
      not found; otherwise the record's status is set to 1 (and persisted) before
      its job is added, so a record that does not resolve stays enabled without a job. */
  function Schedule(cat: seq<TaskDef>, jobs: map<string, Job>, env: Env, id: string): (r: Queued)
    ensures r.effect == AlreadyExists <==> id in jobs
    ensures r.effect == QueueNotFound <==> id !in jobs && id !in Names(cat)
    ensures r.effect == AlreadyExists || r.effect == QueueNotFound ==> r.catalog == cat && r.jobs == jobs
    ensures r.effect == Created || r.effect.QueueFailed? ==>
              var k := Find(cat, id).value; r.catalog == cat[k := cat[k].(status := 1)]
    ensures r.effect.QueueFailed? ==> r.jobs == jobs
    ensures r.effect == Created ==> Resolves(cat[Find(cat, id).value], env)
    ensures id !in jobs && id in Names(cat) ==> (r.effect == Created <==> Resolves(cat[Find(cat, id).value], env))
    ensures r.effect == Created ==> r.jobs.Keys == jobs.Keys + {id}
                                    && (forall other :: other in jobs ==> r.jobs[other] == jobs[other])
                                    && r.jobs[id] == JobFor(cat[Find(cat, id).value], env)
  {
    if id in jobs then Queued(AlreadyExists, cat, jobs)
    else
      match Find(cat, id)
      case None => Queued(QueueNotFound, cat, jobs)
      case Some(k) =>
        var c := cat[k := cat[k].(status := 1)];
        assert Unpack(c[k].cron) == Unpack(cat[k].cron);
        match AddJob(jobs, env, c[k])
        case Failure(e) => Queued(QueueFailed(e), c, jobs)
        case Success(j) => Queued(Created, c, j)
  }

  /** On-demand scheduling as the source writes it: after a search loop that found
      no record, the loop variable still holds the last record, whose job is added
      under that record's own name; with an empty catalog the variable is unbound. */
  function ScheduleAsWritten(cat: seq<TaskDef>, jobs: map<string, Job>, env: Env, id: string): (r: Queued)
    ensures id in Names(cat) || id in jobs ==> r == Schedule(cat, jobs, env, id)
    ensures id !in Names(cat) && id !in jobs && cat == [] ==> r == Queued(QueueFailed(LoopVariableUnbound), cat, jobs)
  {
    if id in jobs then Queued(AlreadyExists, cat, jobs)
    else
      match Find(cat, id)
      case Some(k) =>
        var c := cat[k := cat[k].(status := 1)];
        (match AddJob(jobs, env, c[k])
         case Failure(e) => Queued(QueueFailed(e), c, jobs)
         case Success(j) => Queued(Created, c, j))
      case None =>
        if cat == [] then Queued(QueueFailed(LoopVariableUnbound), cat, jobs)
        else
          match AddJob(jobs, env, cat[|cat| - 1])
          case Failure(e) => Queued(QueueFailed(e), cat, jobs)
          case Success(j) => Queued(Created, cat, j)
  }

  /** The discrepancy: asking for an id no record has, in a non-empty catalog whose
      last record resolves and has no job, reports success and adds a job for the
      last record (whatever its status) instead of reporting that the id is unknown. */
  lemma ScheduleAsWrittenUsesLastRecord(cat: seq<TaskDef>, jobs: map<string, Job>, env: Env, id: string)
    requires id !in jobs && id !in Names(cat) && cat != []
    requires Resolves(cat[|cat| - 1], env) && cat[|cat| - 1].name !in jobs
    ensures var last := cat[|cat| - 1];
            var r := ScheduleAsWritten(cat, jobs, env, id);
            && r.effect == Created && r.catalog == cat
            && r.jobs == jobs[last.name := JobFor(last, env)]
            && id !in r.jobs
    ensures Schedule(cat, jobs, env, id) == Queued(QueueNotFound, cat, jobs)
  {
  }

  /** Scheduling an entry that was just created reports that it already exists and changes nothing. */
  lemma ScheduleTwice(cat: seq<TaskDef>, jobs: map<string, Job>, env: Env, id: string)
    requires Schedule(cat, jobs, env, id).effect == Created
    ensures var once := Schedule(cat, jobs, env, id);
            Schedule(once.catalog, once.jobs, env, id) == Queued(AlreadyExists, once.catalog, once.jobs)
  {
  }

  /** The effect of a pause, resume or remove and the new job set. */
  datatype JobStep = JobStep(effect: Effect, jobs: map<string, Job>)

  /** Pausing job `id`: not found, already paused (no change), or its next run becomes `None`. */
  function Pause(jobs: map<string, Job>, id: string): (r: JobStep)
    ensures r.effect == NotFound <==> id !in jobs
    ensures r.effect == Unchanged <==> id in jobs && Paused(jobs[id])
    ensures r.jobs.Keys == jobs.Keys
    ensures forall other :: other in jobs && other != id ==> r.jobs[other] == jobs[other]
    ensures id in jobs ==> r.jobs[id] == jobs[id].(next := None)
  {
    if id !in jobs then JobStep(NotFound, jobs)
    else if Paused(jobs[id]) then JobStep(Unchanged, jobs)
    else JobStep(Changed, jobs[id := jobs[id].(next := None)])
  }

  /** Resuming job `id`: not found, already running (no change), or its next run is
      recomputed from the trigger as of now. */
  function Resume(jobs: map<string, Job>, id: string, nextFire: Trigger -> Time): (r: JobStep)
    ensures r.effect == NotFound <==> id !in jobs
    ensures r.effect == Unchanged <==> id in jobs && !Paused(jobs[id])
    ensures r.jobs.Keys == jobs.Keys
    ensures forall other :: other in jobs && other != id ==> r.jobs[other] == jobs[other]
    ensures id in jobs && Paused(jobs[id]) ==>
              r.jobs[id] == jobs[id].(next := Some(nextFire(jobs[id].trigger)))
    ensures id in jobs ==> !Paused(r.jobs[id])
  {
    if id !in jobs then JobStep(NotFound, jobs)
    else if Paused(jobs[id]) then JobStep(Changed, jobs[id := jobs[id].(next := Some(nextFire(jobs[id].trigger)))])
    else JobStep(Unchanged, jobs)
  }

  /** Removing job `id` from the live set: not found (no change), or exactly that id leaves. */
  function Remove(jobs: map<string, Job>, id: string): (r: JobStep)
    ensures r.effect == NotFound <==> id !in jobs
    ensures r.effect != NotFound ==> r.effect == Changed
    ensures r.jobs.Keys == jobs.Keys - {id}
    ensures forall other :: other in r.jobs ==> r.jobs[other] == jobs[other]
  {
    if id !in jobs then JobStep(NotFound, jobs)
    else JobStep(Changed, jobs - {id})
  }

  /** Pausing twice is the same as pausing once. */
  lemma PauseIdempotent(jobs: map<string, Job>, id: string)
    ensures var once := Pause(jobs, id);
            Pause(once.jobs, id) == JobStep(if id in jobs then Unchanged else NotFound, once.jobs)
  {
  }

  /** Resuming twice is the same as resuming once. */
  lemma ResumeIdempotent(jobs: map<string, Job>, id: string, nextFire: Trigger -> Time)
    ensures var once := Resume(jobs, id, nextFire);
            Resume(once.jobs, id, nextFire) == JobStep(if id in jobs then Unchanged else NotFound, once.jobs)
  {
  }

  /** Pause then resume keeps the job's handler, trigger and arguments and takes the
      next run from the trigger at resume time, not from the schedule before the pause. */
  lemma PauseThenResume(jobs: map<string, Job>, id: string, nextFire: Trigger -> Time)
    requires id in jobs
    ensures var j := Resume(Pause(jobs, id).jobs, id, nextFire).jobs;
            j == jobs[id := jobs[id].(next := Some(nextFire(jobs[id].trigger)))]
  {
  }

  /** A removed job can no longer be paused, resumed or removed. */
  lemma RemoveThenNotFound(jobs: map<string, Job>, id: string, nextFire: Trigger -> Time)
    ensures var gone := Remove(jobs, id).jobs;
            && Pause(gone, id) == JobStep(NotFound, gone)
            && Resume(gone, id, nextFire) == JobStep(NotFound, gone)
            && Remove(gone, id) == JobStep(NotFound, gone)
  {
  }

  /** `s.split('.')[-1]`: the part of `s` after its last dot. */
  function LastSegment(s: string): (r: string)
    ensures |r| <= |s| && r == s[|s| - |r|..]
    ensures forall i :: 0 <= i < |r| ==> r[i] != '.'
    ensures |r| < |s| ==> s[|s| - |r| - 1] == '.'
  {
    if s == [] || s[|s| - 1] == '.' then []
    else LastSegment(s[..|s| - 1]) + [s[|s| - 1]]
  }

  /** For a handler name without dots, the reported task file is the handler name. */
  lemma {:induction false} TaskFileOfPlainName(h: string)
    requires forall i :: 0 <= i < |h| ==> h[i] != '.'
    ensures LastSegment("tasks." + h) == h
  {
    var s := "tasks." + h;
    if h != [] {
      var h' := h[..|h| - 1];
      assert s[..|s| - 1] == "tasks." + h';
      TaskFileOfPlainName(h');
      assert h' + [h[|h| - 1]] == h;
    }
  }

  /** What the job listing reports about one job. */
  datatype JobInfo = JobInfo(taskId: string, taskFile: string, nextRunTime: Option<Time>,
                             trigger: Trigger, args: seq<Json>, kwargs: map<string, Json>)

  /** The listing entry of job `id`: its task file is the last dotted part of the
      module `tasks.<handler>` that holds its function. */
  function Info(id: string, j: Job): (r: JobInfo)
    ensures r.taskId == id && r.nextRunTime == j.next && r.trigger == j.trigger
    ensures r.args == j.args && r.kwargs == j.kwargs
    ensures r.taskFile == LastSegment("tasks." + j.handler)
  {
    JobInfo(id, LastSegment("tasks." + j.handler), j.next, j.trigger, j.args, j.kwargs)
  }
}
