# Task catalog and job scheduler: a Dafny model

This project models the core of a small task-scheduling server and the one
piece of arithmetic in its mail task:

- **The catalog.** It is an ordered list of task records, each with `name`,
  `task`, `status`, `cron`, `args` and `kwargs`. On disk the list is
  `index.json`; here it is the sequence field `catalog` of the class
  `Server.Controller`. Each handler reads the catalog, changes it and writes it
  back; the model assigns the field instead.
- **The live job set.** The scheduler holds running jobs keyed by id. Here it is
  the field `jobs`, a map from id to a `Job`. A job whose next run is `None`
  is paused; any other job is running.
- **The handlers as methods.** Startup reconciliation, task read, registration,
  enable/disable, on-demand scheduling, queue read, pause, resume and remove.
  Each method is proved against a pure function of the modules `Catalog` and
  `Jobs`. Two handlers contain a bug (see "## Findings"). For those two,
  `Server.Controller.Register` and `Server.Controller.Schedule` run the
  corrected check and lookup, `Catalog.Register` and `Jobs.Schedule`. The
  code as written is modelled beside them as `Catalog.RegisterAsWritten` and
  `Jobs.ScheduleAsWritten`. The properties the server promises are proved about those functions:
  what changes, what stays the same, idempotence, round trips and consistency
  between catalog and job set.
- **Week-of-month arithmetic** (`SendMail.WeekOfMonth`): proved bounded,
  monotone and stepwise, and equal to an independent count of Mondays.

Modules: `Outcomes` (Option, Result, Effect), `Cron` (Python's `str.split()`
and the six-field trigger), `Catalog`, `Jobs`, `Server`, `SendMail`.

## What the environment provides

Some behaviour belongs to the scheduling library or the operating system. The
model takes it as parameters:

- `taskEntries`: what `os.listdir("tasks")` returns. Registration checks this.
- `handlers`: the names `n` for which `tasks.n` can be imported. Startup and
  on-demand scheduling check this. Registration and scheduling consult
  different sets, exactly as the code does.
- `accepts`: whether the cron trigger constructor accepts six given fields.
- `nextFire`: the next fire time of a trigger, as of the moment of the call.

## Where the code departs from the intended behaviour

The model follows the code in each case below:

- Startup puts the whole loop inside one `try` (`server/main.py:44-64`). The
  first record that fails therefore stops the pass: records after it get no
  job, even valid ones. See `Jobs.StartupStopsAtFirstFailure`. A record that
  fails should not stop the others.
- Enable and disable rewrite only the catalog (`server/main.py:394-478`). They
  never add or remove the matching job. See `Jobs.DisableKeepsJob` and
  `Jobs.EnableAddsNoJob`.
- Startup tests `status` by truthiness (`server/main.py:52`). Enable and
  disable compare it with `1` and `0`. So a status of 2 is scheduled at startup,
  yet enabling that record reports a change. See
  `Catalog.EnableRewritesTruthyStatus`.
- On-demand scheduling writes `status = 1` to the catalog before it tries to
  add the job (`server/main.py:276-291`). If adding the job fails, the record
  stays enabled and has no job. This is stated in the contract of
  `Jobs.Schedule`. A failed operation should leave nothing changed.
- Registration returns its refusals as values instead of raising them
  (`server/main.py:347`, `358`, `369`). The model treats them as refusals.
- A cron line such as `0 0 8 * * mon` puts `mon` in the sixth field.
  The code passes that field as the *month* (`server/main.py:53-56`), so
  whether it is accepted is up to `accepts`.

## Model

| member | source | states |
|---|---|---|
| `Cron.Fields` | server/main.py:53 | what `str.split()` returns: every field is non-empty and contains no Python whitespace character |
| `Cron.FieldsOfJoin` | server/main.py:53 | splitting well-formed fields joined by single spaces gives back the same fields |
| `Cron.Unpack` | server/main.py:53 | the six-way unpacking succeeds exactly when the cron text has six fields, and the trigger holds those fields in order |
| `Cron.UnpackRender` | server/main.py:53-56 | rendering a trigger with well-formed fields and unpacking it again gives the same trigger |
| `Cron.FiveFieldCronRejected` | server/main.py:53 | the five-field text `0 0 8 * *` cannot be unpacked into a trigger |
| `Cron.SixFieldCronAccepted` | server/main.py:368 | the text `0 0 8 * * 1` has six fields, so the intended cron check lets it through |
| `Catalog.Find` | server/main.py:312-313 | the lookup finds nothing exactly when no record has the name; otherwise it gives the index of the first record with that name |
| `Catalog.FindUnique` | server/main.py:312-313 | when names are unique, the record at index k is the one found under its name |
| `Catalog.Dump` | server/main.py:11-17 | the stored record keeps the request's name, task and cron, and any status, args and kwargs the request gives; an omitted status is stored as 1, omitted args and kwargs as empty |
| `Catalog.Register` | server/main.py:346-382 | the intended check: registration succeeds exactly when the name is new, the task name is listed and the cron text has six fields; on success the dumped record is appended at the end; a duplicate name is refused as `DuplicateName`, then an unlisted task as `TaskNotFound`, then a wrong field count as `InvalidCronFormat` |
| `Catalog.RegisterAsWritten` | server/main.py:368-377 | as written, no request is ever appended; a duplicate name and an unlisted task get their own refusals, and a request that passes the name and task checks is refused as an invalid cron format |
| `Catalog.RegisterAsWrittenRefusesValid` | server/main.py:368-377 | a valid request is appended by the intended check and refused by the code as written |
| `Catalog.RegisterKeepsNamesUnique` | server/main.py:346-355 | a successful registration keeps the catalog's names unique |
| `Catalog.RegisterThenLookup` | server/main.py:346-382 | a registered record can be read back under its name; registering it again is refused as a duplicate |
| `Catalog.SetStatus` | server/main.py:399-424 | not found exactly when no record has the name; unchanged when the status already has the target value; otherwise the first record with the name gets the target status and nothing else changes; for that first record, the answer is unchanged exactly when its status equals the target and changed exactly when it differs; names and length are kept |
| `Catalog.Disable` | server/main.py:399-412 | not found exactly when no record has the name; unchanged exactly when the first such record has status 0; otherwise that record's status becomes 0 and it is no longer enabled; when not found or unchanged, the catalog is left as it was |
| `Catalog.Enable` | server/main.py:442-455 | not found exactly when no record has the name; unchanged exactly when the first such record has status 1; otherwise that record's status becomes 1 and it is enabled; when not found or unchanged, the catalog is left as it was |
| `Catalog.SetStatusIdempotent` | server/main.py:442-467 | enabling or disabling twice equals doing it once; the second call reports no change |
| `Catalog.DisableThenEnable` | server/main.py:399-467 | disabling a status-1 record and enabling it again restores the catalog |
| `Catalog.EnableRewritesTruthyStatus` | server/main.py:444-455 | a status-2 record counts as enabled at startup, yet enabling it reports a change and rewrites its status to 1 |
| `Catalog.SetStatusKeepsNamesUnique` | server/main.py:412 | flipping a status keeps names unique |
| `Jobs.JobFor` | server/main.py:54-60 | a new job is running, carries the record's handler, its six cron fields and its args and kwargs, and its next run is the trigger's next fire time |
| `Jobs.AddJob` | server/main.py:53-60 | adding a job succeeds exactly when the record resolves and its name has no job; then exactly that id is added and every other job is kept |
| `Jobs.Load` | server/main.py:51-60 | a reconciliation pass never drops or replaces a job that was already present |
| `Jobs.LoadAddsEnabledOnly` | server/main.py:51-60 | a reconciliation pass adds jobs only for records with a truthy status |
| `Jobs.LoadAllResolve` | server/main.py:51-60 | when every enabled record resolves, the pass succeeds and adds one job per enabled record, carrying that record's data |
| `Jobs.LoadAppend` | server/main.py:51 | a pass that completes without failure can be continued on the rest of the catalog |
| `Jobs.Startup` | server/main.py:46-60 | startup clears the job set and loads the catalog; every job it leaves belongs to a record with a truthy status |
| `Jobs.StartupInSync` | server/main.py:44-61 | after startup every job belongs to a record, and no record with a falsy status has a job, even if the pass stopped early |
| `Jobs.StartupSchedulesEnabled` | server/main.py:44-61 | when every enabled record resolves, the job ids after startup are exactly the names of the enabled records, each job built from its record |
| `Jobs.StartupStopsAtFirstFailure` | server/main.py:44-64 | if record k is the first enabled one that fails, startup reports the failure, only records before k have jobs, and no record from k on has one |
| `Jobs.DisableKeepsJob` | server/main.py:394-424 | disabling a record that has a job leaves the job in place, so catalog and job set drift apart |
| `Jobs.EnableAddsNoJob` | server/main.py:437-467 | enabling a disabled record adds no job |
| `Jobs.Schedule` | server/main.py:256-303 | the intended behaviour: an existing job is reported and nothing changes; an unknown id is not found and nothing changes; otherwise the record's status becomes 1, the answer is success exactly when the record resolves, and then exactly that id is added with the record's job; if the add fails, the status stays 1 and the job set is unchanged |
| `Jobs.ScheduleAsWritten` | server/main.py:276-291 | as written: it agrees with the intended behaviour whenever a record or a job has the id; with an empty catalog and no job it fails because the loop variable is unbound |
| `Jobs.ScheduleAsWrittenUsesLastRecord` | server/main.py:276-291 | as written, scheduling an unknown id adds a job for the last record under that record's name and reports success; the intended behaviour reports not found |
| `Jobs.ScheduleTwice` | server/main.py:257-270 | scheduling an entry that was just created reports that it already exists and changes nothing |
| `Jobs.Pause` | server/main.py:143-184 | not found exactly when the id has no job; unchanged exactly when the job is already paused; otherwise only that job's next run becomes `None` |
| `Jobs.Resume` | server/main.py:186-225 | not found exactly when the id has no job; unchanged exactly when the job is running; a paused job's next run is recomputed from its trigger; other jobs are untouched |
| `Jobs.Remove` | server/main.py:227-253 | not found exactly when the id has no job; otherwise exactly that id leaves the map and every other job is kept |
| `Jobs.PauseIdempotent` | server/main.py:147-173 | pausing twice equals pausing once |
| `Jobs.ResumeIdempotent` | server/main.py:190-215 | resuming twice equals resuming once |
| `Jobs.PauseThenResume` | server/main.py:162-192 | pausing then resuming keeps the job's handler, trigger and arguments, and takes the next run from the trigger at resume time |
| `Jobs.RemoveThenNotFound` | server/main.py:229-232 | once removed, a job can no longer be paused, resumed or removed |
| `Jobs.LastSegment` | server/main.py:101 | the result is the longest dot-free suffix of the module name |
| `Jobs.TaskFileOfPlainName` | server/main.py:125 | for a handler name without dots, the reported task file is the handler name |
| `Jobs.Info` | server/main.py:99-106 | a listing entry reports the job's id, task file, next run (`None` when paused), trigger and args and kwargs |
| `Server.Controller.constructor` | server/main.py:38 | the controller starts with the given catalog and no jobs |
| `Server.Controller.Startup` | server/main.py:40-64 | the job set is cleared, then the enabled records are loaded in order as `Jobs.Startup` describes; the catalog is unchanged |
| `Server.Controller.ReadTask` | server/main.py:305-339 | with no id or an empty id, the whole catalog; otherwise the first record with that name, or not found exactly when no record has it |
| `Server.Controller.Register` | server/main.py:341-392 | with the corrected cron check of the first Findings row, the catalog changes as `Catalog.Register` says, unique names are kept, and the job set is untouched |
| `Server.Controller.SetStatus` | server/main.py:399-424 | the search loop flips exactly as `Catalog.SetStatus` says; unique names are kept and the job set is untouched |
| `Server.Controller.Disable` | server/main.py:394-435 | disabling as `Catalog.Disable` says; the job set is untouched |
| `Server.Controller.Enable` | server/main.py:437-478 | enabling as `Catalog.Enable` says; the job set is untouched |
| `Server.Controller.Schedule` | server/main.py:255-303 | with the corrected lookup of the second Findings row, catalog and job set change as `Jobs.Schedule` says; unique names are kept |
| `Server.Controller.ReadJob` | server/main.py:88-141 | with no id or an empty id, the listing entries of all jobs and nothing else; otherwise the entry of that job, or not found exactly when it has no job |
| `Server.Controller.Pause` | server/main.py:143-184 | the job set changes as `Jobs.Pause` says; the catalog is untouched |
| `Server.Controller.Resume` | server/main.py:186-225 | the job set changes as `Jobs.Resume` says; the catalog is untouched |
| `Server.Controller.Remove` | server/main.py:227-253 | the job set changes as `Jobs.Remove` says; the catalog is untouched |
| `SendMail.Weekday` | server/tasks/send_mail.py:7-8 | every day's weekday is in 0..6, and day 1 falls on the weekday of the 1st |
| `SendMail.WeekOfMonth` | server/tasks/send_mail.py:6-10 | the week number is between 1 and 6, and day 1 is in week 1 |
| `SendMail.WeekOfMonthMonotone` | server/tasks/send_mail.py:9-10 | a later day is never in an earlier week |
| `SendMail.WeekOfMonthStep` | server/tasks/send_mail.py:7-10 | from one day to the next, the week number rises by 1 exactly when the next day is a Monday, that is when `(dom_first + day) mod 7 == 0`, and otherwise stays the same |
| `SendMail.FirstWeek` | server/tasks/send_mail.py:8-10 | the days before the first Monday (1 .. 7 - dom_first) are all in week 1 |
| `SendMail.MondaysAfterFirst` | server/tasks/send_mail.py:8-9 | the reference count of the Mondays from day 2 up to the given day; it is less than the day number |
| `SendMail.WeekOfMonthCountsMondays` | server/tasks/send_mail.py:6-10 | the formula equals 1 plus the number of Mondays from day 2 up to the day |
| `SendMail.SixthWeekReached` | server/tasks/send_mail.py:9-10 | the bound 6 is reached: day 31 of a month that starts on a Sunday |

## Findings

| source | as written | input that shows it | evidently intended | confidence | as-written member | corrected member |
|---|---|---|---|---|---|---|
| server/main.py:368 | `task.cron.split() != 6` compares a list with an integer. In Python they are never equal, so every request that passes the name and task checks is refused as "Invalid cron format". | any request whose name is new, whose task is listed and whose cron text has six fields, for instance name `report`, task `send_mail.py`, cron `0 0 8 * * 1` (six fields by `Cron.SixFieldCronAccepted`), against an empty catalog | refuse only when the cron text does not split into six fields (`len(task.cron.split()) != 6`), the six-way unpacking of lines 53 and 284 | high; not executed | `Catalog.RegisterAsWritten` (lemma `Catalog.RegisterAsWrittenRefusesValid`) | `Catalog.Register` |
| server/main.py:284 | After a `for` loop that found no record, the code still reads the loop variable `i`. That variable holds the last record, so its job is added under that record's name and the answer is "Task added". With an empty catalog, `i` is unbound and the handler raises. | id `x` with no job and no record, in a catalog whose last record `report` resolves and has no job | answer "not found" and change nothing | high; not executed | `Jobs.ScheduleAsWritten` (lemma `Jobs.ScheduleAsWrittenUsesLastRecord`) | `Jobs.Schedule` |

## Left out

- HTTP routing, CORS, response bodies and status codes. Outcomes are `Result`,
  `Effect` and `QueueEffect` values. The model does not show that disable and
  enable answer "not found" with status 400, nor that registration returns its
  refusals instead of raising them.
- Reading and writing `index.json`. The file becomes the `catalog` field. The
  model does not cover a missing or malformed file, a failed write, or two
  concurrent read-modify-write sequences. It also ignores records that lack a
  field; `i.get(...)` would give `None` or the default for those.
- JSON values inside `args` and `kwargs` are kept as an opaque `Json` datatype.
  Floating-point numbers are not modelled.
- The cron trigger's parsing of each field, the next-fire computation and the
  timed firing loop. These are the parameters `accepts` and `nextFire`.
- Jobs.Resume: `nextFire` always returns a time. The model therefore does not
  cover a trigger with no future fire time, which the library handles on its own.
- Server.Controller.ReadJob: returns the listing entries as a set. It does not
  state the order of the scheduler's `get_jobs()`, which sorts by next run time.
- Jobs.Info: assumes the decorator on a task's `main` keeps the module name.
  The decorator lives in the tasks package, which is not part of this model.
- `scheduler.start()`, and the shutdown that clears the jobs
  (`server/main.py:42`, `66-70`). These are lifecycle calls of the library.
- Import of `tasks.<name>` and listing of the `tasks` directory. These are the
  sets `handlers` and `taskEntries`.
- WebSocket notifications and `notify_clients` (`server/main.py:74-86`).
  They are I/O only.
- The module-level line `connected_clients = List[WebSocket] = []`
  (`server/main.py:22`). It is a chained assignment. Its second target assigns
  to a subscription of `typing.List`, which Python refuses with a `TypeError`,
  so as written the module would fail while loading and no handler could run.
  The model assumes the module loads, as with `connected_clients = []`.
- The body of the mail task's `main` (SMTP, locale, clock, attachment) and the
  webhook task. Both are I/O only. `SendMail.WeekOfMonth` takes the day and
  the weekday of the 1st as numbers, not a date.
- The React client.
