/** The catalog of task records: the ordered list of task records kept in index.json, and the
    pure operations on it (lookup by name, registering a record, flipping a status). */
module Catalog {
  import opened Outcomes
  import opened Cron

  /** A JSON value, as the `args` and `kwargs` of a record hold them. */
  datatype Json = JNull | JBool(b: bool) | JNumber(n: int) | JString(s: string)
                | JArray(items: seq<Json>) | JObject(members: map<string, Json>)

  /** One record of the catalog (the dumped TaskModel). */
  datatype TaskDef = TaskDef(name: string, task: string, status: int, cron: string,
                             args: seq<Json>, kwargs: map<string, Json>)

  /** A registration request: the TaskModel fields a client may leave out are optional. */
  datatype TaskRequest = TaskRequest(name: string, task: string, status: Option<int>, cron: string,
                                     args: Option<seq<Json>>, kwargs: Option<map<string, Json>>)

  /** Python truthiness of the integer status, as startup tests it. */
  predicate Enabled(t: TaskDef) {
    t.status != 0
  }

  /** The names of the catalog's records. */
  function Names(cat: seq<TaskDef>): set<string> {
    set i | 0 <= i < |cat| :: cat[i].name
  }

  /** The names of the records startup schedules: those with a truthy status. */
  function EnabledNames(cat: seq<TaskDef>): set<string> {
    set i | 0 <= i < |cat| && Enabled(cat[i]) :: cat[i].name
  }

  /** No two records share a name. */
  predicate UniqueNames(cat: seq<TaskDef>) {
    forall i, j :: 0 <= i < j < |cat| ==> cat[i].name != cat[j].name
  }

  /** The index of the first record named `name`, as the handlers' `for i in data` loops find it. */
  function Find(cat: seq<TaskDef>, name: string): (r: Option<nat>)
    ensures r.None? <==> name !in Names(cat)
    ensures r.Some? ==> r.value < |cat| && cat[r.value].name == name
    ensures r.Some? ==> forall j :: 0 <= j < r.value ==> cat[j].name != name
  {
    if cat == [] then None
    else if cat[0].name == name then Some(0)
    else
      assert Names(cat) == {cat[0].name} + Names(cat[1..]) by {
        forall n | n in Names(cat) ensures n in {cat[0].name} + Names(cat[1..]) {
          var i :| 0 <= i < |cat| && cat[i].name == n;
          if i > 0 { assert cat[1..][i - 1].name == n; }
        }
      }
      match Find(cat[1..], name)
      case None => None
      case Some(k) => Some(k + 1)
  }

  /** The first record carrying `name` is the one the lookup finds. */
  lemma FindFirst(cat: seq<TaskDef>, name: string, k: nat)
    requires k < |cat| && cat[k].name == name
    requires forall j :: 0 <= j < k ==> cat[j].name != name
    ensures Find(cat, name) == Some(k)
  {
  }

  /** Rewriting one record's status keeps every name, and so keeps names unique. */
  lemma WithStatusKeepsNames(cat: seq<TaskDef>, k: nat, s: int)
    requires k < |cat|
    ensures Names(cat[k := cat[k].(status := s)]) == Names(cat)
    ensures UniqueNames(cat) ==> UniqueNames(cat[k := cat[k].(status := s)])
  {
    var c := cat[k := cat[k].(status := s)];
    assert forall i :: 0 <= i < |cat| ==> c[i].name == cat[i].name;
    forall n | n in Names(cat) ensures n in Names(c) {
      var i :| 0 <= i < |cat| && cat[i].name == n;
      assert c[i].name == n;
    }
  }

  /** In a catalog with unique names, the record at index k is the one found under its name. */
  lemma FindUnique(cat: seq<TaskDef>, k: nat)
    requires UniqueNames(cat) && k < |cat|
    ensures Find(cat, cat[k].name) == Some(k)
  {
  }

  /** `task.model_dump()`: the stored record, with the TaskModel defaults filled in
      (status 1, no positional and no keyword arguments). */
  function Dump(req: TaskRequest): (t: TaskDef)
    ensures t.name == req.name && t.task == req.task && t.cron == req.cron
    ensures req.status.None? ==> t.status == 1 && Enabled(t)
    ensures req.args.None? ==> t.args == []
    ensures req.kwargs.None? ==> t.kwargs == map[]
    ensures req.status.Some? ==> t.status == req.status.value
    ensures req.args.Some? ==> t.args == req.args.value
    ensures req.kwargs.Some? ==> t.kwargs == req.kwargs.value
  {
    TaskDef(req.name, req.task,
            match req.status case Some(s) => s case None => 1,
            req.cron,
            match req.args case Some(a) => a case None => [],
            match req.kwargs case Some(k) => k case None => map[])
  }

  /** Why a registration was refused. */
  datatype RegisterError = DuplicateName(name: string) | TaskNotFound(task: string)
                         | InvalidCronFormat(cron: string)

  /** Registration with the cron check as evidently intended: the name must be new,
      the task name must be an entry of the tasks directory and the cron text must have
      six fields; then the dumped record is appended. Checks run in the source's order. */
  function Register(cat: seq<TaskDef>, taskEntries: set<string>, req: TaskRequest)
    : (r: Result<seq<TaskDef>, RegisterError>)
    ensures r.Success? <==> req.name !in Names(cat) && req.task in taskEntries && |Fields(req.cron)| == 6
    ensures r.Success? ==> r.value == cat + [Dump(req)]
    ensures r.Failure? && req.name in Names(cat) ==> r.error == DuplicateName(req.name)
    ensures req.name !in Names(cat) && req.task !in taskEntries ==> r == Failure(TaskNotFound(req.task))
    ensures req.name !in Names(cat) && req.task in taskEntries && |Fields(req.cron)| != 6 ==>
              r == Failure(InvalidCronFormat(req.cron))
  {
    if req.name in Names(cat) then Failure(DuplicateName(req.name))
    else if req.task !in taskEntries then Failure(TaskNotFound(req.task))
    else if |Fields(req.cron)| != 6 then Failure(InvalidCronFormat(req.cron))
    else Success(cat + [Dump(req)])
  }

  /** Registration as the source writes it: the cron check compares the list of
      fields with the integer 6, which in Python is never equal, so the check
      always reports an invalid cron format. */
  function RegisterAsWritten(cat: seq<TaskDef>, taskEntries: set<string>, req: TaskRequest)
    : (r: Result<seq<TaskDef>, RegisterError>)
    ensures r.Failure?
    ensures req.name in Names(cat) ==> r == Failure(DuplicateName(req.name))
    ensures req.name !in Names(cat) && req.task !in taskEntries ==> r == Failure(TaskNotFound(req.task))
    ensures req.name !in Names(cat) && req.task in taskEntries ==> r == Failure(InvalidCronFormat(req.cron))
  {
    var fieldsDifferFromSix := true;  // `task.cron.split() != 6`: a list never equals an int
    if req.name in Names(cat) then Failure(DuplicateName(req.name))
    else if req.task !in taskEntries then Failure(TaskNotFound(req.task))
    else if fieldsDifferFromSix then Failure(InvalidCronFormat(req.cron))
    else Success(cat + [Dump(req)])
  }

  /** The discrepancy: a request with a new name, a listed task and a six-field
      cron line (for instance "0 0 8 * * 1") is appended by the intended check and
      refused as an invalid cron format as written. */
  lemma RegisterAsWrittenRefusesValid(cat: seq<TaskDef>, taskEntries: set<string>, req: TaskRequest)
    requires req.name !in Names(cat) && req.task in taskEntries && |Fields(req.cron)| == 6
    ensures Register(cat, taskEntries, req) == Success(cat + [Dump(req)])
    ensures RegisterAsWritten(cat, taskEntries, req) == Failure(InvalidCronFormat(req.cron))
  {
  }

  /** Registration keeps the catalog's names unique. */
  lemma RegisterKeepsNamesUnique(cat: seq<TaskDef>, taskEntries: set<string>, req: TaskRequest)
    requires UniqueNames(cat)
    requires Register(cat, taskEntries, req).Success?
    ensures UniqueNames(Register(cat, taskEntries, req).value)
  {
  }

  /** A registered record can be read back under its name, and registering the
      same request again is refused as a duplicate with the catalog unchanged. */
  lemma RegisterThenLookup(cat: seq<TaskDef>, taskEntries: set<string>, req: TaskRequest)
    requires Register(cat, taskEntries, req).Success?
    ensures var c := Register(cat, taskEntries, req).value;
            && Find(c, req.name) == Some(|cat|) && c[|cat|] == Dump(req)
            && Register(c, taskEntries, req) == Failure(DuplicateName(req.name))
  {
    var c := Register(cat, taskEntries, req).value;
    assert c[|cat|].name == req.name;
    assert req.name in Names(c);
    assert forall j :: 0 <= j < |cat| ==> c[j].name != req.name by {
      forall j | 0 <= j < |cat| ensures c[j].name != req.name {
        assert cat[j].name in Names(cat);
      }
    }
  }

  /** The result of enabling or disabling a record: what happened and the new catalog. */
  datatype Flip = Flip(effect: Effect, catalog: seq<TaskDef>)

  /** Setting the first record named `name` to status `target` (0 disables, 1 enables):
      `NotFound` if no record has the name, `Unchanged` if its status already equals
      `target`, otherwise only that record's status becomes `target`. */
  function SetStatus(cat: seq<TaskDef>, name: string, target: int): (r: Flip)
    ensures |r.catalog| == |cat| && Names(r.catalog) == Names(cat)
    ensures r.effect == NotFound <==> name !in Names(cat)
    ensures r.effect != Changed ==> r.catalog == cat
    ensures r.effect == Changed ==>
              exists k :: 0 <= k < |cat| && cat[k].name == name && cat[k].status != target
                          && r.catalog == cat[k := cat[k].(status := target)]
    ensures forall k :: 0 <= k < |cat| && cat[k].name != name ==> r.catalog[k] == cat[k]
    ensures forall k :: 0 <= k < |cat| && cat[k].name == name && (forall j :: 0 <= j < k ==> cat[j].name != name) ==>
              && (r.effect == Unchanged <==> cat[k].status == target)
              && (r.effect == Changed <==> cat[k].status != target)
              && (r.effect == Changed ==> r.catalog == cat[k := cat[k].(status := target)])
  {
    match Find(cat, name)
    case None => Flip(NotFound, cat)
    case Some(k) =>
      if cat[k].status == target then Flip(Unchanged, cat)
      else
        WithStatusKeepsNames(cat, k, target);
        Flip(Changed, cat[k := cat[k].(status := target)])
  }

  /** Disabling: `status == 0` means already disabled, otherwise the status becomes 0. */
  function Disable(cat: seq<TaskDef>, name: string): (r: Flip)
    ensures r.effect == NotFound <==> name !in Names(cat)
    ensures r.effect == Unchanged <==> Find(cat, name).Some? && cat[Find(cat, name).value].status == 0
    ensures r.effect == Changed ==>
              var k := Find(cat, name).value;
              r.catalog == cat[k := cat[k].(status := 0)] && !Enabled(r.catalog[k])
    ensures r.effect != Changed ==> r.catalog == cat
  {
    SetStatus(cat, name, 0)
  }

  /** Enabling: `status == 1` means already enabled, otherwise the status becomes 1. */
  function Enable(cat: seq<TaskDef>, name: string): (r: Flip)
    ensures r.effect == NotFound <==> name !in Names(cat)
    ensures r.effect == Unchanged <==> Find(cat, name).Some? && cat[Find(cat, name).value].status == 1
    ensures r.effect == Changed ==>
              var k := Find(cat, name).value;
              r.catalog == cat[k := cat[k].(status := 1)] && Enabled(r.catalog[k])
    ensures r.effect != Changed ==> r.catalog == cat
  {
    SetStatus(cat, name, 1)
  }

  /** Flipping twice to the same status is the same as flipping once; the second
      call reports that nothing changed (or that the name is unknown). */
  lemma SetStatusIdempotent(cat: seq<TaskDef>, name: string, target: int)
    ensures var once := SetStatus(cat, name, target);
            SetStatus(once.catalog, name, target)
              == Flip(if once.effect == NotFound then NotFound else Unchanged, once.catalog)
  {
    var once := SetStatus(cat, name, target);
    if once.effect == Changed {
      var k := Find(cat, name).value;
      assert once.catalog == cat[k := cat[k].(status := target)];
      assert Find(once.catalog, name) == Some(k) by {
        assert once.catalog[k].name == name;
        assert forall j :: 0 <= j < k ==> once.catalog[j].name != name;
      }
    }
  }

  /** Disabling an enabled (status 1) record and enabling it again restores the catalog. */
  lemma DisableThenEnable(cat: seq<TaskDef>, name: string)
    requires Find(cat, name).Some? && cat[Find(cat, name).value].status == 1
    ensures Disable(cat, name).effect == Changed
    ensures Enable(Disable(cat, name).catalog, name) == Flip(Changed, cat)
  {
    var k := Find(cat, name).value;
    var off := Disable(cat, name).catalog;
    assert off == cat[k := cat[k].(status := 0)];
    assert Find(off, name) == Some(k) by {
      assert off[k].name == name;
      assert forall j :: 0 <= j < k ==> off[j].name != name;
    }
    assert off[k := off[k].(status := 1)] == cat;
  }

  /** Enabling tests `status == 1` while startup tests truthiness: a record with
      status 2 is already scheduled at startup, yet enabling it reports a change
      and rewrites its status to 1. */
  lemma EnableRewritesTruthyStatus()
    ensures var cat := [TaskDef("report", "send_mail", 2, "0 0 8 * * 1", [], map[])];
            && Enabled(cat[0])
            && Enable(cat, "report") == Flip(Changed, [cat[0].(status := 1)])
  {
  }

  /** Flipping a status keeps the catalog's names unique. */
  lemma SetStatusKeepsNamesUnique(cat: seq<TaskDef>, name: string, target: int)
    requires UniqueNames(cat)
    ensures UniqueNames(SetStatus(cat, name, target).catalog)
  {
  }
}
