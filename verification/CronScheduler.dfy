// The cron materializer: each tick reads the due definitions once, then creates a job from each
// and advances it.
module CronScheduler {
  import opened Wrappers

  type DefId = nat

  datatype Json =
    | Null
    | Bool(b: bool)
    | Number(n: real)
    | Text(s: string)
    | Array(items: seq<Json>)
    | Object(fields: map<string, Json>)

  datatype Definition = Definition(
    queueId: string,
    cronExpression: string,
    jobTemplate: Json,
    isActive: bool,
    nextRunAt: Option<int>,
    lastRunAt: Option<int>)

  // A row of the jobs table, with the definition it comes from.
  datatype NewJob = NewJob(
    origin: DefId,
    queueId: string,
    jobType: string,
    payload: Json,
    priority: Json,
    retryPolicyId: Json,
    status: JobStatus,
    runAt: int)

  // The cron library: it rejects an expression, finds no later run, or names the next one.
  datatype NextRun = Rejected | Exhausted | At(at: int)

  type Croner = (string, int) -> NextRun

  // What one pass of the loop body meets: the clock at each of its reads, and whether the insert
  // or the update of the definition throws.
  datatype Pass = Pass(computedAt: int, createdAt: int, updatedAt: int, createThrows: bool, updateThrows: bool)

  datatype Db = Db(definitions: map<DefId, Definition>, jobs: seq<NewJob>)

  predicate IsJobTemplate(v: Json) {
    v.Object? && "type" in v.fields && v.fields["type"].Text?
  }

  function FieldOr(v: Json, name: string, default: Json): Json
    requires v.Object?
  {
    if name in v.fields && v.fields[name] != Null then v.fields[name] else default
  }

  function JobFrom(id: DefId, d: Definition, runAt: int): NewJob
    requires IsJobTemplate(d.jobTemplate)
  {
    NewJob(id, d.queueId, d.jobTemplate.fields["type"].s, FieldOr(d.jobTemplate, "payload", Object(map[])),
           FieldOr(d.jobTemplate, "priority", Number(0.0)),
           FieldOr(d.jobTemplate, "retryPolicyId", Null), Queued, runAt)
  }

  // The API's first next run: the next full minute, in milliseconds, whatever the expression says.
  function ComputeNextRunAt(from: int): int {
    from - from % 60_000 + 60_000
  }

  predicate IsDue(d: Definition, now: int) {
    d.isActive && d.nextRunAt.Some? && d.nextRunAt.value <= now
  }

  // The rows the tick's query returns: each due definition once, in some order.
  ghost predicate DueList(definitions: map<DefId, Definition>, now: int, due: seq<DefId>) {
    && (forall i, j | 0 <= i < j < |due| :: due[i] != due[j])
    && (forall id | id in due :: id in definitions && IsDue(definitions[id], now))
    && (forall id | id in definitions && IsDue(definitions[id], now) :: id in due)
  }

  // The loop body for definition `id`, whose columns the tick read as `d`.
  function Materialize(croner: Croner, db: Db, id: DefId, d: Definition, p: Pass): Db {
    if !IsJobTemplate(d.jobTemplate) then db
    else
      match croner(d.cronExpression, p.computedAt)
      case Rejected => db
      case Exhausted =>
        if p.updateThrows || id !in db.definitions then db
        else db.(definitions := db.definitions[id := db.definitions[id].(isActive := false)])
      case At(next) =>
        if p.createThrows then db
        else
          var jobs := db.jobs + [JobFrom(id, d, p.createdAt)];
          if p.updateThrows || id !in db.definitions then db.(jobs := jobs)
          else
            var row := db.definitions[id].(lastRunAt := Some(p.updatedAt), nextRunAt := Some(next));
            Db(db.definitions[id := row], jobs)
  }

  // The loop over the due definitions as they were read in `snapshot`.
  function Tick(croner: Croner, snapshot: map<DefId, Definition>, db: Db, due: seq<DefId>, passes: map<DefId, Pass>): Db
    requires forall id | id in due :: id in snapshot && id in passes
    decreases |due|
  {
    if |due| == 0 then db
    else
      var id := due[0];
      assert forall other | other in due[1..] :: other in due;
      Tick(croner, snapshot, Materialize(croner, db, id, snapshot[id], passes[id]), due[1..], passes)
  }

  class Scheduler {
    var definitions: map<DefId, Definition>
    var jobs: seq<NewJob>

    function Contents(): Db
      reads this
    {
      Db(definitions, jobs)
    }

    constructor (definitions: map<DefId, Definition>)
      ensures Contents() == Db(definitions, [])
    {
      this.definitions := definitions;
      jobs := [];
    }

    method RunTick(croner: Croner, now: int, due: seq<DefId>, passes: map<DefId, Pass>)
      requires DueList(definitions, now, due) && forall id | id in due :: id in passes
      modifies this
      ensures Contents() == Tick(croner, old(definitions), old(Contents()), due, passes)
    {
      var snapshot := definitions;
      var i := 0;
      assert due[0..] == due;
      while i < |due|
        invariant 0 <= i <= |due|
        invariant Tick(croner, snapshot, Contents(), due[i..], passes)
               == Tick(croner, snapshot, old(Contents()), due, passes)
      {
        assert due[i..][1..] == due[i + 1..];
        MaterializeOne(croner, due[i], snapshot[due[i]], passes[due[i]]);
        i := i + 1;
      }
    }

    // Both writes are separate statements; a throw between them leaves the job behind.
    method MaterializeOne(croner: Croner, id: DefId, d: Definition, p: Pass)
      modifies this
      ensures Contents() == Materialize(croner, old(Contents()), id, d, p)
    {
      if !IsJobTemplate(d.jobTemplate) {
        return;
      }
      match croner(d.cronExpression, p.computedAt)
      case Rejected =>
      case Exhausted =>
        if !p.updateThrows && id in definitions {
          definitions := definitions[id := definitions[id].(isActive := false)];
        }
      case At(next) =>
        if p.createThrows {
          return;
        }
        jobs := jobs + [JobFrom(id, d, p.createdAt)];
        if !p.updateThrows && id in definitions {
          definitions := definitions[id := definitions[id].(lastRunAt := Some(p.updatedAt), nextRunAt := Some(next))];
        }
    }
  }
}
