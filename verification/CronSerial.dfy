// Ticks that run one after the other.
module CronSerial {
  import opened Wrappers
  import opened CronScheduler

  // The occurrences of an expression, and a cron library that names the least later one.
  type Fires = (string, int) -> bool

  ghost predicate FiresIn(fires: Fires, expr: string, after: int, upTo: int) {
    exists f :: after < f <= upTo && fires(expr, f)
  }

  ghost predicate IsLeastAfter(fires: Fires, expr: string, t: int, next: int) {
    next > t && fires(expr, next) && forall f | t < f < next :: !fires(expr, f)
  }

  ghost predicate NamesLeast(croner: Croner, fires: Fires, expr: string) {
    forall t :: croner(expr, t).At? && IsLeastAfter(fires, expr, t, croner(expr, t).at)
  }

  // The template is an object whose type is some text.
  ghost predicate NamesAType(template: Json) {
    exists name, fields :: template == Object(fields) && "type" in fields && fields["type"] == Text(name)
  }

  lemma {:induction false} ValidIffTyped(template: Json)
    ensures IsJobTemplate(template) <==> NamesAType(template)
  {
    if IsJobTemplate(template) {
      assert template == Object(template.fields) && template.fields["type"] == Text(template.fields["type"].s);
    }
  }

  // An active, well-formed definition whose next run was computed at instant `since`.
  ghost predicate Anchored(fires: Fires, d: Definition, since: int) {
    && d.isActive && NamesAType(d.jobTemplate)
    && d.nextRunAt.Some? && IsLeastAfter(fires, d.cronExpression, since, d.nextRunAt.value)
  }

  function JobsOf(jobs: seq<NewJob>, id: DefId): seq<NewJob> {
    if |jobs| == 0 then []
    else JobsOf(jobs[..|jobs| - 1], id) + if jobs[|jobs| - 1].origin == id then [jobs[|jobs| - 1]] else []
  }

  lemma {:induction false} JobsOfStep(jobs: seq<NewJob>, job: NewJob, id: DefId)
    ensures JobsOf(jobs + [job], id) == JobsOf(jobs, id) + if job.origin == id then [job] else []
  {
  }

  // ----- A tick treats each definition on its own -----

  lemma {:induction false} MaterializeElsewhere(croner: Croner, db: Db, id: DefId, d: Definition, p: Pass, other: DefId)
    requires id != other
    ensures var db' := Materialize(croner, db, id, d, p);
            && (other in db'.definitions <==> other in db.definitions)
            && (other in db.definitions ==> db'.definitions[other] == db.definitions[other])
            && JobsOf(db'.jobs, other) == JobsOf(db.jobs, other)
  {
  }

  lemma {:induction false} TickElsewhere(
      croner: Croner, snapshot: map<DefId, Definition>, db: Db, due: seq<DefId>, passes: map<DefId, Pass>, id: DefId)
    requires (forall x | x in due :: x in snapshot && x in passes) && id !in due
    ensures var db' := Tick(croner, snapshot, db, due, passes);
            && (id in db'.definitions <==> id in db.definitions)
            && (id in db.definitions ==> db'.definitions[id] == db.definitions[id])
            && JobsOf(db'.jobs, id) == JobsOf(db.jobs, id)
    decreases |due|
  {
    if due == [] {
    } else {
      var db1 := Materialize(croner, db, due[0], snapshot[due[0]], passes[due[0]]);
      MaterializeElsewhere(croner, db, due[0], snapshot[due[0]], passes[due[0]], id);
      TickElsewhere(croner, snapshot, db1, due[1..], passes, id);
    }
  }

  // What the pass over a valid definition whose expression has a later run leaves behind.
  ghost predicate PassDone(croner: Croner, before: Db, after: Db, id: DefId, d: Definition, p: Pass)
    requires IsJobTemplate(d.jobTemplate) && croner(d.cronExpression, p.computedAt).At?
  {
    && id in after.definitions
    && JobsOf(after.jobs, id)
       == JobsOf(before.jobs, id) + (if p.createThrows then [] else [JobFrom(id, d, p.createdAt)])
    && after.definitions[id] == if p.createThrows || p.updateThrows then d
         else d.(lastRunAt := Some(p.updatedAt), nextRunAt := Some(croner(d.cronExpression, p.computedAt).at))
  }

  lemma {:induction false} MaterializeIsDone(croner: Croner, db: Db, id: DefId, d: Definition, p: Pass)
    requires id in db.definitions && db.definitions[id] == d
    requires IsJobTemplate(d.jobTemplate) && croner(d.cronExpression, p.computedAt).At?
    ensures PassDone(croner, db, Materialize(croner, db, id, d, p), id, d, p)
  {
    JobsOfStep(db.jobs, JobFrom(id, d, p.createdAt), id);
  }

  // A due definition changes as its own pass says, wherever it stands in the list.
  lemma {:induction false} TickAt(
      croner: Croner, snapshot: map<DefId, Definition>, db: Db, due: seq<DefId>, passes: map<DefId, Pass>, id: DefId)
    requires (forall x | x in due :: x in snapshot && x in passes) && id in due
    requires forall i, j | 0 <= i < j < |due| :: due[i] != due[j]
    requires id in db.definitions && db.definitions[id] == snapshot[id]
    requires IsJobTemplate(snapshot[id].jobTemplate) && croner(snapshot[id].cronExpression, passes[id].computedAt).At?
    ensures PassDone(croner, db, Tick(croner, snapshot, db, due, passes), id, snapshot[id], passes[id])
    decreases |due|
  {
    var db1 := Materialize(croner, db, due[0], snapshot[due[0]], passes[due[0]]);
    if due[0] == id {
      assert id !in due[1..];
      MaterializeIsDone(croner, db, id, snapshot[id], passes[id]);
      TickElsewhere(croner, snapshot, db1, due[1..], passes, id);
    } else {
      MaterializeElsewhere(croner, db, due[0], snapshot[due[0]], passes[due[0]], id);
      TickAt(croner, snapshot, db1, due[1..], passes, id);
    }
  }

  // ----- One tick -----

  datatype TickRun = TickRun(now: int, due: seq<DefId>, passes: map<DefId, Pass>)

  // The tick reads its due list from the table it starts on, and every pass reads the clock after
  // that. Any write may throw.
  ghost predicate Sound(db: Db, t: TickRun) {
    && DueList(db.definitions, t.now, t.due) && (forall id | id in t.due :: id in t.passes)
    && (forall id | id in t.due :: t.now <= t.passes[id].computedAt <= t.passes[id].createdAt <= t.passes[id].updatedAt)
  }

  function After(croner: Croner, db: Db, t: TickRun): Db
    requires forall id | id in t.due :: id in db.definitions && id in t.passes
  {
    Tick(croner, db.definitions, db, t.due, t.passes)
  }

  predicate CreateFails(t: TickRun, id: DefId) { id in t.due && id in t.passes && t.passes[id].createThrows }

  // The job is created, and then the update of the definition throws.
  predicate UpdateFails(t: TickRun, id: DefId) {
    id in t.due && id in t.passes && !t.passes[id].createThrows && t.passes[id].updateThrows
  }

  lemma {:induction false} FirstRunIsTheNextMinute(from: int, minute: int)
    ensures var first := ComputeNextRunAt(from);
            && from < first <= from + 60_000 && first % 60_000 == 0
            && (minute % 60_000 == 0 && from < minute ==> first <= minute)
  {
  }

  // The job carries the template's columns, with their defaults, and the definition's queue.
  ghost predicate MadeFrom(d: Definition, job: NewJob) {
    && d.jobTemplate.Object? && "type" in d.jobTemplate.fields
    && Text(job.jobType) == d.jobTemplate.fields["type"] && job.queueId == d.queueId && job.status == Queued
    && Column(d.jobTemplate.fields, "payload", job.payload, Object(map[]))
    && Column(d.jobTemplate.fields, "priority", job.priority, Number(0.0))
    && Column(d.jobTemplate.fields, "retryPolicyId", job.retryPolicyId, Null)
  }

  predicate Column(fields: map<string, Json>, name: string, value: Json, default: Json) {
    if name in fields && fields[name] != Null then value == fields[name] else value == default
  }

  // Whatever next run a definition starts with, a tick that finds it due creates one job and puts
  // it on its schedule. When the insert throws nothing happens; when the update throws the job is
  // there and the definition is as it was.
  lemma {:induction false} DueTickAnchors(croner: Croner, fires: Fires, db: Db, t: TickRun, id: DefId)
    requires Sound(db, t) && id in db.definitions && id in t.due
    requires var d := db.definitions[id]; NamesLeast(croner, fires, d.cronExpression) && NamesAType(d.jobTemplate)
    ensures var d, db' := db.definitions[id], After(croner, db, t);
            && id in db'.definitions
            && (if CreateFails(t, id) then JobsOf(db'.jobs, id) == JobsOf(db.jobs, id)
                else exists job :: JobsOf(db'.jobs, id) == JobsOf(db.jobs, id) + [job] && MadeFrom(d, job)
                                   && t.now <= t.passes[id].computedAt <= job.runAt == t.passes[id].createdAt)
            && (if CreateFails(t, id) || UpdateFails(t, id) then db'.definitions[id] == d
                else Advanced(fires, d, db'.definitions[id], t.passes[id]))
  {
    var d := db.definitions[id];
    ValidIffTyped(d.jobTemplate);
    TickAt(croner, db.definitions, db, t.due, t.passes, id);
    if !CreateFails(t, id) {
      var job := JobFrom(id, d, t.passes[id].createdAt);
      assert JobsOf(After(croner, db, t).jobs, id) == JobsOf(db.jobs, id) + [job] && MadeFrom(d, job);
    }
  }

  // ----- Due definitions that make no job -----

  // The pass over a definition that cannot be made, or has no later run, creates no job.
  ghost predicate PassMadeNone(croner: Croner, before: Db, after: Db, id: DefId, d: Definition, p: Pass) {
    && id in after.definitions && JobsOf(after.jobs, id) == JobsOf(before.jobs, id)
    && after.definitions[id] == if NamesAType(d.jobTemplate) && croner(d.cronExpression, p.computedAt) == Exhausted
                                   && !p.updateThrows then d.(isActive := false) else d
  }

  lemma {:induction false} MaterializeMakesNone(croner: Croner, db: Db, id: DefId, d: Definition, p: Pass)
    requires id in db.definitions && db.definitions[id] == d
    requires !NamesAType(d.jobTemplate) || !croner(d.cronExpression, p.computedAt).At?
    ensures PassMadeNone(croner, db, Materialize(croner, db, id, d, p), id, d, p)
  {
    ValidIffTyped(d.jobTemplate);
  }

  lemma {:induction false} TickMakesNone(
      croner: Croner, snapshot: map<DefId, Definition>, db: Db, due: seq<DefId>, passes: map<DefId, Pass>, id: DefId)
    requires (forall x | x in due :: x in snapshot && x in passes) && id in due
    requires forall i, j | 0 <= i < j < |due| :: due[i] != due[j]
    requires id in db.definitions && db.definitions[id] == snapshot[id]
    requires !NamesAType(snapshot[id].jobTemplate) || !croner(snapshot[id].cronExpression, passes[id].computedAt).At?
    ensures PassMadeNone(croner, db, Tick(croner, snapshot, db, due, passes), id, snapshot[id], passes[id])
    decreases |due|
  {
    var db1 := Materialize(croner, db, due[0], snapshot[due[0]], passes[due[0]]);
    if due[0] == id {
      assert id !in due[1..];
      MaterializeMakesNone(croner, db, id, snapshot[id], passes[id]);
      TickElsewhere(croner, snapshot, db1, due[1..], passes, id);
    } else {
      MaterializeElsewhere(croner, db, due[0], snapshot[due[0]], passes[due[0]], id);
      TickMakesNone(croner, snapshot, db1, due[1..], passes, id);
    }
  }

  // A due definition makes no job when its template names no type or the cron library rejects its
  // expression, and then stays as it is, or when the expression has no later run: then it is
  // deactivated, unless that update throws.
  lemma {:induction false} DueTickMakesNone(croner: Croner, db: Db, t: TickRun, id: DefId)
    requires Sound(db, t) && id in db.definitions && id in t.due
    ensures var d, db' := db.definitions[id], After(croner, db, t);
            var next := croner(d.cronExpression, t.passes[id].computedAt);
            && (!NamesAType(d.jobTemplate) || next == Rejected ==>
                  id in db'.definitions && db'.definitions[id] == d && JobsOf(db'.jobs, id) == JobsOf(db.jobs, id))
            && (NamesAType(d.jobTemplate) && next == Exhausted ==>
                  && id in db'.definitions && JobsOf(db'.jobs, id) == JobsOf(db.jobs, id)
                  && db'.definitions[id] == if t.passes[id].updateThrows then d else d.(isActive := false))
  {
    var d := db.definitions[id];
    if !NamesAType(d.jobTemplate) || !croner(d.cronExpression, t.passes[id].computedAt).At? {
      TickMakesNone(croner, db.definitions, db, t.due, t.passes, id);
    }
  }

  // ----- Due definitions on their schedule -----

  // The definition is on its schedule from the instant of computing on, and records the run; its
  // other columns stay.
  ghost predicate Advanced(fires: Fires, before: Definition, after: Definition, p: Pass) {
    && Anchored(fires, after, p.computedAt)
    && after.lastRunAt == Some(p.updatedAt)
    && after == before.(nextRunAt := after.nextRunAt, lastRunAt := after.lastRunAt)
  }

  // The instant at which the next run was last computed, after the tick.
  function Anchor(t: TickRun, id: DefId, since: int): int {
    if id in t.due && id in t.passes && !CreateFails(t, id) && !UpdateFails(t, id) then
      t.passes[id].computedAt else since
  }

  // The jobs that the tick has added for the definition: one if it is due and its insert succeeds.
  ghost predicate Added(db: Db, db': Db, t: TickRun, id: DefId, jobs: seq<NewJob>) {
    && JobsOf(db'.jobs, id) == JobsOf(db.jobs, id) + jobs
    && |jobs| == (if id in t.due && !CreateFails(t, id) then 1 else 0)
    && (|jobs| == 1 ==> t.now <= jobs[0].runAt && (!UpdateFails(t, id) ==> Anchor(t, id, t.now) <= jobs[0].runAt))
  }

  // A tick whose query reads `now` finds the definition due, and creates one job unless the insert
  // throws, exactly when an occurrence lies after the instant its next run was last computed and
  // not after `now`; several missed occurrences make one job.
  lemma {:induction false} TickCreatesIffFired(croner: Croner, fires: Fires, db: Db, t: TickRun, id: DefId, since: int)
    returns (jobs: seq<NewJob>)
    requires Sound(db, t) && id in db.definitions
    requires var d := db.definitions[id]; NamesLeast(croner, fires, d.cronExpression) && Anchored(fires, d, since)
    ensures var d, db' := db.definitions[id], After(croner, db, t);
            && (id in t.due <==> FiresIn(fires, d.cronExpression, since, t.now))
            && id in db'.definitions && db'.definitions[id].cronExpression == d.cronExpression
            && Anchored(fires, db'.definitions[id], Anchor(t, id, since))
            && Added(db, db', t, id, jobs)
            && (Anchor(t, id, since) == since || t.now <= Anchor(t, id, since))
  {
    var d := db.definitions[id];
    assert FiresIn(fires, d.cronExpression, since, t.now) <==> id in t.due by {
      assert IsDue(d, t.now) <==> d.nextRunAt.value <= t.now;
    }
    if id in t.due {
      DueTickAnchors(croner, fires, db, t, id);
      jobs := JobsOf(After(croner, db, t).jobs, id)[|JobsOf(db.jobs, id)|..];
    } else {
      TickElsewhere(croner, db.definitions, db, t.due, t.passes, id);
      jobs := [];
    }
  }

  // ----- Whole runs -----

  ghost predicate SoundRun(croner: Croner, db: Db, ticks: seq<TickRun>)
    decreases |ticks|
  {
    |ticks| > 0 ==> Sound(db, ticks[0]) && SoundRun(croner, After(croner, db, ticks[0]), ticks[1..])
  }

  ghost function RunTicks(croner: Croner, db: Db, ticks: seq<TickRun>): Db
    requires SoundRun(croner, db, ticks)
    decreases |ticks|
  {
    if |ticks| == 0 then db else RunTicks(croner, After(croner, db, ticks[0]), ticks[1..])
  }

  // A definition that is switched off or has no next run is never due again, and no run of ticks
  // changes it or makes a job for it.
  lemma {:induction false} NeverDueAgain(croner: Croner, db: Db, ticks: seq<TickRun>, id: DefId)
    requires SoundRun(croner, db, ticks) && id in db.definitions
    requires !db.definitions[id].isActive || db.definitions[id].nextRunAt == None
    ensures var db' := RunTicks(croner, db, ticks);
            && id in db'.definitions && db'.definitions[id] == db.definitions[id]
            && JobsOf(db'.jobs, id) == JobsOf(db.jobs, id)
            && forall k | 0 <= k < |ticks| :: id !in ticks[k].due
    decreases |ticks|
  {
    if ticks == [] {
    } else {
      TickElsewhere(croner, db.definitions, db, ticks[0].due, ticks[0].passes, id);
      NeverDueAgain(croner, After(croner, db, ticks[0]), ticks[1..], id);
    }
  }

  // A definition whose expression has no later run is read by one tick only, unless switching it off
  // fails, and makes no job.
  lemma {:induction false} ExhaustedIsReadOnce(croner: Croner, db: Db, ticks: seq<TickRun>, id: DefId)
    requires SoundRun(croner, db, ticks) && |ticks| > 0 && id in db.definitions && id in ticks[0].due
    requires NamesAType(db.definitions[id].jobTemplate) && !ticks[0].passes[id].updateThrows
    requires croner(db.definitions[id].cronExpression, ticks[0].passes[id].computedAt) == Exhausted
    ensures var db' := RunTicks(croner, db, ticks);
            && id in db'.definitions && db'.definitions[id] == db.definitions[id].(isActive := false)
            && JobsOf(db'.jobs, id) == JobsOf(db.jobs, id)
            && forall k | 1 <= k < |ticks| :: id !in ticks[k].due
  {
    DueTickMakesNone(croner, db, ticks[0], id);
    NeverDueAgain(croner, After(croner, db, ticks[0]), ticks[1..], id);
    assert forall k | 1 <= k < |ticks| :: ticks[k] == ticks[1..][k - 1];
  }

  function FailedUpdates(ticks: seq<TickRun>, id: DefId): nat {
    if |ticks| == 0 then 0 else FailedUpdates(ticks[1..], id) + if UpdateFails(ticks[0], id) then 1 else 0
  }

  // `anchors` are the instants at which next runs were computed. Between two neighbours lies at
  // least one occurrence, and the job at position `served[i]` was created for them, at or after the
  // second.
  ghost predicate OneJobPerWindow(fires: Fires, expr: string, jobs: seq<NewJob>, anchors: seq<int>, served: seq<nat>) {
    && |anchors| == |served| + 1
    && (forall i | 0 <= i < |served| :: Served(fires, expr, anchors[i], anchors[i + 1], jobs, served[i]))
    && (forall i, j | 0 <= i < j < |served| :: served[i] < served[j])
  }

  ghost predicate Served(fires: Fires, expr: string, after: int, upTo: int, jobs: seq<NewJob>, k: nat) {
    FiresIn(fires, expr, after, upTo) && k < |jobs| && upTo <= jobs[k].runAt
  }

  function Shifted(ks: seq<nat>, offset: nat): (r: seq<nat>)
    ensures |r| == |ks| && forall i | 0 <= i < |ks| :: r[i] == ks[i] + offset
  {
    seq(|ks|, i requires 0 <= i < |ks| => ks[i] + offset)
  }

  // Jobs made earlier that serve no window only move the others on.
  lemma {:induction false} WindowsShift(
      fires: Fires, expr: string, jobs: seq<NewJob>, anchors: seq<int>, served: seq<nat>, more: seq<NewJob>)
    requires OneJobPerWindow(fires, expr, jobs, anchors, served)
    ensures OneJobPerWindow(fires, expr, more + jobs, anchors, Shifted(served, |more|))
  {
    forall i | 0 <= i < |served|
      ensures Served(fires, expr, anchors[i], anchors[i + 1], more + jobs, Shifted(served, |more|)[i])
    {
      assert Served(fires, expr, anchors[i], anchors[i + 1], jobs, served[i]);
      assert (more + jobs)[served[i] + |more|] == jobs[served[i]];
    }
  }

  lemma {:induction false} WindowsGrow(
      fires: Fires, expr: string, jobs: seq<NewJob>, anchors: seq<int>, served: seq<nat>, since: int, job: NewJob)
    requires OneJobPerWindow(fires, expr, jobs, anchors, served)
    requires FiresIn(fires, expr, since, anchors[0]) && anchors[0] <= job.runAt
    ensures OneJobPerWindow(fires, expr, [job] + jobs, [since] + anchors, [0] + Shifted(served, 1))
  {
    WindowsShift(fires, expr, jobs, anchors, served, [job]);
    var anchors', served' := [since] + anchors, [0] + Shifted(served, 1);
    forall i | 0 <= i < |served'|
      ensures Served(fires, expr, anchors'[i], anchors'[i + 1], [job] + jobs, served'[i])
    {
      if i > 0 {
        assert Served(fires, expr, anchors[i - 1], anchors[i], [job] + jobs, Shifted(served, 1)[i - 1]);
      }
    }
  }

  // One tick's jobs in front: they open a new window if they serve one.
  lemma {:induction false} WindowsExtend(
      fires: Fires, expr: string, jobs: seq<NewJob>, anchors: seq<int>, served: seq<nat>, since: int,
      first: seq<NewJob>, serves: bool)
    returns (anchors': seq<int>, served': seq<nat>)
    requires OneJobPerWindow(fires, expr, jobs, anchors, served)
    requires if serves then |first| == 1 && FiresIn(fires, expr, since, anchors[0]) && anchors[0] <= first[0].runAt
             else since == anchors[0]
    ensures OneJobPerWindow(fires, expr, first + jobs, anchors', served')
    ensures anchors'[0] == since && anchors'[|anchors'| - 1] == anchors[|anchors| - 1]
    ensures |served'| == |served| + if serves then 1 else 0
  {
    if serves {
      anchors', served' := [since] + anchors, [0] + Shifted(served, 1);
      assert first == [first[0]];
      WindowsGrow(fires, expr, jobs, anchors, served, since, first[0]);
    } else {
      anchors', served' := anchors, Shifted(served, |first|);
      WindowsShift(fires, expr, jobs, anchors, served, first);
    }
  }

  lemma {:induction false} AnchorsIncrease(
      fires: Fires, expr: string, jobs: seq<NewJob>, anchors: seq<int>, served: seq<nat>, i: nat, j: nat)
    requires OneJobPerWindow(fires, expr, jobs, anchors, served) && i <= j < |anchors|
    ensures anchors[i] <= anchors[j] && (i < j ==> anchors[i] < anchors[j])
  {
    if i < j {
      assert Served(fires, expr, anchors[j - 1], anchors[j], jobs, served[j - 1]);
      AnchorsIncrease(fires, expr, jobs, anchors, served, i, j - 1);
    }
  }

  lemma {:induction false} RunMakesWindows(
      croner: Croner, fires: Fires, db: Db, ticks: seq<TickRun>, id: DefId, since: int)
    returns (jobs: seq<NewJob>, anchors: seq<int>, served: seq<nat>)
    requires SoundRun(croner, db, ticks) && id in db.definitions
    requires var d := db.definitions[id]; NamesLeast(croner, fires, d.cronExpression) && Anchored(fires, d, since)
    ensures var expr := db.definitions[id].cronExpression;
            && JobsOf(RunTicks(croner, db, ticks).jobs, id) == JobsOf(db.jobs, id) + jobs
            && OneJobPerWindow(fires, expr, jobs, anchors, served) && anchors[0] == since
            && |jobs| == |served| + FailedUpdates(ticks, id)
            && forall k | 0 <= k < |ticks| && !CreateFails(ticks[k], id) && !UpdateFails(ticks[k], id) ::
                 !FiresIn(fires, expr, anchors[|anchors| - 1], ticks[k].now)
    decreases |ticks|
  {
    if ticks == [] {
      jobs, anchors, served := [], [since], [];
    } else {
      var t, expr := ticks[0], db.definitions[id].cronExpression;
      var db1, next := After(croner, db, t), Anchor(t, id, since);
      var first := TickCreatesIffFired(croner, fires, db, t, id, since);
      var later, rest, ks := RunMakesWindows(croner, fires, db1, ticks[1..], id, next);
      jobs := first + later;
      anchors, served := WindowsExtend(fires, expr, later, rest, ks, since, first, first != [] && !UpdateFails(t, id));
      AnchorsIncrease(fires, expr, later, rest, ks, 0, |rest| - 1);
      NotMissed(fires, expr, t, id, since, next, rest[|rest| - 1]);
    }
  }

  // After a tick without a failure nothing up to its query is left to be served.
  lemma {:induction false} NotMissed(
      fires: Fires, expr: string, t: TickRun, id: DefId, since: int, next: int, last: int)
    requires id in t.due <==> FiresIn(fires, expr, since, t.now)
    requires next == Anchor(t, id, since) && next <= last && (next == since || t.now <= next)
    requires id in t.due ==> id in t.passes && t.now <= t.passes[id].computedAt
    ensures !CreateFails(t, id) && !UpdateFails(t, id) ==> !FiresIn(fires, expr, last, t.now)
  {
  }

  // Over any run of serialized ticks, whichever writes throw, no occurrence is lost and none is
  // served twice: each one up to the query of any tick that had no failure for the definition lies
  // in one window, whose job is created at or after it. The new jobs are one for each window, and
  // one more for each update that failed after its job was created.
  lemma {:induction false} NoOccurrenceIsLost(
      croner: Croner, fires: Fires, db: Db, ticks: seq<TickRun>, id: DefId, since: int)
    returns (jobs: seq<NewJob>, anchors: seq<int>, served: seq<nat>)
    requires SoundRun(croner, db, ticks) && id in db.definitions
    requires var d := db.definitions[id]; NamesLeast(croner, fires, d.cronExpression) && Anchored(fires, d, since)
    ensures JobsOf(RunTicks(croner, db, ticks).jobs, id) == JobsOf(db.jobs, id) + jobs
    ensures OneJobPerWindow(fires, db.definitions[id].cronExpression, jobs, anchors, served) && anchors[0] == since
    ensures |jobs| == |served| + FailedUpdates(ticks, id)
    ensures forall k, f | 0 <= k < |ticks| && !CreateFails(ticks[k], id) && !UpdateFails(ticks[k], id)
                && since < f <= ticks[k].now && fires(db.definitions[id].cronExpression, f) ::
              exists i | 0 <= i < |anchors| - 1 :: OnlyWindow(anchors, i, f)
  {
    var expr := db.definitions[id].cronExpression;
    jobs, anchors, served := RunMakesWindows(croner, fires, db, ticks, id, since);
    forall k, f | 0 <= k < |ticks| && !CreateFails(ticks[k], id) && !UpdateFails(ticks[k], id)
        && since < f <= ticks[k].now && fires(expr, f)
      ensures exists i | 0 <= i < |anchors| - 1 :: OnlyWindow(anchors, i, f)
    {
      assert f <= anchors[|anchors| - 1];
      var i := WindowOf(anchors, f);
      forall j | 0 <= j < |anchors| - 1 && InWindow(anchors, j, f) ensures i == j {
        if i < j { AnchorsIncrease(fires, expr, jobs, anchors, served, i + 1, j); }
        if j < i { AnchorsIncrease(fires, expr, jobs, anchors, served, j + 1, i); }
      }
      assert OnlyWindow(anchors, i, f);
    }
  }

  ghost predicate OnlyWindow(anchors: seq<int>, i: nat, f: int)
    requires i + 1 < |anchors|
  {
    InWindow(anchors, i, f) && forall j | 0 <= j < |anchors| - 1 && InWindow(anchors, j, f) :: i == j
  }

  predicate InWindow(anchors: seq<int>, i: nat, f: int)
    requires i + 1 < |anchors|
  {
    anchors[i] < f <= anchors[i + 1]
  }

  lemma {:induction false} WindowOf(anchors: seq<int>, f: int) returns (i: nat)
    requires |anchors| > 0 && anchors[0] < f <= anchors[|anchors| - 1]
    ensures i + 1 < |anchors| && InWindow(anchors, i, f)
  {
    i := 0;
    while f > anchors[i + 1]
      invariant i + 1 < |anchors| && anchors[i] < f
      decreases |anchors| - i
    {
      i := i + 1;
    }
  }
}
