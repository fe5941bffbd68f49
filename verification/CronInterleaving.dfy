// Ticks that overlap: the timer starts the next tick whether or not the last one is done, and
// every worker process runs its own.
module CronInterleaving {
  import opened Wrappers
  import opened CronScheduler

  // One tick in progress: the rows it read, how often each definition had been advanced by then, its
  // position in the rows, the next run it has computed when it is between the insert and the
  // update, and the origins of the jobs it has created.
  datatype TickProc = TickProc(
    due: seq<DefId>,
    read: map<DefId, Definition>,
    seen: multiset<DefId>,
    position: nat,
    pending: Option<int>,
    made: multiset<DefId>)

  // `created` holds the origin of every job row; `updates` and `lost` count, by definition, the
  // updates of its next run, and the passes that failed or died between insert and update.
  datatype State = State(
    definitions: map<DefId, Definition>,
    procs: seq<TickProc>,
    created: multiset<DefId>,
    updates: multiset<DefId>,
    lost: multiset<DefId>)

  datatype Step =
    | Begin(now: int, due: seq<DefId>)
    | Skip(p: nat)
    | Deactivate(p: nat, computedAt: int)
    | Create(p: nat, computedAt: int)
    | Update(p: nat, now: int)
    | Fail(p: nat)
    | Crash(p: nat)
    | Edit(id: DefId, d: Definition)

  predicate AtRow(s: State, p: nat) {
    p < |s.procs| && s.procs[p].position < |s.procs[p].due|
  }

  predicate Fresh(s: State, p: nat) {
    AtRow(s, p) && s.procs[p].pending.None? && s.procs[p].due[s.procs[p].position] in s.procs[p].read
  }

  function Row(t: TickProc): DefId
    requires t.position < |t.due|
  {
    t.due[t.position]
  }

  ghost predicate Enabled(croner: Croner, s: State, step: Step) {
    match step
    case Begin(now, due) => DueList(s.definitions, now, due)
    // An invalid template, a rejected expression, or a write that throws before anything is stored.
    case Skip(p) => Fresh(s, p)
    case Deactivate(p, at) =>
      Fresh(s, p) && IsJobTemplate(s.procs[p].read[Row(s.procs[p])].jobTemplate)
      && croner(s.procs[p].read[Row(s.procs[p])].cronExpression, at).Exhausted?
    case Create(p, at) =>
      Fresh(s, p) && IsJobTemplate(s.procs[p].read[Row(s.procs[p])].jobTemplate)
      && croner(s.procs[p].read[Row(s.procs[p])].cronExpression, at).At?
    case Update(p, now) => AtRow(s, p) && s.procs[p].pending.Some? && Row(s.procs[p]) in s.definitions
    case Fail(p) => AtRow(s, p) && s.procs[p].pending.Some?
    case Crash(p) => AtRow(s, p)
    case Edit(id, d) => true
  }

  function Next(t: TickProc): TickProc { t.(position := t.position + 1, pending := None) }

  function Apply(croner: Croner, s: State, step: Step): State
    requires Enabled(croner, s, step)
  {
    match step
    case Begin(now, due) =>
      s.(procs := s.procs + [TickProc(due, s.definitions, s.updates, 0, None, multiset{})])
    case Skip(p) => s.(procs := s.procs[p := Next(s.procs[p])])
    case Deactivate(p, at) =>
      var id := Row(s.procs[p]);
      s.(procs := s.procs[p := Next(s.procs[p])],
         definitions := if id in s.definitions then s.definitions[id := s.definitions[id].(isActive := false)]
                        else s.definitions)
    case Create(p, at) =>
      var t := s.procs[p];
      var next := croner(t.read[Row(t)].cronExpression, at).at;
      s.(procs := s.procs[p := t.(pending := Some(next), made := t.made + multiset{Row(t)})],
         created := s.created + multiset{Row(t)})
    case Update(p, now) =>
      var t := s.procs[p];
      var d := s.definitions[Row(t)].(lastRunAt := Some(now), nextRunAt := t.pending);
      s.(procs := s.procs[p := Next(t)],
         definitions := s.definitions[Row(t) := d],
         updates := s.updates + multiset{Row(t)})
    case Fail(p) =>
      s.(procs := s.procs[p := Next(s.procs[p])], lost := s.lost + multiset{Row(s.procs[p])})
    case Crash(p) =>
      var t := s.procs[p];
      s.(procs := s.procs[p := t.(position := |t.due|, pending := None)],
         lost := if t.pending.Some? then s.lost + multiset{Row(t)} else s.lost)
    case Edit(id, d) => s.(definitions := s.definitions[id := d])
  }

  ghost predicate IsRun(croner: Croner, s: State, steps: seq<Step>)
    decreases |steps|
  {
    |steps| > 0 ==> Enabled(croner, s, steps[0]) && IsRun(croner, Apply(croner, s, steps[0]), steps[1..])
  }

  ghost function Exec(croner: Croner, s: State, steps: seq<Step>): State
    requires IsRun(croner, s, steps)
    decreases |steps|
  {
    if |steps| == 0 then s else Exec(croner, Apply(croner, s, steps[0]), steps[1..])
  }

  ghost predicate Init(s: State) {
    s.procs == [] && s.created == s.updates == s.lost == multiset{}
  }

  // ----- Every update is paid for by a job -----

  function IsInside(t: TickProc, id: DefId): nat {
    if t.pending.Some? && t.position < |t.due| && t.due[t.position] == id then 1 else 0
  }

  // How many ticks stand between creating a job for `id` and updating it.
  function Inside(procs: seq<TickProc>, id: DefId): nat {
    if |procs| == 0 then 0 else IsInside(procs[0], id) + Inside(procs[1..], id)
  }

  lemma {:induction false} InsideUpdate(procs: seq<TickProc>, p: nat, t: TickProc, id: DefId)
    requires p < |procs|
    ensures Inside(procs[p := t], id) == Inside(procs, id) - IsInside(procs[p], id) + IsInside(t, id)
  {
    if p > 0 {
      InsideUpdate(procs[1..], p - 1, t, id);
      assert procs[p := t][1..] == procs[1..][p - 1 := t];
    } else {
      assert procs[p := t][1..] == procs[1..];
    }
  }

  lemma {:induction false} InsideAppend(procs: seq<TickProc>, t: TickProc, id: DefId)
    ensures Inside(procs + [t], id) == Inside(procs, id) + IsInside(t, id)
  {
    if |procs| > 0 {
      InsideAppend(procs[1..], t, id);
      assert (procs + [t])[1..] == procs[1..] + [t];
    } else {
      assert procs + [t] == [t] && [t][1..] == [];
    }
  }

  // The jobs that the ticks have made for `id`.
  function Made(procs: seq<TickProc>, id: DefId): nat {
    if |procs| == 0 then 0 else procs[0].made[id] + Made(procs[1..], id)
  }

  lemma {:induction false} MadeUpdate(procs: seq<TickProc>, p: nat, t: TickProc, id: DefId)
    requires p < |procs|
    ensures Made(procs[p := t], id) == Made(procs, id) - procs[p].made[id] + t.made[id]
  {
    if p == 0 {
      assert procs[p := t][1..] == procs[1..];
    } else {
      MadeUpdate(procs[1..], p - 1, t, id);
      assert procs[p := t][1..] == procs[1..][p - 1 := t];
    }
  }

  lemma {:induction false} MadeAppend(procs: seq<TickProc>, t: TickProc, id: DefId)
    ensures Made(procs + [t], id) == Made(procs, id) + t.made[id]
  {
    if procs == [] {
      assert procs + [t] == [t] && [t][1..] == [];
    } else {
      MadeAppend(procs[1..], t, id);
      assert (procs + [t])[1..] == procs[1..] + [t];
    }
  }

  ghost predicate Balanced(s: State, id: DefId) {
    && s.created[id] == s.updates[id] + Inside(s.procs, id) + s.lost[id]
    && s.created[id] == Made(s.procs, id)
  }

  // A tick has made at most one job for a definition, and none for rows it has not reached.
  ghost predicate ProcOk(t: TickProc) {
    && (forall i, j | 0 <= i < j < |t.due| :: t.due[i] != t.due[j])
    && (forall id :: t.made[id] <= 1)
    && (t.pending.Some? ==> t.position < |t.due|)
    && (forall k | t.position <= k < |t.due| ::
          t.made[t.due[k]] == if k == t.position && t.pending.Some? then 1 else 0)
  }

  ghost predicate ProcsOk(s: State) {
    forall p | 0 <= p < |s.procs| :: ProcOk(s.procs[p])
  }

  lemma {:induction false} BalanceStep(croner: Croner, s: State, step: Step, id: DefId)
    requires Balanced(s, id) && ProcsOk(s) && Enabled(croner, s, step)
    ensures Balanced(Apply(croner, s, step), id)
  {
    var s' := Apply(croner, s, step);
    if step.Begin? {
      InsideAppend(s.procs, s'.procs[|s.procs|], id);
      MadeAppend(s.procs, s'.procs[|s.procs|], id);
    } else if !step.Edit? {
      assert ProcOk(s.procs[step.p]);
      InsideUpdate(s.procs, step.p, s'.procs[step.p], id);
      MadeUpdate(s.procs, step.p, s'.procs[step.p], id);
    }
  }

  lemma {:induction false} ProcsStep(croner: Croner, s: State, step: Step)
    requires ProcsOk(s) && Enabled(croner, s, step)
    ensures ProcsOk(Apply(croner, s, step))
  {
    if !step.Begin? && !step.Edit? {
      var t := s.procs[step.p];
      assert ProcOk(t);
      assert ProcOk(Apply(croner, s, step).procs[step.p]);
    }
  }

  // In every interleaving of ticks, with failures and crashes anywhere, the jobs created for a
  // definition are its next-run updates, plus the ticks now between insert and update, plus those
  // that failed or died there; so no update is without its job. They are also the jobs that the
  // single ticks have made, and no tick, however it ends, has made two for one definition.
  lemma {:induction false} EveryUpdateIsPaidFor(croner: Croner, s: State, steps: seq<Step>, id: DefId)
    requires ProcsOk(s) && Balanced(s, id) && IsRun(croner, s, steps)
    ensures var s' := Exec(croner, s, steps);
            && s'.created[id] == s'.updates[id] + Inside(s'.procs, id) + s'.lost[id]
            && s'.created[id] == Made(s'.procs, id)
            && forall p | 0 <= p < |s'.procs| :: s'.procs[p].made[id] <= 1
    decreases |steps|
  {
    if |steps| > 0 {
      BalanceStep(croner, s, steps[0], id);
      ProcsStep(croner, s, steps[0]);
      EveryUpdateIsPaidFor(croner, Apply(croner, s, steps[0]), steps[1..], id);
    } else {
      forall p | 0 <= p < |s.procs| ensures s.procs[p].made[id] <= 1 {
        assert ProcOk(s.procs[p]);
      }
    }
  }

  lemma {:induction false} InitIsBalanced(s: State, id: DefId)
    requires Init(s)
    ensures ProcsOk(s) && Balanced(s, id)
  {
  }

  // ----- A tick that nothing interrupts does what the loop does -----

  function Origins(jobs: seq<NewJob>): multiset<DefId> {
    if |jobs| == 0 then multiset{} else Origins(jobs[..|jobs| - 1]) + multiset{jobs[|jobs| - 1].origin}
  }

  // State and tables agree, and tick p is about to take its next row.
  ghost predicate InStep(s: State, p: nat, db: Db, due: seq<DefId>, read: map<DefId, Definition>, k: nat) {
    && s.definitions == db.definitions && s.created == Origins(db.jobs)
    && p < |s.procs| && s.procs[p].due == due && s.procs[p].read == read
    && s.procs[p].position == k && s.procs[p].pending.None?
  }

  lemma {:induction false} OneStep(croner: Croner, s: State, step: Step)
    requires Enabled(croner, s, step)
    ensures IsRun(croner, s, [step]) && Exec(croner, s, [step]) == Apply(croner, s, step)
  {
  }

  lemma {:induction false} RunAppend(croner: Croner, s: State, a: seq<Step>, b: seq<Step>)
    requires IsRun(croner, s, a) && IsRun(croner, Exec(croner, s, a), b)
    ensures IsRun(croner, s, a + b) && Exec(croner, s, a + b) == Exec(croner, Exec(croner, s, a), b)
    decreases |a|
  {
    if |a| == 0 {
      assert a + b == b;
    } else {
      RunAppend(croner, Apply(croner, s, a[0]), a[1..], b);
      assert (a + b)[1..] == a[1..] + b;
    }
  }

  // The pass that creates a job: an insert, then the update or its failure.
  lemma {:induction false} CreateAsSteps(
      croner: Croner, s: State, p: nat, db: Db, due: seq<DefId>, read: map<DefId, Definition>, k: nat, pass: Pass)
    returns (create: Step, close: Step)
    requires k < |due| && due[k] in read && InStep(s, p, db, due, read, k)
    requires var d := read[due[k]];
             IsJobTemplate(d.jobTemplate) && croner(d.cronExpression, pass.computedAt).At? && !pass.createThrows
    ensures Enabled(croner, s, create) && Enabled(croner, Apply(croner, s, create), close)
    ensures InStep(Apply(croner, Apply(croner, s, create), close), p,
                   Materialize(croner, db, due[k], read[due[k]], pass), due, read, k + 1)
  {
    create := Create(p, pass.computedAt);
    close := if pass.updateThrows || due[k] !in db.definitions then Fail(p) else Update(p, pass.updatedAt);
    OriginsStep(db.jobs, JobFrom(due[k], read[due[k]], pass.createdAt));
  }

  lemma {:induction false} OriginsStep(jobs: seq<NewJob>, job: NewJob)
    ensures Origins(jobs + [job]) == Origins(jobs) + multiset{job.origin}
  {
  }

  // The pass that creates none: one step.
  lemma {:induction false} SkipAsStep(
      croner: Croner, s: State, p: nat, db: Db, due: seq<DefId>, read: map<DefId, Definition>, k: nat, pass: Pass)
    returns (step: Step)
    requires k < |due| && due[k] in read && InStep(s, p, db, due, read, k)
    requires var d := read[due[k]];
             !(IsJobTemplate(d.jobTemplate) && croner(d.cronExpression, pass.computedAt).At? && !pass.createThrows)
    ensures Enabled(croner, s, step)
    ensures InStep(Apply(croner, s, step), p, Materialize(croner, db, due[k], read[due[k]], pass), due, read, k + 1)
  {
    var id, d := due[k], read[due[k]];
    var deactivates := IsJobTemplate(d.jobTemplate) && croner(d.cronExpression, pass.computedAt).Exhausted?
                       && !pass.updateThrows && id in db.definitions;
    step := if deactivates then Deactivate(p, pass.computedAt) else Skip(p);
  }

  lemma {:induction false} PassAsSteps(
      croner: Croner, s: State, p: nat, db: Db, due: seq<DefId>, read: map<DefId, Definition>, k: nat, pass: Pass)
    returns (steps: seq<Step>)
    requires k < |due| && due[k] in read && InStep(s, p, db, due, read, k)
    ensures IsRun(croner, s, steps)
    ensures InStep(Exec(croner, s, steps), p, Materialize(croner, db, due[k], read[due[k]], pass), due, read, k + 1)
  {
    var d := read[due[k]];
    if IsJobTemplate(d.jobTemplate) && croner(d.cronExpression, pass.computedAt).At? && !pass.createThrows {
      var create, close := CreateAsSteps(croner, s, p, db, due, read, k, pass);
      OneStep(croner, s, create);
      OneStep(croner, Apply(croner, s, create), close);
      RunAppend(croner, s, [create], [close]);
      steps := [create] + [close];
    } else {
      var step := SkipAsStep(croner, s, p, db, due, read, k, pass);
      OneStep(croner, s, step);
      steps := [step];
    }
  }

  lemma {:induction false} TickAsSteps(
      croner: Croner, s: State, p: nat, db: Db, due: seq<DefId>, read: map<DefId, Definition>, k: nat,
      passes: map<DefId, Pass>)
    returns (steps: seq<Step>)
    requires k <= |due| && (forall id | id in due :: id in read && id in passes)
    requires InStep(s, p, db, due, read, k)
    requires forall id | id in due[k..] :: id in read && id in passes
    ensures IsRun(croner, s, steps)
    ensures InStep(Exec(croner, s, steps), p, Tick(croner, read, db, due[k..], passes), due, read, |due|)
    decreases |due| - k
  {
    if k == |due| {
      steps := [];
    } else {
      var first := PassAsSteps(croner, s, p, db, due, read, k, passes[due[k]]);
      var db1 := Materialize(croner, db, due[k], read[due[k]], passes[due[k]]);
      assert due[k..][1..] == due[k + 1..];
      assert forall id | id in due[k + 1..] :: id in due;
      var rest := TickAsSteps(croner, Exec(croner, s, first), p, db1, due, read, k + 1, passes);
      RunAppend(croner, s, first, rest);
      steps := first + rest;
    }
  }

  // Run alone from its query to its last row, a tick leaves exactly the definitions and the jobs
  // of the sequential loop.
  lemma {:induction false} LoneTickIsTheLoop(
      croner: Croner, s: State, db: Db, now: int, due: seq<DefId>, passes: map<DefId, Pass>)
    returns (steps: seq<Step>)
    requires s.definitions == db.definitions && s.created == Origins(db.jobs)
    requires DueList(db.definitions, now, due) && forall id | id in due :: id in passes
    ensures IsRun(croner, s, steps)
    ensures var s', db' := Exec(croner, s, steps), Tick(croner, db.definitions, db, due, passes);
            s'.definitions == db'.definitions && s'.created == Origins(db'.jobs)
  {
    var begin := Begin(now, due);
    var s1 := Apply(croner, s, begin);
    OneStep(croner, s, begin);
    assert due[0..] == due;
    var rest := TickAsSteps(croner, s1, |s.procs|, db, due, db.definitions, 0, passes);
    RunAppend(croner, s, [begin], rest);
    steps := [begin] + rest;
  }
}
