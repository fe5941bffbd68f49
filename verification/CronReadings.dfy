// How many jobs one due run of a definition yields when ticks overlap and passes fail.
module CronReadings {
  import opened Wrappers
  import opened CronScheduler
  import opened CronInterleaving

  // ----- Totals over ticks -----

  function Total(procs: seq<TickProc>, f: TickProc -> nat): nat {
    if |procs| == 0 then 0 else f(procs[0]) + Total(procs[1..], f)
  }

  lemma {:induction false} TotalUpdate(procs: seq<TickProc>, p: nat, t: TickProc, f: TickProc -> nat)
    requires p < |procs|
    ensures Total(procs[p := t], f) == Total(procs, f) - f(procs[p]) + f(t)
  {
    if p == 0 {
      assert procs[p := t][1..] == procs[1..];
    } else {
      TotalUpdate(procs[1..], p - 1, t, f);
      assert procs[p := t][1..] == procs[1..][p - 1 := t];
    }
  }

  lemma {:induction false} TotalAppend(procs: seq<TickProc>, t: TickProc, f: TickProc -> nat)
    ensures Total(procs + [t], f) == Total(procs, f) + f(t)
  {
    if procs == [] {
      assert procs + [t] == [t] && [t][1..] == [];
    } else {
      TotalAppend(procs[1..], t, f);
      assert (procs + [t])[1..] == procs[1..] + [t];
    }
  }

  lemma {:induction false} TotalsAdd(procs: seq<TickProc>, f: TickProc -> nat, g: TickProc -> nat, h: TickProc -> nat)
    requires forall t | t in procs :: f(t) + g(t) <= h(t)
    ensures Total(procs, f) + Total(procs, g) <= Total(procs, h)
  {
    if procs == [] {
    } else {
      TotalsAdd(procs[1..], f, g, h);
    }
  }

  // ----- Readings -----

  // The ticks that read the definition between its v-th and its next advance all read the same due
  // run. `MadeFor` counts the jobs they have made, `InsideFor` those between insert and update, and
  // `CanMake` those that may still make one.
  function MadeFor(id: DefId, v: nat): TickProc -> nat {
    (t: TickProc) => if t.seen[id] == v then t.made[id] else 0
  }

  function InsideFor(id: DefId, v: nat): TickProc -> nat {
    (t: TickProc) => if t.seen[id] == v then IsInside(t, id) else 0
  }

  function CanMake(id: DefId, v: nat): TickProc -> nat {
    (t: TickProc) => if t.seen[id] == v && t.made[id] == 0 then IsOpen(t) else 0
  }

  // A tick is open while it has rows left to process.
  function IsOpen(t: TickProc): nat { if t.position < |t.due| then 1 else 0 }

  function JobsOfReading(s: State, id: DefId, v: nat): nat { Total(s.procs, MadeFor(id, v)) }

  function OpenTicks(s: State): nat { Total(s.procs, IsOpen) }

  // At every state of the run at most `overlap` ticks are open.
  ghost predicate OverlapAtMost(croner: Croner, s: State, steps: seq<Step>, overlap: nat)
    requires IsRun(croner, s, steps)
    decreases |steps|
  {
    && OpenTicks(s) <= overlap
    && (|steps| > 0 ==> OverlapAtMost(croner, Apply(croner, s, steps[0]), steps[1..], overlap))
  }

  // ----- The bound -----

  // Until the reading's first update every job it has made is inside or lost; from then on no tick
  // joins the reading, and the open ticks that have not made their job bound what is to come.
  ghost predicate ReadingOk(s: State, id: DefId, v: nat, overlap: nat) {
    && (forall p | 0 <= p < |s.procs| :: s.procs[p].seen[id] <= s.updates[id])
    && (if s.updates[id] <= v then JobsOfReading(s, id, v) <= Total(s.procs, InsideFor(id, v)) + s.lost[id]
        else JobsOfReading(s, id, v) + Total(s.procs, CanMake(id, v)) <= overlap + s.lost[id])
  }

  lemma {:induction false} InsideOrCanMake(s: State, id: DefId, v: nat)
    requires ProcsOk(s)
    ensures Total(s.procs, InsideFor(id, v)) + Total(s.procs, CanMake(id, v)) <= OpenTicks(s)
  {
    forall t | t in s.procs ensures InsideFor(id, v)(t) + CanMake(id, v)(t) <= IsOpen(t) {
      assert ProcOk(t);
    }
    TotalsAdd(s.procs, InsideFor(id, v), CanMake(id, v), IsOpen);
  }

  lemma {:induction false} BeginKeepsReading(croner: Croner, s: State, step: Step, id: DefId, v: nat, overlap: nat)
    requires ProcsOk(s) && ReadingOk(s, id, v, overlap) && step.Begin? && Enabled(croner, s, step)
    ensures ReadingOk(Apply(croner, s, step), id, v, overlap)
  {
    var s' := Apply(croner, s, step);
    var t := s'.procs[|s.procs|];
    TotalAppend(s.procs, t, MadeFor(id, v));
    TotalAppend(s.procs, t, InsideFor(id, v));
    TotalAppend(s.procs, t, CanMake(id, v));
  }

  // What one step of the tick at position p changes about the reading.
  ghost predicate Shares(s: State, s': State, p: nat, id: DefId, v: nat)
    requires p < |s.procs|
  {
    && |s'.procs| == |s.procs| && s'.procs == s.procs[p := s'.procs[p]]
    && s'.procs[p].seen == s.procs[p].seen
    && s.lost[id] <= s'.lost[id] && s.updates[id] <= s'.updates[id] <= s.updates[id] + 1
    && var t, t' := s.procs[p], s'.procs[p];
       var made, made' := MadeFor(id, v)(t), MadeFor(id, v)(t');
       && made' + CanMake(id, v)(t') + s.lost[id] <= made + CanMake(id, v)(t) + s'.lost[id]
       && (t.seen[id] != v || s'.updates[id] == s.updates[id] ==>
             made' + InsideFor(id, v)(t) + s.lost[id] <= made + InsideFor(id, v)(t') + s'.lost[id])
  }

  lemma {:induction false} TickShares(croner: Croner, s: State, step: Step, id: DefId, v: nat)
    requires ProcsOk(s) && !step.Begin? && !step.Edit? && Enabled(croner, s, step)
    ensures Shares(s, Apply(croner, s, step), step.p, id, v)
  {
    assert ProcOk(s.procs[step.p]);
  }

  lemma {:induction false} SharesKeepReading(s: State, s': State, p: nat, id: DefId, v: nat, overlap: nat)
    requires ProcsOk(s) && ReadingOk(s, id, v, overlap) && OpenTicks(s) <= overlap
    requires p < |s.procs| && Shares(s, s', p, id, v)
    ensures ReadingOk(s', id, v, overlap)
  {
    var t' := s'.procs[p];
    TotalUpdate(s.procs, p, t', MadeFor(id, v));
    TotalUpdate(s.procs, p, t', InsideFor(id, v));
    TotalUpdate(s.procs, p, t', CanMake(id, v));
    InsideOrCanMake(s, id, v);
  }

  // Whatever interleaves, fails or crashes, the jobs made from one due run are at most the ticks that
  // may be open at once, and one more for each failed pass.
  lemma {:induction false} JobsPerReading(
      croner: Croner, s: State, steps: seq<Step>, id: DefId, v: nat, overlap: nat)
    requires ProcsOk(s) && ReadingOk(s, id, v, overlap)
    requires IsRun(croner, s, steps) && OverlapAtMost(croner, s, steps, overlap)
    ensures var s' := Exec(croner, s, steps); JobsOfReading(s', id, v) <= overlap + s'.lost[id]
    decreases |steps|
  {
    if steps == [] {
      InsideOrCanMake(s, id, v);
    } else {
      var s1 := Apply(croner, s, steps[0]);
      ProcsStep(croner, s, steps[0]);
      if steps[0].Begin? {
        BeginKeepsReading(croner, s, steps[0], id, v, overlap);
      } else if !steps[0].Edit? {
        TickShares(croner, s, steps[0], id, v);
        SharesKeepReading(s, s1, steps[0].p, id, v, overlap);
      }
      JobsPerReading(croner, s1, steps[1..], id, v, overlap);
    }
  }

  // ----- The bound is reached -----

  lemma {:induction false} RunCons(croner: Croner, s: State, step: Step, rest: seq<Step>, overlap: nat)
    requires Enabled(croner, s, step) && IsRun(croner, Apply(croner, s, step), rest)
    requires OpenTicks(s) <= overlap && OverlapAtMost(croner, Apply(croner, s, step), rest, overlap)
    ensures IsRun(croner, s, [step] + rest)
    ensures Exec(croner, s, [step] + rest) == Exec(croner, Apply(croner, s, step), rest)
    ensures OverlapAtMost(croner, s, [step] + rest, overlap)
  {
    assert ([step] + rest)[1..] == rest;
  }

  // Ticks over one due definition, none of which has advanced it: `failed` made a job and then
  // failed, and of `begun` open ones the first `made` have made a job.
  ghost predicate Staged(s: State, id: DefId, d: Definition, next: int, failed: nat, begun: nat, made: nat) {
    && s.definitions == map[id := d] && s.updates == multiset{} && made <= begun && |s.procs| == failed + begun
    && (forall p | 0 <= p < |s.procs| :: s.procs[p] == StagedTick(id, d, next, failed, made, p))
    && s.lost[id] == failed && OpenTicks(s) == begun && JobsOfReading(s, id, 0) == failed + made
  }

  function StagedTick(id: DefId, d: Definition, next: int, failed: nat, made: nat, p: nat): TickProc {
    if p < failed then TickProc([id], map[id := d], multiset{}, 1, None, multiset{id})
    else if p < failed + made then TickProc([id], map[id := d], multiset{}, 0, Some(next), multiset{id})
    else TickProc([id], map[id := d], multiset{}, 0, None, multiset{})
  }

  lemma {:induction false} StagedBegin(
      croner: Croner, s: State, id: DefId, d: Definition, next: int, now: int, failed: nat, begun: nat)
    returns (s': State)
    requires Staged(s, id, d, next, failed, begun, 0) && IsDue(d, now)
    ensures Enabled(croner, s, Begin(now, [id])) && s' == Apply(croner, s, Begin(now, [id]))
    ensures Staged(s', id, d, next, failed, begun + 1, 0)
  {
    s' := Apply(croner, s, Begin(now, [id]));
    var t := StagedTick(id, d, next, failed, 0, failed + begun);
    TotalAppend(s.procs, t, MadeFor(id, 0));
    TotalAppend(s.procs, t, IsOpen);
  }

  lemma {:induction false} StagedShare(id: DefId, d: Definition, next: int, failed: nat, made: nat, p: nat)
    ensures var t := StagedTick(id, d, next, failed, made, p);
            && MadeFor(id, 0)(t) == (if p < failed + made then 1 else 0)
            && IsOpen(t) == (if p < failed then 0 else 1)
  {
  }

  lemma {:induction false} StagedMade(
      s: State, s': State, id: DefId, d: Definition, next: int, failed: nat, begun: nat, made: nat)
    requires Staged(s, id, d, next, failed, begun, made) && made < begun
    requires s'.procs == s.procs[failed + made := StagedTick(id, d, next, failed, made + 1, failed + made)]
    requires s'.definitions == s.definitions && s'.updates == s.updates && s'.lost == s.lost
    ensures Staged(s', id, d, next, failed, begun, made + 1)
  {
    var p := failed + made;
    StagedShare(id, d, next, failed, made, p);
    StagedShare(id, d, next, failed, made + 1, p);
    TotalUpdate(s.procs, p, s'.procs[p], MadeFor(id, 0));
    TotalUpdate(s.procs, p, s'.procs[p], IsOpen);
    forall k | 0 <= k < |s'.procs| ensures s'.procs[k] == StagedTick(id, d, next, failed, made + 1, k) {
      assert k != p ==> s'.procs[k] == s.procs[k];
    }
  }

  lemma {:induction false} StagedCreate(
      croner: Croner, s: State, id: DefId, d: Definition, at: int, failed: nat, begun: nat, made: nat)
    returns (s': State)
    requires IsJobTemplate(d.jobTemplate) && croner(d.cronExpression, at).At? && made < begun
    requires Staged(s, id, d, croner(d.cronExpression, at).at, failed, begun, made)
    ensures Enabled(croner, s, Create(failed + made, at)) && s' == Apply(croner, s, Create(failed + made, at))
    ensures Staged(s', id, d, croner(d.cronExpression, at).at, failed, begun, made + 1)
  {
    var next := croner(d.cronExpression, at).at;
    var t := s.procs[failed + made];
    assert t == TickProc([id], map[id := d], multiset{}, 0, None, multiset{});
    s' := Apply(croner, s, Create(failed + made, at));
    assert s'.procs[failed + made].made == multiset{id};
    StagedMade(s, s', id, d, next, failed, begun, made);
  }

  lemma {:induction false} StagedFail(croner: Croner, s: State, id: DefId, d: Definition, next: int, failed: nat)
    returns (s': State)
    requires Staged(s, id, d, next, failed, 1, 1)
    ensures Enabled(croner, s, Fail(failed)) && s' == Apply(croner, s, Fail(failed))
    ensures Staged(s', id, d, next, failed + 1, 0, 0)
  {
    s' := Apply(croner, s, Fail(failed));
    var t := StagedTick(id, d, next, failed + 1, 0, failed);
    TotalUpdate(s.procs, failed, t, MadeFor(id, 0));
    TotalUpdate(s.procs, failed, t, IsOpen);
  }

  // `overlap` ticks begin, and then each of them makes a job.
  lemma {:induction false} StagedRace(
      croner: Croner, s: State, id: DefId, d: Definition, now: int, at: int, overlap: nat,
      failed: nat, begun: nat, made: nat)
    returns (steps: seq<Step>)
    requires IsDue(d, now) && IsJobTemplate(d.jobTemplate) && croner(d.cronExpression, at).At?
    requires Staged(s, id, d, croner(d.cronExpression, at).at, failed, begun, made)
    requires begun <= overlap && (made > 0 ==> begun == overlap)
    ensures IsRun(croner, s, steps) && OverlapAtMost(croner, s, steps, overlap)
    ensures Staged(Exec(croner, s, steps), id, d, croner(d.cronExpression, at).at, failed, overlap, overlap)
    decreases overlap - begun, overlap - made
  {
    if begun < overlap {
      var s' := StagedBegin(croner, s, id, d, croner(d.cronExpression, at).at, now, failed, begun);
      steps := StagedRace(croner, s', id, d, now, at, overlap, failed, begun + 1, made);
      RunCons(croner, s, Begin(now, [id]), steps, overlap);
      steps := [Begin(now, [id])] + steps;
    } else if made < overlap {
      var s' := StagedCreate(croner, s, id, d, at, failed, begun, made);
      steps := StagedRace(croner, s', id, d, now, at, overlap, failed, begun, made + 1);
      RunCons(croner, s, Create(failed + made, at), steps, overlap);
      steps := [Create(failed + made, at)] + steps;
    } else {
      steps := [];
    }
  }

  // First `failures` ticks, one after the other, make a job and fail; then the others race.
  lemma {:induction false} StagedRun(
      croner: Croner, s: State, id: DefId, d: Definition, now: int, at: int, overlap: nat, failures: nat, failed: nat)
    returns (steps: seq<Step>)
    requires IsDue(d, now) && IsJobTemplate(d.jobTemplate) && croner(d.cronExpression, at).At? && overlap > 0
    requires Staged(s, id, d, croner(d.cronExpression, at).at, failed, 0, 0) && failed <= failures
    ensures IsRun(croner, s, steps) && OverlapAtMost(croner, s, steps, overlap)
    ensures Staged(Exec(croner, s, steps), id, d, croner(d.cronExpression, at).at, failures, overlap, overlap)
    decreases failures - failed
  {
    if failed == failures {
      steps := StagedRace(croner, s, id, d, now, at, overlap, failed, 0, 0);
    } else {
      var next := croner(d.cronExpression, at).at;
      var s1 := StagedBegin(croner, s, id, d, next, now, failed, 0);
      var s2 := StagedCreate(croner, s1, id, d, at, failed, 1, 0);
      var s3 := StagedFail(croner, s2, id, d, next, failed);
      steps := StagedRun(croner, s3, id, d, now, at, overlap, failures, failed + 1);
      RunCons(croner, s2, Fail(failed), steps, overlap);
      steps := [Fail(failed)] + steps;
      RunCons(croner, s1, Create(failed, at), steps, overlap);
      RunCons(croner, s, Begin(now, [id]), [Create(failed, at)] + steps, overlap);
      steps := [Begin(now, [id])] + ([Create(failed, at)] + steps);
    }
  }

  // ----- The bound is exact -----

  // With at most `overlap` ticks open at a time and at most `failures` passes that end between insert
  // and update, no due run of the definition yields more than `most` jobs.
  ghost predicate NeverMadeMore(croner: Croner, id: DefId, overlap: nat, failures: nat, most: nat) {
    forall s, steps, v: nat | Init(s) && IsRun(croner, s, steps) && OverlapAtMost(croner, s, steps, overlap)
        && Exec(croner, s, steps).lost[id] <= failures ::
      JobsOfReading(Exec(croner, s, steps), id, v) <= most
  }

  // One due run yields, over all runs, as many jobs as ticks overlap and passes fail, before and
  // after it is advanced. `d` stands for any definition that comes due and can be made.
  lemma {:induction false} JobsPerDueRunIsExact(
      croner: Croner, id: DefId, d: Definition, now: int, at: int, overlap: nat, failures: nat, most: nat)
    requires IsDue(d, now) && IsJobTemplate(d.jobTemplate) && croner(d.cronExpression, at).At? && overlap > 0
    ensures NeverMadeMore(croner, id, overlap, failures, most) <==> overlap + failures <= most
  {
    if overlap + failures <= most {
      forall s, steps, v: nat | Init(s) && IsRun(croner, s, steps) && OverlapAtMost(croner, s, steps, overlap)
          && Exec(croner, s, steps).lost[id] <= failures
        ensures JobsOfReading(Exec(croner, s, steps), id, v) <= most
      {
        JobsPerReading(croner, s, steps, id, v, overlap);
      }
    } else {
      var s := State(map[id := d], [], multiset{}, multiset{}, multiset{});
      var steps := StagedRun(croner, s, id, d, now, at, overlap, failures, 0);
      assert JobsOfReading(Exec(croner, s, steps), id, 0) == overlap + failures;
    }
  }

  // So each due run makes at most one job on all runs exactly when ticks do not overlap and no pass
  // fails after its insert.
  lemma {:induction false} OneJobPerDueRunIff(
      croner: Croner, id: DefId, d: Definition, now: int, at: int, overlap: nat, failures: nat)
    requires IsDue(d, now) && IsJobTemplate(d.jobTemplate) && croner(d.cronExpression, at).At? && overlap > 0
    ensures NeverMadeMore(croner, id, overlap, failures, 1) <==> overlap == 1 && failures == 0
  {
    JobsPerDueRunIsExact(croner, id, d, now, at, overlap, failures, 1);
  }
}
