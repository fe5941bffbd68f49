// The race of the integration test: any number of workers claim from one queue at the same time.
module ClaimRace {
  import opened Wrappers
  import opened ClaimProtocol
  import opened ClaimTheorems

  // As long as nothing puts a job back into `queued`, the ids that all claim calls return together
  // hold no duplicate.
  lemma {:induction false} ClaimsAreDisjoint(limit: string -> nat, s: State, steps: seq<Step>)
    requires Init(s) && IsRun(limit, s, steps)
    requires Exec(limit, s, steps).entered == s.entered
    ensures forall id :: Exec(limit, s, steps).returned[id] <= QueuedOnce(s.jobs, id) <= 1
  {
    InitLocks(s);
    forall id ensures Exec(limit, s, steps).returned[id] <= QueuedOnce(s.jobs, id) {
      ClaimedOncePerEntry(limit, s, steps, id);
    }
  }

  // Claim calls alone, without anything that settles, starts or inserts jobs.
  ghost predicate OnlyClaims(steps: seq<Step>) {
    forall i | 0 <= i < |steps| ::
      steps[i].Count? || steps[i].Lock? || steps[i].Write? || steps[i].Commit? || steps[i].Abort?
  }

  ghost predicate ClaimedAre(before: Table, after: Table, returned: multiset<JobId>) {
    forall id :: (id in after <==> id in before) && (id in before ==>
      (if returned[id] > 0 then before[id].status == Queued && after[id] == before[id].(status := Claimed)
       else after[id] == before[id]))
  }

  lemma {:induction false} ClaimedStep(limit: string -> nat, before: Table, s: State, step: Step)
    requires LocksOk(s) && Enabled(s, step) && OnlyClaims([step]) && ClaimedAre(before, s.jobs, s.returned)
    ensures ClaimedAre(before, Apply(limit, s, step).jobs, Apply(limit, s, step).returned)
  {
    assert [step][0] == step;
    if step.Commit? {
      assert CallOk(s.jobs, s.calls[step.w]);
    }
  }

  // When claim calls alone have run, the rows that changed are those returned, each from queued to
  // claimed.
  lemma {:induction false} ReturnedAreClaimed(limit: string -> nat, before: Table, s: State, steps: seq<Step>)
    requires LocksOk(s) && IsRun(limit, s, steps) && OnlyClaims(steps) && ClaimedAre(before, s.jobs, s.returned)
    ensures ClaimedAre(before, Exec(limit, s, steps).jobs, Exec(limit, s, steps).returned)
    decreases |steps|
  {
    if |steps| == 0 {
    } else {
      ClaimedStep(limit, before, s, steps[0]);
      LocksStep(limit, s, steps[0]);
      ReturnedAreClaimed(limit, before, Apply(limit, s, steps[0]), steps[1..]);
    }
  }

  // ----- Every waiting job is claimed -----

  function Waiting(jobs: Table, q: string): set<JobId> {
    set id | id in jobs && jobs[id].queueId == q && jobs[id].status == Queued
  }

  // No call has selected rows of the queue yet; those that have counted found all slots free.
  ghost predicate BeforeSelect(s: State, q: string, waiting: set<JobId>, most: nat) {
    && Waiting(s.jobs, q) == waiting && InFlightSet(s.jobs, q) == {}
    && (forall w | 0 <= w < |s.calls| && !s.calls[w].Idle? && s.calls[w].q == q :: s.calls[w] == Counted(q, most))
  }

  // Every job that waited is in the hands of an open call or claimed.
  ghost predicate Taken(s: State, waiting: set<JobId>) {
    forall id | id in waiting :: id in LockedRows(s.calls) || (id in s.jobs && s.jobs[id].status == Claimed)
  }

  lemma {:induction false} LockRowsTakesAll(order: seq<JobId>, locked: set<JobId>, limit: nat)
    requires |order| <= limit && forall id | id in order :: id !in locked
    ensures LockRows(order, locked, limit) == order
  {
    if order == [] {
    } else {
      LockRowsTakesAll(order[1..], locked, limit - 1);
    }
  }

  // The first select on the queue finds all slots free and nothing locked, so it takes every row.
  lemma {:induction false} FirstSelectTakesAll(
      limit: string -> nat, s: State, w: nat, now: int, order: seq<JobId>, q: string, waiting: set<JobId>)
    requires LocksOk(s) && Enabled(s, Lock(w, now, order)) && s.calls[w].q == q
    requires BeforeSelect(s, q, waiting, limit(q)) && |waiting| <= limit(q)
    requires forall id | id in waiting :: s.jobs[id].runAt <= now
    ensures Taken(Apply(limit, s, Lock(w, now, order)), waiting)
  {
    var s' := Apply(limit, s, Lock(w, now, order));
    assert ToSet(order) == waiting;
    ToSetSize(order);
    forall id | id in order ensures id !in LockedRows(s.calls) {
      assert forall v | 0 <= v < |s.calls| :: CallOk(s.jobs, s.calls[v]);
    }
    LockRowsTakesAll(order, LockedRows(s.calls), limit(q));
    assert Held(s'.calls[w]) == order;
  }

  predicate SelectsFrom(s: State, step: Step, q: string) {
    step.Lock? && step.w < |s.calls| && s.calls[step.w].Counted? && s.calls[step.w].q == q
  }

  lemma {:induction false} BeforeSelectStep(limit: string -> nat, s: State, step: Step, q: string, waiting: set<JobId>)
    requires LocksOk(s) && Enabled(s, step) && OnlyClaims([step]) && !step.Abort? && !SelectsFrom(s, step, q)
    requires BeforeSelect(s, q, waiting, limit(q))
    ensures BeforeSelect(Apply(limit, s, step), q, waiting, limit(q))
  {
    assert [step][0] == step;
    if step.Commit? {
      assert CallOk(s.jobs, s.calls[step.w]);
      assert InFlightSet(Apply(limit, s, step).jobs, q) == {};
    }
  }

  lemma {:induction false} TakenStep(limit: string -> nat, s: State, step: Step, waiting: set<JobId>)
    requires LocksOk(s) && Enabled(s, step) && OnlyClaims([step]) && !step.Abort? && Taken(s, waiting)
    ensures Taken(Apply(limit, s, step), waiting)
  {
    assert [step][0] == step;
    forall id | id in waiting ensures Taken(Apply(limit, s, step), {id}) {
      if id in LockedRows(s.calls) {
        var v :| 0 <= v < |s.calls| && id in Held(s.calls[v]);
        HeldStep(limit, s, step, v, id);
      }
    }
    assert forall id | id in waiting :: Taken(Apply(limit, s, step), {id}) && id in {id};
  }

  lemma {:induction false} HeldStep(limit: string -> nat, s: State, step: Step, v: nat, id: JobId)
    requires LocksOk(s) && Enabled(s, step) && OnlyClaims([step]) && !step.Abort?
    requires v < |s.calls| && id in Held(s.calls[v])
    ensures Taken(Apply(limit, s, step), {id})
  {
    assert [step][0] == step;
    var s' := Apply(limit, s, step);
    assert CallOk(s.jobs, s.calls[v]);
    if step.Commit? && step.w == v {
      assert s'.jobs[id].status == Claimed;
    } else {
      assert id in Held(s'.calls[v]);
    }
  }

  // Some call of the run selects rows of the queue.
  ghost predicate Selects(limit: string -> nat, s: State, steps: seq<Step>, q: string)
    requires IsRun(limit, s, steps)
    decreases |steps|
  {
    |steps| > 0 && (SelectsFrom(s, steps[0], q) || Selects(limit, Apply(limit, s, steps[0]), steps[1..], q))
  }

  // The run holds claim calls only, and none of them aborts.
  ghost predicate CleanRace(steps: seq<Step>) {
    OnlyClaims(steps) && forall i | 0 <= i < |steps| :: !steps[i].Abort?
  }

  ghost predicate DueThroughout(jobs: Table, waiting: set<JobId>, steps: seq<Step>) {
    forall i, id | 0 <= i < |steps| && steps[i].Lock? && id in waiting && id in jobs :: jobs[id].runAt <= steps[i].now
  }

  lemma {:induction false} TakenRun(limit: string -> nat, s: State, steps: seq<Step>, waiting: set<JobId>)
    requires LocksOk(s) && IsRun(limit, s, steps) && CleanRace(steps) && Taken(s, waiting)
    ensures Taken(Exec(limit, s, steps), waiting)
    decreases |steps|
  {
    if steps == [] {
    } else {
      LocksStep(limit, s, steps[0]);
      TakenStep(limit, s, steps[0], waiting);
      TakenRun(limit, Apply(limit, s, steps[0]), steps[1..], waiting);
    }
  }

  lemma {:induction false} RaceTakesAll(
      limit: string -> nat, s: State, steps: seq<Step>, q: string, waiting: set<JobId>)
    requires LocksOk(s) && IsRun(limit, s, steps) && CleanRace(steps) && Selects(limit, s, steps, q)
    requires BeforeSelect(s, q, waiting, limit(q)) && |waiting| <= limit(q)
    requires DueThroughout(s.jobs, waiting, steps)
    ensures Taken(Exec(limit, s, steps), waiting)
    decreases |steps|
  {
    var s1 := Apply(limit, s, steps[0]);
    LocksStep(limit, s, steps[0]);
    if SelectsFrom(s, steps[0], q) {
      FirstSelectTakesAll(limit, s, steps[0].w, steps[0].now, steps[0].order, q, waiting);
      TakenRun(limit, s1, steps[1..], waiting);
    } else {
      BeforeSelectStep(limit, s, steps[0], q, waiting);
      KeepsTimes(limit, s, steps[0]);
      RaceTakesAll(limit, s1, steps[1..], q, waiting);
    }
  }

  lemma {:induction false} KeepsTimes(limit: string -> nat, s: State, step: Step)
    requires Enabled(s, step) && OnlyClaims([step])
    ensures var s' := Apply(limit, s, step);
            s'.entered == s.entered
            && forall id | id in s'.jobs :: id in s.jobs && s'.jobs[id].runAt == s.jobs[id].runAt
  {
    assert [step][0] == step;
  }

  lemma {:induction false} NothingEnters(limit: string -> nat, s: State, steps: seq<Step>)
    requires IsRun(limit, s, steps) && OnlyClaims(steps)
    ensures Exec(limit, s, steps).entered == s.entered
    decreases |steps|
  {
    if steps == [] {
    } else {
      KeepsTimes(limit, s, steps[0]);
      NothingEnters(limit, Apply(limit, s, steps[0]), steps[1..]);
    }
  }

  // When the limit covers all jobs that wait in the queue, at least one call selects from it, none
  // aborts and all have ended, every one of those jobs is claimed, and returned exactly once.
  lemma {:induction false} EveryJobIsClaimedOnce(limit: string -> nat, s: State, steps: seq<Step>, q: string)
    requires Init(s) && IsRun(limit, s, steps) && CleanRace(steps) && Selects(limit, s, steps, q)
    requires |Waiting(s.jobs, q)| <= limit(q) && DueThroughout(s.jobs, Waiting(s.jobs, q), steps)
    requires forall w | 0 <= w < |Exec(limit, s, steps).calls| :: Exec(limit, s, steps).calls[w].Idle?
    ensures var s' := Exec(limit, s, steps);
            forall id | id in Waiting(s.jobs, q) ::
              id in s'.jobs && s'.jobs[id].status == Claimed && s'.returned[id] == 1
  {
    InitLocks(s);
    RaceTakesAll(limit, s, steps, q, Waiting(s.jobs, q));
    NothingEnters(limit, s, steps);
    ClaimsAreDisjoint(limit, s, steps);
    ReturnedAreClaimed(limit, s.jobs, s, steps);
    assert LockedRows(Exec(limit, s, steps).calls) == {};
  }
}
