// The dead-letter queue: the executor moves exhausted jobs in, manual retries take them out.
module DeadLetters {
  import opened Wrappers

  type JobId = nat

  datatype Job = Job(status: JobStatus, attemptCount: nat, runAt: int)

  // Rows are numbered in the order of their creation; the unique index on the original job allows
  // one row per job.
  datatype Db = Db(jobs: map<JobId, Job>, deadLetters: map<JobId, nat>, nextRow: nat)

  predicate IsRetryable(s: JobStatus) { s == Failed || s == DeadLetter || s == Cancelled }

  // The executor's last transaction: None when the unique index rolls it back.
  function MoveToDeadLetter(db: Db, id: JobId, attemptCount: nat): Option<Db>
    requires id in db.jobs
  {
    if id in db.deadLetters then None
    else Some(Db(db.jobs[id := db.jobs[id].(status := DeadLetter, attemptCount := attemptCount)],
                 db.deadLetters[id := db.nextRow], db.nextRow + 1))
  }

  function Requeue(db: Db, id: JobId, now: int): Db
    requires id in db.jobs
  {
    db.(jobs := db.jobs[id := Job(Queued, 0, now)])
  }

  datatype RetryOutcome = NotFound | NotRetryable | Requeued

  class JobStore {
    var jobs: map<JobId, Job>
    var deadLetters: map<JobId, nat>
    var nextRow: nat

    function Contents(): Db
      reads this
    {
      Db(jobs, deadLetters, nextRow)
    }

    constructor (jobs: map<JobId, Job>)
      ensures Contents() == Db(jobs, map[], 0)
    {
      this.jobs := jobs;
      deadLetters := map[];
      nextRow := 0;
    }

    method DeadLetterJob(id: JobId, attemptCount: nat) returns (ok: bool)
      requires id in jobs
      modifies this
      ensures ok <==> id !in old(deadLetters)
      ensures ok ==> jobs == old(jobs)[id := old(jobs)[id].(status := DeadLetter, attemptCount := attemptCount)]
      ensures ok ==> deadLetters == old(deadLetters)[id := old(nextRow)] && nextRow == old(nextRow) + 1
      ensures !ok ==> Contents() == old(Contents())
      ensures ok == MoveToDeadLetter(old(Contents()), id, attemptCount).Some?
      ensures ok ==> Contents() == MoveToDeadLetter(old(Contents()), id, attemptCount).value
    {
      if id in deadLetters {
        return false;
      }
      jobs := jobs[id := jobs[id].(status := DeadLetter, attemptCount := attemptCount)];
      deadLetters := deadLetters[id := nextRow];
      nextRow := nextRow + 1;
      return true;
    }

    // The whole handler without interference: it never loses the row it saw.
    method Retry(id: JobId, now: int) returns (o: RetryOutcome)
      modifies this
      ensures o == NotFound <==> id !in old(jobs)
      ensures o == Requeued <==> id in old(jobs) && old(jobs)[id].status in {Failed, DeadLetter, Cancelled}
      ensures o == NotRetryable
              <==> id in old(jobs) && old(jobs)[id].status in {Queued, Scheduled, Claimed, Running, Completed}
      ensures o != Requeued ==> Contents() == old(Contents())
      ensures o == Requeued ==> jobs == old(jobs)[id := Job(Queued, 0, now)]
      ensures o == Requeued ==> deadLetters == old(deadLetters) - {id} && nextRow == old(nextRow)
    {
      if id !in jobs {
        return NotFound;
      }
      var sawRow := id in deadLetters;
      if !IsRetryable(jobs[id].status) {
        return NotRetryable;
      }
      if sawRow {
        deadLetters := deadLetters - {id};
      }
      jobs := jobs[id := Job(Queued, 0, now)];
      return Requeued;
    }
  }

  // ----- Overlapping retries -----

  // A retry reads first; `sawRow` is what it found. Its transaction then deletes the row, if it saw
  // one, updates the job and commits.
  datatype Phase = Read | Deleting | Committed | Undone

  datatype RetryCall = RetryCall(id: JobId, sawRow: Option<nat>, phase: Phase)

  // `created` counts the dead-letter rows ever created for a job.
  datatype State = State(db: Db, calls: seq<RetryCall>, created: multiset<JobId>)

  datatype Step =
    | Exhaust(id: JobId, attemptCount: nat)
    | Start(id: JobId)
    | Delete(p: nat)
    | Commit(p: nat, now: int)
    | Abort(p: nat)
    | SetStatus(id: JobId, status: JobStatus)

  predicate IsDeleting(s: State, id: JobId) {
    exists p | 0 <= p < |s.calls| :: s.calls[p].phase == Deleting && s.calls[p].id == id
  }

  ghost predicate Enabled(s: State, step: Step) {
    match step
    // An insert or delete on a row that an open transaction has deleted waits for it.
    case Exhaust(id, _) => id in s.db.jobs && !IsDeleting(s, id)
    case Start(id) => id in s.db.jobs
    case Delete(p) =>
      p < |s.calls| && s.calls[p].phase == Read && s.calls[p].sawRow.Some? && !IsDeleting(s, s.calls[p].id)
    case Commit(p, _) =>
      p < |s.calls| && (s.calls[p].phase == Deleting || (s.calls[p].phase == Read && s.calls[p].sawRow.None?))
    case Abort(p) => p < |s.calls| && (s.calls[p].phase == Read || s.calls[p].phase == Deleting)
    case SetStatus(id, _) => id in s.db.jobs
  }

  function SetPhase(s: State, p: nat, phase: Phase): State
    requires p < |s.calls|
  {
    s.(calls := s.calls[p := s.calls[p].(phase := phase)])
  }

  function Apply(s: State, step: Step): State
    requires Enabled(s, step)
  {
    match step
    case Exhaust(id, n) =>
      (match MoveToDeadLetter(s.db, id, n)
       case None => s
       case Some(db) => s.(db := db, created := s.created + multiset{id}))
    case Start(id) =>
      if IsRetryable(s.db.jobs[id].status) then
        var row := if id in s.db.deadLetters then Some(s.db.deadLetters[id]) else None;
        s.(calls := s.calls + [RetryCall(id, row, Read)])
      else s
    // Deleting a row that is gone throws, which rolls the transaction back.
    case Delete(p) => SetPhase(s, p, if s.calls[p].id in s.db.deadLetters then Deleting else Undone)
    case Commit(p, now) =>
      var c := s.calls[p];
      var s' := SetPhase(s, p, Committed);
      if c.id !in s.db.jobs then SetPhase(s, p, Undone)
      else if c.sawRow.None? then s'.(db := Requeue(s.db, c.id, now))
      else s'.(db := Requeue(s.db, c.id, now).(deadLetters := s.db.deadLetters - {c.id}))
    case Abort(p) => SetPhase(s, p, Undone)
    case SetStatus(id, status) => s.(db := s.db.(jobs := s.db.jobs[id := s.db.jobs[id].(status := status)]))
  }

  ghost predicate IsRun(s: State, steps: seq<Step>)
    decreases |steps|
  {
    |steps| > 0 ==> Enabled(s, steps[0]) && IsRun(Apply(s, steps[0]), steps[1..])
  }

  ghost function Exec(s: State, steps: seq<Step>): State
    requires IsRun(s, steps)
    decreases |steps|
  {
    if |steps| == 0 then s else Exec(Apply(s, steps[0]), steps[1..])
  }

  ghost predicate Init(s: State) {
    s.db.deadLetters == map[] && s.calls == [] && s.created == multiset{}
  }

  // A row being deleted is there, and only one transaction is deleting it.
  ghost predicate DeletesOk(s: State) {
    && (forall p | 0 <= p < |s.calls| && s.calls[p].phase == Deleting ::
          s.calls[p].sawRow.Some? && s.calls[p].id in s.db.deadLetters && s.calls[p].id in s.db.jobs)
    && (forall o, p | 0 <= o < p < |s.calls| && s.calls[o].phase == Deleting && s.calls[p].phase == Deleting ::
          s.calls[o].id != s.calls[p].id)
    && s.db.deadLetters.Keys <= s.db.jobs.Keys
  }

  function Present(db: Db, id: JobId): nat { if id in db.deadLetters then 1 else 0 }

  // A committed retry of the job that had seen a dead-letter row.
  predicate TookRow(c: RetryCall, id: JobId) { c.phase == Committed && c.sawRow.Some? && c.id == id }

  function Taken(calls: seq<RetryCall>, id: JobId): nat {
    if |calls| == 0 then 0 else Taken(calls[1..], id) + if TookRow(calls[0], id) then 1 else 0
  }

  lemma {:induction false} TakenAppend(calls: seq<RetryCall>, c: RetryCall, id: JobId)
    ensures Taken(calls + [c], id) == Taken(calls, id) + if TookRow(c, id) then 1 else 0
  {
    if calls == [] {
      assert calls + [c] == [c] && [c][1..] == [];
    } else {
      TakenAppend(calls[1..], c, id);
      assert (calls + [c])[1..] == calls[1..] + [c];
    }
  }

  lemma {:induction false} TakenUpdate(calls: seq<RetryCall>, p: nat, c: RetryCall, id: JobId)
    requires p < |calls|
    ensures Taken(calls[p := c], id) - (if TookRow(c, id) then 1 else 0)
            == Taken(calls, id) - if TookRow(calls[p], id) then 1 else 0
  {
    if p == 0 {
      assert calls[p := c][1..] == calls[1..];
    } else {
      TakenUpdate(calls[1..], p - 1, c, id);
      assert calls[p := c][1..] == calls[1..][p - 1 := c];
    }
  }

  lemma {:induction false} DeletesStep(s: State, step: Step)
    requires DeletesOk(s) && Enabled(s, step)
    ensures DeletesOk(Apply(s, step))
  {
  }

  lemma {:induction false} BalanceStep(s: State, step: Step, id: JobId)
    requires DeletesOk(s) && Enabled(s, step)
    ensures var s' := Apply(s, step);
            && Taken(s'.calls, id) + Present(s'.db, id) + s.created[id]
               == Taken(s.calls, id) + Present(s.db, id) + s'.created[id]
            && s.created[id] <= s'.created[id] && Taken(s.calls, id) <= Taken(s'.calls, id)
  {
    var s' := Apply(s, step);
    if step.Start? {
      if s'.calls != s.calls {
        TakenAppend(s.calls, s'.calls[|s.calls|], id);
      }
    } else if step.Delete? || step.Commit? || step.Abort? {
      TakenUpdate(s.calls, step.p, s'.calls[step.p], id);
    }
  }

  // Over any stretch of any interleaving, the retries that commit after seeing a row number
  // exactly the rows created in it, plus the row there at its start, less the row left at its end.
  lemma {:induction false} RowsAreConserved(s: State, steps: seq<Step>, id: JobId)
    requires DeletesOk(s) && IsRun(s, steps)
    ensures var s' := Exec(s, steps);
            && DeletesOk(s') && s.created[id] <= s'.created[id] && Taken(s.calls, id) <= Taken(s'.calls, id)
            && Taken(s'.calls, id) - Taken(s.calls, id)
               == s'.created[id] - s.created[id] + Present(s.db, id) - Present(s'.db, id)
    decreases |steps|
  {
    if steps == [] {
    } else {
      DeletesStep(s, steps[0]);
      BalanceStep(s, steps[0], id);
      RowsAreConserved(Apply(s, steps[0]), steps[1..], id);
    }
  }

  lemma {:induction false} InitDeletes(s: State)
    requires Init(s)
    ensures DeletesOk(s)
  {
  }

  // As long as no new row is created for the job, at most one of the overlapping retries that saw
  // its row commits, and none once the row is gone: the others find nothing to delete.
  lemma {:induction false} OneRetryPerRow(s: State, steps: seq<Step>, id: JobId)
    requires DeletesOk(s) && IsRun(s, steps) && Exec(s, steps).created[id] == s.created[id]
    ensures var s' := Exec(s, steps);
            && Taken(s'.calls, id) <= Taken(s.calls, id) + Present(s.db, id)
            && (id in s.db.deadLetters && id !in s'.db.deadLetters ==> Taken(s'.calls, id) == Taken(s.calls, id) + 1)
  {
    RowsAreConserved(s, steps, id);
  }

  // From an empty queue, rows ever created are rows present plus committed retries that saw one.
  lemma {:induction false} CreatedIsPresentPlusRetried(s: State, steps: seq<Step>, id: JobId)
    requires Init(s) && IsRun(s, steps)
    ensures var s' := Exec(s, steps); s'.created[id] == Present(s'.db, id) + Taken(s'.calls, id)
  {
    InitDeletes(s);
    RowsAreConserved(s, steps, id);
  }

  // ----- A retry that nothing interrupts -----

  lemma {:induction false} RunCons(s: State, step: Step, rest: seq<Step>)
    requires Enabled(s, step) && IsRun(Apply(s, step), rest)
    ensures IsRun(s, [step] + rest) && Exec(s, [step] + rest) == Exec(Apply(s, step), rest)
  {
  }

  // Among the interleaved retries one that nothing interrupts has the effect of the handler.
  lemma {:induction false} LoneRetry(s: State, id: JobId, now: int) returns (steps: seq<Step>)
    requires id in s.db.jobs && !IsDeleting(s, id)
    ensures IsRun(s, steps)
    ensures Exec(s, steps).db == if s.db.jobs[id].status !in {Failed, DeadLetter, Cancelled} then s.db
                                 else Db(s.db.jobs[id := Job(Queued, 0, now)], s.db.deadLetters - {id}, s.db.nextRow)
  {
    var p := |s.calls|;
    var s1 := Apply(s, Start(id));
    if s.db.jobs[id].status !in {Failed, DeadLetter, Cancelled} {
      steps := [];
    } else if id !in s.db.deadLetters {
      assert s1.calls[p] == RetryCall(id, None, Read);
      RunCons(s1, Commit(p, now), []);
      assert s.db.deadLetters - {id} == s.db.deadLetters;
      steps := [Commit(p, now)] + [];
    } else {
      assert s1.calls[p] == RetryCall(id, Some(s.db.deadLetters[id]), Read);
      assert forall o | 0 <= o < p :: s1.calls[o] == s.calls[o];
      var s2 := Apply(s1, Delete(p));
      RunCons(s2, Commit(p, now), []);
      RunCons(s1, Delete(p), [Commit(p, now)] + []);
      steps := [Delete(p)] + ([Commit(p, now)] + []);
    }
    RunCons(s, Start(id), steps);
    steps := [Start(id)] + steps;
  }

  // ----- How many retries of one row can commit -----

  // The committed retries of the job that had seen the given row.
  function TakenOf(calls: seq<RetryCall>, id: JobId, row: nat): nat {
    if |calls| == 0 then 0
    else TakenOf(calls[1..], id, row) + if TookRow(calls[0], id) && calls[0].sawRow == Some(row) then 1 else 0
  }

  lemma {:induction false} TakenOfIsPart(calls: seq<RetryCall>, id: JobId, row: nat)
    ensures TakenOf(calls, id, row) <= Taken(calls, id)
  {
    if calls == [] {
    } else {
      TakenOfIsPart(calls[1..], id, row);
    }
  }

  lemma {:induction false} TakenOfAll(calls: seq<RetryCall>, id: JobId, row: nat)
    requires forall p | 0 <= p < |calls| :: calls[p] == RetryCall(id, Some(row), Committed)
    ensures TakenOf(calls, id, row) == |calls|
  {
    if calls == [] {
    } else {
      TakenOfAll(calls[1..], id, row);
    }
  }

  // `seen` retries have read the job's first row, and the first `done` of them have committed; the
  // job has been dead-lettered again after each.
  ghost predicate Staged(s: State, id: JobId, seen: nat, done: nat) {
    && id in s.db.jobs && s.db.deadLetters == map[id := done] && s.db.nextRow == done + 1
    && (done == 0 ==> s.db.jobs[id].status == DeadLetter)
    && done <= seen == |s.calls| && s.created[id] == done + 1
    && (forall p | 0 <= p < seen :: s.calls[p] == RetryCall(id, Some(0), if p < done then Committed else Read))
  }

  lemma {:induction false} StagedDelete(s: State, id: JobId, seen: nat, done: nat) returns (s1: State, s2: State)
    requires Staged(s, id, seen, done) && done < seen
    ensures Enabled(s, Delete(done)) && s1 == Apply(s, Delete(done))
    ensures Enabled(s1, Commit(done, 0)) && s2 == Apply(s1, Commit(done, 0))
    ensures s2.calls == s.calls[done := RetryCall(id, Some(0), Committed)] && s2.created == s.created
    ensures id in s2.db.jobs && s2.db.deadLetters == map[] && s2.db.nextRow == done + 1
  {
    assert s.calls[done].phase == Read;
    s1 := Apply(s, Delete(done));
    s2 := Apply(s1, Commit(done, 0));
  }

  // The job is claimed, runs, and is dead-lettered again.
  lemma {:induction false} StagedExhaust(s: State, id: JobId, seen: nat, done: nat)
    returns (s1: State, s2: State, s3: State)
    requires id in s.db.jobs && s.db.deadLetters == map[] && s.db.nextRow == done + 1
    requires done < seen == |s.calls| && s.created[id] == done + 1
    requires forall p | 0 <= p < seen :: s.calls[p] == RetryCall(id, Some(0), if p <= done then Committed else Read)
    ensures Enabled(s, SetStatus(id, Claimed)) && s1 == Apply(s, SetStatus(id, Claimed))
    ensures Enabled(s1, SetStatus(id, Running)) && s2 == Apply(s1, SetStatus(id, Running))
    ensures Enabled(s2, Exhaust(id, 3)) && s3 == Apply(s2, Exhaust(id, 3))
    ensures Staged(s3, id, seen, done + 1)
  {
    s1 := Apply(s, SetStatus(id, Claimed));
    s2 := Apply(s1, SetStatus(id, Running));
    s3 := Apply(s2, Exhaust(id, 3));
  }

  lemma {:induction false} StagedStart(s: State, id: JobId, seen: nat)
    requires Staged(s, id, seen, 0)
    ensures Enabled(s, Start(id)) && Staged(Apply(s, Start(id)), id, seen + 1, 0)
  {
  }

  lemma {:induction false} StagedRun(s: State, id: JobId, retries: nat, seen: nat, done: nat) returns (steps: seq<Step>)
    requires Staged(s, id, seen, done) && done < retries && seen <= retries && (done > 0 ==> seen == retries)
    ensures IsRun(s, steps)
    ensures Exec(s, steps).created[id] == retries && TakenOf(Exec(s, steps).calls, id, 0) == retries
    decreases retries - seen, retries - done
  {
    if seen < retries {
      StagedStart(s, id, seen);
      steps := StagedRun(Apply(s, Start(id)), id, retries, seen + 1, done);
      RunCons(s, Start(id), steps);
      steps := [Start(id)] + steps;
    } else {
      var s1, s2 := StagedDelete(s, id, seen, done);
      if done + 1 == retries {
        TakenOfAll(s2.calls, id, 0);
        steps := [];
      } else {
        var s3, s4, s5 := StagedExhaust(s2, id, seen, done);
        steps := StagedRun(s5, id, retries, seen, done + 1);
        RunCons(s4, Exhaust(id, 3), steps);
        RunCons(s3, SetStatus(id, Running), [Exhaust(id, 3)] + steps);
        RunCons(s2, SetStatus(id, Claimed), [SetStatus(id, Running)] + ([Exhaust(id, 3)] + steps));
        steps := [SetStatus(id, Claimed)] + ([SetStatus(id, Running)] + ([Exhaust(id, 3)] + steps));
      }
      RunCons(s1, Commit(done, 0), steps);
      RunCons(s, Delete(done), [Commit(done, 0)] + steps);
      steps := [Delete(done)] + ([Commit(done, 0)] + steps);
    }
  }

  // The delete names the job, not the row. For every job and every number of retries, when all of
  // them have seen the first row and the job is dead-lettered again after each commit, all commit:
  // every retry but the first takes a newer row.
  lemma {:induction false} RetriesOfOneRowCanCommit(id: JobId, retries: nat) returns (s: State, steps: seq<Step>)
    requires retries > 0
    ensures Init(s) && IsRun(s, steps)
    ensures Exec(s, steps).created[id] == retries && TakenOf(Exec(s, steps).calls, id, 0) == retries
  {
    s := State(Db(map[id := Job(Running, 2, 0)], map[], 0), [], multiset{});
    steps := StagedRun(Apply(s, Exhaust(id, 3)), id, retries, 0, 0);
    RunCons(s, Exhaust(id, 3), steps);
    steps := [Exhaust(id, 3)] + steps;
  }

  // No run that dead-letters the job at most `rows` times commits more than `most` retries that saw
  // one and the same row.
  ghost predicate NeverRetriedMore(id: JobId, rows: nat, most: nat) {
    forall s, steps, row: nat | Init(s) && IsRun(s, steps) && Exec(s, steps).created[id] <= rows ::
      TakenOf(Exec(s, steps).calls, id, row) <= most
  }

  // Of the retries that saw the same row, as many can commit as the job is dead-lettered. With `most`
  // one: only one ever commits, on all runs, exactly when the job is dead-lettered at most once.
  lemma {:induction false} RetriesPerRowAreExact(id: JobId, rows: nat, most: nat)
    ensures NeverRetriedMore(id, rows, most) <==> rows <= most
  {
    if rows <= most {
      forall s, steps, row: nat | Init(s) && IsRun(s, steps) && Exec(s, steps).created[id] <= rows
        ensures TakenOf(Exec(s, steps).calls, id, row) <= most
      {
        CreatedIsPresentPlusRetried(s, steps, id);
        TakenOfIsPart(Exec(s, steps).calls, id, row);
      }
    } else {
      var s, steps := RetriesOfOneRowCanCommit(id, rows);
    }
  }
}
