// The concurrency limit: the bound that holds on all runs, and runs that reach it.
module ClaimBound {
  import opened Arithmetic
  import opened Wrappers
  import opened ClaimProtocol
  import opened ClaimTheorems

  // ----- Composing runs -----

  lemma {:induction false} RunCons(limit: string -> nat, s: State, step: Step, rest: seq<Step>)
    requires Enabled(s, step) && IsRun(limit, Apply(limit, s, step), rest)
    ensures IsRun(limit, s, [step] + rest)
    ensures Exec(limit, s, [step] + rest) == Exec(limit, Apply(limit, s, step), rest)
  {
  }

  lemma {:induction false} RunAppend(limit: string -> nat, s: State, a: seq<Step>, b: seq<Step>)
    requires IsRun(limit, s, a) && IsRun(limit, Exec(limit, s, a), b)
    ensures IsRun(limit, s, a + b) && Exec(limit, s, a + b) == Exec(limit, Exec(limit, s, a), b)
    decreases |a|
  {
    if |a| == 0 {
      assert a + b == b;
    } else {
      assert (a + b)[0] == a[0] && (a + b)[1..] == a[1..] + b;
      RunAppend(limit, Apply(limit, s, a[0]), a[1..], b);
    }
  }

  lemma {:induction false} RunAround(limit: string -> nat, s: State, first: Step, middle: seq<Step>, last: Step)
    requires Enabled(s, first) && IsRun(limit, Apply(limit, s, first), middle)
    requires Enabled(Exec(limit, Apply(limit, s, first), middle), last)
    ensures IsRun(limit, s, [first] + (middle + [last]))
    ensures Exec(limit, s, [first] + (middle + [last]))
            == Apply(limit, Exec(limit, Apply(limit, s, first), middle), last)
  {
    var s1 := Apply(limit, s, first);
    var s2 := Exec(limit, s1, middle);
    RunCons(limit, s2, last, []);
    assert [last] + [] == [last];
    RunAppend(limit, s1, middle, [last]);
    RunCons(limit, s, first, middle + [last]);
  }

  // ----- The stage -----

  // Claims one at a time: `late` jobs have been claimed and then cancelled before their start. Then
  // K workers over K * limit jobs: the first `counted` calls have counted, and the first `done` of
  // those have claimed a full limit each.
  ghost predicate Staged(s: State, q: string, most: nat, workers: nat, late: nat, counted: nat, done: nat) {
    && done <= counted <= workers
    && (forall id: JobId :: id in s.jobs <==> id < workers * most + late)
    && (forall id | id in s.jobs :: s.jobs[id] == StagedJob(q, id, done * most, workers * most))
    && |s.calls| == workers
    && (forall w | 0 <= w < workers :: s.calls[w] == if done <= w < counted then Counted(q, most) else Idle)
    && s.staleStarts == multiset{}
    && (forall id: JobId | workers * most <= id < workers * most + late :: id in s.toStart)
  }

  // The K * limit jobs are due at instant 1, those to be cancelled at instant 0.
  function StagedJob(q: string, id: JobId, claimed: nat, room: nat): Job {
    if id < claimed then Job(q, Claimed, 0, 1)
    else if id < room then Job(q, Queued, 0, 1)
    else Job(q, Cancelled, 0, 0)
  }

  function From(first: JobId, n: nat): (ids: seq<JobId>)
    ensures |ids| == n && forall i | 0 <= i < n :: ids[i] == first + i
    ensures forall id: JobId :: id in ids <==> first <= id < first + n
  {
    if n == 0 then [] else From(first, n - 1) + [first + n - 1]
  }

  lemma {:induction false} StagedInit(q: string, most: nat, workers: nat) returns (s: State)
    ensures Init(s) && |s.calls| == workers && Staged(s, q, most, workers, 0, 0, 0)
  {
    var ids := From(0, workers * most);
    s := State(map id | id in ids :: StagedJob(q, id, 0, workers * most), seq(workers, _ => Idle),
               multiset{}, multiset{}, multiset{}, multiset{});
    forall id: JobId ensures id in s.jobs <==> id < workers * most {
      assert id in ids <==> id < workers * most;
    }
  }

  // ----- Jobs that will start late -----

  lemma {:induction false} NothingLocked(calls: seq<Call>)
    requires forall w | 0 <= w < |calls| :: Held(calls[w]) == []
    ensures LockedRows(calls) == {}
  {
  }

  // The first worker claims the only eligible job.
  lemma {:induction false} ClaimOnly(
      limit: string -> nat, s: State, q: string, id: JobId, done: State) returns (steps: seq<Step>)
    requires limit(q) > 0 && |s.calls| > 0 && (forall w | 0 <= w < |s.calls| :: s.calls[w].Idle?)
    requires InFlightSet(s.jobs, q) == {} && forall j :: Eligible(s.jobs, q, 0, j) <==> j == id
    requires done == s.(jobs := MarkClaimed(s.jobs, [id]), toStart := s.toStart + multiset([id]),
                        returned := s.returned + multiset([id]))
    ensures IsRun(limit, s, steps) && Exec(limit, s, steps) == done
  {
    var most := limit(q);
    var s1 := s.(calls := s.calls[0 := Counted(q, most)]);
    var s2 := s.(calls := s.calls[0 := Locked(q, most, [id])]);
    var s3 := s.(calls := s.calls[0 := Written(q, most, [id])]);
    assert Apply(limit, s, Count(0, q)) == s1;
    LockOnly(limit, s1, q, id, s2);
    assert Apply(limit, s2, Write(0)) == s3;
    assert s3.calls[0 := Idle] == s.calls;
    assert Apply(limit, s3, Commit(0)) == done;
    RunCons(limit, s3, Commit(0), []);
    RunCons(limit, s2, Write(0), [Commit(0)] + []);
    steps := [Write(0)] + ([Commit(0)] + []);
    RunCons(limit, s1, Lock(0, 0, [id]), steps);
    RunCons(limit, s, Count(0, q), [Lock(0, 0, [id])] + steps);
    steps := [Count(0, q)] + ([Lock(0, 0, [id])] + steps);
  }

  lemma {:induction false} LockOnly(limit: string -> nat, s: State, q: string, id: JobId, locked: State)
    requires |s.calls| > 0 && s.calls[0].Counted? && s.calls[0].q == q && s.calls[0].slots > 0
    requires forall w | 0 <= w < |s.calls| :: Held(s.calls[w]) == []
    requires forall j :: Eligible(s.jobs, q, 0, j) <==> j == id
    requires locked == s.(calls := s.calls[0 := Locked(q, s.calls[0].slots, [id])])
    ensures Enabled(s, Lock(0, 0, [id])) && Apply(limit, s, Lock(0, 0, [id])) == locked
  {
    NothingLocked(s.calls);
    assert LockRows([id][1..], {}, s.calls[0].slots - 1) == [];
    assert LockRows([id], {}, s.calls[0].slots) == [id];
  }

  lemma {:induction false} StagedInsert(
      s: State, q: string, most: nat, workers: nat, late: nat, id: JobId, added: State)
    requires Staged(s, q, most, workers, late, 0, 0) && id == workers * most + late
    requires added == s.(jobs := s.jobs[id := Job(q, Queued, 0, 0)], entered := s.entered + multiset{id})
    ensures Enabled(s, Insert(id, Job(q, Queued, 0, 0)))
    ensures InFlightSet(added.jobs, q) == {} && forall j :: Eligible(added.jobs, q, 0, j) <==> j == id
  {
  }

  lemma {:induction false} StagedSettle(
      limit: string -> nat, s: State, q: string, most: nat, workers: nat, late: nat, id: JobId, claimed: State)
    requires Staged(s, q, most, workers, late, 0, 0) && id == workers * most + late
    requires claimed.jobs == s.jobs[id := Job(q, Claimed, 0, 0)] && claimed.calls == s.calls
    requires claimed.staleStarts == s.staleStarts && claimed.toStart == s.toStart + multiset([id])
    ensures Enabled(claimed, Settle(id, Cancelled, 0))
    ensures Staged(Apply(limit, claimed, Settle(id, Cancelled, 0)), q, most, workers, late + 1, 0, 0)
  {
    NothingLocked(claimed.calls);
  }

  lemma {:induction false} ClaimInserted(
      limit: string -> nat, s: State, q: string, workers: nat, late: nat, id: JobId, added: State)
    returns (steps: seq<Step>, claimed: State)
    requires limit(q) > 0 && workers > 0 && Staged(s, q, limit(q), workers, late, 0, 0)
    requires id == workers * limit(q) + late
    requires added == s.(jobs := s.jobs[id := Job(q, Queued, 0, 0)], entered := s.entered + multiset{id})
    ensures IsRun(limit, added, steps) && Exec(limit, added, steps) == claimed
    ensures claimed.jobs == s.jobs[id := Job(q, Claimed, 0, 0)] && claimed.calls == s.calls
    ensures claimed.staleStarts == s.staleStarts && claimed.toStart == s.toStart + multiset([id])
  {
    StagedInsert(s, q, limit(q), workers, late, id, added);
    claimed := added.(jobs := MarkClaimed(added.jobs, [id]), toStart := added.toStart + multiset([id]),
                      returned := added.returned + multiset([id]));
    steps := ClaimOnly(limit, added, q, id, claimed);
  }

  // One more job is submitted, claimed, and cancelled by a handler that read it while it was queued.
  lemma {:induction false} StagedCancel(limit: string -> nat, s: State, q: string, workers: nat, late: nat)
    returns (steps: seq<Step>, s': State)
    requires limit(q) > 0 && workers > 0 && Staged(s, q, limit(q), workers, late, 0, 0)
    ensures IsRun(limit, s, steps) && s' == Exec(limit, s, steps)
    ensures Staged(s', q, limit(q), workers, late + 1, 0, 0)
  {
    var id := workers * limit(q) + late;
    var insert, cancel := Insert(id, Job(q, Queued, 0, 0)), Settle(id, Cancelled, 0);
    var added := Apply(limit, s, insert);
    var claim, claimed := ClaimInserted(limit, s, q, workers, late, id, added);
    StagedSettle(limit, s, q, limit(q), workers, late, id, claimed);
    RunAround(limit, s, insert, claim, cancel);
    steps, s' := [insert] + (claim + [cancel]), Apply(limit, claimed, cancel);
  }

  lemma {:induction false} StagedCancels(limit: string -> nat, s: State, q: string, workers: nat, from: nat, late: nat)
    returns (steps: seq<Step>)
    requires limit(q) > 0 && workers > 0 && from <= late && Staged(s, q, limit(q), workers, from, 0, 0)
    ensures IsRun(limit, s, steps)
    ensures Staged(Exec(limit, s, steps), q, limit(q), workers, late, 0, 0)
    decreases late - from
  {
    if from == late {
      steps := [];
    } else {
      var first, s' := StagedCancel(limit, s, q, workers, from);
      var rest := StagedCancels(limit, s', q, workers, from + 1, late);
      RunAppend(limit, s, first, rest);
      steps := first + rest;
    }
  }

  // ----- Overlapping claims -----

  lemma {:induction false} LockRowsPrefix(order: seq<JobId>, limit: nat)
    requires limit <= |order|
    ensures LockRows(order, {}, limit) == order[..limit]
  {
    if limit == 0 {
    } else {
      LockRowsPrefix(order[1..], limit - 1);
      assert order[..limit] == [order[0]] + order[1..][..limit - 1];
    }
  }

  lemma {:induction false} LockRowsFrom(first: JobId, n: nat, limit: nat)
    requires limit <= n
    ensures LockRows(From(first, n), {}, limit) == From(first, limit)
  {
    LockRowsPrefix(From(first, n), limit);
  }

  lemma {:induction false} StagedCount(
      limit: string -> nat, s: State, q: string, workers: nat, late: nat, counted: nat)
    requires limit(q) > 0 && counted < workers && Staged(s, q, limit(q), workers, late, counted, 0)
    ensures Enabled(s, Count(counted, q))
    ensures Staged(Apply(limit, s, Count(counted, q)), q, limit(q), workers, late, counted + 1, 0)
  {
    assert InFlightSet(s.jobs, q) == {};
  }

  lemma {:induction false} StagedOrder(s: State, q: string, most: nat, workers: nat, late: nat, done: nat, left: nat)
    requires Staged(s, q, most, workers, late, workers, done)
    requires done * most + left == workers * most
    ensures IsOrderBy(s.jobs, q, 1, From(done * most, left))
  {
  }

  lemma {:induction false} StagedLeft(workers: nat, done: nat, most: nat) returns (left: nat)
    requires done < workers
    ensures done * most + left == workers * most && most <= left
  {
    MulMono(done + 1, workers, most);
    MulMono(done, workers, most);
    left := workers * most - done * most;
  }

  lemma {:induction false} StagedLock(limit: string -> nat, s: State, q: string, workers: nat, late: nat, done: nat)
    returns (order: seq<JobId>)
    requires limit(q) > 0 && done < workers && Staged(s, q, limit(q), workers, late, workers, done)
    ensures Enabled(s, Lock(done, 1, order))
    ensures Apply(limit, s, Lock(done, 1, order))
            == s.(calls := s.calls[done := Locked(q, limit(q), From(done * limit(q), limit(q)))])
  {
    var most := limit(q);
    var left := StagedLeft(workers, done, most);
    order := From(done * most, left);
    StagedOrder(s, q, most, workers, late, done, left);
    NothingLocked(s.calls);
    LockRowsFrom(done * most, |order|, most);
  }

  lemma {:induction false} StagedCommit(s: State, s': State, q: string, most: nat, workers: nat, late: nat, done: nat)
    requires done < workers && Staged(s, q, most, workers, late, workers, done)
    requires s'.jobs == MarkClaimed(s.jobs, From(done * most, most)) && s'.calls == s.calls[done := Idle]
    requires s'.staleStarts == s.staleStarts && s.toStart <= s'.toStart
    ensures Staged(s', q, most, workers, late, workers, done + 1)
  {
    MulMono(done + 1, workers, most);
    MulMono(done, workers, most);
  }

  lemma {:induction false} StagedClaim(limit: string -> nat, s: State, q: string, workers: nat, late: nat, done: nat)
    returns (order: seq<JobId>, s1: State, s2: State, s3: State)
    requires limit(q) > 0 && done < workers && Staged(s, q, limit(q), workers, late, workers, done)
    ensures Enabled(s, Lock(done, 1, order)) && s1 == Apply(limit, s, Lock(done, 1, order))
    ensures Enabled(s1, Write(done)) && s2 == Apply(limit, s1, Write(done))
    ensures Enabled(s2, Commit(done)) && s3 == Apply(limit, s2, Commit(done))
    ensures Staged(s3, q, limit(q), workers, late, workers, done + 1)
  {
    order := StagedLock(limit, s, q, workers, late, done);
    s1 := Apply(limit, s, Lock(done, 1, order));
    s2 := Apply(limit, s1, Write(done));
    s3 := Apply(limit, s2, Commit(done));
    StagedCommit(s, s3, q, limit(q), workers, late, done);
  }

  lemma {:induction false} StagedRun(
      limit: string -> nat, s: State, q: string, workers: nat, late: nat, counted: nat, done: nat)
    returns (steps: seq<Step>)
    requires limit(q) > 0 && (done > 0 ==> counted == workers)
    requires Staged(s, q, limit(q), workers, late, counted, done)
    ensures IsRun(limit, s, steps)
    ensures Staged(Exec(limit, s, steps), q, limit(q), workers, late, workers, workers)
    decreases workers - counted, workers - done
  {
    if counted < workers {
      StagedCount(limit, s, q, workers, late, counted);
      steps := StagedRun(limit, Apply(limit, s, Count(counted, q)), q, workers, late, counted + 1, done);
      RunCons(limit, s, Count(counted, q), steps);
      steps := [Count(counted, q)] + steps;
    } else if done < workers {
      var order, s1, s2, s3 := StagedClaim(limit, s, q, workers, late, done);
      steps := StagedRun(limit, s3, q, workers, late, counted, done + 1);
      RunCons(limit, s2, Commit(done), steps);
      RunCons(limit, s1, Write(done), [Commit(done)] + steps);
      RunCons(limit, s, Lock(done, 1, order), [Write(done)] + ([Commit(done)] + steps));
      steps := [Lock(done, 1, order)] + ([Write(done)] + ([Commit(done)] + steps));
    } else {
      steps := [];
    }
  }

  lemma {:induction false} StagedInFlight(s: State, q: string, most: nat, workers: nat, late: nat)
    requires Staged(s, q, most, workers, late, workers, workers)
    ensures InFlight(s.jobs, q) == workers * most
  {
    var ids := From(0, workers * most);
    assert InFlightSet(s.jobs, q) == ToSet(ids);
    ToSetSize(ids);
  }

  // ----- Late starts -----

  // The jobs from `first` on have left flight, and their executors have not started them yet.
  ghost predicate Overdue(s: State, q: string, first: JobId, n: nat) {
    forall id: JobId | first <= id < first + n ::
      id in s.jobs && s.jobs[id].queueId == q && !IsInFlight(s.jobs[id].status) && id in s.toStart
  }

  lemma {:induction false} LateStarts(
      limit: string -> nat, s: State, q: string, first: JobId, n: nat) returns (steps: seq<Step>)
    requires Overdue(s, q, first, n) && LockedRows(s.calls) == {}
    ensures IsRun(limit, s, steps)
    ensures var s' := Exec(limit, s, steps);
            InFlight(s'.jobs, q) == InFlight(s.jobs, q) + n && s'.staleStarts[q] == s.staleStarts[q] + n
    decreases n
  {
    if n == 0 {
      steps := [];
    } else {
      var s1 := Apply(limit, s, Start(first));
      InFlightUpdate(s.jobs, first, s.jobs[first].(status := Running), q);
      steps := LateStarts(limit, s1, q, first + 1, n - 1);
      RunCons(limit, s, Start(first), steps);
      steps := [Start(first)] + steps;
    }
  }

  // ----- The bound is exact -----

  // For every limit, every number of workers and every number of late starts, some run fills the
  // whole room.
  lemma {:induction false} RoomCanBeFilled(limit: string -> nat, q: string, workers: nat, late: nat)
    returns (s: State, steps: seq<Step>)
    requires limit(q) > 0 && workers > 0
    ensures Init(s) && IsRun(limit, s, steps) && OverlapAtMost(limit, s, steps, q, workers)
    ensures Exec(limit, s, steps).staleStarts[q] == late
    ensures InFlight(Exec(limit, s, steps).jobs, q) == workers * limit(q) + late
  {
    s := StagedInit(q, limit(q), workers);
    var cancels := StagedCancels(limit, s, q, workers, 0, late);
    var s1 := Exec(limit, s, cancels);
    var claims := StagedRun(limit, s1, q, workers, late, 0, 0);
    var s2 := Exec(limit, s1, claims);
    StagedInFlight(s2, q, limit(q), workers, late);
    NothingLocked(s2.calls);
    var starts := LateStarts(limit, s2, q, workers * limit(q), late);
    RunAppend(limit, s1, claims, starts);
    RunAppend(limit, s, cancels, claims + starts);
    steps := cancels + (claims + starts);
    OverlapByWorkers(limit, s, steps, q);
  }

  // With at most `overlap` claim calls open on the queue at a time and at most `late` late starts,
  // no run puts more than `most` jobs into flight.
  ghost predicate NeverExceeds(limit: string -> nat, q: string, overlap: nat, late: nat, most: nat) {
    forall s, steps | Init(s) && IsRun(limit, s, steps) && OverlapAtMost(limit, s, steps, q, overlap)
        && Exec(limit, s, steps).staleStarts[q] <= late ::
      InFlight(Exec(limit, s, steps).jobs, q) <= most
  }

  // The most that all runs keep to is one limit for each claim call that may be open at once, and
  // one job for each late start.
  lemma {:induction false} InFlightBoundIsExact(limit: string -> nat, q: string, overlap: nat, late: nat, most: nat)
    requires limit(q) > 0 && overlap > 0
    ensures NeverExceeds(limit, q, overlap, late, most) <==> overlap * limit(q) + late <= most
  {
    if overlap * limit(q) + late <= most {
      forall s, steps | Init(s) && IsRun(limit, s, steps) && OverlapAtMost(limit, s, steps, q, overlap)
          && Exec(limit, s, steps).staleStarts[q] <= late
        ensures InFlight(Exec(limit, s, steps).jobs, q) <= most
      {
        ClaimsWithinRoom(limit, s, steps, q, overlap);
      }
    } else {
      var s, steps := RoomCanBeFilled(limit, q, overlap, late);
    }
  }

  // So the queue's own limit holds on all runs exactly when claim calls do not overlap and no
  // executor starts a job that has left flight.
  lemma {:induction false} LimitHoldsIffNoOverlapNorLateStart(limit: string -> nat, q: string, overlap: nat, late: nat)
    requires limit(q) > 0 && overlap > 0
    ensures NeverExceeds(limit, q, overlap, late, limit(q)) <==> overlap == 1 && late == 0
  {
    InFlightBoundIsExact(limit, q, overlap, late, limit(q));
    if overlap > 1 {
      MulMono(2, overlap, limit(q));
    }
  }
}
