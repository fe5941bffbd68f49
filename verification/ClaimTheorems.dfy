// What every run of the claim protocol guarantees.
module ClaimTheorems {
  import opened Arithmetic
  import opened Wrappers
  import opened ClaimProtocol

  // ----- The claim query takes the best rows -----

  // `ids` are the first `limit` unlocked eligible rows under ORDER BY priority DESC, run_at ASC.
  ghost predicate IsBestClaim(jobs: Table, q: string, now: int, locked: set<JobId>, limit: nat, ids: seq<JobId>) {
    && Distinct(ids) && |ids| <= limit
    && (forall i | 0 <= i < |ids| :: IsFree(jobs, q, now, locked, ids[i]))
    && (forall i, j | 0 <= i < j < |ids| :: IsNoWorse(jobs[ids[i]], jobs[ids[j]]))
    && (forall i, id | 0 <= i < |ids| && IsFree(jobs, q, now, locked, id) && id !in ids ::
          IsNoWorse(jobs[ids[i]], jobs[id]))
    && (|ids| < limit ==> forall id | IsFree(jobs, q, now, locked, id) :: id in ids)
  }

  // A due queued row of the queue that no transaction holds.
  ghost predicate IsFree(jobs: Table, q: string, now: int, locked: set<JobId>, id: JobId) {
    && id in jobs && id !in locked
    && jobs[id] == Job(q, Queued, jobs[id].priority, jobs[id].runAt) && now >= jobs[id].runAt
  }

  // No higher priority on the other side, and with equal ones no earlier time.
  ghost predicate IsNoWorse(a: Job, b: Job) {
    !(b.priority > a.priority) && !(b.priority == a.priority && b.runAt < a.runAt)
  }

  ghost predicate Ranked(jobs: Table, order: seq<JobId>) {
    && (forall i | 0 <= i < |order| :: order[i] in jobs)
    && (forall i, j | 0 <= i < j < |order| :: MayPrecede(jobs[order[i]], jobs[order[j]]))
  }

  lemma {:induction false} LockRowsMembers(order: seq<JobId>, locked: set<JobId>, limit: nat)
    requires Distinct(order)
    ensures var ids := LockRows(order, locked, limit);
            && Distinct(ids) && |ids| <= limit
            && (forall id | id in ids :: id in order && id !in locked)
            && (|ids| < limit ==> forall id | id in order && id !in locked :: id in ids)
  {
    if |order| == 0 || limit == 0 {
    } else {
      LockRowsMembers(order[1..], locked, if order[0] in locked then limit else limit - 1);
      assert forall id | id in order :: id == order[0] || id in order[1..];
      assert order[0] !in order[1..];
    }
  }

  lemma {:induction false} LockRowsRank(jobs: Table, order: seq<JobId>, locked: set<JobId>, limit: nat)
    requires Distinct(order) && Ranked(jobs, order)
    ensures var ids := LockRows(order, locked, limit);
            && Ranked(jobs, ids)
            && (forall a, b | a in ids && b in order && b !in locked && b !in ids :: MayPrecede(jobs[a], jobs[b]))
  {
    if |order| == 0 || limit == 0 {
    } else {
      var rest := order[1..];
      LockRowsRank(jobs, rest, locked, if order[0] in locked then limit else limit - 1);
      LockRowsMembers(rest, locked, if order[0] in locked then limit else limit - 1);
      assert forall id | id in order :: id == order[0] || id in rest;
      assert forall id | id in rest :: MayPrecede(jobs[order[0]], jobs[id]);
    }
  }

  // The claim query returns the best unlocked rows: none left behind ranks above one returned,
  // and it returns fewer than its limit only when none is left.
  lemma {:induction false} ClaimTakesTheBest(
      jobs: Table, q: string, now: int, order: seq<JobId>, locked: set<JobId>, limit: nat)
    requires IsOrderBy(jobs, q, now, order)
    ensures IsBestClaim(jobs, q, now, locked, limit, LockRows(order, locked, limit))
  {
    LockRowsMembers(order, locked, limit);
    LockRowsRank(jobs, order, locked, limit);
    var ids := LockRows(order, locked, limit);
    forall i | 0 <= i < |ids| ensures IsFree(jobs, q, now, locked, ids[i]) {
      assert ids[i] in ids;
    }
    forall id | IsFree(jobs, q, now, locked, id) ensures id in order {
      assert Eligible(jobs, q, now, id);
    }
  }

  // An order that the ORDER BY clause allows always exists, so the query is never stuck.
  lemma {:induction false} OrderExists(jobs: Table, q: string, now: int) returns (order: seq<JobId>)
    ensures IsOrderBy(jobs, q, now, order)
  {
    order := SortRows(jobs, set id | id in jobs && Eligible(jobs, q, now, id));
    assert forall i | 0 <= i < |order| :: order[i] in order;
  }

  lemma {:induction false} SortRows(jobs: Table, ids: set<JobId>) returns (order: seq<JobId>)
    requires ids <= jobs.Keys
    ensures Distinct(order) && Ranked(jobs, order)
    ensures forall id :: id in order <==> id in ids
    decreases |ids|
  {
    if ids == {} {
      order := [];
    } else {
      var best := BestRow(jobs, ids);
      var rest := SortRows(jobs, ids - {best});
      order := [best] + rest;
      assert forall i | 0 <= i < |rest| :: rest[i] in rest;
    }
  }

  lemma {:induction false} PrecedenceIsTotal(a: Job, b: Job, c: Job)
    ensures MayPrecede(a, b) || MayPrecede(b, a)
    ensures MayPrecede(a, b) && MayPrecede(b, c) ==> MayPrecede(a, c)
  {
  }

  lemma {:induction false} BestRow(jobs: Table, ids: set<JobId>) returns (best: JobId)
    requires ids != {} && ids <= jobs.Keys
    ensures best in ids
    ensures forall id | id in ids :: MayPrecede(jobs[best], jobs[id])
    decreases |ids|
  {
    var first :| first in ids;
    var others := ids - {first};
    if others == {} {
      best := first;
      assert forall id | id in ids :: id == first || id in others;
    } else {
      var other := BestRow(jobs, others);
      best := if MayPrecede(jobs[other], jobs[first]) then other else first;
      forall id | id in ids ensures MayPrecede(jobs[best], jobs[id]) {
        if id != first {
          assert id in others && MayPrecede(jobs[other], jobs[id]);
          PrecedenceIsTotal(jobs[first], jobs[other], jobs[id]);
        }
      }
    }
  }

  // ----- Row locks -----

  ghost predicate CallOk(jobs: Table, c: Call) {
    && |Held(c)| <= (if c.Idle? then 0 else c.slots)
    && Distinct(Held(c))
    && (forall id | id in Held(c) :: id in jobs && jobs[id].queueId == c.q && jobs[id].status == Queued)
  }

  // Each open call holds at most its slots, all of them queued rows of its queue, and no row is
  // locked by two open transactions.
  ghost predicate LocksOk(s: State) {
    && (forall w | 0 <= w < |s.calls| :: CallOk(s.jobs, s.calls[w]))
    && (forall v, w, id | 0 <= v < w < |s.calls| && id in Held(s.calls[v]) :: id !in Held(s.calls[w]))
  }

  lemma {:induction false} InitLocks(s: State)
    requires Init(s)
    ensures LocksOk(s)
  {
  }

  lemma {:induction false} CallChangeKeepsLocks(s: State, w: nat, c: Call)
    requires LocksOk(s) && w < |s.calls| && CallOk(s.jobs, c)
    requires forall id | id in Held(c) :: id in Held(s.calls[w]) || id !in LockedRows(s.calls)
    ensures LocksOk(s.(calls := s.calls[w := c]))
  {
  }

  lemma {:induction false} JobsChangeKeepsLocks(s: State, jobs: Table)
    requires LocksOk(s)
    requires forall id | id in LockedRows(s.calls) :: id in s.jobs ==> id in jobs && jobs[id] == s.jobs[id]
    ensures LocksOk(s.(jobs := jobs))
  {
  }

  lemma {:induction false} LocksStep(limit: string -> nat, s: State, step: Step)
    requires LocksOk(s) && Enabled(s, step)
    ensures LocksOk(Apply(limit, s, step))
  {
    match step
    case Count(w, q) =>
      CallChangeKeepsLocks(s, w, Counted(q, SlotsLeft(limit(q), InFlight(s.jobs, q))));
    case Lock(w, now, order) =>
      var c := s.calls[w];
      var ids := LockRows(order, LockedRows(s.calls), c.slots);
      ClaimTakesTheBest(s.jobs, c.q, now, order, LockedRows(s.calls), c.slots);
      CallChangeKeepsLocks(s, w, Locked(c.q, c.slots, ids));
    case Write(w) =>
      var c := s.calls[w];
      assert CallOk(s.jobs, c);
      CallChangeKeepsLocks(s, w, Written(c.q, c.slots, c.ids));
    case Commit(w) =>
      CommitKeepsLocks(s, w);
    case Abort(w) =>
      CallChangeKeepsLocks(s, w, Idle);
    case Insert(id, job) =>
      JobsChangeKeepsLocks(s, s.jobs[id := job]);
    case Start(id) =>
      JobsChangeKeepsLocks(s, s.jobs[id := s.jobs[id].(status := Running)]);
    case Settle(id, status, runAt) =>
      JobsChangeKeepsLocks(s, s.jobs[id := s.jobs[id].(status := status, runAt := runAt)]);
  }

  lemma {:induction false} CommitKeepsLocks(s: State, w: nat)
    requires LocksOk(s) && w < |s.calls|
    ensures LocksOk(s.(jobs := MarkClaimed(s.jobs, Held(s.calls[w])), calls := s.calls[w := Idle]))
  {
  }

  // In every reachable state of every run, no row is locked by two open claim transactions.
  lemma {:induction false} NoRowIsLockedTwice(limit: string -> nat, s: State, steps: seq<Step>)
    requires LocksOk(s) && IsRun(limit, s, steps)
    ensures LocksOk(Exec(limit, s, steps))
    decreases |steps|
  {
    if |steps| == 0 {
    } else {
      LocksStep(limit, s, steps[0]);
      NoRowIsLockedTwice(limit, Apply(limit, s, steps[0]), steps[1..]);
    }
  }

  // ----- A job is claimed at most once for each time it is queued -----

  function QueuedOnce(jobs: Table, id: JobId): nat {
    if id in jobs && jobs[id].status == Queued then 1 else 0
  }

  lemma {:induction false} DistinctOnce(ids: seq<JobId>, id: JobId)
    requires Distinct(ids)
    ensures multiset(ids)[id] == if id in ids then 1 else 0
  {
    if |ids| == 0 {
    } else {
      var front := ids[..|ids| - 1];
      assert ids == front + [ids[|ids| - 1]];
      DistinctOnce(front, id);
    }
  }

  lemma {:induction false} ClaimsStep(limit: string -> nat, s: State, step: Step, id: JobId)
    requires LocksOk(s) && Enabled(s, step)
    ensures var s' := Apply(limit, s, step);
            s'.returned[id] + QueuedOnce(s'.jobs, id) - s'.entered[id]
            <= s.returned[id] + QueuedOnce(s.jobs, id) - s.entered[id]
    ensures s.entered[id] <= Apply(limit, s, step).entered[id]
  {
    if step.Commit? {
      var c := s.calls[step.w];
      assert CallOk(s.jobs, c);
      DistinctOnce(c.ids, id);
    }
  }

  // Over any stretch of any run, the claims that return a job number at most the times it enters
  // `queued` in that stretch, plus one if it starts queued, minus one if it ends queued.
  lemma {:induction false} ClaimedOncePerEntry(limit: string -> nat, s: State, steps: seq<Step>, id: JobId)
    requires LocksOk(s) && IsRun(limit, s, steps)
    ensures var s' := Exec(limit, s, steps);
            s'.returned[id] + QueuedOnce(s'.jobs, id) - s'.entered[id]
            <= s.returned[id] + QueuedOnce(s.jobs, id) - s.entered[id]
    decreases |steps|
  {
    if |steps| == 0 {
    } else {
      ClaimsStep(limit, s, steps[0], id);
      LocksStep(limit, s, steps[0]);
      ClaimedOncePerEntry(limit, Apply(limit, s, steps[0]), steps[1..], id);
    }
  }

  // ----- The concurrency limit -----

  function SlotsOn(c: Call, q: string): nat { if c.Idle? || c.q != q then 0 else c.slots }

  function OpenOn(c: Call, q: string): nat { if c.Idle? || c.q != q then 0 else 1 }

  function Slots(calls: seq<Call>, q: string): nat {
    if |calls| == 0 then 0 else SlotsOn(calls[0], q) + Slots(calls[1..], q)
  }

  function OpenCalls(calls: seq<Call>, q: string): nat {
    if |calls| == 0 then 0 else OpenOn(calls[0], q) + OpenCalls(calls[1..], q)
  }

  lemma {:induction false} CallUpdate(calls: seq<Call>, w: nat, c: Call, q: string)
    requires w < |calls|
    ensures Slots(calls[w := c], q) == Slots(calls, q) - SlotsOn(calls[w], q) + SlotsOn(c, q)
    ensures OpenCalls(calls[w := c], q) == OpenCalls(calls, q) - OpenOn(calls[w], q) + OpenOn(c, q)
  {
    if w > 0 {
      CallUpdate(calls[1..], w - 1, c, q);
      assert calls[w := c][1..] == calls[1..][w - 1 := c];
    } else {
      assert calls[w := c][1..] == calls[1..];
    }
  }

  lemma {:induction false} SlotsAreBounded(calls: seq<Call>, q: string, most: nat)
    requires forall w | 0 <= w < |calls| :: SlotsOn(calls[w], q) <= most
    ensures Slots(calls, q) <= OpenCalls(calls, q) * most
  {
    if |calls| == 0 {
    } else {
      SlotsAreBounded(calls[1..], q, most);
      OneMore(OpenCalls(calls[1..], q), most);
    }
  }

  // Room for `overlap` simultaneous claim calls of `most` slots each, counting both what is in
  // flight and what open calls may still claim; each stale start takes one more.
  ghost predicate WithinRoom(s: State, q: string, overlap: nat, most: nat) {
    && InFlight(s.jobs, q) + Slots(s.calls, q) <= overlap * most + s.staleStarts[q]
    && (forall w | 0 <= w < |s.calls| :: SlotsOn(s.calls[w], q) <= most)
  }

  lemma {:induction false} InFlightUpdate(jobs: Table, id: JobId, job: Job, q: string)
    requires id in jobs ==> job.queueId == jobs[id].queueId
    ensures InFlight(jobs[id := job], q) ==
            InFlight(jobs, q) - (if id in InFlightSet(jobs, q) then 1 else 0)
            + (if job.queueId == q && IsInFlight(job.status) then 1 else 0)
  {
    var now, was := InFlightSet(jobs[id := job], q), InFlightSet(jobs, q);
    if job.queueId == q && IsInFlight(job.status) {
      assert now == was + {id};
    } else {
      assert now == was - {id};
    }
  }

  lemma {:induction false} InFlightAfterClaim(jobs: Table, ids: seq<JobId>, claimQueue: string, q: string)
    requires forall id | id in ids :: id in jobs && jobs[id].queueId == claimQueue && jobs[id].status == Queued
    ensures InFlight(MarkClaimed(jobs, ids), q) <= InFlight(jobs, q) + if claimQueue == q then |ids| else 0
  {
    var now, was := InFlightSet(MarkClaimed(jobs, ids), q), InFlightSet(jobs, q);
    if claimQueue == q {
      assert now == was + ToSet(ids);
      ToSetSize(ids);
    } else {
      assert now == was;
    }
  }

  function ToSet(ids: seq<JobId>): set<JobId> { set id | id in ids }

  lemma {:induction false} ToSetSize(ids: seq<JobId>)
    ensures |ToSet(ids)| <= |ids|
    ensures Distinct(ids) ==> |ToSet(ids)| == |ids|
  {
    if |ids| == 0 {
    } else {
      ToSetSize(ids[1..]);
      assert ToSet(ids) == ToSet(ids[1..]) + {ids[0]};
      assert Distinct(ids) ==> ids[0] !in ids[1..];
    }
  }

  lemma {:induction false} RoomAfterCount(limit: string -> nat, s: State, w: nat, q': string, q: string, overlap: nat)
    requires WithinRoom(s, q, overlap, limit(q)) && Enabled(s, Count(w, q'))
    requires OpenCalls(Apply(limit, s, Count(w, q')).calls, q) <= overlap
    ensures WithinRoom(Apply(limit, s, Count(w, q')), q, overlap, limit(q))
  {
    var available := SlotsLeft(limit(q'), InFlight(s.jobs, q'));
    if available == 0 {
    } else {
      CallUpdate(s.calls, w, Counted(q', available), q);
      if q' == q {
        SlotsAreBounded(s.calls, q, limit(q));
        MulMono(OpenCalls(s.calls, q) + 1, overlap, limit(q));
        OneMore(OpenCalls(s.calls, q), limit(q));
      }
    }
  }

  lemma {:induction false} RoomStep(limit: string -> nat, s: State, step: Step, q: string, overlap: nat)
    requires LocksOk(s) && Enabled(s, step)
    requires WithinRoom(s, q, overlap, limit(q))
    requires OpenCalls(Apply(limit, s, step).calls, q) <= overlap
    ensures WithinRoom(Apply(limit, s, step), q, overlap, limit(q))
  {
    match step
    case Count(w, q') =>
      RoomAfterCount(limit, s, w, q', q, overlap);
    case Lock(w, now, order) =>
      RoomAfterCallChange(s, Apply(limit, s, step), w, q, overlap, limit(q));
    case Write(w) =>
      RoomAfterCallChange(s, Apply(limit, s, step), w, q, overlap, limit(q));
    case Commit(w) =>
      assert CallOk(s.jobs, s.calls[w]);
      RoomAfterCommit(s, Apply(limit, s, step), w, q, overlap, limit(q));
    case Abort(w) =>
      RoomAfterCallChange(s, Apply(limit, s, step), w, q, overlap, limit(q));
    case Insert(id, job) =>
      RoomAfterRowChange(s, Apply(limit, s, step), id, job, q, overlap, limit(q));
    case Start(id) =>
      RoomAfterRowChange(s, Apply(limit, s, step), id, s.jobs[id].(status := Running), q, overlap, limit(q));
    case Settle(id, status, runAt) =>
      var job := s.jobs[id].(status := status, runAt := runAt);
      RoomAfterRowChange(s, Apply(limit, s, step), id, job, q, overlap, limit(q));
  }

  lemma {:induction false} RoomAfterCallChange(s: State, s': State, w: nat, q: string, overlap: nat, most: nat)
    requires WithinRoom(s, q, overlap, most) && w < |s.calls| == |s'.calls|
    requires s' == s.(calls := s.calls[w := s'.calls[w]]) && SlotsOn(s'.calls[w], q) <= SlotsOn(s.calls[w], q)
    ensures WithinRoom(s', q, overlap, most)
  {
    CallUpdate(s.calls, w, s'.calls[w], q);
  }

  // A commit turns slots into jobs in flight, at most one for one.
  lemma {:induction false} RoomAfterCommit(s: State, s': State, w: nat, q: string, overlap: nat, most: nat)
    requires WithinRoom(s, q, overlap, most) && w < |s.calls| && !s.calls[w].Idle?
    requires CallOk(s.jobs, s.calls[w])
    requires s'.jobs == MarkClaimed(s.jobs, Held(s.calls[w])) && s'.calls == s.calls[w := Idle]
    requires s'.staleStarts == s.staleStarts
    ensures WithinRoom(s', q, overlap, most)
  {
    CallUpdate(s.calls, w, Idle, q);
    InFlightAfterClaim(s.jobs, Held(s.calls[w]), s.calls[w].q, q);
  }

  // A write to one row takes room only when it puts a job into flight, and that is counted.
  lemma {:induction false} RoomAfterRowChange(
      s: State, s': State, id: JobId, job: Job, q: string, overlap: nat, most: nat)
    requires WithinRoom(s, q, overlap, most)
    requires id in s.jobs ==> job.queueId == s.jobs[id].queueId
    requires s'.jobs == s.jobs[id := job] && s'.calls == s.calls
    requires s'.staleStarts[q] >= s.staleStarts[q]
             + if job.queueId == q && IsInFlight(job.status) && id !in InFlightSet(s.jobs, q) then 1 else 0
    ensures WithinRoom(s', q, overlap, most)
  {
    InFlightUpdate(s.jobs, id, job, q);
  }

  // At every state of the run at most `overlap` claim calls are open on the queue.
  ghost predicate OverlapAtMost(limit: string -> nat, s: State, steps: seq<Step>, q: string, overlap: nat)
    requires IsRun(limit, s, steps)
    decreases |steps|
  {
    && OpenCalls(s.calls, q) <= overlap
    && (|steps| > 0 ==> OverlapAtMost(limit, Apply(limit, s, steps[0]), steps[1..], q, overlap))
  }

  lemma {:induction false} RoomRun(limit: string -> nat, s: State, steps: seq<Step>, q: string, overlap: nat)
    requires LocksOk(s) && IsRun(limit, s, steps) && OverlapAtMost(limit, s, steps, q, overlap)
    requires WithinRoom(s, q, overlap, limit(q))
    ensures WithinRoom(Exec(limit, s, steps), q, overlap, limit(q))
    decreases |steps|
  {
    if |steps| == 0 {
    } else {
      LocksStep(limit, s, steps[0]);
      RoomStep(limit, s, steps[0], q, overlap);
      RoomRun(limit, Apply(limit, s, steps[0]), steps[1..], q, overlap);
    }
  }

  lemma {:induction false} InitRoom(s: State, q: string, overlap: nat, most: nat)
    requires Init(s)
    ensures WithinRoom(s, q, overlap, most)
  {
    assert InFlightSet(s.jobs, q) == {};
    SlotsAreBounded(s.calls, q, 0);
  }

  // Jobs in flight and slots counted but not yet spent together never exceed one full limit for
  // each claim call that may be open at once, plus one for each job that an executor started
  // after it had left flight.
  lemma {:induction false} ClaimsWithinRoom(limit: string -> nat, s: State, steps: seq<Step>, q: string, overlap: nat)
    requires Init(s) && IsRun(limit, s, steps) && OverlapAtMost(limit, s, steps, q, overlap)
    ensures var s' := Exec(limit, s, steps);
            InFlight(s'.jobs, q) + Slots(s'.calls, q) <= overlap * limit(q) + s'.staleStarts[q]
  {
    InitLocks(s);
    InitRoom(s, q, overlap, limit(q));
    RoomRun(limit, s, steps, q, overlap);
  }

  lemma {:induction false} OpenCallsBounded(calls: seq<Call>, q: string)
    ensures OpenCalls(calls, q) <= |calls|
  {
    if |calls| == 0 {
    } else {
      OpenCallsBounded(calls[1..], q);
    }
  }

  // Every run of N workers overlaps at most N calls.
  lemma {:induction false} OverlapByWorkers(limit: string -> nat, s: State, steps: seq<Step>, q: string)
    requires IsRun(limit, s, steps)
    ensures OverlapAtMost(limit, s, steps, q, |s.calls|)
    decreases |steps|
  {
    OpenCallsBounded(s.calls, q);
    if |steps| == 0 {
    } else {
      OverlapByWorkers(limit, Apply(limit, s, steps[0]), steps[1..], q);
    }
  }
}
