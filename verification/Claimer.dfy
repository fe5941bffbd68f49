// The claimer's statements against a mutable jobs table.
module Claimer {
  import opened Wrappers
  import opened ClaimProtocol
  import opened ClaimTheorems

  lemma {:induction false} LockRowsAt(order: seq<JobId>, locked: set<JobId>, limit: nat, i: nat)
    requires i < |order| && limit > 0
    ensures LockRows(order[i..], locked, limit)
            == if order[i] in locked then LockRows(order[i + 1..], locked, limit)
               else [order[i]] + LockRows(order[i + 1..], locked, limit - 1)
  {
    assert order[i..][1..] == order[i + 1..];
  }

  // Row by row: skip what another transaction has locked, lock what is free, stop at the limit.
  method SkipLocked(order: seq<JobId>, locked: set<JobId>, limit: nat) returns (ids: seq<JobId>)
    ensures ids == LockRows(order, locked, limit)
  {
    ids := [];
    var i := 0;
    assert order[0..] == order;
    while i < |order| && |ids| < limit
      invariant 0 <= i <= |order| && |ids| <= limit
      invariant LockRows(order, locked, limit) == ids + LockRows(order[i..], locked, limit - |ids|)
    {
      LockRowsAt(order, locked, limit - |ids|, i);
      if order[i] !in locked {
        ids := ids + [order[i]];
      }
      i := i + 1;
    }
    assert ids + [] == ids;
  }

  // The jobs in flight are the claimed and running ones.
  lemma {:induction false} ClaimedOrRunning(jobs: Table, q: string)
    ensures InFlight(jobs, q)
            == |set id | id in jobs && jobs[id].queueId == q && jobs[id].status in {Claimed, Running}|
  {
    assert InFlightSet(jobs, q)
        == set id | id in jobs && jobs[id].queueId == q && jobs[id].status in {Claimed, Running};
  }

  // `ids` are the best rows, as many as the claimed and running jobs of the queue leave slots for.
  ghost predicate IsFreeClaim(jobs: Table, q: string, now: int, locked: set<JobId>, limit: nat, ids: seq<JobId>) {
    var n := |set id | id in jobs && jobs[id].queueId == q && jobs[id].status in {Claimed, Running}|;
    IsBestClaim(jobs, q, now, locked, if n < limit then limit - n else 0, ids)
  }

  lemma {:induction false} FreeSlotsTakeTheBest(
      jobs: Table, q: string, now: int, order: seq<JobId>, locked: set<JobId>, limit: nat)
    requires IsOrderBy(jobs, q, now, order)
    ensures IsFreeClaim(jobs, q, now, locked, limit, LockRows(order, locked, SlotsLeft(limit, InFlight(jobs, q))))
  {
    ClaimedOrRunning(jobs, q);
    ClaimTakesTheBest(jobs, q, now, order, locked, SlotsLeft(limit, InFlight(jobs, q)));
  }

  class JobsDb {
    var jobs: Table
    var calls: seq<Call>
    ghost var toStart: multiset<JobId>
    ghost var entered: multiset<JobId>
    ghost var returned: multiset<JobId>
    ghost var staleStarts: multiset<string>

    ghost function Snapshot(): State
      reads this
    {
      State(jobs, calls, toStart, entered, returned, staleStarts)
    }

    // One process per worker, all idle over an empty table.
    constructor (workers: nat)
      ensures Init(Snapshot()) && |calls| == workers && jobs == map[]
    {
      jobs := map[];
      calls := seq(workers, _ => Idle);
      toStart := multiset{};
      entered := multiset{};
      returned := multiset{};
      staleStarts := multiset{};
    }

    // The count outside the transaction: the call opens with the slots that the claimed and running
    // jobs of the queue leave, and not at all when they leave none.
    method CountInFlight(limit: string -> nat, w: nat, q: string) returns (open: bool)
      requires Enabled(Snapshot(), Count(w, q))
      modifies this`calls
      ensures Snapshot() == Apply(limit, old(Snapshot()), Count(w, q))
      ensures var n := |set id | id in jobs && jobs[id].queueId == q && jobs[id].status in {Claimed, Running}|;
              && open == (n < limit(q))
              && calls == old(calls)[w := if n < limit(q) then Counted(q, limit(q) - n) else Idle]
    {
      ClaimedOrRunning(jobs, q);
      assert calls[w := Idle] == calls;
      var inFlight := InFlight(jobs, q);
      var available := if limit(q) >= inFlight then limit(q) - inFlight else 0;
      if available == 0 {
        return false;
      }
      calls := calls[w := Counted(q, available)];
      return true;
    }

    method SelectForUpdateSkipLocked(limit: string -> nat, w: nat, now: int, order: seq<JobId>)
      requires Enabled(Snapshot(), Lock(w, now, order))
      modifies this`calls
      ensures Snapshot() == Apply(limit, old(Snapshot()), Lock(w, now, order))
      ensures var c := old(calls[w]);
              calls == old(calls)[w := Locked(c.q, c.slots, LockRows(order, LockedRows(old(calls)), c.slots))]
    {
      var c := calls[w];
      var ids := SkipLocked(order, LockedRows(calls), c.slots);
      calls := calls[w := Locked(c.q, c.slots, ids)];
    }

    // The UPDATE becomes visible to others only with the commit.
    method UpdateToClaimed(limit: string -> nat, w: nat)
      requires Enabled(Snapshot(), Write(w))
      modifies this`calls
      ensures Snapshot() == Apply(limit, old(Snapshot()), Write(w))
    {
      calls := calls[w := Written(calls[w].q, calls[w].slots, calls[w].ids)];
    }

    method SetClaimed(ids: seq<JobId>)
      modifies this`jobs
      ensures jobs == MarkClaimed(old(jobs), ids)
    {
      var i := 0;
      while i < |ids|
        invariant 0 <= i <= |ids|
        invariant jobs == MarkClaimed(old(jobs), ids[..i])
      {
        if ids[i] in jobs {
          jobs := jobs[ids[i] := jobs[ids[i]].(status := Claimed)];
        }
        i := i + 1;
      }
      assert ids[..i] == ids;
    }

    method CommitClaim(limit: string -> nat, w: nat) returns (ids: seq<JobId>)
      requires Enabled(Snapshot(), Commit(w))
      modifies this
      ensures Snapshot() == Apply(limit, old(Snapshot()), Commit(w))
      ensures ids == old(calls[w].ids) && calls == old(calls)[w := Idle]
      ensures jobs.Keys == old(jobs).Keys
      ensures forall id | id in jobs ::
                jobs[id] == if id in ids then old(jobs)[id].(status := Claimed) else old(jobs)[id]
    {
      ids := calls[w].ids;
      SetClaimed(ids);
      calls := calls[w := Idle];
      toStart := toStart + multiset(ids);
      returned := returned + multiset(ids);
    }

    method Rollback(limit: string -> nat, w: nat)
      requires Enabled(Snapshot(), Abort(w))
      modifies this`calls
      ensures Snapshot() == Apply(limit, old(Snapshot()), Abort(w))
      ensures calls == old(calls)[w := Idle]
    {
      calls := calls[w := Idle];
    }

    // The transaction of a counted call, when nothing interrupts it.
    method ClaimInTransaction(limit: string -> nat, w: nat, now: int, order: seq<JobId>) returns (ids: seq<JobId>)
      requires Enabled(Snapshot(), Lock(w, now, order))
      modifies this
      ensures ids == LockRows(order, LockedRows(old(calls)), old(calls[w].slots))
      ensures jobs == MarkClaimed(old(jobs), ids) && calls == old(calls)[w := Idle]
      ensures toStart == old(toStart) + multiset(ids) && returned == old(returned) + multiset(ids)
      ensures entered == old(entered) && staleStarts == old(staleStarts)
    {
      SelectForUpdateSkipLocked(limit, w, now, order);
      if |calls[w].ids| > 0 {
        UpdateToClaimed(limit, w);
      }
      ids := CommitClaim(limit, w);
    }

    // One whole claim call that nothing interrupts. `order` is the order in which the database
    // delivers the eligible rows.
    method ClaimJobs(limit: string -> nat, w: nat, q: string, now: int, order: seq<JobId>) returns (ids: seq<JobId>)
      requires Enabled(Snapshot(), Count(w, q)) && IsOrderBy(jobs, q, now, order)
      modifies this
      ensures ids == LockRows(order, LockedRows(old(calls)), SlotsLeft(limit(q), InFlight(old(jobs), q)))
      ensures IsFreeClaim(old(jobs), q, now, LockedRows(old(calls)), limit(q), ids)
      ensures jobs == MarkClaimed(old(jobs), ids) && calls == old(calls)
      ensures toStart == old(toStart) + multiset(ids) && returned == old(returned) + multiset(ids)
      ensures entered == old(entered) && staleStarts == old(staleStarts)
    {
      ghost var before := calls;
      FreeSlotsTakeTheBest(jobs, q, now, order, LockedRows(calls), limit(q));
      var open := CountInFlight(limit, w, q);
      if !open {
        assert MarkClaimed(jobs, []) == jobs;
        return [];
      }
      LockedRowsKept(before, w, calls[w]);
      ids := ClaimInTransaction(limit, w, now, order);
      assert calls == before;
    }
  }
}
