// Job counts by queue and status, built from the rows of GROUP BY queries.
module QueueStats {
  import opened Wrappers

  datatype Job = Job(queueId: string, status: JobStatus)

  datatype Group = Group(queueId: string, status: JobStatus, count: nat)

  function Count(jobs: seq<Job>, q: string, s: JobStatus): nat {
    if |jobs| == 0 then 0 else Count(jobs[1..], q, s) + if jobs[0] == Job(q, s) then 1 else 0
  }

  function CountQueue(jobs: seq<Job>, q: string): nat {
    if |jobs| == 0 then 0 else CountQueue(jobs[1..], q) + if jobs[0].queueId == q then 1 else 0
  }

  // The positions of the jobs of the queue that have one of the statuses.
  function Positions(jobs: seq<Job>, q: string, statuses: set<JobStatus>): set<nat> {
    set i: nat | i < |jobs| && jobs[i].queueId == q && jobs[i].status in statuses
  }

  lemma {:induction false} PositionsStep(jobs: seq<Job>, q: string, statuses: set<JobStatus>)
    requires |jobs| > 0
    ensures |Positions(jobs, q, statuses)|
            == |Positions(jobs[1..], q, statuses)|
               + if jobs[0].queueId == q && jobs[0].status in statuses then 1 else 0
  {
    var later, all := Positions(jobs[1..], q, statuses), Positions(jobs, q, statuses);
    var moved := set i | i in later :: i + 1;
    Moved(later, moved);
    forall i: nat | i > 0 ensures i in all <==> i in moved {
      assert i in all <==> i - 1 in later;
    }
    assert all == moved + if jobs[0].queueId == q && jobs[0].status in statuses then {0} else {};
  }

  lemma {:induction false} Moved(a: set<nat>, b: set<nat>)
    requires b == set i | i in a :: i + 1
    ensures |a| == |b|
    decreases a
  {
    if a == {} {
    } else {
      var x :| x in a;
      var rest := set i | i in a - {x} :: i + 1;
      forall k | k in b && k != x + 1 ensures k in rest {
        var i :| i in a && k == i + 1;
        assert i in a - {x};
      }
      assert b == rest + {x + 1} && x + 1 !in rest;
      Moved(a - {x}, rest);
    }
  }

  // The counts are the numbers of positions whose job is in the queue, and has the status.
  lemma {:induction false} CountsAreDirect(jobs: seq<Job>, q: string, s: JobStatus)
    ensures Count(jobs, q, s) == |set i | 0 <= i < |jobs| && jobs[i].queueId == q && jobs[i].status == s|
    ensures CountQueue(jobs, q) == |set i | 0 <= i < |jobs| && jobs[i].queueId == q|
  {
    CountsArePositions(jobs, q, s);
    assert Positions(jobs, q, {s}) == set i | 0 <= i < |jobs| && jobs[i].queueId == q && jobs[i].status == s;
    forall i | 0 <= i < |jobs| ensures jobs[i].status in ALL_STATUSES {
      AllStatusesAreListed(jobs[i].status);
    }
    assert Positions(jobs, q, ALL_STATUSES) == set i | 0 <= i < |jobs| && jobs[i].queueId == q;
  }

  const ALL_STATUSES := {Queued, Scheduled, Claimed, Running, Completed, Failed, DeadLetter, Cancelled}

  lemma {:induction false} AllStatusesAreListed(s: JobStatus)
    ensures s in ALL_STATUSES
  {
    match s
    case Queued => case Scheduled => case Claimed => case Running =>
    case Completed => case Failed => case DeadLetter => case Cancelled =>
  }

  lemma {:induction false} CountsArePositions(jobs: seq<Job>, q: string, s: JobStatus)
    ensures Count(jobs, q, s) == |Positions(jobs, q, {s})|
    ensures CountQueue(jobs, q) == |Positions(jobs, q, ALL_STATUSES)|
  {
    if jobs == [] {
    } else {
      CountsArePositions(jobs[1..], q, s);
      PositionsStep(jobs, q, {s});
      PositionsStep(jobs, q, ALL_STATUSES);
      AllStatusesAreListed(jobs[0].status);
    }
  }

  // GROUP BY queue_id, status over the jobs of the listed queues: one row for each group that is
  // not empty.
  ghost predicate IsGroupBy(jobs: seq<Job>, queues: set<string>, rows: seq<Group>) {
    && (forall i, j | 0 <= i < j < |rows| :: !(rows[i].queueId == rows[j].queueId && rows[i].status == rows[j].status))
    && (forall i | 0 <= i < |rows| ::
          && rows[i].queueId in queues && rows[i].count > 0
          && rows[i].count == Count(jobs, rows[i].queueId, rows[i].status))
    && (forall q, s | q in queues && Count(jobs, q, s) > 0 ::
          exists i | 0 <= i < |rows| :: rows[i].queueId == q && rows[i].status == s)
  }

  type StatusCounts = map<string, map<JobStatus, nat>>

  // A missing queue or status stands for zero.
  function CountIn(m: StatusCounts, q: string, s: JobStatus): nat {
    if q in m && s in m[q] then m[q][s] else 0
  }

  // What the rows say about a group: the count of its row, zero without one.
  function Listed(rows: seq<Group>, q: string, s: JobStatus): nat {
    if |rows| == 0 then 0
    else
      var last := rows[|rows| - 1];
      if last.queueId == q && last.status == s then last.count else Listed(rows[..|rows| - 1], q, s)
  }

  lemma {:induction false} ListedIsSomeRow(rows: seq<Group>, q: string, s: JobStatus)
    ensures if exists i | 0 <= i < |rows| :: rows[i].queueId == q && rows[i].status == s
            then exists i | 0 <= i < |rows| ::
                   rows[i].queueId == q && rows[i].status == s && Listed(rows, q, s) == rows[i].count
            else Listed(rows, q, s) == 0
  {
    if |rows| == 0 {
    } else {
      var front := rows[..|rows| - 1];
      ListedIsSomeRow(front, q, s);
      assert forall i | 0 <= i < |front| :: front[i] == rows[i];
    }
  }

  lemma {:induction false} ListedIsTheCount(
      jobs: seq<Job>, queues: set<string>, rows: seq<Group>, q: string, s: JobStatus)
    requires IsGroupBy(jobs, queues, rows)
    ensures Listed(rows, q, s) == if q in queues then Count(jobs, q, s) else 0
  {
    ListedIsSomeRow(rows, q, s);
  }

  // The nested map agrees with a direct count for every queue and status.
  method StatusCountMap(ghost jobs: seq<Job>, ghost queues: set<string>, rows: seq<Group>) returns (m: StatusCounts)
    requires IsGroupBy(jobs, queues, rows)
    ensures forall q, s :: CountIn(m, q, s) == if q in queues then Count(jobs, q, s) else 0
  {
    m := map[];
    var i := 0;
    while i < |rows|
      invariant 0 <= i <= |rows|
      invariant forall q, s :: CountIn(m, q, s) == Listed(rows[..i], q, s)
    {
      var row := rows[i];
      assert rows[..i + 1][..i] == rows[..i];
      ghost var before := m;
      if row.queueId !in m {
        m := m[row.queueId := map[]];
      }
      var counts := m[row.queueId];
      m := m[row.queueId := counts[row.status := row.count]];
      forall q, s ensures CountIn(m, q, s) == Listed(rows[..i + 1], q, s) {
        assert CountIn(before, q, s) == Listed(rows[..i], q, s);
      }
      i := i + 1;
    }
    assert rows[..i] == rows;
    forall q, s ensures CountIn(m, q, s) == if q in queues then Count(jobs, q, s) else 0 {
      ListedIsTheCount(jobs, queues, rows, q, s);
    }
  }

  // ----- One queue -----

  ghost predicate HasAllStatuses(m: map<JobStatus, nat>) {
    forall s: JobStatus :: s in m
  }

  function SumOfAll(m: map<JobStatus, nat>): nat
    requires HasAllStatuses(m)
  {
    m[Queued] + m[Scheduled] + m[Claimed] + m[Running] + m[Completed] + m[Failed] + m[DeadLetter] + m[Cancelled]
  }

  const NO_JOBS: map<JobStatus, nat> :=
    map[Queued := 0, Scheduled := 0, Claimed := 0, Running := 0,
        Completed := 0, Failed := 0, DeadLetter := 0, Cancelled := 0]

  lemma {:induction false} NoJobsIsZero()
    ensures HasAllStatuses(NO_JOBS) && SumOfAll(NO_JOBS) == 0
    ensures forall s :: NO_JOBS[s] == 0
  {
    forall s: JobStatus ensures s in NO_JOBS && NO_JOBS[s] == 0 {
      match s
      case Queued => case Scheduled => case Claimed => case Running =>
      case Completed => case Failed => case DeadLetter => case Cancelled =>
    }
  }

  function CountAll(jobs: seq<Job>, q: string): nat {
    Count(jobs, q, Queued) + Count(jobs, q, Scheduled) + Count(jobs, q, Claimed) + Count(jobs, q, Running)
    + Count(jobs, q, Completed) + Count(jobs, q, Failed) + Count(jobs, q, DeadLetter) + Count(jobs, q, Cancelled)
  }

  // Every job of a queue has exactly one status.
  lemma {:induction false} StatusesPartitionTheQueue(jobs: seq<Job>, q: string)
    ensures CountAll(jobs, q) == CountQueue(jobs, q)
  {
    if |jobs| == 0 {
    } else {
      StatusesPartitionTheQueue(jobs[1..], q);
      match jobs[0].status
      case Queued => case Scheduled => case Claimed => case Running =>
      case Completed => case Failed => case DeadLetter => case Cancelled =>
    }
  }

  lemma {:induction false} StatsStep(rows: seq<Group>, q: string, i: nat, m: map<JobStatus, nat>)
    requires i < |rows| && rows[i].queueId == q
    requires forall k | 0 <= k < i :: !(rows[k].queueId == rows[i].queueId && rows[k].status == rows[i].status)
    requires HasAllStatuses(m) && forall s :: m[s] == Listed(rows[..i], q, s)
    ensures var m' := m[rows[i].status := rows[i].count];
            && HasAllStatuses(m') && (forall s :: m'[s] == Listed(rows[..i + 1], q, s))
            && SumOfAll(m') == SumOfAll(m) + rows[i].count
  {
    assert rows[..i + 1][..i] == rows[..i];
    FirstListing(rows, i);
    SumAfterUpdate(m, rows[i].status, rows[i].count);
  }

  // The statistics of one queue: a count for every status, zero included, and a total that is both
  // the sum of the counts and the number of jobs in the queue.
  method Stats(
      ghost jobs: seq<Job>, q: string, rows: seq<Group>) returns (totalJobs: nat, byStatus: map<JobStatus, nat>)
    requires IsGroupBy(jobs, {q}, rows)
    ensures HasAllStatuses(byStatus)
    ensures forall s :: byStatus[s] == Count(jobs, q, s)
    ensures totalJobs == SumOfAll(byStatus) == CountQueue(jobs, q)
  {
    byStatus := NO_JOBS;
    totalJobs := 0;
    NoJobsIsZero();
    var i := 0;
    while i < |rows|
      invariant 0 <= i <= |rows|
      invariant HasAllStatuses(byStatus)
      invariant forall s :: byStatus[s] == Listed(rows[..i], q, s)
      invariant totalJobs == SumOfAll(byStatus)
    {
      StatsStep(rows, q, i, byStatus);
      byStatus := byStatus[rows[i].status := rows[i].count];
      totalJobs := totalJobs + rows[i].count;
      i := i + 1;
    }
    assert rows[..i] == rows;
    ListedIsTheCounts(jobs, q, rows);
    StatusesPartitionTheQueue(jobs, q);
  }

  lemma {:induction false} ListedIsTheCounts(jobs: seq<Job>, q: string, rows: seq<Group>)
    requires IsGroupBy(jobs, {q}, rows)
    ensures forall s :: Listed(rows, q, s) == Count(jobs, q, s)
  {
    forall s ensures Listed(rows, q, s) == Count(jobs, q, s) {
      ListedIsTheCount(jobs, {q}, rows, q, s);
    }
  }

  lemma {:induction false} FirstListing(rows: seq<Group>, i: nat)
    requires i < |rows|
    requires forall k | 0 <= k < i :: !(rows[k].queueId == rows[i].queueId && rows[k].status == rows[i].status)
    ensures Listed(rows[..i], rows[i].queueId, rows[i].status) == 0
  {
    ListedIsSomeRow(rows[..i], rows[i].queueId, rows[i].status);
  }

  lemma {:induction false} SumAfterUpdate(m: map<JobStatus, nat>, s: JobStatus, n: nat)
    requires HasAllStatuses(m) && m[s] == 0
    ensures HasAllStatuses(m[s := n]) && SumOfAll(m[s := n]) == SumOfAll(m) + n
  {
  }
}
