// Claiming jobs: a count of the jobs in flight, then SELECT ... FOR UPDATE SKIP LOCKED, UPDATE
// and COMMIT, by any number of workers over one shared table.
module ClaimProtocol {
  import opened Wrappers

  type JobId = nat

  datatype Job = Job(queueId: string, status: JobStatus, priority: int, runAt: int)

  type Table = map<JobId, Job>

  // ----- The claim query -----

  predicate Eligible(jobs: Table, q: string, now: int, id: JobId) {
    id in jobs && jobs[id].queueId == q && jobs[id].status == Queued && jobs[id].runAt <= now
  }

  // ORDER BY priority DESC, run_at ASC lets `a` come before `b`.
  predicate MayPrecede(a: Job, b: Job) {
    a.priority > b.priority || (a.priority == b.priority && a.runAt <= b.runAt)
  }

  ghost predicate Distinct(ids: seq<JobId>) {
    forall i, j | 0 <= i < j < |ids| :: ids[i] != ids[j]
  }

  // `order` lists the rows that satisfy the WHERE clause as the ORDER BY clause allows.
  ghost predicate IsOrderBy(jobs: Table, q: string, now: int, order: seq<JobId>) {
    && Distinct(order)
    && (forall i | 0 <= i < |order| :: Eligible(jobs, q, now, order[i]))
    && (forall id | Eligible(jobs, q, now, id) :: id in order)
    && (forall i, j | 0 <= i < j < |order| :: MayPrecede(jobs[order[i]], jobs[order[j]]))
  }

  // Walks the ordered rows, skips those that another transaction has locked and locks the
  // others until the limit is reached.
  function LockRows(order: seq<JobId>, locked: set<JobId>, limit: nat): seq<JobId> {
    if |order| == 0 || limit == 0 then []
    else if order[0] in locked then LockRows(order[1..], locked, limit)
    else [order[0]] + LockRows(order[1..], locked, limit - 1)
  }

  // ----- Protocol state -----

  // Where one worker's claim call stands. `slots` is what the count left to claim.
  datatype Call =
    | Idle
    | Counted(q: string, slots: nat)
    | Locked(q: string, slots: nat, ids: seq<JobId>)
    | Written(q: string, slots: nat, ids: seq<JobId>)

  function Held(c: Call): seq<JobId> {
    if c.Locked? || c.Written? then c.ids else []
  }

  function LockedRows(calls: seq<Call>): set<JobId> {
    set w, id | 0 <= w < |calls| && id in Held(calls[w]) :: id
  }

  lemma {:induction false} LockedRowsKept(calls: seq<Call>, w: nat, c: Call)
    requires w < |calls| && Held(c) == Held(calls[w])
    ensures LockedRows(calls[w := c]) == LockedRows(calls)
  {
    forall v, id | 0 <= v < |calls|
      ensures id in Held(calls[w := c][v]) <==> id in Held(calls[v])
    {
    }
  }

  // The committed table, the claim call of each worker, the jobs that claim calls have returned and
  // executors have not started yet, and three histories: how often each job entered `queued`, how
  // often a claim call returned it, and, by queue, how often the executor set a job to `running`
  // that was no longer in flight.
  datatype State = State(
    jobs: Table,
    calls: seq<Call>,
    toStart: multiset<JobId>,
    entered: multiset<JobId>,
    returned: multiset<JobId>,
    staleStarts: multiset<string>)

  predicate IsInFlight(s: JobStatus) { s == Claimed || s == Running }

  function InFlight(jobs: Table, q: string): nat {
    |InFlightSet(jobs, q)|
  }

  function InFlightSet(jobs: Table, q: string): set<JobId> {
    set id | id in jobs && jobs[id].queueId == q && IsInFlight(jobs[id].status)
  }

  function MarkClaimed(jobs: Table, ids: seq<JobId>): Table {
    map id | id in jobs :: if id in ids then jobs[id].(status := Claimed) else jobs[id]
  }

  function SlotsLeft(limit: nat, inFlight: nat): nat {
    if inFlight <= limit then limit - inFlight else 0
  }

  // ----- Steps -----

  // The environment inserts jobs (submissions and the cron materializer), starts them
  // (executor), and settles them: completion, retry, dead letter, requeue after a crash, cancel.
  // Those writes name only the row, not the status they expect to find there.
  datatype Step =
    | Count(w: nat, q: string)
    | Lock(w: nat, now: int, order: seq<JobId>)
    | Write(w: nat)
    | Commit(w: nat)
    | Abort(w: nat)
    | Insert(id: JobId, job: Job)
    | Start(id: JobId)
    | Settle(id: JobId, status: JobStatus, runAt: int)

  ghost predicate Enabled(s: State, step: Step) {
    match step
    case Count(w, q) => w < |s.calls| && s.calls[w].Idle?
    case Lock(w, now, order) =>
      w < |s.calls| && s.calls[w].Counted? && IsOrderBy(s.jobs, s.calls[w].q, now, order)
    case Write(w) => w < |s.calls| && s.calls[w].Locked? && |s.calls[w].ids| > 0
    case Commit(w) =>
      w < |s.calls| && (s.calls[w].Written? || (s.calls[w].Locked? && |s.calls[w].ids| == 0))
    case Abort(w) => w < |s.calls| && !s.calls[w].Idle?
    case Insert(id, job) => id !in s.jobs && (job.status == Queued || job.status == Scheduled)
    // An update waits for the transaction that has the row locked. The executor starts what a claim
    // call returned, whatever has become of the row since.
    case Start(id) => id in s.jobs && id in s.toStart && id !in LockedRows(s.calls)
    case Settle(id, status, runAt) =>
      id in s.jobs && id !in LockedRows(s.calls) && !IsInFlight(status)
  }

  function Apply(limit: string -> nat, s: State, step: Step): State
    requires Enabled(s, step)
  {
    match step
    case Count(w, q) =>
      var available := SlotsLeft(limit(q), InFlight(s.jobs, q));
      if available == 0 then s else s.(calls := s.calls[w := Counted(q, available)])
    case Lock(w, now, order) =>
      var c := s.calls[w];
      s.(calls := s.calls[w := Locked(c.q, c.slots, LockRows(order, LockedRows(s.calls), c.slots))])
    case Write(w) =>
      var c := s.calls[w];
      s.(calls := s.calls[w := Written(c.q, c.slots, c.ids)])
    case Commit(w) =>
      var ids := s.calls[w].ids;
      s.(jobs := MarkClaimed(s.jobs, ids), calls := s.calls[w := Idle],
         toStart := s.toStart + multiset(ids), returned := s.returned + multiset(ids))
    case Abort(w) => s.(calls := s.calls[w := Idle])
    case Insert(id, job) =>
      s.(jobs := s.jobs[id := job],
         entered := if job.status == Queued then s.entered + multiset{id} else s.entered)
    case Start(id) =>
      s.(jobs := s.jobs[id := s.jobs[id].(status := Running)],
         toStart := s.toStart - multiset{id},
         staleStarts := if IsInFlight(s.jobs[id].status) then s.staleStarts
                        else s.staleStarts + multiset{s.jobs[id].queueId})
    case Settle(id, status, runAt) =>
      s.(jobs := s.jobs[id := s.jobs[id].(status := status, runAt := runAt)],
         entered := if status == Queued && s.jobs[id].status != Queued then s.entered + multiset{id}
                    else s.entered)
  }

  // ----- Runs -----

  ghost predicate IsRun(limit: string -> nat, s: State, steps: seq<Step>)
    decreases |steps|
  {
    |steps| > 0 ==> Enabled(s, steps[0]) && IsRun(limit, Apply(limit, s, steps[0]), steps[1..])
  }

  ghost function Exec(limit: string -> nat, s: State, steps: seq<Step>): State
    requires IsRun(limit, s, steps)
    decreases |steps|
  {
    if |steps| == 0 then s else Exec(limit, Apply(limit, s, steps[0]), steps[1..])
  }

  // All workers idle, nothing in flight, nothing returned yet.
  ghost predicate Init(s: State) {
    && (forall w | 0 <= w < |s.calls| :: s.calls[w].Idle?)
    && (forall id | id in s.jobs :: !IsInFlight(s.jobs[id].status))
    && s.toStart == s.returned == multiset{}
    && s.staleStarts == multiset{}
  }
}
