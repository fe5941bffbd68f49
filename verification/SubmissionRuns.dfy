// Submissions in any interleaving: checks, inserts and commits of different requests mix.
module SubmissionRuns {
  import opened Wrappers
  import opened Submissions

  // Checking: before the check. Inserting(n): the first n rows are inserted but not committed.
  datatype Phase = Checking | Inserting(n: nat) | Committed | Refused | RolledBack

  datatype Request = Request(rows: seq<Row>, phase: Phase)

  // `order` lists the committed requests, oldest first.
  datatype State = State(table: seq<Row>, requests: seq<Request>, order: seq<nat>)

  datatype Step =
    | Arrive(rows: seq<Row>)
    | Check(p: nat)
    | Insert(p: nat)
    | Commit(p: nat)
    | Abort(p: nat)

  // What a request has inserted and not yet committed.
  function Pending(r: Request): seq<Row> {
    if r.phase.Inserting? && r.phase.n <= |r.rows| then r.rows[..r.phase.n] else []
  }

  // An insert waits while another open transaction has inserted the same key.
  ghost predicate Waits(s: State, p: nat, row: Row) {
    exists o | 0 <= o < |s.requests| && o != p :: AnyClash(row, Pending(s.requests[o]))
  }

  predicate IsInserting(s: State, p: nat) {
    p < |s.requests| && s.requests[p].phase.Inserting? && s.requests[p].phase.n <= |s.requests[p].rows|
  }

  ghost predicate Enabled(s: State, step: Step) {
    match step
    // All rows of a batch carry its fresh id; a single submission is one row without one.
    case Arrive(rows) =>
      || (|rows| == 1 && rows[0].batchId.None?)
      || (|rows| > 0 && rows[0].batchId.Some?
          && (forall i | 0 <= i < |rows| :: rows[i].batchId == rows[0].batchId)
          && (forall p, i | 0 <= p < |s.requests| && 0 <= i < |s.requests[p].rows| ::
                s.requests[p].rows[i].batchId != rows[0].batchId))
    case Check(p) => p < |s.requests| && s.requests[p].phase.Checking?
    case Insert(p) =>
      IsInserting(s, p) && s.requests[p].phase.n < |s.requests[p].rows|
      && !Waits(s, p, s.requests[p].rows[s.requests[p].phase.n])
    case Commit(p) => IsInserting(s, p) && s.requests[p].phase.n == |s.requests[p].rows|
    case Abort(p) => IsInserting(s, p)
  }

  function SetPhase(s: State, p: nat, phase: Phase): State
    requires p < |s.requests|
  {
    s.(requests := s.requests[p := s.requests[p].(phase := phase)])
  }

  function Apply(s: State, step: Step): State
    requires Enabled(s, step)
  {
    match step
    case Arrive(rows) => s.(requests := s.requests + [Request(rows, Checking)])
    case Check(p) =>
      SetPhase(s, p, if FindsConflict(s.requests[p].rows, s.table) then Refused else Inserting(0))
    case Insert(p) =>
      var r := s.requests[p];
      var row := r.rows[r.phase.n];
      // A unique violation aborts the whole transaction.
      if AnyClash(row, s.table) || AnyClash(row, Pending(r)) then SetPhase(s, p, RolledBack)
      else SetPhase(s, p, Inserting(r.phase.n + 1))
    case Commit(p) =>
      var s' := SetPhase(s, p, Committed);
      s'.(table := s.table + s.requests[p].rows, order := s.order + [p])
    case Abort(p) => SetPhase(s, p, RolledBack)
  }

  ghost predicate IsRun(s: State, steps: seq<Step>)
    decreases |steps|
  {
    |steps| > 0 ==> Enabled(s, steps[0]) && IsRun(Apply(s, steps[0]), steps[1..])
  }

  ghost function Exec(s: State, steps: seq<Step>): State
    requires IsRun(s, steps)
    decreases |steps|
  {
    if |steps| == 0 then s else Exec(Apply(s, steps[0]), steps[1..])
  }

  const EMPTY := State([], [], [])

  // ----- Keys -----

  // No two rows clash, whether committed or still pending in an open transaction.
  ghost predicate KeysOk(s: State) {
    && UniqueKeys(s.table)
    && (forall p | 0 <= p < |s.requests| ::
          UniqueKeys(Pending(s.requests[p])) && Apart(Pending(s.requests[p]), s.table))
    && (forall o, p | 0 <= o < |s.requests| && 0 <= p < |s.requests| && o != p ::
          Apart(Pending(s.requests[o]), Pending(s.requests[p])))
  }

  lemma {:induction false} PhaseKeepsKeys(s: State, p: nat, phase: Phase)
    requires KeysOk(s) && p < |s.requests|
    requires Pending(s.requests[p].(phase := phase)) == []
    ensures KeysOk(SetPhase(s, p, phase))
  {
  }

  lemma {:induction false} InsertKeepsKeys(s: State, p: nat)
    requires KeysOk(s) && Enabled(s, Insert(p))
    requires var r := s.requests[p];
             !AnyClash(r.rows[r.phase.n], s.table) && !AnyClash(r.rows[r.phase.n], Pending(r))
    ensures KeysOk(SetPhase(s, p, Inserting(s.requests[p].phase.n + 1)))
  {
    var r := s.requests[p];
    var n := r.phase.n;
    var s' := SetPhase(s, p, Inserting(n + 1));
    assert Pending(s'.requests[p]) == Pending(r) + [r.rows[n]];
    forall o | 0 <= o < |s.requests| && o != p
      ensures Apart(Pending(s.requests[o]), Pending(s'.requests[p]))
           && Apart(Pending(s'.requests[p]), Pending(s.requests[o]))
    {
      assert !AnyClash(r.rows[n], Pending(s.requests[o]));
      assert Apart(Pending(s.requests[o]), Pending(r)) && Apart(Pending(r), Pending(s.requests[o]));
    }
  }

  lemma {:induction false} CommitKeepsKeys(s: State, p: nat)
    requires KeysOk(s) && Enabled(s, Commit(p))
    ensures KeysOk(Apply(s, Commit(p)))
  {
    var rows := s.requests[p].rows;
    var s' := Apply(s, Commit(p));
    assert Pending(s.requests[p]) == rows;
    forall o | 0 <= o < |s.requests| ensures Apart(Pending(s'.requests[o]), s'.table) {
      if o != p {
        assert Apart(Pending(s.requests[o]), s.table);
        assert Apart(Pending(s.requests[o]), rows);
      }
    }
  }

  lemma {:induction false} ArriveKeepsKeys(s: State, r: Request)
    requires KeysOk(s) && r.phase.Checking?
    ensures KeysOk(s.(requests := s.requests + [r]))
  {
  }

  lemma {:induction false} KeysStep(s: State, step: Step)
    requires KeysOk(s) && Enabled(s, step)
    ensures KeysOk(Apply(s, step))
  {
    if step.Arrive? {
      ArriveKeepsKeys(s, Request(step.rows, Checking));
    } else if step.Commit? {
      CommitKeepsKeys(s, step.p);
    } else {
      var phase := Apply(s, step).requests[step.p].phase;
      if phase.Inserting? && phase.n > 0 {
        InsertKeepsKeys(s, step.p);
      } else {
        PhaseKeepsKeys(s, step.p, phase);
      }
    }
  }

  // ----- Whole requests or nothing -----

  // The rows of the listed requests, one request after the other.
  function Whole(requests: seq<Request>, order: seq<nat>): seq<Row>
    requires forall i | 0 <= i < |order| :: order[i] < |requests|
  {
    if |order| == 0 then [] else Whole(requests, order[..|order| - 1]) + requests[order[|order| - 1]].rows
  }

  // The table is the committed requests in commit order, each of them whole and once.
  ghost predicate WholeOk(s: State) {
    && (forall i | 0 <= i < |s.order| :: s.order[i] < |s.requests|)
    && (forall i, j | 0 <= i < j < |s.order| :: s.order[i] != s.order[j])
    && (forall p | 0 <= p < |s.requests| :: s.requests[p].phase.Committed? <==> p in s.order)
    && s.table == Whole(s.requests, s.order)
  }

  lemma {:induction false} WholeFrame(a: seq<Request>, b: seq<Request>, order: seq<nat>)
    requires |a| <= |b|
    requires forall i | 0 <= i < |order| :: order[i] < |a| && a[order[i]].rows == b[order[i]].rows
    ensures Whole(a, order) == Whole(b, order)
  {
    if |order| == 0 {
    } else {
      WholeFrame(a, b, order[..|order| - 1]);
    }
  }

  lemma {:induction false} PhaseKeepsWhole(s: State, p: nat, phase: Phase)
    requires WholeOk(s) && p < |s.requests| && !s.requests[p].phase.Committed? && !phase.Committed?
    ensures WholeOk(SetPhase(s, p, phase))
  {
    WholeFrame(s.requests, SetPhase(s, p, phase).requests, s.order);
  }

  lemma {:induction false} CommitKeepsWhole(s: State, p: nat)
    requires WholeOk(s) && Enabled(s, Commit(p))
    ensures WholeOk(Apply(s, Commit(p)))
  {
    var s' := Apply(s, Commit(p));
    var n := |s.order|;
    assert p !in s.order;
    assert s'.order[..n] == s.order && s'.order[n] == p;
    WholeFrame(s.requests, s'.requests, s.order);
    assert s'.table == Whole(s'.requests, s'.order);
  }

  lemma {:induction false} ArriveKeepsWhole(s: State, r: Request)
    requires WholeOk(s) && r.phase.Checking?
    ensures WholeOk(s.(requests := s.requests + [r]))
  {
    WholeFrame(s.requests, s.requests + [r], s.order);
    assert |s.requests| !in s.order;
  }

  lemma {:induction false} WholeStep(s: State, step: Step)
    requires WholeOk(s) && Enabled(s, step)
    ensures WholeOk(Apply(s, step))
  {
    if step.Arrive? {
      ArriveKeepsWhole(s, Request(step.rows, Checking));
    } else if step.Commit? {
      CommitKeepsWhole(s, step.p);
    } else {
      PhaseKeepsWhole(s, step.p, Apply(s, step).requests[step.p].phase);
    }
  }

  // In every interleaving of single and batch submissions, no two jobs of a queue share a non-null
  // idempotency key, and the table consists of whole requests, each stored at most once.
  lemma {:induction false} SubmissionsAreIdempotentAndAtomic(s: State, steps: seq<Step>)
    requires KeysOk(s) && WholeOk(s) && IsRun(s, steps)
    ensures KeysOk(Exec(s, steps)) && WholeOk(Exec(s, steps))
    decreases |steps|
  {
    if |steps| == 0 {
    } else {
      KeysStep(s, steps[0]);
      WholeStep(s, steps[0]);
      SubmissionsAreIdempotentAndAtomic(Apply(s, steps[0]), steps[1..]);
    }
  }

  lemma {:induction false} StartsEmpty()
    ensures KeysOk(EMPTY) && WholeOk(EMPTY) && BatchesOk(EMPTY)
  {
  }

  // So in every state that a run reaches from the empty table, two jobs of one queue never carry the
  // same non-null key.
  lemma {:induction false} NoKeyIsStoredTwice(steps: seq<Step>, i: nat, j: nat)
    requires IsRun(EMPTY, steps) && i < j < |Exec(EMPTY, steps).table|
    ensures var a, b := Exec(EMPTY, steps).table[i], Exec(EMPTY, steps).table[j];
            a.queueId == b.queueId ==> a.idempotencyKey == None || a.idempotencyKey != b.idempotencyKey
  {
    StartsEmpty();
    SubmissionsAreIdempotentAndAtomic(EMPTY, steps);
    assert !Clash(Exec(EMPTY, steps).table[i], Exec(EMPTY, steps).table[j]);
  }

  // ----- Batches -----

  function CountBatch(rows: seq<Row>, b: nat): nat {
    if |rows| == 0 then 0
    else CountBatch(rows[..|rows| - 1], b) + if rows[|rows| - 1].batchId == Some(b) then 1 else 0
  }

  // Batch ids are never shared between requests.
  ghost predicate BatchesOk(s: State) {
    && (forall p | 0 <= p < |s.requests| :: HasOneBatch(s.requests[p].rows))
    && (forall o, p | 0 <= o < |s.requests| && 0 <= p < |s.requests| && o != p ::
          OtherBatch(s.requests[o].rows, s.requests[p].rows))
  }

  ghost predicate HasOneBatch(rows: seq<Row>) {
    |rows| > 0 && forall i | 0 <= i < |rows| :: rows[i].batchId == rows[0].batchId
  }

  ghost predicate OtherBatch(a: seq<Row>, b: seq<Row>) {
    |a| > 0 && |b| > 0 && (a[0].batchId.Some? ==> a[0].batchId != b[0].batchId)
  }

  lemma {:induction false} BatchesStep(s: State, step: Step)
    requires BatchesOk(s) && Enabled(s, step)
    ensures BatchesOk(Apply(s, step))
  {
    var s' := Apply(s, step);
    if step.Arrive? {
      assert HasOneBatch(step.rows);
      forall p | 0 <= p < |s.requests|
        ensures OtherBatch(s.requests[p].rows, step.rows) && OtherBatch(step.rows, s.requests[p].rows)
      {
        assert HasOneBatch(s.requests[p].rows);
      }
    } else {
      assert forall p | 0 <= p < |s.requests| :: s'.requests[p].rows == s.requests[p].rows;
    }
  }

  lemma {:induction false} CountBatchAppend(a: seq<Row>, b: seq<Row>, id: nat)
    ensures CountBatch(a + b, id) == CountBatch(a, id) + CountBatch(b, id)
  {
    if |b| == 0 {
      assert a + b == a;
    } else {
      CountBatchAppend(a, b[..|b| - 1], id);
      assert (a + b)[..|a + b| - 1] == a + b[..|b| - 1];
    }
  }

  lemma {:induction false} CountOwnBatch(rows: seq<Row>, batchId: Option<nat>, id: nat)
    requires forall i | 0 <= i < |rows| :: rows[i].batchId == batchId
    ensures CountBatch(rows, id) == if batchId == Some(id) then |rows| else 0
  {
    if |rows| == 0 {
    } else {
      CountOwnBatch(rows[..|rows| - 1], batchId, id);
    }
  }

  lemma {:induction false} CountInWhole(s: State, order: seq<nat>, p: nat, id: nat)
    requires BatchesOk(s) && p < |s.requests| && s.requests[p].rows[0].batchId == Some(id)
    requires forall i | 0 <= i < |order| :: order[i] < |s.requests|
    requires forall i, j | 0 <= i < j < |order| :: order[i] != order[j]
    ensures CountBatch(Whole(s.requests, order), id) == if p in order then |s.requests[p].rows| else 0
  {
    if |order| == 0 {
    } else {
      var front, last := order[..|order| - 1], order[|order| - 1];
      var rows := s.requests[last].rows;
      assert order == front + [last];
      CountInWhole(s, front, p, id);
      CountBatchAppend(Whole(s.requests, front), rows, id);
      assert HasOneBatch(rows);
      CountOwnBatch(rows, rows[0].batchId, id);
      assert last != p ==> OtherBatch(s.requests[p].rows, rows);
    }
  }

  // Whatever else runs, a batch has all of its rows in the table, or none.
  lemma {:induction false} BatchIsAllOrNothing(s: State, steps: seq<Step>, p: nat, id: nat)
    requires WholeOk(s) && KeysOk(s) && BatchesOk(s) && IsRun(s, steps)
    requires var s' := Exec(s, steps);
             p < |s'.requests| && |s'.requests[p].rows| > 0 && s'.requests[p].rows[0].batchId == Some(id)
    ensures var s' := Exec(s, steps);
            CountBatch(s'.table, id) == if s'.requests[p].phase.Committed? then |s'.requests[p].rows| else 0
    decreases |steps|
  {
    if |steps| > 0 {
      KeysStep(s, steps[0]);
      WholeStep(s, steps[0]);
      BatchesStep(s, steps[0]);
      BatchIsAllOrNothing(Apply(s, steps[0]), steps[1..], p, id);
    } else {
      CountInWhole(s, s.order, p, id);
    }
  }

  // ----- One commit per key -----

  lemma {:induction false} WholeIsApart(requests: seq<Request>, order: seq<nat>, i: nat, j: nat)
    requires forall k | 0 <= k < |order| :: order[k] < |requests|
    requires UniqueKeys(Whole(requests, order)) && i < j < |order|
    ensures Apart(requests[order[i]].rows, requests[order[j]].rows)
  {
    var n := |order| - 1;
    var front := Whole(requests, order[..n]);
    var all := Whole(requests, order);
    assert forall k | 0 <= k < |front| :: all[k] == front[k];
    if j < n {
      WholeIsApart(requests, order[..n], i, j);
    } else {
      forall x, y | 0 <= x < |requests[order[i]].rows| && 0 <= y < |requests[order[j]].rows|
        ensures !Clash(requests[order[i]].rows[x], requests[order[j]].rows[y])
      {
        var at := WholeHolds(requests, order[..n], i, x);
        assert all[|front| + y] == requests[order[j]].rows[y];
      }
    }
  }

  lemma {:induction false} WholeHolds(requests: seq<Request>, order: seq<nat>, i: nat, x: nat) returns (at: nat)
    requires forall k | 0 <= k < |order| :: order[k] < |requests|
    requires i < |order| && x < |requests[order[i]].rows|
    ensures at < |Whole(requests, order)| && Whole(requests, order)[at] == requests[order[i]].rows[x]
  {
    var n := |order| - 1;
    if i < n {
      at := WholeHolds(requests, order[..n], i, x);
    } else {
      at := |Whole(requests, order[..n])| + x;
    }
  }

  // Of any number of requests that carry the same key for one queue, at most one is ever stored.
  lemma {:induction false} OneCommitPerKey(s: State, o: nat, p: nat)
    requires KeysOk(s) && WholeOk(s) && o < |s.requests| && p < |s.requests| && o != p
    requires s.requests[o].phase.Committed? && s.requests[p].phase.Committed?
    ensures Apart(s.requests[o].rows, s.requests[p].rows)
  {
    var i :| 0 <= i < |s.order| && s.order[i] == o;
    var j :| 0 <= j < |s.order| && s.order[j] == p;
    if i < j {
      WholeIsApart(s.requests, s.order, i, j);
    } else {
      WholeIsApart(s.requests, s.order, j, i);
    }
  }

  // ----- A request that nothing interrupts -----

  lemma {:induction false} RunCons(s: State, step: Step, rest: seq<Step>)
    requires Enabled(s, step) && IsRun(Apply(s, step), rest)
    ensures IsRun(s, [step] + rest) && Exec(s, [step] + rest) == Exec(Apply(s, step), rest)
  {
    assert ([step] + rest)[1..] == rest;
  }

  ghost predicate OnlyOpen(s: State, p: nat) {
    p < |s.requests| && forall o | 0 <= o < |s.requests| && o != p :: Pending(s.requests[o]) == []
  }

  // From its first n rows on, the request inserts the others and commits, or is rolled back at the
  // first clash.
  lemma {:induction false} InsertsAsSteps(s: State, p: nat) returns (steps: seq<Step>)
    requires OnlyOpen(s, p) && IsInserting(s, p) && KeysOk(s)
    ensures IsRun(s, steps)
    ensures var rows := s.requests[p].rows;
            && Exec(s, steps).table == (if UniqueKeys(rows) && Apart(rows, s.table) then s.table + rows else s.table)
            && p < |Exec(s, steps).requests|
            && Exec(s, steps).requests[p].phase
               == if UniqueKeys(rows) && Apart(rows, s.table) then Committed else RolledBack
    decreases |s.requests[p].rows| - s.requests[p].phase.n
  {
    var r := s.requests[p];
    var n := r.phase.n;
    if n == |r.rows| {
      steps := [Commit(p)];
      assert Pending(r) == r.rows;
      RunCons(s, Commit(p), []);
      assert [Commit(p)] + [] == steps;
    } else {
      var s' := Apply(s, Insert(p));
      KeysStep(s, Insert(p));
      if AnyClash(r.rows[n], s.table) || AnyClash(r.rows[n], Pending(r)) {
        steps := [Insert(p)];
        RunCons(s, Insert(p), []);
        assert [Insert(p)] + [] == steps;
        ClashShows(r.rows, n, s.table);
      } else {
        var rest := InsertsAsSteps(s', p);
        RunCons(s, Insert(p), rest);
        steps := [Insert(p)] + rest;
      }
    }
  }

  lemma {:induction false} ClashShows(rows: seq<Row>, n: nat, table: seq<Row>)
    requires n < |rows| && (AnyClash(rows[n], table) || AnyClash(rows[n], rows[..n]))
    ensures !(UniqueKeys(rows) && Apart(rows, table))
  {
    if AnyClash(rows[n], rows[..n]) {
      var k :| 0 <= k < n && Clash(rows[n], rows[..n][k]);
      assert Clash(rows[k], rows[n]);
    }
  }

  // A request that runs while no other transaction is open stores all its rows if its keys are
  // distinct and new, and nothing otherwise, and is refused by the check exactly when that finds a
  // key, as the uninterrupted handler does.
  lemma {:induction false} LoneRequest(s: State, rows: seq<Row>) returns (steps: seq<Step>)
    requires KeysOk(s) && Enabled(s, Arrive(rows))
    requires forall o | 0 <= o < |s.requests| :: Pending(s.requests[o]) == []
    ensures IsRun(s, steps)
    ensures Exec(s, steps).table == if UniqueKeys(rows) && Apart(rows, s.table) then s.table + rows else s.table
    ensures |Exec(s, steps).requests| > |s.requests|
    ensures Exec(s, steps).requests[|s.requests|].phase
            == if FindsConflict(rows, s.table) then Refused
               else if UniqueKeys(rows) && Apart(rows, s.table) then Committed
               else RolledBack
  {
    var p := |s.requests|;
    var s1 := Apply(s, Arrive(rows));
    var s2 := Apply(s1, Check(p));
    KeysStep(s, Arrive(rows));
    KeysStep(s1, Check(p));
    if FindsConflict(rows, s.table) {
      steps := [];
      ConflictIff(rows, s.table);
    } else {
      steps := InsertsAsSteps(s2, p);
    }
    RunCons(s1, Check(p), steps);
    RunCons(s, Arrive(rows), [Check(p)] + steps);
    steps := [Arrive(rows)] + ([Check(p)] + steps);
  }
}
