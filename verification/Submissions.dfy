// Job submission, single and in batches: an idempotency check outside any transaction, then the
// inserts, guarded by the unique index on (queue_id, idempotency_key).
module Submissions {
  import opened Wrappers

  // The columns of a job row that submission depends on.
  datatype Row = Row(queueId: string, batchId: Option<nat>, idempotencyKey: Option<string>)

  // Two rows the unique index does not admit together. Null keys never clash.
  predicate Clash(a: Row, b: Row) {
    a.queueId == b.queueId && a.idempotencyKey.Some? && a.idempotencyKey == b.idempotencyKey
  }

  // The empty string is falsy, so the check before the insert does not look it up.
  predicate IsLookedUp(r: Row) {
    r.idempotencyKey.Some? && r.idempotencyKey.value != ""
  }

  predicate AnyClash(r: Row, rows: seq<Row>) {
    exists i | 0 <= i < |rows| :: Clash(r, rows[i])
  }

  // What the check finds: some key it looks up is already in the queue.
  predicate FindsConflict(rows: seq<Row>, table: seq<Row>) {
    exists i | 0 <= i < |rows| :: IsLookedUp(rows[i]) && AnyClash(rows[i], table)
  }

  ghost predicate UniqueKeys(rows: seq<Row>) {
    forall i, j | 0 <= i < j < |rows| :: !Clash(rows[i], rows[j])
  }

  ghost predicate Apart(a: seq<Row>, b: seq<Row>) {
    forall i, j | 0 <= i < |a| && 0 <= j < |b| :: !Clash(a[i], b[j])
  }

  // Conflict: refused by the check. Violation: the index refused an insert, all are rolled back.
  datatype Outcome = Created | Conflict | Violation

  // The error handler gives a unique violation the status and the code of a conflict.
  function StatusCode(o: Outcome): int { if o == Created then 201 else 409 }

  // The one difference between the two refusals is that the check names the jobs that have the keys.
  // The index refuses what the check let pass exactly when every row that clashes with the table
  // carries the empty key, and there is such a row or the batch repeats a key.
  lemma {:induction false} OnlyEmptyAndRepeatedKeysPassTheCheck(rows: seq<Row>, table: seq<Row>)
    ensures !FindsConflict(rows, table) && !(UniqueKeys(rows) && Apart(rows, table))
            <==>
            && (forall i | 0 <= i < |rows| && AnyClash(rows[i], table) :: rows[i].idempotencyKey == Some(""))
            && ((exists i | 0 <= i < |rows| :: AnyClash(rows[i], table)) || !UniqueKeys(rows))
  {
    if exists i | 0 <= i < |rows| :: AnyClash(rows[i], table) {
      var i :| 0 <= i < |rows| && AnyClash(rows[i], table);
      var k :| 0 <= k < |table| && Clash(rows[i], table[k]);
      assert !Apart(rows, table);
    } else {
      forall i, k | 0 <= i < |rows| && 0 <= k < |table| ensures !Clash(rows[i], table[k]) {
        assert !AnyClash(rows[i], table);
      }
    }
    forall i | 0 <= i < |rows| && AnyClash(rows[i], table)
      ensures IsLookedUp(rows[i]) <==> rows[i].idempotencyKey != Some("")
    {
      var k :| 0 <= k < |table| && Clash(rows[i], table[k]);
    }
  }

  lemma {:induction false} StorableIff(rows: seq<Row>, table: seq<Row>)
    ensures UniqueKeys(rows) && Apart(rows, table)
            <==> && (forall i, k | 0 <= i < |rows| && 0 <= k < |table|
                       && rows[i].queueId == table[k].queueId && rows[i].idempotencyKey.Some? ::
                       rows[i].idempotencyKey != table[k].idempotencyKey)
                 && (forall i, j | 0 <= i < |rows| && 0 <= j < |rows| && i != j
                       && rows[i].queueId == rows[j].queueId && rows[i].idempotencyKey.Some? ::
                       rows[i].idempotencyKey != rows[j].idempotencyKey)
  {
  }

  lemma {:induction false} ConflictIff(rows: seq<Row>, table: seq<Row>)
    ensures FindsConflict(rows, table)
            <==> exists i, k | 0 <= i < |rows| && 0 <= k < |table| ::
                   && rows[i].queueId == table[k].queueId && rows[i].idempotencyKey == table[k].idempotencyKey
                   && rows[i].idempotencyKey !in {None, Some("")}
    ensures FindsConflict(rows, table) ==> !Apart(rows, table)
  {
    if FindsConflict(rows, table) {
      var i :| 0 <= i < |rows| && IsLookedUp(rows[i]) && AnyClash(rows[i], table);
      var k :| 0 <= k < |table| && Clash(rows[i], table[k]);
    }
    forall i, k | 0 <= i < |rows| && 0 <= k < |table| && rows[i].queueId == table[k].queueId
        && rows[i].idempotencyKey == table[k].idempotencyKey && rows[i].idempotencyKey !in {None, Some("")}
      ensures FindsConflict(rows, table)
    {
      assert Clash(rows[i], table[k]) && AnyClash(rows[i], table) && IsLookedUp(rows[i]);
    }
  }

  class JobTable {
    var rows: seq<Row>

    constructor ()
      ensures rows == []
    {
      rows := [];
    }

    // A submission that no other one interrupts. It is stored whole exactly when its keys are new
    // and distinct; otherwise nothing is stored and the client gets a conflict.
    method Submit(submitted: seq<Row>) returns (o: Outcome)
      modifies this
      ensures o == Created
              <==> && (forall i, k | 0 <= i < |submitted| && 0 <= k < |old(rows)|
                         && submitted[i].queueId == old(rows)[k].queueId && submitted[i].idempotencyKey.Some? ::
                         submitted[i].idempotencyKey != old(rows)[k].idempotencyKey)
                   && (forall i, j | 0 <= i < |submitted| && 0 <= j < |submitted| && i != j
                         && submitted[i].queueId == submitted[j].queueId && submitted[i].idempotencyKey.Some? ::
                         submitted[i].idempotencyKey != submitted[j].idempotencyKey)
      ensures o == Conflict
              <==> exists i, k | 0 <= i < |submitted| && 0 <= k < |old(rows)| ::
                     && submitted[i].queueId == old(rows)[k].queueId
                     && submitted[i].idempotencyKey == old(rows)[k].idempotencyKey
                     && submitted[i].idempotencyKey !in {None, Some("")}
      ensures StatusCode(o) == 409 <==> o != Created
      ensures rows == if o == Created then old(rows) + submitted else old(rows)
    {
      StorableIff(submitted, rows);
      ConflictIff(submitted, rows);
      if FindsConflict(submitted, rows) {
        return Conflict;
      }
      var inserted := InsertAll(submitted);
      return if inserted then Created else Violation;
    }

    // The transaction: all rows, or none when the index refuses one.
    method InsertAll(submitted: seq<Row>) returns (ok: bool)
      modifies this
      ensures ok <==> UniqueKeys(submitted) && Apart(submitted, old(rows))
      ensures rows == if ok then old(rows) + submitted else old(rows)
    {
      var stored := rows;
      var i := 0;
      while i < |submitted|
        invariant 0 <= i <= |submitted|
        invariant rows == old(rows)
        invariant stored == rows + submitted[..i]
        invariant UniqueKeys(submitted[..i]) && Apart(submitted[..i], rows)
      {
        if AnyClash(submitted[i], stored) {
          ghost var k :| 0 <= k < |stored| && Clash(submitted[i], stored[k]);
          return false;
        }
        assert forall k | 0 <= k < i :: stored[|rows| + k] == submitted[k];
        assert forall k | 0 <= k < |rows| :: stored[k] == rows[k];
        stored := stored + [submitted[i]];
        i := i + 1;
      }
      assert submitted[..i] == submitted;
      rows := stored;
      return true;
    }
  }
}
