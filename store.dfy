/**
 * The `expenses` table as one session sees it: the committed rows in
 * insertion order and the id that the next inserted row receives.
 */
module Store {
  import opened Wrappers
  import opened Calendar
  import opened Expenses

  /** No two rows share an id (the primary key). */
  predicate UniqueIds(records: seq<Expense>) {
    forall i, j :: 0 <= i < |records| && 0 <= j < |records| && i != j ==> records[i].id != records[j].id
  }

  /**
   * The table's invariant: every row holds a real calendar date, ids are
   * positive, increase in insertion order and stay below `nextId`.
   */
  predicate Consistent(records: seq<Expense>, nextId: int) {
    nextId >= 1
    && (forall i :: 0 <= i < |records| ==> 1 <= records[i].id < nextId && ValidDate(records[i].date))
    && (forall i, j :: 0 <= i < j < |records| ==> records[i].id < records[j].id)
  }

  /** The invariant makes the id a key. */
  lemma ConsistentIdsUnique(records: seq<Expense>, nextId: int)
    requires Consistent(records, nextId)
    ensures UniqueIds(records)
  {
    forall i, j | 0 <= i < |records| && 0 <= j < |records| && i != j
      ensures records[i].id != records[j].id
    {
      if i < j { assert records[i].id < records[j].id; } else { assert records[j].id < records[i].id; }
    }
  }

  /** Appending a row that carries the next id keeps the invariant. */
  lemma AppendKeepsConsistent(records: seq<Expense>, nextId: int, e: Expense)
    requires Consistent(records, nextId)
    requires e.id == nextId && ValidDate(e.date)
    ensures Consistent(records + [e], nextId + 1)
  {
  }

  class ExpenseStore {
    var records: seq<Expense>
    var nextId: int

    ghost predicate Valid()
      reads this
    {
      Consistent(records, nextId)
    }

    /** A freshly created, empty table (`Base.metadata.create_all`). */
    constructor ()
      ensures Valid() && records == [] && nextId == 1
    {
      records := [];
      nextId := 1;
    }

    /**
     * `db.add(expense)` then `db.commit()`: when the commit succeeds the store
     * holds the old rows plus exactly one new row with the draft's fields and a
     * fresh id; when it fails, `db.rollback()` leaves the store exactly as it
     * was. Whether the commit succeeds is decided by the storage backend and
     * is a parameter here.
     */
    method Insert(draft: Draft, commitSucceeds: bool) returns (saved: Option<Expense>)
      requires Valid() && ValidDate(draft.date)
      modifies this
      ensures Valid()
      ensures commitSucceeds ==>
                saved == Some(Stored(draft, old(nextId)))
                && records == old(records) + [saved.value]
                && nextId == old(nextId) + 1
      ensures !commitSucceeds ==> saved == None && records == old(records) && nextId == old(nextId)
    {
      var expense := Stored(draft, nextId);
      var pending := records + [expense];
      if commitSucceeds {
        AppendKeepsConsistent(records, nextId, expense);
        records, nextId := pending, nextId + 1;
        saved := Some(expense);
      } else {
        saved := None;
      }
    }
  }
}
