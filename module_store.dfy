/** The `modules` table of DataProcessorService and the one write it takes per
    message: the change tracker's pending updates and inserts, committed
    together by SaveChanges. The primary key is Id; the triple
    (package_id, module_category_id, index_within_role) is unique, so the table
    is a map from that triple to its row. */
module Store {
  import opened Options

  /** The unique triple of a row. */
  datatype Key = Key(packageId: string, moduleCategoryId: string, indexWithinRole: int)

  /** One row, the entity Module. Guids are drawn by a counter here, so `id`
      is a number no row has used before. */
  datatype Module = Module(id: nat, moduleCategoryId: string, moduleState: string, indexWithinRole: int, packageId: string)

  function KeyOf(m: Module): Key {
    Key(m.packageId, m.moduleCategoryId, m.indexWithinRole)
  }

  /** The committed rows, by their triple, and the next unused id. */
  datatype Table = Table(rows: map<Key, Module>, nextId: nat)

  /** Every row sits under its own triple, and the ids are distinct and below
      the counter. */
  predicate Valid(t: Table) {
    && (forall k :: k in t.rows ==> KeyOf(t.rows[k]) == k && t.rows[k].id < t.nextId)
    && (forall k1, k2 :: k1 in t.rows && k2 in t.rows && k1 != k2 ==> t.rows[k1].id != t.rows[k2].id)
  }

  /** An added Module entity. `packageId` is whatever the message carried,
      which may be null although the column is NOT NULL. */
  datatype PendingInsert = PendingInsert(packageId: Option<string>, moduleCategoryId: string, indexWithinRole: int, moduleState: string)

  /** The tracked changes of one DbContext: the new ModuleState of updated
      rows, by triple, and the added entities in the order they were added. */
  datatype Changes = Changes(updates: map<Key, string>, inserts: seq<PendingInsert>)

  const NoChanges: Changes := Changes(map[], [])

  /** SaveChanges' failures; both reach the caller as DbUpdateException or
      DbException. */
  datatype DbError =
    | TransientFault        // the connection or the database failed
    | ConstraintViolation   // NOT NULL or UNIQUE rejected an insert

  /** The triple an insert would occupy, once its package is known. */
  function InsertKey(p: PendingInsert): Key
    requires p.packageId.Some?
  {
    Key(p.packageId.value, p.moduleCategoryId, p.indexWithinRole)
  }

  predicate AllHavePackage(ins: seq<PendingInsert>) {
    forall i :: 0 <= i < |ins| ==> ins[i].packageId.Some?
  }

  /** The inserts occupy distinct triples that no committed row holds. */
  predicate FreshKeys(t: Table, ins: seq<PendingInsert>)
    requires AllHavePackage(ins)
  {
    && (forall i :: 0 <= i < |ins| ==> InsertKey(ins[i]) !in t.rows)
    && (forall i, j :: 0 <= i < j < |ins| ==> InsertKey(ins[i]) != InsertKey(ins[j]))
  }

  /** The updated rows: only ModuleState changes. */
  function ApplyUpdates(rows: map<Key, Module>, updates: map<Key, string>): map<Key, Module> {
    map k | k in rows :: if k in updates then rows[k].(moduleState := updates[k]) else rows[k]
  }

  /** The inserted rows, the i-th with id `firstId + i`. */
  function InsertAll(rows: map<Key, Module>, ins: seq<PendingInsert>, firstId: nat): map<Key, Module>
    requires AllHavePackage(ins)
  {
    if ins == [] then rows
    else
      var p := ins[|ins| - 1];
      InsertAll(rows, ins[..|ins| - 1], firstId)[InsertKey(p) := Module(firstId + |ins| - 1, p.moduleCategoryId, p.moduleState, p.indexWithinRole, p.packageId.value)]
  }

  /** The table once the changes are written. */
  function Commit(t: Table, ch: Changes): Table
    requires AllHavePackage(ch.inserts)
  {
    Table(InsertAll(ApplyUpdates(t.rows, ch.updates), ch.inserts, t.nextId), t.nextId + |ch.inserts|)
  }

  /** Something is tracked, so SaveChangesAsync goes to the database. */
  predicate HasChanges(ch: Changes) {
    ch.updates != map[] || ch.inserts != []
  }

  /** `SaveChangesAsync`: one transaction for all tracked changes. With
      nothing tracked it returns without touching the database. Otherwise it
      fails as a whole on a fault of the database or when an insert breaks
      NOT NULL on package_id or the unique triple, and commits every change
      when neither happens. */
  function SaveChanges(t: Table, ch: Changes, fault: bool): Result<Table, DbError> {
    if !HasChanges(ch) then Ok(t)
    else if fault then Err(TransientFault)
    else if !AllHavePackage(ch.inserts) then Err(ConstraintViolation)
    else if !FreshKeys(t, ch.inserts) then Err(ConstraintViolation)
    else Ok(Commit(t, ch))
  }

  // ---------------------------------------------------------------------------
  // Properties of a commit.

  /** Inserting keeps every row already there, adds one row per insert under
      its triple with the insert's values and the next id, and nothing else. */
  lemma {:induction false} InsertAllSpec(rows: map<Key, Module>, ins: seq<PendingInsert>, firstId: nat)
    requires AllHavePackage(ins)
    requires forall i :: 0 <= i < |ins| ==> InsertKey(ins[i]) !in rows
    requires forall i, j :: 0 <= i < j < |ins| ==> InsertKey(ins[i]) != InsertKey(ins[j])
    ensures var r := InsertAll(rows, ins, firstId);
            && (forall k :: k in rows ==> k in r && r[k] == rows[k])
            && (forall i :: 0 <= i < |ins| ==>
                  && InsertKey(ins[i]) in r
                  && r[InsertKey(ins[i])] == Module(firstId + i, ins[i].moduleCategoryId, ins[i].moduleState, ins[i].indexWithinRole, ins[i].packageId.value))
            && (forall k :: k in r ==> k in rows || exists i :: 0 <= i < |ins| && InsertKey(ins[i]) == k)
  {
    if ins != [] {
      var front := ins[..|ins| - 1];
      assert forall i :: 0 <= i < |front| ==> front[i] == ins[i];
      InsertAllSpec(rows, front, firstId);
      var r := InsertAll(rows, ins, firstId);
      forall k | k in r
        ensures k in rows || exists i :: 0 <= i < |ins| && InsertKey(ins[i]) == k
      {
        if k != InsertKey(ins[|ins| - 1]) && k !in rows {
          var i :| 0 <= i < |front| && InsertKey(front[i]) == k;
          assert InsertKey(ins[i]) == k;
        }
      }
    }
  }

  /** A successful save changes only ModuleState of updated rows, keeps every
      other column and every other row, and adds exactly one row per insert,
      holding the insert's four values and a new id. */
  lemma SaveChangesSpec(t: Table, ch: Changes)
    requires SaveChanges(t, ch, false).Ok?
    ensures var t' := SaveChanges(t, ch, false).value;
            && t'.nextId == t.nextId + |ch.inserts|
            && (forall k :: k in t.rows ==>
                  && k in t'.rows
                  && t'.rows[k] == (if k in ch.updates then t.rows[k].(moduleState := ch.updates[k]) else t.rows[k]))
            && (forall i :: 0 <= i < |ch.inserts| ==>
                  var p := ch.inserts[i];
                  && p.packageId.Some?
                  && InsertKey(p) in t'.rows
                  && t'.rows[InsertKey(p)] == Module(t.nextId + i, p.moduleCategoryId, p.moduleState, p.indexWithinRole, p.packageId.value))
            && (forall k :: k in t'.rows ==> k in t.rows || exists i :: 0 <= i < |ch.inserts| && ch.inserts[i].packageId.Some? && InsertKey(ch.inserts[i]) == k)
  {
    InsertAllSpec(ApplyUpdates(t.rows, ch.updates), ch.inserts, t.nextId);
  }

  /** A save that succeeds keeps the table's invariant: the triple stays
      unique and the ids distinct. */
  lemma SaveChangesKeepsValid(t: Table, ch: Changes, fault: bool)
    requires Valid(t)
    requires SaveChanges(t, ch, fault).Ok?
    ensures Valid(SaveChanges(t, ch, fault).value)
  {
    var t' := SaveChanges(t, ch, fault).value;
    var ins := ch.inserts;
    RowsAfterSave(t, ch);
    forall k1, k2 | k1 in t'.rows && k2 in t'.rows && k1 != k2
      ensures t'.rows[k1].id != t'.rows[k2].id
    {
      if k1 !in t.rows && k2 !in t.rows {
        var i :| 0 <= i < |ins| && InsertKey(ins[i]) == k1 && t'.rows[k1].id == t.nextId + i;
        var j :| 0 <= j < |ins| && InsertKey(ins[j]) == k2 && t'.rows[k2].id == t.nextId + j;
      }
    }
  }

  /** Each row after a save is an old row under its old id, or the i-th
      insert under id nextId + i. */
  lemma RowsAfterSave(t: Table, ch: Changes)
    requires Valid(t)
    requires SaveChanges(t, ch, false).Ok?
    ensures var t' := SaveChanges(t, ch, false).value;
            forall k :: k in t'.rows ==>
              && KeyOf(t'.rows[k]) == k && t'.rows[k].id < t'.nextId
              && (k in t.rows ==> t'.rows[k].id == t.rows[k].id)
              && (k !in t.rows ==> exists i :: 0 <= i < |ch.inserts| && InsertKey(ch.inserts[i]) == k && t'.rows[k].id == t.nextId + i)
  {
    var t' := SaveChanges(t, ch, false).value;
    var ins := ch.inserts;
    InsertAllSpec(ApplyUpdates(t.rows, ch.updates), ins, t.nextId);
    forall k | k in t'.rows && k !in t.rows
      ensures exists i :: 0 <= i < |ins| && InsertKey(ins[i]) == k && t'.rows[k].id == t.nextId + i
    {
      var i :| 0 <= i < |ins| && InsertKey(ins[i]) == k;
      assert t'.rows[k].id == t.nextId + i;
    }
  }

  /** A failed save leaves nothing behind: the caller keeps the table it had. */
  lemma FailedSaveWritesNothing(t: Table, ch: Changes, fault: bool)
    requires HasChanges(ch)
    requires fault || !AllHavePackage(ch.inserts) || !FreshKeys(t, ch.inserts)
    ensures SaveChanges(t, ch, fault).Err?
    ensures fault ==> SaveChanges(t, ch, fault) == Err(TransientFault)
    ensures !fault ==> SaveChanges(t, ch, fault) == Err(ConstraintViolation)
  {
  }

  /** With nothing tracked the save cannot fail and the table stays as it was;
      with something tracked, a save that succeeds committed exactly it. */
  lemma EmptySaveAlwaysSucceeds(t: Table, ch: Changes, fault: bool)
    ensures !HasChanges(ch) ==> SaveChanges(t, ch, fault) == Ok(t)
    ensures SaveChanges(t, ch, fault).Ok? && AllHavePackage(ch.inserts) ==>
              SaveChanges(t, ch, fault).value == Commit(t, ch)
  {
    if !HasChanges(ch) {
      assert ApplyUpdates(t.rows, ch.updates) == t.rows;
    }
  }
}
