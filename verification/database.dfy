/** The database the mapper talks to, reduced to what decides the mapper's branches: named tables
    of rows in result order, an auto-increment key per table, and whether the driver hands the
    generated key back. A statement with an unbound placeholder, or naming a table that does not
    exist, is refused with an SQL error. Column types and schemas are not modelled: a row holds
    the columns it was written with. */
module Database {
  import opened Wrappers
  import opened Binder

  /** A result-set row: column name to cell. */
  type Row = map<string, Value>

  datatype Table = Table(rows: seq<Row>, nextKey: int, returnsKeys: bool)

  datatype Db = Db(tables: map<string, Table>)

  /** Bound statement parameters, by 1-based index. */
  type Params = map<int, Value>

  /** What `executeUpdate` reports: an SQL error, or the number of affected rows together with
      the generated key the driver hands back after an INSERT. */
  datatype Outcome = Failed | Affected(count: nat, key: Option<int>)

  /** A statement as sent: its text and its bound parameters. */
  datatype Statement = Statement(text: string, params: Params)

  predicate HasTable(db: Db, table: string) {
    table != "" && table in db.tables
  }

  /** Every placeholder 1..n has a value. */
  predicate Bound(params: Params, n: nat) {
    forall i :: 1 <= i <= n ==> i in params
  }

  predicate DistinctColumns(columns: seq<string>) {
    forall i, j :: 0 <= i < j < |columns| ==> columns[i] != columns[j]
  }

  /** The column lists the model accepts in INSERT and UPDATE: no repeats, and not the key. */
  predicate WritableColumns(columns: seq<string>) {
    DistinctColumns(columns) && "id" !in columns
  }

  predicate HasId(row: Row, key: Value) {
    "id" in row && row["id"] == key
  }

  /** The row written by `columns[i] = ?{i + 1}`. */
  function RowFrom(columns: seq<string>, params: Params): (r: Row)
    requires Bound(params, |columns|)
    ensures forall c :: c in r <==> c in columns
    ensures DistinctColumns(columns) ==> forall i :: 0 <= i < |columns| ==> r[columns[i]] == params[i + 1]
  {
    if |columns| == 0 then map[]
    else
      var n := |columns|;
      var before := RowFrom(columns[..n - 1], params);
      RowFromStep(columns, params, before);
      before[columns[n - 1] := params[n]]
  }

  /** Writing the last column on top of the row written from the others. */
  lemma RowFromStep(columns: seq<string>, params: Params, before: Row)
    requires |columns| > 0 && Bound(params, |columns|)
    requires var init := columns[..|columns| - 1];
      && (forall c :: c in before <==> c in init)
      && (DistinctColumns(init) ==> forall i :: 0 <= i < |init| ==> before[init[i]] == params[i + 1])
    ensures var r := before[columns[|columns| - 1] := params[|columns|]];
      && (forall c :: c in r <==> c in columns)
      && (DistinctColumns(columns) ==> forall i :: 0 <= i < |columns| ==> r[columns[i]] == params[i + 1])
  {
    var n := |columns|;
    var init := columns[..n - 1];
    var r := before[columns[n - 1] := params[n]];
    assert columns == init + [columns[n - 1]];
    if DistinctColumns(columns) {
      assert DistinctColumns(init) by {
        forall i, j | 0 <= i < j < |init| ensures init[i] != init[j] {
          assert init[i] == columns[i] && init[j] == columns[j];
        }
      }
      forall i | 0 <= i < n ensures r[columns[i]] == params[i + 1] {
        if i < n - 1 {
          assert columns[i] == init[i] && columns[i] != columns[n - 1];
        }
      }
    }
  }

  /** INSERT of `columns` bound from `params` into `table`. */
  function ExecInsert(db: Db, table: string, columns: seq<string>, params: Params): (r: (Outcome, Db))
    ensures r.0.Failed? <==> !(HasTable(db, table) && Bound(params, |columns|) && WritableColumns(columns))
    ensures r.0.Failed? ==> r.1 == db
    ensures r.0.Affected? ==>
      var t := db.tables[table];
      && r.0 == Affected(1, if t.returnsKeys then Some(t.nextKey) else None)
      && r.1 == Db(db.tables[table := Table(t.rows + [RowFrom(columns, params)["id" := IntV(t.nextKey)]], t.nextKey + 1, t.returnsKeys)])
  {
    if !(HasTable(db, table) && Bound(params, |columns|) && WritableColumns(columns)) then (Failed, db)
    else
      var t := db.tables[table];
      var row := RowFrom(columns, params)["id" := IntV(t.nextKey)];
      (Affected(1, if t.returnsKeys then Some(t.nextKey) else None),
       Db(db.tables[table := Table(t.rows + [row], t.nextKey + 1, t.returnsKeys)]))
  }

  /** The rows after `SET changes WHERE id = key`, and how many matched. */
  function UpdateRows(rows: seq<Row>, key: Value, changes: Row): (r: (seq<Row>, nat))
    ensures |r.0| == |rows| && r.1 <= |rows|
    ensures r.1 == 0 <==> forall i :: 0 <= i < |rows| ==> !HasId(rows[i], key)
    ensures forall i :: 0 <= i < |rows| ==> r.0[i] == if HasId(rows[i], key) then rows[i] + changes else rows[i]
  {
    if |rows| == 0 then ([], 0)
    else
      var rest := UpdateRows(rows[1..], key, changes);
      if HasId(rows[0], key) then ([rows[0] + changes] + rest.0, rest.1 + 1)
      else ([rows[0]] + rest.0, rest.1)
  }

  /** UPDATE of `columns` bound from `params[1..n]`, on the rows whose id is `params[n + 1]`. */
  function ExecUpdate(db: Db, table: string, columns: seq<string>, params: Params): (r: (Outcome, Db))
    ensures r.0.Failed? <==> !(HasTable(db, table) && Bound(params, |columns| + 1) && WritableColumns(columns))
    ensures r.0.Failed? ==> r.1 == db
    ensures r.0.Affected? ==> r.0.key.None? && r.1.tables.Keys == db.tables.Keys
    ensures r.0.Affected? ==> (r.0.count == 0 <==>
      forall i :: 0 <= i < |db.tables[table].rows| ==> !HasId(db.tables[table].rows[i], params[|columns| + 1]))
  {
    if !(HasTable(db, table) && Bound(params, |columns| + 1) && WritableColumns(columns)) then (Failed, db)
    else
      var t := db.tables[table];
      var updated := UpdateRows(t.rows, params[|columns| + 1], RowFrom(columns, params));
      (Affected(updated.1, None), Db(db.tables[table := Table(updated.0, t.nextKey, t.returnsKeys)]))
  }

  /** The rows whose id is not `key`, and how many were dropped. */
  function DeleteRows(rows: seq<Row>, key: Value): (r: (seq<Row>, nat))
    ensures |r.0| + r.1 == |rows|
    ensures r.1 == 0 <==> forall i :: 0 <= i < |rows| ==> !HasId(rows[i], key)
    ensures forall row :: row in r.0 <==> row in rows && !HasId(row, key)
  {
    if |rows| == 0 then ([], 0)
    else
      var rest := DeleteRows(rows[1..], key);
      assert forall row :: row in rows <==> row == rows[0] || row in rows[1..];
      if HasId(rows[0], key) then (rest.0, rest.1 + 1) else ([rows[0]] + rest.0, rest.1)
  }

  /** DELETE of the rows whose id is `params[1]`. */
  function ExecDelete(db: Db, table: string, params: Params): (r: (Outcome, Db))
    ensures r.0.Failed? <==> !(HasTable(db, table) && Bound(params, 1))
    ensures r.0.Failed? ==> r.1 == db
    ensures r.0.Affected? ==> r.0.key.None? && r.1.tables.Keys == db.tables.Keys
    ensures r.0.Affected? ==> (r.0.count == 0 <==>
      forall i :: 0 <= i < |db.tables[table].rows| ==> !HasId(db.tables[table].rows[i], params[1]))
    ensures r.0.Affected? ==> forall t :: t in db.tables && t != table ==> r.1.tables[t] == db.tables[t]
    ensures r.0.Affected? ==> forall row :: row in r.1.tables[table].rows <==> row in db.tables[table].rows && !HasId(row, params[1])
  {
    if !(HasTable(db, table) && Bound(params, 1)) then (Failed, db)
    else
      var t := db.tables[table];
      var kept := DeleteRows(t.rows, params[1]);
      (Affected(kept.1, None), Db(db.tables[table := Table(kept.0, t.nextKey, t.returnsKeys)]))
  }

  /** `SELECT * FROM table`: every row in order, or `None` on an SQL error. */
  function QueryAll(db: Db, table: string): Option<seq<Row>> {
    if HasTable(db, table) then Some(db.tables[table].rows) else None
  }

  /** The rows whose id is `key`, in order. */
  function RowsWithId(rows: seq<Row>, key: Value): (r: seq<Row>)
    ensures forall row :: row in r <==> row in rows && HasId(row, key)
    ensures |r| == 0 <==> forall i :: 0 <= i < |rows| ==> !HasId(rows[i], key)
    ensures |r| > 0 ==> exists i :: 0 <= i < |rows| && r[0] == rows[i] && HasId(rows[i], key)
                                   && forall j :: 0 <= j < i ==> !HasId(rows[j], key)
  {
    if |rows| == 0 then []
    else
      var rest := RowsWithId(rows[1..], key);
      assert forall row :: row in rows <==> row == rows[0] || row in rows[1..];
      if HasId(rows[0], key) then
        [rows[0]] + rest
      else
        FirstMatchInTail(rows, key, rest);
        rest
  }

  /** The first row of the tail carrying the key is the first of the whole when the head does
      not carry it. */
  lemma FirstMatchInTail(rows: seq<Row>, key: Value, rest: seq<Row>)
    requires |rows| > 0 && !HasId(rows[0], key)
    requires |rest| > 0 ==> exists i :: 0 <= i < |rows[1..]| && rest[0] == rows[1..][i] && HasId(rows[1..][i], key)
                                        && forall j :: 0 <= j < i ==> !HasId(rows[1..][j], key)
    ensures |rest| > 0 ==> exists i :: 0 <= i < |rows| && rest[0] == rows[i] && HasId(rows[i], key)
                                       && forall j :: 0 <= j < i ==> !HasId(rows[j], key)
  {
    if |rest| > 0 {
      var i :| 0 <= i < |rows[1..]| && rest[0] == rows[1..][i] && HasId(rows[1..][i], key)
               && forall j :: 0 <= j < i ==> !HasId(rows[1..][j], key);
      assert forall j :: 1 <= j < i + 1 ==> rows[j] == rows[1..][j - 1];
      assert rows[i + 1] == rows[1..][i];
    }
  }

  /** `SELECT * FROM table WHERE table.id = ?` with the id bound at 1. */
  function QueryById(db: Db, table: string, params: Params): Option<seq<Row>> {
    if HasTable(db, table) && Bound(params, 1) then Some(RowsWithId(db.tables[table].rows, params[1])) else None
  }

  // Well-formedness: keys handed out by the auto-increment are positive, below the next key,
  // and unique within a table.

  predicate RowKeyBelow(row: Row, next: int) {
    "id" in row && row["id"].IntV? && 1 <= row["id"].i < next
  }

  predicate TableWf(t: Table) {
    && t.nextKey >= 1
    && (forall i :: 0 <= i < |t.rows| ==> RowKeyBelow(t.rows[i], t.nextKey))
    && (forall i, j :: 0 <= i < j < |t.rows| ==> t.rows[i]["id"] != t.rows[j]["id"])
  }

  predicate Valid(db: Db) {
    forall t :: t in db.tables ==> TableWf(db.tables[t])
  }

  /** The same tables, and each table's next key never goes down. */
  predicate KeysAdvance(before: Db, after: Db) {
    && after.tables.Keys == before.tables.Keys
    && forall t :: t in before.tables ==> before.tables[t].nextKey <= after.tables[t].nextKey
  }

  lemma KeysAdvanceTransitive(a: Db, b: Db, c: Db)
    requires KeysAdvance(a, b) && KeysAdvance(b, c)
    ensures KeysAdvance(a, c)
  {}

  lemma InsertKeepsWf(db: Db, table: string, columns: seq<string>, params: Params)
    ensures Valid(db) ==> Valid(ExecInsert(db, table, columns, params).1)
    ensures KeysAdvance(db, ExecInsert(db, table, columns, params).1)
  {
    var r := ExecInsert(db, table, columns, params);
    if r.0.Affected? && Valid(db) {
      var t := db.tables[table];
      var t' := r.1.tables[table];
      assert t'.rows[|t.rows|]["id"] == IntV(t.nextKey);
      assert forall i :: 0 <= i < |t.rows| ==> t'.rows[i] == t.rows[i];
      assert TableWf(t');
    }
  }

  lemma UpdateKeepsWf(db: Db, table: string, columns: seq<string>, params: Params)
    ensures Valid(db) ==> Valid(ExecUpdate(db, table, columns, params).1)
    ensures KeysAdvance(db, ExecUpdate(db, table, columns, params).1)
  {
    var r := ExecUpdate(db, table, columns, params);
    if r.0.Affected? && Valid(db) {
      var t := db.tables[table];
      var changes := RowFrom(columns, params);
      assert "id" !in changes;
      var t' := r.1.tables[table];
      assert forall i :: 0 <= i < |t.rows| ==> t'.rows[i]["id"] == t.rows[i]["id"];
      assert TableWf(t');
    }
  }

  lemma DeleteKeepsWf(db: Db, table: string, params: Params)
    ensures Valid(db) ==> Valid(ExecDelete(db, table, params).1)
    ensures KeysAdvance(db, ExecDelete(db, table, params).1)
  {
    var r := ExecDelete(db, table, params);
    if r.0.Affected? && Valid(db) {
      var t := db.tables[table];
      DeleteRowsKeepsWf(t, params[1]);
    }
  }

  lemma {:induction false} DeleteRowsKeepsWf(t: Table, key: Value)
    requires TableWf(t)
    ensures TableWf(Table(DeleteRows(t.rows, key).0, t.nextKey, t.returnsKeys))
    decreases |t.rows|
  {
    if |t.rows| > 0 {
      var tail := Table(t.rows[1..], t.nextKey, t.returnsKeys);
      assert forall i :: 0 <= i < |tail.rows| ==> tail.rows[i] == t.rows[i + 1];
      DeleteRowsKeepsWf(tail, key);
      var rest := DeleteRows(t.rows[1..], key).0;
      if !HasId(t.rows[0], key) {
        HeadIdNotInRest(t, key, rest);
        assert RowKeyBelow(t.rows[0], t.nextKey);
        ConsKeepsWf(t.rows[0], Table(rest, t.nextKey, t.returnsKeys));
      }
    }
  }

  /** No row left after deleting from the tail shares the id of the head. */
  lemma HeadIdNotInRest(t: Table, key: Value, rest: seq<Row>)
    requires TableWf(t) && |t.rows| > 0 && rest == DeleteRows(t.rows[1..], key).0
    ensures forall j :: 0 <= j < |rest| ==> !HasId(rest[j], t.rows[0]["id"])
  {
    forall j | 0 <= j < |rest| ensures !HasId(rest[j], t.rows[0]["id"]) {
      assert rest[j] in rest;
      assert rest[j] in t.rows[1..];
      var k :| 0 <= k < |t.rows[1..]| && t.rows[1..][k] == rest[j];
      assert t.rows[k + 1] == rest[j];
    }
  }

  /** A row with a fresh id below the next key can go in front of a consistent table. */
  lemma ConsKeepsWf(row: Row, t: Table)
    requires TableWf(t) && RowKeyBelow(row, t.nextKey)
    requires forall j :: 0 <= j < |t.rows| ==> !HasId(t.rows[j], row["id"])
    ensures TableWf(Table([row] + t.rows, t.nextKey, t.returnsKeys))
  {
    var out := [row] + t.rows;
    forall i | 0 <= i < |out| ensures RowKeyBelow(out[i], t.nextKey) {
      if i > 0 {
        assert out[i] == t.rows[i - 1];
      }
    }
    forall i, j | 0 <= i < j < |out| ensures out[i]["id"] != out[j]["id"] {
      assert out[j] == t.rows[j - 1];
      if i > 0 {
        assert out[i] == t.rows[i - 1];
      }
    }
  }
}
