/** Properties of an instance's life across several operations: `save` writes related instances
    before their owner, what `save` writes `find` reads back, and a destroyed instance is gone
    from its table and gets a new id when saved again. */
module Lifecycle {
  import opened Wrappers
  import opened Binder
  import opened Metadata
  import opened Database
  import opened Entity
  import opened Hydration

  /** One slot of `persistRelations`, run on database `db`: a null slot is skipped and sends
      nothing; a related instance is saved on `db`, that save completes, the slot then holds the
      saved instance, `db'` is the database the save left, and `sent` is what it sent. */
  predicate SlotSaved(before: Option<Instance>, after: Option<Instance>, db: Db, db': Db, sent: seq<Statement>)
  {
    match before
    case None => after.None? && db' == db && sent == []
    case Some(c) =>
      Wf(c) &&
      var s := SlotSave(c, db);
      s.completion.Normal? && after == Some(s.inst) && db' == s.db && sent == s.trace
  }

  /** The save `persistRelations` runs for a non-null slot. Naming it keeps the definition of
      `save` out of proofs that only move slots around. */
  function SlotSave(c: Instance, db: Db): Step
    requires Wf(c)
  {
    Save(c, db)
  }

  /** The statement lists `parts`, one after another. */
  function Flatten(parts: seq<seq<Statement>>): (r: seq<Statement>)
    ensures |parts| == 0 ==> r == []
  {
    if |parts| == 0 then [] else parts[0] + Flatten(parts[1..])
  }

  /** The slots `related` were saved one after another, in slot order, from database `first` to
      database `last`: slot `k` runs on `dbs[k]`, leaves `dbs[k + 1]`, turns into `after[k]` and
      sends `parts[k]`, and the statements sent are the parts one after another. */
  predicate SavedOneByOne(related: seq<Option<Instance>>, after: seq<Option<Instance>>, trace: seq<Statement>,
                          first: Db, last: Db, dbs: seq<Db>, parts: seq<seq<Statement>>)
  {
    && |after| == |related| && |dbs| == |related| + 1 && |parts| == |related|
    && dbs[0] == first && dbs[|related|] == last
    && trace == Flatten(parts)
    && forall k :: 0 <= k < |related| ==> SlotSaved(related[k], after[k], dbs[k], dbs[k + 1], parts[k])
  }

  /** Some databases and statement parts witness that the slots `related` were saved one by one
      from `first` to `last`, turning into `after` and sending `trace`. */
  ghost predicate CascadeSaved(related: seq<Option<Instance>>, after: seq<Option<Instance>>, trace: seq<Statement>,
                         first: Db, last: Db)
  {
    exists dbs, parts :: SavedOneByOne(related, after, trace, first, last, dbs, parts)
  }

  lemma Witnessed(related: seq<Option<Instance>>, after: seq<Option<Instance>>, trace: seq<Statement>,
                  first: Db, last: Db, dbs: seq<Db>, parts: seq<seq<Statement>>)
    requires SavedOneByOne(related, after, trace, first, last, dbs, parts)
    ensures CascadeSaved(related, after, trace, first, last)
  {
  }

  /** A saved slot in front of slots saved one by one gives slots saved one by one. */
  lemma SavedOneByOneCons(b: Option<Instance>, a: Option<Instance>, sent: seq<Statement>, db: Db,
                          related: seq<Option<Instance>>, after: seq<Option<Instance>>, trace: seq<Statement>,
                          first: Db, last: Db, dbs: seq<Db>, parts: seq<seq<Statement>>)
    requires SlotSaved(b, a, db, first, sent)
    requires SavedOneByOne(related, after, trace, first, last, dbs, parts)
    ensures SavedOneByOne([b] + related, [a] + after, sent + trace, db, last, [db] + dbs, [sent] + parts)
  {
    var related', after', dbs', parts' := [b] + related, [a] + after, [db] + dbs, [sent] + parts;
    assert parts'[1..] == parts;
    assert Flatten(parts') == sent + Flatten(parts);
    assert SlotSaved(related'[0], after'[0], dbs'[0], dbs'[1], parts'[0]);
    forall k | 1 <= k < |related'|
      ensures SlotSaved(related'[k], after'[k], dbs'[k], dbs'[k + 1], parts'[k])
    {
      ConsAt(b, related, k);
      ConsAt(a, after, k);
      ConsAt(db, dbs, k);
      ConsAt(db, dbs, k + 1);
      ConsAt(sent, parts, k);
    }
  }

  /** Element `k` of a sequence with `x` in front is element `k - 1` of the sequence. */
  lemma ConsAt<T>(x: T, s: seq<T>, k: nat)
    requires 1 <= k <= |s|
    ensures ([x] + s)[k] == s[k - 1]
  {
  }

  /** `persistRelations` from slot `i` on, when no save in it completes abruptly, saves every
      non-null related instance in slot order, each on the database the previous save left: the
      statements sent are those saves' statements, one after another, and each slot ends up
      holding its saved instance. */
  lemma {:induction false} CascadeIssuesEach(x: Instance, i: nat, db: Db)
    requires Wf(x) && i <= |x.related|
    ensures var r := SaveRelations(x, i, db);
      !r.abrupt ==> CascadeSaved(x.related[i..], r.related, r.trace, db, r.db)
    decreases |x.related| - i
  {
    var r := SaveRelations(x, i, db);
    if i == |x.related| {
      Witnessed(x.related[i..], r.related, r.trace, db, r.db, [db], []);
    } else if !r.abrupt {
      var slot, mid, sent := CascadeHead(x, i, db);
      CascadeIssuesEach(x, i + 1, mid);
      CascadeJoin(x, i, db, slot, mid, sent, SaveRelations(x, i + 1, mid), r);
    }
  }

  /** A saved first slot in front of a rest that was saved one by one: the whole cascade was. */
  lemma CascadeJoin(x: Instance, i: nat, db: Db, slot: Option<Instance>, mid: Db, sent: seq<Statement>,
                    rest: Cascade, r: Cascade)
    requires Wf(x) && i < |x.related|
    requires SlotSaved(x.related[i], slot, db, mid, sent)
    requires r == Cascade(rest.abrupt, [slot] + rest.related, rest.db, sent + rest.trace) && !r.abrupt
    requires CascadeSaved(x.related[i + 1..], rest.related, rest.trace, mid, rest.db)
    ensures CascadeSaved(x.related[i..], r.related, r.trace, db, r.db)
  {
    var dbs, parts :| SavedOneByOne(x.related[i + 1..], rest.related, rest.trace, mid, rest.db, dbs, parts);
    CascadeStep(x, i, db, slot, mid, sent, rest, r, dbs, parts);
    Witnessed(x.related[i..], r.related, r.trace, db, r.db, [db] + dbs, [sent] + parts);
  }

  /** The first slot of a cascade that completes: it is saved, and the rest of the cascade runs
      on the database its save left. */
  lemma CascadeHead(x: Instance, i: nat, db: Db) returns (slot: Option<Instance>, mid: Db, sent: seq<Statement>)
    requires Wf(x) && i < |x.related| && !SaveRelations(x, i, db).abrupt
    ensures SlotSaved(x.related[i], slot, db, mid, sent)
    ensures var rest := SaveRelations(x, i + 1, mid);
      SaveRelations(x, i, db) == Cascade(rest.abrupt, [slot] + rest.related, rest.db, sent + rest.trace)
  {
    match x.related[i]
    case None =>
      slot, mid, sent := None, db, [];
      var rest := SaveRelations(x, i + 1, db);
      assert SaveRelations(x, i, db) == Cascade(rest.abrupt, [None] + rest.related, rest.db, rest.trace);
      assert [] + rest.trace == rest.trace;
    case Some(c) =>
      var s := Save(c, db);
      slot, mid, sent := Some(s.inst), s.db, s.trace;
  }

  /** One step of the induction: a saved first slot in front of the rest saved one by one. */
  lemma CascadeStep(x: Instance, i: nat, db: Db, slot: Option<Instance>, mid: Db, sent: seq<Statement>,
                    rest: Cascade, r: Cascade, dbs: seq<Db>, parts: seq<seq<Statement>>)
    requires Wf(x) && i < |x.related|
    requires SlotSaved(x.related[i], slot, db, mid, sent)
    requires r == Cascade(rest.abrupt, [slot] + rest.related, rest.db, sent + rest.trace)
    requires SavedOneByOne(x.related[i + 1..], rest.related, rest.trace, mid, rest.db, dbs, parts)
    ensures SavedOneByOne(x.related[i..], r.related, r.trace, db, r.db, [db] + dbs, [sent] + parts)
  {
    SliceCons(x.related, i);
    SavedOneByOneCons(x.related[i], slot, sent, db, x.related[i + 1..], rest.related, rest.trace, mid, rest.db, dbs, parts);
  }

  /** When `save` completes, the related instances were saved first, one by one in slot order,
      and then exactly one more statement was sent: the instance's own INSERT or UPDATE, its
      parameters bound from the instance as it stands after those saves. */
  lemma RelationsSavedFirst(x: Instance, db: Db)
    requires Wf(x)
    ensures var r := Save(x, db);
      var pre := SaveRelations(x, 0, db);
      r.completion.Normal? ==>
        && !pre.abrupt && r.inst.related == pre.related
        && CascadeSaved(x.related, pre.related, pre.trace, db, pre.db)
        && r.trace == pre.trace + [Statement(OwnStatementText(x).value, OwnParams(x.(related := pre.related)))]
  {
    var r := Save(x, db);
    var pre := SaveRelations(x, 0, db);
    CascadeIssuesEach(x, 0, db);
    assert x.related[0..] == x.related;
    if !pre.abrupt {
      SaveOwnParams(x.(related := pre.related), pre.db);
    }
  }

  /** `save` reports what the instance's own `persist` (no id) or `update` (an id) reports, run
      on the database the related saves left; an abrupt related save propagates and the
      instance itself is not written. */
  lemma SaveCompletesAsOwn(x: Instance, db: Db)
    requires Wf(x)
    ensures var r := Save(x, db);
      var pre := SaveRelations(x, 0, db);
      var owner := x.(related := pre.related);
      && (pre.abrupt ==> r.completion.Abrupt? && r.trace == pre.trace)
      && (!pre.abrupt ==>
            r.completion == (if x.id == Unassigned then Persist(owner, pre.db) else Update(owner, pre.db)).completion)
  {
  }

  /** The instance's own statement binds, at each relation's index, the id its related instance
      has after being saved: in the INSERT a null relation leaves its index unbound and a set one
      binds its id; in the UPDATE a bound relation index carries that id, and every index is
      bound when every attribute has a setter and every relation is set. `RelationsSavedFirst`
      says which instance each slot then holds. */
  lemma SaveBindsRelatedIds(x: Instance, db: Db)
    requires Wf(x)
    ensures var r := Save(x, db);
      r.completion.Normal? ==>
        var params := r.trace[|r.trace| - 1].params;
        && (x.id == Unassigned ==> forall j :: 0 <= j < |x.related| ==>
              var k := Slot(x.desc.attributes, |x.values|) + j;
              && (k in params <==> x.related[j].Some?)
              && (x.related[j].Some? ==> params[k] == IntV(r.inst.related[j].value.id)))
        && (x.id != Unassigned && AllSettable(x.desc.attributes) && AllPresent(x.related) ==>
              Bound(params, ColumnCount(x.desc) + 1))
        && (x.id != Unassigned ==> forall j :: 0 <= j < |x.related| && |x.values| + 1 + j in params ==>
              r.inst.related[j].Some? && params[|x.values| + 1 + j] == IntV(r.inst.related[j].value.id))
  {
    var r := Save(x, db);
    RelationsSavedFirst(x, db);
    if r.completion.Normal? {
      var pre := SaveRelations(x, 0, db);
      var owner := x.(related := r.inst.related);
      assert owner.desc == r.inst.desc && owner.values == r.inst.values;
      StepBindsRelatedIds(x, r, pre.trace, Statement(OwnStatementText(x).value, OwnParams(owner)));
    }
  }

  /** `SaveBindsRelatedIds` for a completed step `r` whose statements end with the instance's
      own statement `own`, bound from the instance holding `r`'s slots. */
  lemma StepBindsRelatedIds(x: Instance, r: Step, before: seq<Statement>, own: Statement)
    requires Wf(x) && Wf(x.(related := r.inst.related)) && SameShape(x.related, r.inst.related)
    requires own.params == OwnParams(x.(related := r.inst.related)) && r.trace == before + [own]
    ensures var params := r.trace[|r.trace| - 1].params;
      && (x.id == Unassigned ==> forall j :: 0 <= j < |x.related| ==>
            var k := Slot(x.desc.attributes, |x.values|) + j;
            && (k in params <==> x.related[j].Some?)
            && (x.related[j].Some? ==> params[k] == IntV(r.inst.related[j].value.id)))
      && (x.id != Unassigned && AllSettable(x.desc.attributes) && AllPresent(x.related) ==>
            Bound(params, ColumnCount(x.desc) + 1))
      && (x.id != Unassigned ==> forall j :: 0 <= j < |x.related| && |x.values| + 1 + j in params ==>
            r.inst.related[j].Some? && params[|x.values| + 1 + j] == IntV(r.inst.related[j].value.id))
  {
    LastOfAppend(before, [own]);
    OwnerBindsRelatedIds(x, r.inst.related, r.trace[|r.trace| - 1].params);
  }

  /** The relation facts of `SaveBindsRelatedIds` for the instance with its relations replaced
      by `after`, relation slots of the same shape. */
  lemma OwnerBindsRelatedIds(x: Instance, after: seq<Option<Instance>>, params: Params)
    requires Wf(x) && SameShape(x.related, after)
    requires Wf(x.(related := after)) && params == OwnParams(x.(related := after))
    ensures x.id == Unassigned ==> forall j :: 0 <= j < |x.related| ==>
      var k := Slot(x.desc.attributes, |x.values|) + j;
      && (k in params <==> x.related[j].Some?)
      && (x.related[j].Some? ==> params[k] == IntV(after[j].value.id))
    ensures x.id != Unassigned && AllSettable(x.desc.attributes) && AllPresent(x.related) ==>
      Bound(params, ColumnCount(x.desc) + 1)
    ensures x.id != Unassigned ==> forall j :: 0 <= j < |x.related| && |x.values| + 1 + j in params ==>
      after[j].Some? && params[|x.values| + 1 + j] == IntV(after[j].value.id)
  {
    var owner := x.(related := after);
    assert owner.desc == x.desc && owner.values == x.values && owner.id == x.id && owner.related == after;
    forall j | 0 <= j < |x.related|
      ensures x.related[j].Some? <==> after[j].Some?
    {
      assert SameSlot(x.related[j], after[j]);
    }
    if x.id != Unassigned {
      assert params == AssignUpdateDatas(owner);
      assert AllPresent(x.related) ==> AllPresent(owner.related);
      forall j | 0 <= j < |x.related|
        ensures |x.values| + 1 + j in params ==> after[j].Some? && params[|x.values| + 1 + j] == IntV(after[j].value.id)
      {
        UpdateRelationIndex(owner, j, params, |x.values| + 1 + j);
      }
    } else {
      assert params == FillStatement(owner);
    }
  }

  /** Relation `j`'s index `k` in the UPDATE: when bound it carries the relation's id, and it is
      bound when every attribute has a setter and every relation is set. */
  lemma UpdateRelationIndex(y: Instance, j: nat, params: Params, k: int)
    requires Wf(y) && j < |y.related|
    requires params == AssignUpdateDatas(y) && k == |y.values| + 1 + j
    ensures AllSettable(y.desc.attributes) && AllPresent(y.related) ==> k in params
    ensures k in params ==> y.related[j].Some? && params[k] == IntV(y.related[j].value.id)
  {
    if AllSettable(y.desc.attributes) && AllPresent(y.related) {
      assert 1 <= k <= ColumnCount(y.desc) + 1;
    }
  }


  /** A destroyed instance saved again is inserted as a new row, under a key greater than its
      old id: keys are never handed out twice. */
  lemma DestroyThenSaveFreshId(x: Instance, db: Db)
    requires Wf(x) && Valid(db) && x.id != Unassigned
    requires HasTable(db, x.desc.table) && !NoRowWithId(x, db)
    ensures var d := Destroy(x, db);
      && d.inst.id == Unassigned
      && var s := Save(d.inst, d.db);
         s.completion == Normal(true) ==> s.inst.id > x.id
  {
    var t := x.desc.table;
    var d := Destroy(x, db);
    DeleteKeepsWf(db, t, map[1 := IntV(x.id)]);
    var i :| 0 <= i < |db.tables[t].rows| && HasId(db.tables[t].rows[i], IntV(x.id));
    assert RowKeyBelow(db.tables[t].rows[i], db.tables[t].nextKey);
  }

  /** After `destroy`, `find` on the old id finds nothing. */
  lemma DestroyThenFindNone(x: Instance, db: Db, repo: RepoConfig)
    requires x.id != Unassigned && repo.table == x.desc.table
    ensures Find(repo, x.id, Destroy(x, db).db).None?
  {
  }

  /** Importing a row that holds every attribute's value, through setters and getters of the
      same family, into a new instance gives back those values and the row's id. */
  lemma LoadWrittenRow(x: Instance, row: Row, db: Db, key: int)
    requires Wf(x) && |x.desc.relations| == 0
    requires forall i :: 0 <= i < |x.values| ==>
      SetterFor(x.desc.attributes[i].typeName).Some? && FitsType(x.desc.attributes[i].typeName, x.values[i])
    requires forall i :: 0 <= i < |x.values| ==>
      x.desc.attributes[i].column in row && row[x.desc.attributes[i].column] == x.values[i]
    requires "id" in row && row["id"] == IntV(key)
    ensures FromDatabase(NewInstance(x.desc), row, db) == x.(id := key)
  {
    var r := FromDatabase(NewInstance(x.desc), row, db);
    LoadWrittenAttributes(x, row, db);
    assert Complete(x.desc, row);
    assert ReadId(row["id"]) == Some(key);
    assert r.id == key;
    assert |r.related| == 0 && |x.related| == 0;
    assert r.related == x.related;
  }

  /** The attribute half of `LoadWrittenRow`: every attribute column is present, and each reads
      back as the value written. */
  lemma LoadWrittenAttributes(x: Instance, row: Row, db: Db)
    requires Wf(x) && |x.desc.relations| == 0
    requires forall i :: 0 <= i < |x.values| ==>
      SetterFor(x.desc.attributes[i].typeName).Some? && FitsType(x.desc.attributes[i].typeName, x.values[i])
    requires forall i :: 0 <= i < |x.values| ==>
      x.desc.attributes[i].column in row && row[x.desc.attributes[i].column] == x.values[i]
    ensures FirstMissing(AttributeColumns(x.desc), row) == |x.values|
    ensures FromDatabase(NewInstance(x.desc), row, db).values == x.values
  {
    var r := FromDatabase(NewInstance(x.desc), row, db);
    AttributeColumnsPresent(x.desc, row);
    forall i | 0 <= i < |x.values| ensures r.values[i] == x.values[i] {
      LoadWrittenAttribute(x, row, db, i);
    }
  }

  /** One attribute of `LoadWrittenAttributes`. */
  lemma LoadWrittenAttribute(x: Instance, row: Row, db: Db, i: nat)
    requires Wf(x) && i < |x.values| && FirstMissing(AttributeColumns(x.desc), row) == |x.values|
    requires SetterFor(x.desc.attributes[i].typeName).Some? && FitsType(x.desc.attributes[i].typeName, x.values[i])
    requires x.desc.attributes[i].column in row && row[x.desc.attributes[i].column] == x.values[i]
    ensures FromDatabase(NewInstance(x.desc), row, db).values[i] == x.values[i]
  {
    var y := NewInstance(x.desc);
    WriteThenRead(x.desc.attributes[i].typeName, x.values[i], y.values[i]);
    assert LoadedValue(y, row, i) == x.values[i];
  }

  /** A row holding every attribute's column misses none of them. */
  lemma AttributeColumnsPresent(d: Descriptor, row: Row)
    requires forall i :: 0 <= i < |d.attributes| ==> d.attributes[i].column in row
    ensures FirstMissing(AttributeColumns(d), row) == |d.attributes|
  {
    var columns := AttributeColumns(d);
    assert forall i :: 0 <= i < |columns| ==> columns[i] in row;
  }

  /** The row an INSERT appends to a consistent table is the first, and only, row carrying the
      generated key. */
  lemma InsertedRowFirst(db: Db, table: string, columns: seq<string>, params: Params)
    requires Valid(db) && ExecInsert(db, table, columns, params).0.Affected?
    ensures var t := db.tables[table];
      var rows := ExecInsert(db, table, columns, params).1.tables[table].rows;
      RowsWithId(rows, IntV(t.nextKey)) == [RowFrom(columns, params)["id" := IntV(t.nextKey)]]
  {
    var t := db.tables[table];
    var rows := ExecInsert(db, table, columns, params).1.tables[table].rows;
    RowsWithIdAppend(t.rows, RowFrom(columns, params)["id" := IntV(t.nextKey)], IntV(t.nextKey));
    assert rows == t.rows + [RowFrom(columns, params)["id" := IntV(t.nextKey)]];
  }

  lemma {:induction false} RowsWithIdAppend(rows: seq<Row>, row: Row, key: Value)
    requires forall i :: 0 <= i < |rows| ==> !HasId(rows[i], key)
    requires HasId(row, key)
    ensures RowsWithId(rows + [row], key) == [row]
  {
    if |rows| == 0 {
      assert RowsWithId([row][1..], key) == [];
    } else {
      RowsWithIdAppend(rows[1..], row, key);
      assert (rows + [row])[1..] == rows[1..] + [row];
    }
  }

  /** Without relations, `save` is the instance's own INSERT or UPDATE. */
  lemma SaveWithoutRelations(x: Instance, db: Db)
    requires Wf(x) && |x.related| == 0
    ensures Save(x, db) == SaveOwn(x, db)
  {
    assert SaveRelations(x, 0, db) == Cascade(false, [], db, []);
    assert x.(related := []) == x;
  }

  /** The row written from the instance's columns bound in order holds each attribute's value
      under its column. */
  lemma ValuesInRow(x: Instance, params: Params)
    requires Wf(x) && |x.desc.relations| == 0 && DistinctColumns(Columns(x.desc))
    requires forall k :: 1 <= k <= |x.values| ==> k in params && params[k] == x.values[k - 1]
    ensures Bound(params, |Columns(x.desc)|)
    ensures forall i :: 0 <= i < |x.values| ==>
      var row := RowFrom(Columns(x.desc), params);
      x.desc.attributes[i].column in row && row[x.desc.attributes[i].column] == x.values[i]
  {
    var columns := Columns(x.desc);
    assert |columns| == |x.values|;
    var row := RowFrom(columns, params);
    forall i | 0 <= i < |x.values|
      ensures x.desc.attributes[i].column in row && row[x.desc.attributes[i].column] == x.values[i]
    {
      assert columns[i] == x.desc.attributes[i].column;
      assert columns[i] in columns;
      assert params[i + 1] == x.values[i];
    }
  }

  /** What `save` inserts, `find` reads back: saving a new instance with no relations, whose
      values fit their declared types, and then finding it by the id it was given, yields the
      saved instance. */
  lemma SaveThenFind(x: Instance, db: Db)
    requires Wf(x) && x.id == Unassigned && |x.desc.relations| == 0 && Valid(db)
    requires forall i :: 0 <= i < |x.values| ==> FitsType(x.desc.attributes[i].typeName, x.values[i])
    ensures var s := Save(x, db);
      s.completion == Normal(true) ==> Find(RepoConfig(x.desc.table, Some(x.desc)), s.inst.id, s.db) == Some(s.inst)
  {
    SaveWithoutRelations(x, db);
    var s := Save(x, db);
    if s.completion == Normal(true) {
      assert s == Persist(x, db);
      PersistThenFind(x, db);
    }
  }

  /** The successful INSERT of `persist` appends the row of the instance's values under the
      table's next key, and `find` reads that row back. */
  lemma PersistThenFind(x: Instance, db: Db)
    requires Wf(x) && x.id == Unassigned && |x.desc.relations| == 0 && Valid(db)
    requires forall i :: 0 <= i < |x.values| ==> FitsType(x.desc.attributes[i].typeName, x.values[i])
    requires InsertSucceeds(x, db)
    ensures var p := Persist(x, db);
      Find(RepoConfig(x.desc.table, Some(x.desc)), p.inst.id, p.db) == Some(p.inst)
  {
    var p := Persist(x, db);
    var t := x.desc.table;
    var key := db.tables[t].nextKey;
    var params := FillStatement(x);
    var columns := Columns(x.desc);
    FillStatementInOrder(x);
    ValuesInRow(x, params);
    var row := RowFrom(columns, params)["id" := IntV(key)];
    InsertedRowFirst(db, t, columns, params);
    forall i | 0 <= i < |x.values|
      ensures SetterFor(x.desc.attributes[i].typeName).Some?
      ensures x.desc.attributes[i].column in row && row[x.desc.attributes[i].column] == x.values[i]
    {
      SetterForHasSetter(x.desc.attributes[i].typeName);
      assert columns[i] == x.desc.attributes[i].column;
    }
    LoadWrittenRow(x, row, p.db, key);
    FindOnlyRow(RepoConfig(t, Some(x.desc)), key, p.db, row);
  }

  /** When exactly one row carries the id, `find` imports that row. */
  lemma FindOnlyRow(repo: RepoConfig, id: int, db: Db, row: Row)
    requires repo.model.Some? && HasTable(db, repo.table)
    requires RowsWithId(db.tables[repo.table].rows, IntV(id)) == [row]
    ensures Find(repo, id, db) == Some(FromDatabase(NewInstance(repo.model.value), row, db))
  {
    var params := map[1 := IntV(id)];
    assert Bound(params, 1) && params[1] == IntV(id);
    assert QueryById(db, repo.table, params) == Some([row]);
  }

  /** What `save` updates, `find` reads back: saving a stored instance with no relations, whose
      attribute types all have setters and whose values fit them, reports success, and finding
      it by its id then yields the saved instance. */
  lemma UpdateThenFind(x: Instance, db: Db)
    requires Wf(x) && x.id != Unassigned && |x.desc.relations| == 0 && Valid(db)
    requires forall i :: 0 <= i < |x.values| ==> FitsType(x.desc.attributes[i].typeName, x.values[i])
    requires AllSettable(x.desc.attributes) && |x.values| > 0 && WritableColumns(Columns(x.desc))
    requires HasTable(db, x.desc.table) && !NoRowWithId(x, db)
    ensures var s := Save(x, db);
      s.completion == Normal(true) && s.inst == x
      && Find(RepoConfig(x.desc.table, Some(x.desc)), x.id, s.db) == Some(x)
  {
    SaveWithoutRelations(x, db);
    assert Save(x, db) == Update(x, db);
    UpdateRowThenFind(x, db);
  }

  /** The UPDATE of `update` rewrites the one row with the instance's id, reports a changed
      row, and `find` reads the instance back. */
  lemma UpdateRowThenFind(x: Instance, db: Db)
    requires Wf(x) && x.id != Unassigned && |x.desc.relations| == 0 && Valid(db)
    requires forall i :: 0 <= i < |x.values| ==> FitsType(x.desc.attributes[i].typeName, x.values[i])
    requires AllSettable(x.desc.attributes) && |x.values| > 0 && WritableColumns(Columns(x.desc))
    requires HasTable(db, x.desc.table) && !NoRowWithId(x, db)
    ensures var s := Update(x, db);
      s.completion == Normal(true) && Find(RepoConfig(x.desc.table, Some(x.desc)), x.id, s.db) == Some(x)
  {
    var s := Update(x, db);
    var row := UpdatedRow(x, db);
    forall a | 0 <= a < |x.values|
      ensures SetterFor(x.desc.attributes[a].typeName).Some?
    {
      SetterForHasSetter(x.desc.attributes[a].typeName);
    }
    LoadWrittenRow(x, row, s.db, x.id);
    FindOnlyRow(RepoConfig(x.desc.table, Some(x.desc)), x.id, s.db, row);
  }

  /** After that UPDATE, the one row with the instance's id holds the instance's values. */
  lemma UpdatedRow(x: Instance, db: Db) returns (row: Row)
    requires Wf(x) && x.id != Unassigned && |x.desc.relations| == 0 && Valid(db)
    requires AllSettable(x.desc.attributes) && |x.values| > 0 && WritableColumns(Columns(x.desc))
    requires HasTable(db, x.desc.table) && !NoRowWithId(x, db)
    ensures var after := Update(x, db).db;
      HasTable(after, x.desc.table) && RowsWithId(after.tables[x.desc.table].rows, IntV(x.id)) == [row]
    ensures "id" in row && row["id"] == IntV(x.id)
    ensures forall a :: 0 <= a < |x.values| ==>
      x.desc.attributes[a].column in row && row[x.desc.attributes[a].column] == x.values[a]
  {
    var t := x.desc.table;
    var columns := Columns(x.desc);
    var params := AssignUpdateDatas(x);
    var changes := RowFrom(columns, params);
    var rows := db.tables[t].rows;
    var i :| 0 <= i < |rows| && HasId(rows[i], IntV(x.id));
    AssignUpdateDatasInOrder(x);
    assert |columns| == |x.values|;
    assert Bound(params, |columns| + 1) && params[|columns| + 1] == IntV(x.id);
    assert Update(x, db).db == ExecUpdate(db, t, columns, params).1;
    ValuesInRow(x, params);
    ExecUpdateSingle(db, t, columns, params, i);
    row := rows[i] + changes;
  }

  /** In a consistent database, an UPDATE whose key is the id of row `i` leaves that row, with
      the new values merged in, the only one carrying the key. */
  lemma ExecUpdateSingle(db: Db, table: string, columns: seq<string>, params: Params, i: nat)
    requires Valid(db) && HasTable(db, table) && Bound(params, |columns| + 1) && WritableColumns(columns)
    requires i < |db.tables[table].rows| && HasId(db.tables[table].rows[i], params[|columns| + 1])
    ensures var after := ExecUpdate(db, table, columns, params).1;
      && HasTable(after, table)
      && RowsWithId(after.tables[table].rows, params[|columns| + 1]) == [db.tables[table].rows[i] + RowFrom(columns, params)]
  {
    var rows := db.tables[table].rows;
    var key := params[|columns| + 1];
    var changes := RowFrom(columns, params);
    assert TableWf(db.tables[table]);
    UpdatedRowSingle(rows, i, key, changes);
    RowsWithIdSingle(UpdateRows(rows, key, changes).0, i, key);
  }

  /** In a consistent table, updating the rows with the id of row `i` changes row `i` alone and
      leaves it the only row with that id. */
  lemma UpdatedRowSingle(rows: seq<Row>, i: nat, key: Value, changes: Row)
    requires forall k :: 0 <= k < |rows| ==> "id" in rows[k]
    requires forall a, b :: 0 <= a < b < |rows| ==> rows[a]["id"] != rows[b]["id"]
    requires i < |rows| && HasId(rows[i], key) && "id" !in changes
    ensures var rows' := UpdateRows(rows, key, changes).0;
      && rows'[i] == rows[i] + changes && HasId(rows'[i], key)
      && forall k :: 0 <= k < |rows'| && k != i ==> !HasId(rows'[k], key)
  {
  }

  lemma {:induction false} RowsWithIdSingle(rows: seq<Row>, i: nat, key: Value)
    requires i < |rows| && HasId(rows[i], key)
    requires forall k :: 0 <= k < |rows| && k != i ==> !HasId(rows[k], key)
    ensures RowsWithId(rows, key) == [rows[i]]
  {
    if i > 0 {
      RowsWithIdSingle(rows[1..], i - 1, key);
    } else {
      RowsWithIdNone(rows[1..], key);
    }
  }

  lemma {:induction false} RowsWithIdNone(rows: seq<Row>, key: Value)
    requires forall k :: 0 <= k < |rows| ==> !HasId(rows[k], key)
    ensures RowsWithId(rows, key) == []
  {
    if |rows| > 0 {
      RowsWithIdNone(rows[1..], key);
    }
  }
}
