/** A model instance and what `ModelBase` does with it: the parameters `fillStatement` and
    `assignUpdateDatas` bind, the INSERT of `persist`, the UPDATE of `update`, the DELETE of
    `delete`, and `save` / `destroy` on top of them, with the depth-first saving of related
    instances done by `persistRelations`. */
module Entity {
  import opened Wrappers
  import opened Binder
  import opened Sql
  import opened Metadata
  import opened Database

  /** The id of an instance that has no database row. */
  const Unassigned := -1

  /** An instance of a model class: its class, its id, one value per discovered attribute and
      one (possibly null) related instance per discovered relation, both in discovery order. */
  datatype Instance = Instance(desc: Descriptor, id: int, values: seq<Value>, related: seq<Option<Instance>>)

  /** The instance has one value per attribute and one slot per relation, all the way down. */
  predicate Wf(x: Instance)
    decreases x
  {
    && |x.values| == |x.desc.attributes|
    && |x.related| == |x.desc.relations|
    && forall j :: 0 <= j < |x.related| && x.related[j].Some? ==> Wf(x.related[j].value)
  }

  /** Every column the statements name: the attribute columns, then the relation columns. */
  function Columns(d: Descriptor): (r: seq<string>)
    ensures |r| == ColumnCount(d)
  {
    AttributeColumns(d) + RelationColumns(d)
  }

  function ColumnCount(d: Descriptor): nat {
    |d.attributes| + |d.relations|
  }

  /** A freshly constructed instance: no id, every field at its Java default, no relation set. */
  function NewInstance(d: Descriptor): (x: Instance)
    ensures Wf(x) && x.desc == d && x.id == Unassigned
    ensures forall i :: 0 <= i < |d.attributes| ==> x.values[i] == DefaultValue(d.attributes[i].typeName)
    ensures forall j :: 0 <= j < |d.relations| ==> x.related[j].None?
  {
    Instance(d, Unassigned,
             seq(|d.attributes|, i requires 0 <= i < |d.attributes| => DefaultValue(d.attributes[i].typeName)),
             seq(|d.relations|, _ => None))
  }

  /** The statement has a setter for the attribute's declared type (`SetterForHasSetter`). */
  predicate Settable(a: Attr) {
    HasSetter(a.typeName)
  }

  predicate AllSettable(attrs: seq<Attr>) {
    forall i :: 0 <= i < |attrs| ==> Settable(attrs[i])
  }

  predicate AllPresent(related: seq<Option<Instance>>) {
    forall j :: 0 <= j < |related| ==> related[j].Some?
  }

  /** How many of the first `n` attributes have a setter. */
  function SettableCount(attrs: seq<Attr>, n: nat): (c: nat)
    requires n <= |attrs|
    ensures c <= n
  {
    if n == 0 then 0 else SettableCount(attrs, n - 1) + if Settable(attrs[n - 1]) then 1 else 0
  }

  lemma {:induction false} SettableCountGrows(attrs: seq<Attr>, i: nat, n: nat)
    requires i < n <= |attrs| && Settable(attrs[i])
    ensures SettableCount(attrs, i) < SettableCount(attrs, n)
  {
    if i < n - 1 {
      SettableCountGrows(attrs, i, n - 1);
    }
  }

  lemma {:induction false} SettableCountFull(attrs: seq<Attr>, n: nat)
    requires n <= |attrs|
    ensures SettableCount(attrs, n) == n <==> forall i :: 0 <= i < n ==> Settable(attrs[i])
  {
    if n > 0 {
      SettableCountFull(attrs, n - 1);
    }
  }

  // ---------------------------------------------------------------------------------------------
  // fillStatement

  /** The index `fillStatement` binds attribute `i` at: one past the settable attributes before
      it, since a type without a setter throws before the index is incremented. */
  function Slot(attrs: seq<Attr>, i: nat): int
    requires i <= |attrs|
  {
    1 + SettableCount(attrs, i)
  }

  /** The attribute loop of `fillStatement` after `n` iterations. */
  function FillAttributes(attrs: seq<Attr>, values: seq<Value>, n: nat): (r: Params)
    requires |values| == |attrs| && n <= |attrs|
    ensures forall k :: k in r <==> 1 <= k <= SettableCount(attrs, n)
    ensures forall i {:trigger Slot(attrs, i)} :: 0 <= i < n && Settable(attrs[i]) ==>
      Slot(attrs, i) in r && r[Slot(attrs, i)] == values[i]
  {
    if n == 0 then map[]
    else
      var before := FillAttributes(attrs, values, n - 1);
      assert forall i {:trigger Slot(attrs, i)} :: 0 <= i < n - 1 && Settable(attrs[i]) ==> Slot(attrs, i) < Slot(attrs, n - 1) by {
        forall i | 0 <= i < n - 1 && Settable(attrs[i]) ensures Slot(attrs, i) < Slot(attrs, n - 1) {
          SettableCountGrows(attrs, i, n - 1);
        }
      }
      if Settable(attrs[n - 1]) then before[Slot(attrs, n - 1) := values[n - 1]] else before
  }

  /** The relation loop of `fillStatement` after `n` iterations, starting at index `start`. The
      index is incremented before a null relation throws, so that index stays unbound. */
  function FillRelations(related: seq<Option<Instance>>, start: int, n: nat): (r: Params)
    requires n <= |related|
    ensures forall k :: k in r ==> start <= k < start + n
    ensures forall j :: 0 <= j < n ==>
      && (start + j in r <==> related[j].Some?)
      && (related[j].Some? ==> r[start + j] == IntV(related[j].value.id))
  {
    if n == 0 then map[]
    else
      var before := FillRelations(related, start, n - 1);
      match related[n - 1]
      case None => before
      case Some(c) => before[start + n - 1 := IntV(c.id)]
  }

  /** `fillStatement`: the parameters of the INSERT. All columns are bound exactly when every
      attribute type has a setter and no relation is null. */
  function FillStatement(x: Instance): (r: Params)
    requires Wf(x)
    ensures forall k :: k in r ==> 1 <= k <= ColumnCount(x.desc)
    ensures Bound(r, ColumnCount(x.desc)) <==> AllSettable(x.desc.attributes) && AllPresent(x.related)
    ensures forall i {:trigger Slot(x.desc.attributes, i)} :: 0 <= i < |x.values| && Settable(x.desc.attributes[i]) ==>
      Slot(x.desc.attributes, i) in r && r[Slot(x.desc.attributes, i)] == x.values[i]
    ensures forall j :: 0 <= j < |x.related| ==>
      var k := Slot(x.desc.attributes, |x.values|) + j;
      && (k in r <==> x.related[j].Some?)
      && (x.related[j].Some? ==> r[k] == IntV(x.related[j].value.id))
  {
    var attrs := x.desc.attributes;
    var a := FillAttributes(attrs, x.values, |attrs|);
    var b := FillRelations(x.related, Slot(attrs, |attrs|), |x.related|);
    RelationsAfterAttributes(x);
    FillStatementBound(x);
    a + b
  }

  /** The relation indices of `fillStatement` come after every attribute index. */
  lemma RelationsAfterAttributes(x: Instance)
    requires Wf(x)
    ensures var attrs := x.desc.attributes;
      forall i {:trigger Slot(attrs, i)} :: 0 <= i < |attrs| && Settable(attrs[i]) ==>
        Slot(attrs, i) !in FillRelations(x.related, Slot(attrs, |attrs|), |x.related|)
  {
    var attrs := x.desc.attributes;
    forall i | 0 <= i < |attrs| && Settable(attrs[i])
      ensures Slot(attrs, i) !in FillRelations(x.related, Slot(attrs, |attrs|), |x.related|)
    {
      SettableCountGrows(attrs, i, |attrs|);
    }
  }

  /** Every column of the INSERT is bound exactly when every attribute type has a setter and no
      relation is null. */
  lemma FillStatementBound(x: Instance)
    requires Wf(x)
    ensures var attrs := x.desc.attributes;
      var r := FillAttributes(attrs, x.values, |attrs|) + FillRelations(x.related, Slot(attrs, |attrs|), |x.related|);
      Bound(r, ColumnCount(x.desc)) <==> AllSettable(attrs) && AllPresent(x.related)
  {
    if AllSettable(x.desc.attributes) && AllPresent(x.related) {
      FillStatementComplete(x);
    }
    FillStatementBoundNeeds(x);
  }

  lemma FillStatementComplete(x: Instance)
    requires Wf(x) && AllSettable(x.desc.attributes) && AllPresent(x.related)
    ensures var attrs := x.desc.attributes;
      Bound(FillAttributes(attrs, x.values, |attrs|) + FillRelations(x.related, Slot(attrs, |attrs|), |x.related|),
            ColumnCount(x.desc))
  {
    var attrs := x.desc.attributes;
    var settable := SettableCount(attrs, |attrs|);
    var a := FillAttributes(attrs, x.values, |attrs|);
    var b := FillRelations(x.related, 1 + settable, |x.related|);
    SettableCountFull(attrs, |attrs|);
    forall k | 1 <= k <= ColumnCount(x.desc) ensures k in a + b {
      if k <= settable {
        assert k in a;
      } else {
        var j := k - 1 - settable;
        assert x.related[j].Some?;
        assert 1 + settable + j in b;
      }
    }
  }

  lemma FillStatementBoundNeeds(x: Instance)
    requires Wf(x)
    ensures var attrs := x.desc.attributes;
      Bound(FillAttributes(attrs, x.values, |attrs|) + FillRelations(x.related, Slot(attrs, |attrs|), |x.related|),
            ColumnCount(x.desc))
      ==> AllSettable(attrs) && AllPresent(x.related)
  {
    var attrs := x.desc.attributes;
    var settable := SettableCount(attrs, |attrs|);
    var a := FillAttributes(attrs, x.values, |attrs|);
    var b := FillRelations(x.related, 1 + settable, |x.related|);
    if Bound(a + b, ColumnCount(x.desc)) {
      SettableCountFull(attrs, |attrs|);
      if |attrs| > 0 {
        var last := ColumnCount(x.desc);
        assert last in a + b;
        if last in a {
          assert last <= settable;
        } else {
          assert last < 1 + settable + |x.related|;
        }
      }
      assert settable == |attrs|;
      forall j | 0 <= j < |x.related| ensures x.related[j].Some? {
        assert 1 + settable + j in a + b;
      }
    }
  }

  /** When every attribute type has a setter, attribute `i` is bound at index `i + 1`. */
  lemma FillStatementInOrder(x: Instance)
    requires Wf(x) && AllSettable(x.desc.attributes)
    ensures forall k :: 1 <= k <= |x.values| ==> k in FillStatement(x) && FillStatement(x)[k] == x.values[k - 1]
  {
    var attrs := x.desc.attributes;
    var r := FillStatement(x);
    forall k | 1 <= k <= |x.values| ensures k in r && r[k] == x.values[k - 1] {
      SettableCountAll(attrs, k - 1);
      assert Settable(attrs[k - 1]);
      assert Slot(attrs, k - 1) == k;
    }
  }

  /** With every attribute settable, the first `n` of them count `n`. */
  lemma {:induction false} SettableCountAll(attrs: seq<Attr>, n: nat)
    requires AllSettable(attrs) && n <= |attrs|
    ensures SettableCount(attrs, n) == n
  {
    if n > 0 {
      SettableCountAll(attrs, n - 1);
      assert Settable(attrs[n - 1]);
    }
  }

  // ---------------------------------------------------------------------------------------------
  // assignUpdateDatas

  /** What `assignUpdateDatas` tries to bind at index `k + 1`, as item `k`: each attribute's
      value when its type has a setter, then each relation's id when it is set, then the id.
      `None` marks a binding that throws: the setter lookup fails, or the null relation's
      `getId()` does. */
  function UpdateItems(x: Instance): (items: seq<Option<Value>>)
    requires Wf(x)
    ensures |items| == ColumnCount(x.desc) + 1
  {
    seq(ColumnCount(x.desc) + 1, m requires 0 <= m <= ColumnCount(x.desc) => UpdateItem(x, m))
  }

  function UpdateItem(x: Instance, m: nat): Option<Value>
    requires Wf(x) && m <= ColumnCount(x.desc)
  {
    if m < |x.values| then
      if Settable(x.desc.attributes[m]) then Some(x.values[m]) else None
    else if m < ColumnCount(x.desc) then
      var j := m - |x.values|;
      if x.related[j].Some? then Some(IntV(x.related[j].value.id)) else None
    else Some(IntV(x.id))
  }

  /** None of the first `n` items throws. */
  predicate NoFailureBefore(items: seq<Option<Value>>, n: nat)
    requires n <= |items|
  {
    forall m :: 0 <= m < n ==> items[m].Some?
  }

  /** The first `n` iterations of binding `items` in order: the whole of `assignUpdateDatas`
      sits in one `try`, so the first item that throws ends it, and an index is bound exactly
      when no item up to it threw. */
  function BindInOrder(items: seq<Option<Value>>, n: nat): (r: Params)
    requires n <= |items|
    ensures forall k :: k in r <==> 1 <= k <= n && NoFailureBefore(items, k)
    ensures forall k :: k in r ==> items[k - 1].Some? && r[k] == items[k - 1].value
  {
    if n == 0 then map[]
    else
      var before := BindInOrder(items, n - 1);
      if NoFailureBefore(items, n) then before[n := items[n - 1].value]
      else
        assert forall k :: n <= k <= |items| ==> !NoFailureBefore(items, k);
        before
  }

  /** `assignUpdateDatas`: the parameters of the UPDATE. The id goes to the index after the
      columns, and is bound only when every column was. */
  function AssignUpdateDatas(x: Instance): (r: Params)
    requires Wf(x)
    ensures forall k :: k in r ==> 1 <= k <= ColumnCount(x.desc) + 1
    ensures ColumnCount(x.desc) + 1 in r <==> AllSettable(x.desc.attributes) && AllPresent(x.related)
    ensures Bound(r, ColumnCount(x.desc) + 1) <==> AllSettable(x.desc.attributes) && AllPresent(x.related)
    ensures forall k :: 1 <= k <= |x.values| && k in r ==> r[k] == x.values[k - 1]
    ensures forall j :: 0 <= j < |x.related| && |x.values| + 1 + j in r ==>
      x.related[j].Some? && r[|x.values| + 1 + j] == IntV(x.related[j].value.id)
    ensures ColumnCount(x.desc) + 1 in r ==> r[ColumnCount(x.desc) + 1] == IntV(x.id)
  {
    UpdateBindsAttributes(x);
    UpdateBindsRelations(x);
    UpdateBindsId(x);
    UpdateBindsAll(x);
    BindInOrder(UpdateItems(x), ColumnCount(x.desc) + 1)
  }

  /** Each bound attribute index of the UPDATE carries its attribute's value. */
  lemma UpdateBindsAttributes(x: Instance)
    requires Wf(x)
    ensures var r := BindInOrder(UpdateItems(x), ColumnCount(x.desc) + 1);
      forall k :: 1 <= k <= |x.values| && k in r ==> r[k] == x.values[k - 1]
  {
    var r := BindInOrder(UpdateItems(x), ColumnCount(x.desc) + 1);
    forall k | 1 <= k <= |x.values| && k in r ensures r[k] == x.values[k - 1] {
      UpdateItemAttribute(x, k - 1);
    }
  }

  /** Each bound relation index of the UPDATE carries its related instance's id. */
  lemma UpdateBindsRelations(x: Instance)
    requires Wf(x)
    ensures var r := BindInOrder(UpdateItems(x), ColumnCount(x.desc) + 1);
      forall j :: 0 <= j < |x.related| && |x.values| + 1 + j in r ==>
        x.related[j].Some? && r[|x.values| + 1 + j] == IntV(x.related[j].value.id)
  {
    var r := BindInOrder(UpdateItems(x), ColumnCount(x.desc) + 1);
    forall j | 0 <= j < |x.related| && |x.values| + 1 + j in r
      ensures x.related[j].Some? && r[|x.values| + 1 + j] == IntV(x.related[j].value.id)
    {
      UpdateItemRelation(x, j);
    }
  }

  /** The bound id index of the UPDATE carries the id. */
  lemma UpdateBindsId(x: Instance)
    requires Wf(x)
    ensures var r := BindInOrder(UpdateItems(x), ColumnCount(x.desc) + 1);
      ColumnCount(x.desc) + 1 in r ==> r[ColumnCount(x.desc) + 1] == IntV(x.id)
  {
    UpdateItemId(x);
  }

  lemma UpdateItemAttribute(x: Instance, i: nat)
    requires Wf(x) && i < |x.values|
    ensures UpdateItems(x)[i] == if Settable(x.desc.attributes[i]) then Some(x.values[i]) else None
  {
  }

  lemma UpdateItemRelation(x: Instance, j: nat)
    requires Wf(x) && j < |x.related|
    ensures UpdateItems(x)[|x.values| + j]
         == if x.related[j].Some? then Some(IntV(x.related[j].value.id)) else None
  {
  }

  lemma UpdateItemId(x: Instance)
    requires Wf(x)
    ensures UpdateItems(x)[ColumnCount(x.desc)] == Some(IntV(x.id))
  {
  }

  /** The id is bound, and with it every index, exactly when no binding throws. */
  lemma UpdateBindsAll(x: Instance)
    requires Wf(x)
    ensures var r := BindInOrder(UpdateItems(x), ColumnCount(x.desc) + 1);
      && (ColumnCount(x.desc) + 1 in r <==> AllSettable(x.desc.attributes) && AllPresent(x.related))
      && (Bound(r, ColumnCount(x.desc) + 1) <==> AllSettable(x.desc.attributes) && AllPresent(x.related))
  {
    var items := UpdateItems(x);
    var n := ColumnCount(x.desc) + 1;
    var r := BindInOrder(items, n);
    AllItemsPresent(x);
    if n in r {
      forall k | 1 <= k <= n ensures k in r {
        assert NoFailureBefore(items, n);
      }
    }
  }

  /** Where each attribute, relation and the id sit among the items. */
  lemma UpdateItemsAt(x: Instance)
    requires Wf(x)
    ensures forall i :: 0 <= i < |x.values| ==>
      UpdateItems(x)[i] == if Settable(x.desc.attributes[i]) then Some(x.values[i]) else None
    ensures forall j :: 0 <= j < |x.related| ==>
      UpdateItems(x)[|x.values| + j] == if x.related[j].Some? then Some(IntV(x.related[j].value.id)) else None
    ensures UpdateItems(x)[ColumnCount(x.desc)] == Some(IntV(x.id))
  {
  }

  /** No item throws exactly when every attribute type has a setter and no relation is null. */
  lemma AllItemsPresent(x: Instance)
    requires Wf(x)
    ensures NoFailureBefore(UpdateItems(x), ColumnCount(x.desc) + 1)
      <==> AllSettable(x.desc.attributes) && AllPresent(x.related)
  {
    var items := UpdateItems(x);
    UpdateItemsAt(x);
    if AllSettable(x.desc.attributes) && AllPresent(x.related) {
      forall m | 0 <= m < |items| ensures items[m].Some? {
        if m >= |x.values| && m < ColumnCount(x.desc) {
          assert x.related[m - |x.values|].Some?;
        }
      }
    }
    if NoFailureBefore(items, |items|) {
      forall j | 0 <= j < |x.related| ensures x.related[j].Some? {
        assert items[|x.values| + j].Some?;
      }
    }
  }

  /** When every attribute type has a setter and every relation is set, the SET list binds
      attribute `i` at index `i + 1` and the id after all the columns. */
  lemma AssignUpdateDatasInOrder(x: Instance)
    requires Wf(x) && AllSettable(x.desc.attributes) && AllPresent(x.related)
    ensures var r := AssignUpdateDatas(x);
      && Bound(r, ColumnCount(x.desc) + 1)
      && (forall k :: 1 <= k <= |x.values| ==> r[k] == x.values[k - 1])
      && r[ColumnCount(x.desc) + 1] == IntV(x.id)
  {
  }

  // ---------------------------------------------------------------------------------------------
  // persist, update, delete

  /** How an operation ended: normally with its boolean result, or with an exception the mapper
      does not catch (`substring(2)` on an empty column list). */
  datatype Completion = Normal(ok: bool) | Abrupt

  /** An operation's completion, the instance and the database after it, and the statements it
      sent, in order. */
  datatype Step = Step(completion: Completion, inst: Instance, db: Db, trace: seq<Statement>)

  /** The generated-key INSERT went through: a row was written and its key handed back. */
  predicate InsertSucceeds(x: Instance, db: Db)
    requires Wf(x)
  {
    && ColumnCount(x.desc) > 0
    && HasTable(db, x.desc.table)
    && AllSettable(x.desc.attributes)
    && AllPresent(x.related)
    && WritableColumns(Columns(x.desc))
    && db.tables[x.desc.table].returnsKeys
  }

  /** `persist`: INSERT the instance and take the generated key as its id. The query is built
      outside the `try`, so an instance with no column completes abruptly. Zero affected rows or
      no generated key are reported as failure, leaving the id as it was. */
  function Persist(x: Instance, db: Db): (r: Step)
    requires Wf(x)
    ensures r.completion.Abrupt? <==> ColumnCount(x.desc) == 0
    ensures r.completion.Abrupt? ==> r.inst == x && r.db == db && r.trace == []
    ensures r.completion.Normal? ==>
      && r.trace == [Statement(InsertSql(x.desc.table, AttributeColumns(x.desc), RelationColumns(x.desc)).value, FillStatement(x))]
      && r.db == ExecInsert(db, x.desc.table, Columns(x.desc), FillStatement(x)).1
    ensures r.completion == Normal(true) <==> InsertSucceeds(x, db)
    ensures r.completion == Normal(true) ==> r.inst == x.(id := db.tables[x.desc.table].nextKey)
    ensures r.completion != Normal(true) ==> r.inst == x
  {
    match InsertSql(x.desc.table, AttributeColumns(x.desc), RelationColumns(x.desc))
    case None => Step(Abrupt, x, db, [])
    case Some(text) =>
      var params := FillStatement(x);
      var exec := ExecInsert(db, x.desc.table, Columns(x.desc), params);
      var trace := [Statement(text, params)];
      if exec.0.Affected? && exec.0.count != 0 && exec.0.key.Some? then
        Step(Normal(true), x.(id := exec.0.key.value), exec.1, trace)
      else
        Step(Normal(false), x, exec.1, trace)
  }

  /** No row of the instance's table carries its id. */
  predicate NoRowWithId(x: Instance, db: Db)
    requires HasTable(db, x.desc.table)
  {
    forall i :: 0 <= i < |db.tables[x.desc.table].rows| ==> !HasId(db.tables[x.desc.table].rows[i], IntV(x.id))
  }

  /** `update`: UPDATE the instance's row. Any exception is caught and reported as success; the
      result is false only when the statement ran and matched no row. The instance is unchanged. */
  function Update(x: Instance, db: Db): (r: Step)
    requires Wf(x)
    ensures r.inst == x
    ensures r.completion.Abrupt? <==> ColumnCount(x.desc) == 0
    ensures r.completion.Abrupt? ==> r.db == db && r.trace == []
    ensures r.completion.Normal? ==>
      && r.trace == [Statement(UpdateSql(x.desc.table, AttributeColumns(x.desc), RelationColumns(x.desc)).value, AssignUpdateDatas(x))]
      && r.db == ExecUpdate(db, x.desc.table, Columns(x.desc), AssignUpdateDatas(x)).1
    ensures r.completion == Normal(false) <==>
      && ColumnCount(x.desc) > 0 && HasTable(db, x.desc.table)
      && AllSettable(x.desc.attributes) && AllPresent(x.related) && WritableColumns(Columns(x.desc))
      && NoRowWithId(x, db)
  {
    match UpdateSql(x.desc.table, AttributeColumns(x.desc), RelationColumns(x.desc))
    case None => Step(Abrupt, x, db, [])
    case Some(text) =>
      var params := AssignUpdateDatas(x);
      var exec := ExecUpdate(db, x.desc.table, Columns(x.desc), params);
      Step(Normal(exec.0.Failed? || exec.0.count != 0), x, exec.1, [Statement(text, params)])
  }

  /** `delete`: DELETE the instance's row and clear its id. Zero affected rows and SQL errors
      are caught, and the result is true whatever happened; only a deleted row clears the id. */
  function Delete(x: Instance, db: Db): (r: Step)
    ensures r.completion == Normal(true)
    ensures r.trace == [Statement(DeleteSql(x.desc.table), map[1 := IntV(x.id)])]
    ensures r.db == ExecDelete(db, x.desc.table, map[1 := IntV(x.id)]).1
    ensures r.inst == if HasTable(db, x.desc.table) && !NoRowWithId(x, db) then x.(id := Unassigned) else x
  {
    var params := map[1 := IntV(x.id)];
    var exec := ExecDelete(db, x.desc.table, params);
    var inst := if exec.0.Affected? && exec.0.count != 0 then x.(id := Unassigned) else x;
    Step(Normal(true), inst, exec.1, [Statement(DeleteSql(x.desc.table), params)])
  }

  /** `destroy`: an instance without an id is refused; otherwise its row is deleted. Only the
      instance's own table loses rows, exactly those carrying its id, and related instances are
      left alone. */
  function Destroy(x: Instance, db: Db): (r: Step)
    ensures r.completion == Normal(x.id != Unassigned)
    ensures r.inst.desc == x.desc && r.inst.values == x.values && r.inst.related == x.related
    ensures r.inst.id == Unassigned <==>
      x.id == Unassigned || (HasTable(db, x.desc.table) && !NoRowWithId(x, db))
    ensures r.inst.id != Unassigned ==> r.inst.id == x.id
    ensures r.db.tables.Keys == db.tables.Keys
    ensures forall t :: t in db.tables && t != x.desc.table ==> r.db.tables[t] == db.tables[t]
    ensures x.id != Unassigned && HasTable(db, x.desc.table) ==>
      forall row :: row in r.db.tables[x.desc.table].rows <==>
        row in db.tables[x.desc.table].rows && !HasId(row, IntV(x.id))
    ensures x.id == Unassigned ==> r.db == db && r.trace == []
  {
    if x.id != Unassigned then Delete(x, db) else Step(Normal(false), x, db, [])
  }

  // ---------------------------------------------------------------------------------------------
  // save and persistRelations

  /** The statement `save` sends for the instance itself: INSERT while it has no id, UPDATE
      once it has one. */
  function OwnStatementText(x: Instance): Option<string> {
    if x.id == Unassigned then InsertSql(x.desc.table, AttributeColumns(x.desc), RelationColumns(x.desc))
    else UpdateSql(x.desc.table, AttributeColumns(x.desc), RelationColumns(x.desc))
  }

  /** The parameters `save` binds for the instance itself: those of `fillStatement` for the
      INSERT, those of `assignUpdateDatas` for the UPDATE. */
  function OwnParams(x: Instance): Params
    requires Wf(x)
  {
    if x.id == Unassigned then FillStatement(x) else AssignUpdateDatas(x)
  }

  /** Saving keeps each relation slot: null stays null, a related instance stays an instance of
      the same class and keeps its id once it has one. */
  predicate SameShape(before: seq<Option<Instance>>, after: seq<Option<Instance>>) {
    && |before| == |after|
    && forall j :: 0 <= j < |before| ==> SameSlot(before[j], after[j])
  }

  predicate SameSlot(before: Option<Instance>, after: Option<Instance>) {
    && (before.None? <==> after.None?)
    && (before.Some? ==> after.value.desc == before.value.desc && Wf(after.value))
    && (before.Some? && before.value.id != Unassigned ==> after.value.id == before.value.id)
  }

  /** A slice of a well-formed instance's relations has its own shape. */
  lemma SameShapeSelf(x: Instance, i: nat)
    requires Wf(x) && i <= |x.related|
    ensures SameShape(x.related[i..], x.related[i..])
  {
    forall j | 0 <= j < |x.related[i..]| ensures SameSlot(x.related[i..][j], x.related[i..][j]) {
      assert x.related[i..][j] == x.related[i + j];
    }
  }

  lemma SliceCons<T>(s: seq<T>, i: nat)
    requires i < |s|
    ensures s[i..] == [s[i]] + s[i + 1..]
  {
  }

  lemma SameShapeCons(b: Option<Instance>, a: Option<Instance>, before: seq<Option<Instance>>, after: seq<Option<Instance>>)
    requires SameSlot(b, a) && SameShape(before, after)
    ensures SameShape([b] + before, [a] + after)
  {
    forall j | 0 <= j < |[b] + before| ensures SameSlot(([b] + before)[j], ([a] + after)[j]) {
      if j > 0 {
        assert ([b] + before)[j] == before[j - 1];
        assert ([a] + after)[j] == after[j - 1];
      }
    }
  }

  /** The relations after `persistRelations` visited slots `i..`, whether a save among them
      completed abruptly, the database, and the statements sent. */
  datatype Cascade = Cascade(abrupt: bool, related: seq<Option<Instance>>, db: Db, trace: seq<Statement>)

  /** `persistRelations` from slot `i` on: each non-null related instance is saved, its result
      ignored; an abrupt save ends the loop and propagates. */
  function SaveRelations(x: Instance, i: nat, db: Db): (r: Cascade)
    requires Wf(x) && i <= |x.related|
    decreases x, 0, |x.related| - i
    ensures SameShape(x.related[i..], r.related)
    ensures KeysAdvance(db, r.db)
    ensures Valid(db) ==> Valid(r.db)
    ensures (forall j :: i <= j < |x.related| ==> x.related[j].None?) ==> r == Cascade(false, x.related[i..], db, [])
  {
    if i == |x.related| then Cascade(false, [], db, [])
    else
      match x.related[i]
      case None =>
        var rest := SaveRelations(x, i + 1, db);
        SliceCons(x.related, i);
        SameShapeCons(None, None, x.related[i + 1..], rest.related);
        Cascade(rest.abrupt, [None] + rest.related, rest.db, rest.trace)
      case Some(c) =>
        var s := Save(c, db);
        SliceCons(x.related, i);
        assert SameSlot(Some(c), Some(s.inst));
        if s.completion.Abrupt? then
          SameShapeSelf(x, i + 1);
          SameShapeCons(Some(c), Some(s.inst), x.related[i + 1..], x.related[i + 1..]);
          Cascade(true, [Some(s.inst)] + x.related[i + 1..], s.db, s.trace)
        else
          var rest := SaveRelations(x, i + 1, s.db);
          KeysAdvanceTransitive(db, s.db, rest.db);
          SameShapeCons(Some(c), Some(s.inst), x.related[i + 1..], rest.related);
          Cascade(rest.abrupt, [Some(s.inst)] + rest.related, rest.db, s.trace + rest.trace)
  }

  /** `save`: save the related instances first, then INSERT the instance if it has no id and
      UPDATE it otherwise. An abrupt completion anywhere propagates and the instance itself is
      not written. */
  function Save(x: Instance, db: Db): (r: Step)
    requires Wf(x)
    decreases x, 1
    ensures Wf(r.inst) && r.inst.desc == x.desc && r.inst.values == x.values
    ensures SameShape(x.related, r.inst.related)
    ensures x.id != Unassigned ==> r.inst.id == x.id
    ensures x.id == Unassigned && r.completion != Normal(true) ==> r.inst.id == Unassigned
    ensures x.id == Unassigned && r.completion == Normal(true) ==>
      x.desc.table in db.tables && r.inst.id >= db.tables[x.desc.table].nextKey
    ensures r.completion.Normal? ==> |r.trace| >= 1 && Some(r.trace[|r.trace| - 1].text) == OwnStatementText(x)
    ensures KeysAdvance(db, r.db)
    ensures Valid(db) ==> Valid(r.db)
  {
    var pre := SaveRelations(x, 0, db);
    assert x.related[0..] == x.related;
    var owner := x.(related := pre.related);
    if pre.abrupt then
      Step(Abrupt, owner, pre.db, pre.trace)
    else
      var own := SaveOwn(owner, pre.db);
      KeysAdvanceTransitive(db, pre.db, own.db);
      LastOfAppend(pre.trace, own.trace);
      Step(own.completion, own.inst, own.db, pre.trace + own.trace)
  }

  lemma LastOfAppend<T>(a: seq<T>, b: seq<T>)
    ensures |b| > 0 ==> |a + b| > 0 && (a + b)[|a + b| - 1] == b[|b| - 1]
  {
  }

  /** The last step of `save`: INSERT while the instance has no id, UPDATE once it has one. */
  function SaveOwn(x: Instance, db: Db): (r: Step)
    requires Wf(x)
    ensures r.inst.desc == x.desc && r.inst.values == x.values && r.inst.related == x.related
    ensures x.id != Unassigned ==> r.inst.id == x.id
    ensures x.id == Unassigned && r.completion != Normal(true) ==> r.inst.id == Unassigned
    ensures x.id == Unassigned && r.completion == Normal(true) ==>
      x.desc.table in db.tables && r.inst.id == db.tables[x.desc.table].nextKey
    ensures r.completion.Abrupt? ==> r.trace == []
    ensures r.completion.Normal? ==> |r.trace| == 1 && Some(r.trace[0].text) == OwnStatementText(x)
    ensures KeysAdvance(db, r.db)
    ensures Valid(db) ==> Valid(r.db)
  {
    if x.id == Unassigned then
      InsertKeepsWf(db, x.desc.table, Columns(x.desc), FillStatement(x));
      Persist(x, db)
    else
      UpdateKeepsWf(db, x.desc.table, Columns(x.desc), AssignUpdateDatas(x));
      Update(x, db)
  }

  /** The statement `save` sends for the instance itself carries the parameters
      `fillStatement` (INSERT) or `assignUpdateDatas` (UPDATE) bind for it. */
  lemma SaveOwnParams(x: Instance, db: Db)
    requires Wf(x)
    ensures var r := SaveOwn(x, db);
      r.completion.Normal? ==> r.trace == [Statement(OwnStatementText(x).value, OwnParams(x))]
  {
  }
}
