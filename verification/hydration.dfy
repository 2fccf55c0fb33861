/** Loading instances from rows: `ModelBase.fromDatabase` fills a fresh instance from a result-set
    row, and `RepositoryBase.find` selects a row by id and hydrates it. The two are mutually
    recursive: each relation's foreign key is resolved through the related repository's `find`. */
module Hydration {
  import opened Wrappers
  import opened Binder
  import opened Metadata
  import opened Sql
  import opened Database
  import opened Entity

  /** How far `fromDatabase` got: the instance so far, and whether an exception ended it. */
  datatype Hydrated = Hydrated(inst: Instance, aborted: bool)

  /** Index of the first column the row lacks (`findColumn` throws for it), or the count. */
  function FirstMissing(columns: seq<string>, row: Row): (k: nat)
    ensures k <= |columns|
    ensures forall i :: 0 <= i < k ==> columns[i] in row
    ensures k < |columns| ==> columns[k] !in row
  {
    if |columns| == 0 || columns[0] !in row then 0 else 1 + FirstMissing(columns[1..], row)
  }

  /** `getInt` on a foreign-key cell: SQL NULL reads as 0; a cell that is not an integer makes
      it throw, which aborts the import. */
  function ForeignKey(cell: Value): (r: Option<int>)
    ensures r.Some? <==> cell.Null? || cell.IntV?
    ensures cell.Null? ==> r == Some(0)
    ensures cell.IntV? ==> r == Some(cell.i)
  {
    if cell == Null || Carries(IntCol, cell) then Some(ReadCell(IntCol, cell).i) else None
  }

  predicate KeyReadable(row: Row, column: string) {
    column in row && ForeignKey(row[column]).Some?
  }

  /** Index of the first relation whose foreign key cannot be read, or the count. */
  function FirstUnreadable(relations: seq<Relation>, row: Row): (k: nat)
    ensures k <= |relations|
    ensures forall j :: 0 <= j < k ==> KeyReadable(row, relations[j].column)
    ensures k < |relations| ==> !KeyReadable(row, relations[k].column)
  {
    if |relations| == 0 || !KeyReadable(row, relations[0].column) then 0
    else 1 + FirstUnreadable(relations[1..], row)
  }

  /** The id as `fromDatabase` reads it: `getValueFromDatabase(.., int.class)` reaches `getInt`,
      so SQL NULL reads as 0, and a cell of another type is caught and read as `null`, which
      `setId` ignores. */
  function ReadId(cell: Value): (r: Option<int>)
    ensures r == match cell case Null => Some(0) case IntV(k) => Some(k) case _ => None
  {
    DispatchExamples();
    match ReadColumn(cell, "int")
    case IntV(k) => Some(k)
    case _ => None
  }

  /** The value `fromDatabase` stores into attribute `i`. */
  function LoadedValue(x: Instance, row: Row, i: nat): Value
    requires Wf(x) && i < |x.values| && x.desc.attributes[i].column in row
  {
    var a := x.desc.attributes[i];
    AssignField(x.values[i], ReadColumn(row[a.column], a.typeName), a.typeName)
  }

  /** The attribute loop of `fromDatabase` after `n` iterations: each attribute read from its
      column until a column is missing, which aborts the import. */
  function ReadAttributes(x: Instance, row: Row, n: nat): (r: Hydrated)
    requires Wf(x) && n <= |x.values|
    ensures Wf(r.inst) && r.inst.desc == x.desc && r.inst.id == x.id && r.inst.related == x.related
    ensures r.aborted <==> FirstMissing(AttributeColumns(x.desc), row) < n
    ensures forall i :: 0 <= i < |x.values| ==>
      r.inst.values[i] == if i < n && i < FirstMissing(AttributeColumns(x.desc), row) then LoadedValue(x, row, i) else x.values[i]
  {
    if n == 0 then Hydrated(x, false)
    else
      var before := ReadAttributes(x, row, n - 1);
      var column := x.desc.attributes[n - 1].column;
      assert AttributeColumns(x.desc)[n - 1] == column;
      if before.aborted then before
      else if column !in row then Hydrated(before.inst, true)
      else Hydrated(before.inst.(values := before.inst.values[n - 1 := LoadedValue(x, row, n - 1)]), false)
  }

  /** The relation loop of `fromDatabase` after `n` iterations: each relation loaded through its
      repository's `find` on the foreign key, until a column is missing or a key unreadable. */
  function ReadRelations(x: Instance, row: Row, db: Db, n: nat): (r: Hydrated)
    requires Wf(x) && n <= |x.related|
    decreases x.desc, 1, n
    ensures Wf(r.inst) && r.inst.desc == x.desc && r.inst.id == x.id && r.inst.values == x.values
    ensures r.aborted <==> FirstUnreadable(x.desc.relations, row) < n
    ensures forall j :: 0 <= j < |x.related| ==>
      r.inst.related[j] == if j < n && j < FirstUnreadable(x.desc.relations, row)
                           then Find(x.desc.relations[j].repo, ForeignKey(row[x.desc.relations[j].column]).value, db)
                           else x.related[j]
  {
    if n == 0 then Hydrated(x, false)
    else
      var before := ReadRelations(x, row, db, n - 1);
      var rel := x.desc.relations[n - 1];
      if before.aborted then before
      else if !KeyReadable(row, rel.column) then Hydrated(before.inst, true)
      else
        var loaded := Find(rel.repo, ForeignKey(row[rel.column]).value, db);
        Hydrated(before.inst.(related := before.inst.related[n - 1 := loaded]), false)
  }

  /** `fromDatabase`: attributes, then relations, then the id. The first missing column or
      unreadable foreign key aborts the rest, and what was read before it stays. */
  function FromDatabase(x: Instance, row: Row, db: Db): (r: Instance)
    requires Wf(x)
    decreases x.desc, 2
    ensures Wf(r) && r.desc == x.desc
    ensures forall i :: 0 <= i < |x.values| ==>
      r.values[i] == if i < FirstMissing(AttributeColumns(x.desc), row) then LoadedValue(x, row, i) else x.values[i]
    ensures FirstMissing(AttributeColumns(x.desc), row) < |x.values| ==> r.related == x.related
    ensures FirstMissing(AttributeColumns(x.desc), row) == |x.values| ==>
      forall j :: 0 <= j < |x.related| ==>
        r.related[j] == if j < FirstUnreadable(x.desc.relations, row)
                        then Find(x.desc.relations[j].repo, ForeignKey(row[x.desc.relations[j].column]).value, db)
                        else x.related[j]
    ensures r.id == if Complete(x.desc, row) && ReadId(row["id"]).Some? then ReadId(row["id"]).value else x.id
  {
    var a := ReadAttributes(x, row, |x.values|);
    if a.aborted then a.inst
    else
      var b := ReadRelations(a.inst, row, db, |x.related|);
      if b.aborted || "id" !in row then b.inst
      else
        match ReadId(row["id"])
        case Some(k) => b.inst.(id := k)
        case None => b.inst
  }

  /** The row has every attribute column, every readable foreign key, and an id column. */
  predicate Complete(d: Descriptor, row: Row) {
    && FirstMissing(AttributeColumns(d), row) == |d.attributes|
    && FirstUnreadable(d.relations, row) == |d.relations|
    && "id" in row
  }

  /** The statement `find` sends: `SELECT * FROM table WHERE table.id = ?;`, whose one
      placeholder (for a table name without '?') is bound, at index 1, to the id. */
  function FindStatement(repo: RepoConfig, id: int): (st: Statement)
    ensures st.text == SelectByIdSql(repo.table)
    ensures PlainName(repo.table) ==> QuestionMarks(st.text) == 1
    ensures st.params.Keys == {1} && st.params[1] == IntV(id)
  {
    var st := Statement(SelectByIdSql(repo.table), map[1 := IntV(id)]);
    assert PlainName(repo.table) ==> QuestionMarks(st.text) == 1 by {
      if PlainName(repo.table) {
        SelectByIdPlaceholders(repo.table);
      }
    }
    st
  }

  /** `find`: runs `FindStatement`; the first row found is imported into a new instance of the
      repository's model. No row, an SQL error or a repository without `@Repository` (the
      exception is caught) give `null`. */
  function Find(repo: RepoConfig, id: int, db: Db): (r: Option<Instance>)
    decreases repo, 0
    ensures r.Some? <==> repo.model.Some? && HasTable(db, repo.table)
                         && exists i :: 0 <= i < |db.tables[repo.table].rows| && HasId(db.tables[repo.table].rows[i], IntV(id))
    ensures r.Some? ==> Wf(r.value) && r.value.desc == repo.model.value
  {
    match QueryById(db, repo.table, FindStatement(repo, id).params)
    case None => None
    case Some(found) =>
      if |found| == 0 then None
      else
        match repo.model
        case None => None
        case Some(d) => Some(FromDatabase(NewInstance(d), found[0], db))
  }

  /** The instance `find` returns is the first row carrying the id, imported into a new instance
      of the repository's model. */
  lemma FindReadsFirstMatch(repo: RepoConfig, id: int, db: Db)
    requires Find(repo, id, db).Some?
    ensures var rows := db.tables[repo.table].rows;
      exists i :: 0 <= i < |rows| && HasId(rows[i], IntV(id)) && (forall k :: 0 <= k < i ==> !HasId(rows[k], IntV(id)))
                  && Find(repo, id, db).value == FromDatabase(NewInstance(repo.model.value), rows[i], db)
  {
  }
}
