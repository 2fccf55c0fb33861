/** `RepositoryBase.findAll` and its `fillResult` loop. The repository's table and model come
    from `Metadata.InitRepository`; `find` lives with `fromDatabase` in `Hydration`. */
module Repository {
  import opened Wrappers
  import opened Binder
  import opened Metadata
  import opened Sql
  import opened Database
  import opened Entity
  import opened Hydration

  /** `fillResult`: one new instance of the repository's model per row, hydrated from it, in
      row order. A repository without `@Repository` throws on the first row, so it collects
      nothing; `threw` says whether the loop ended with that exception. */
  method FillResult(repo: RepoConfig, rows: seq<Row>, db: Db) returns (result: seq<Instance>, threw: bool)
    ensures threw <==> repo.model.None? && |rows| > 0
    ensures repo.model.None? ==> result == []
    ensures repo.model.Some? ==> |result| == |rows|
    ensures repo.model.Some? ==>
      forall i :: 0 <= i < |rows| ==> result[i] == FromDatabase(NewInstance(repo.model.value), rows[i], db)
  {
    match repo.model
    case None =>
      result, threw := [], |rows| > 0;
    case Some(model) =>
      result := HydrateRows(model, rows, db);
      threw := false;
  }

  /** The `while (res.next())` loop of `fillResult` for a known model. */
  method HydrateRows(model: Descriptor, rows: seq<Row>, db: Db) returns (result: seq<Instance>)
    ensures |result| == |rows|
    ensures forall i :: 0 <= i < |rows| ==> result[i] == FromDatabase(NewInstance(model), rows[i], db)
  {
    result := [];
    var i := 0;
    while i < |rows|
      invariant 0 <= i <= |rows|
      invariant |result| == i
      invariant forall k :: 0 <= k < i ==> result[k] == FromDatabase(NewInstance(model), rows[k], db)
    {
      var entity := FromDatabase(NewInstance(model), rows[i], db);
      HydratedAppend(model, rows, db, result);
      result := result + [entity];
      i := i + 1;
    }
  }

  /** Hydrating the next row extends the rows hydrated so far by one. */
  lemma HydratedAppend(model: Descriptor, rows: seq<Row>, db: Db, result: seq<Instance>)
    requires |result| < |rows|
    requires forall k :: 0 <= k < |result| ==> result[k] == FromDatabase(NewInstance(model), rows[k], db)
    ensures var next := result + [FromDatabase(NewInstance(model), rows[|result|], db)];
      forall k :: 0 <= k < |next| ==> next[k] == FromDatabase(NewInstance(model), rows[k], db)
  {
  }

  /** The statement `findAll` sends: `SELECT * FROM table`, with no placeholder (for a table
      name without '?') and nothing bound. */
  function FindAllStatement(repo: RepoConfig): (st: Statement)
    ensures st.text == SelectAllSql(repo.table)
    ensures PlainName(repo.table) ==> QuestionMarks(st.text) == 0
    ensures st.params == map[]
  {
    var st := Statement(SelectAllSql(repo.table), map[]);
    assert PlainName(repo.table) ==> QuestionMarks(st.text) == 0 by {
      if PlainName(repo.table) {
        SelectAllPlaceholders(repo.table);
      }
    }
    st
  }

  /** `findAll`: sends `FindAllStatement`, and hydrates every row in order. An SQL error (no
      such table, or the table left "" by a missing annotation) or the exception of a repository
      without a model is caught, and what was collected so far, nothing, is returned. */
  method FindAll(repo: RepoConfig, db: Db) returns (result: seq<Instance>, sent: Statement)
    ensures sent == FindAllStatement(repo)
    ensures !(HasTable(db, repo.table) && repo.model.Some?) ==> result == []
    ensures HasTable(db, repo.table) && repo.model.Some? ==>
      var rows := db.tables[repo.table].rows;
      && |result| == |rows|
      && forall i :: 0 <= i < |rows| ==> result[i] == FromDatabase(NewInstance(repo.model.value), rows[i], db)
  {
    sent := FindAllStatement(repo);
    match QueryAll(db, repo.table)
    case None =>
      result := [];
    case Some(rows) =>
      var threw;
      result, threw := FillResult(repo, rows, db);
  }

  /** What `find` returns for the id of a row is what `findAll` returns at that row: in a
      consistent database ids are unique, so the first row `find` hydrates is that row. */
  lemma FindAgreesWithFindAll(repo: RepoConfig, db: Db, i: nat)
    requires Valid(db) && HasTable(db, repo.table) && repo.model.Some?
    requires i < |db.tables[repo.table].rows|
    ensures var row := db.tables[repo.table].rows[i];
            Find(repo, row["id"].i, db) == Some(FromDatabase(NewInstance(repo.model.value), row, db))
  {
    var rows: seq<Row> := db.tables[repo.table].rows;
    var key: Value := rows[i]["id"];
    assert HasId(rows[i], IntV(key.i));
    var r := Find(repo, key.i, db);
    FindReadsFirstMatch(repo, key.i, db);
    var i' :| 0 <= i' < |rows| && HasId(rows[i'], IntV(key.i)) && (forall k :: 0 <= k < i' ==> !HasId(rows[k], IntV(key.i)))
              && r.value == FromDatabase(NewInstance(repo.model.value), rows[i'], db);
    assert TableWf(db.tables[repo.table]);
    assert rows[i']["id"] == rows[i]["id"];
    assert i' == i;
  }
}
