/** The metadata a model class declares through its annotations, and what the mapper discovers
    from it: the table name (`initTable`), the attribute and relation columns (`initAttributes`),
    and, per relation, the repository able to load the related entity (`RepositoryBase.initTable`).
    The Java `HashMap`s of discovered columns become sequences kept in first-insertion order, with
    a later declaration of the same column replacing the earlier entry in place; the statement
    builders and binders all walk these same sequences. */
module Metadata {
  import opened Wrappers

  /** A model class: its `@Model(table = ...)` annotation and its own declared fields, in
      declaration order. Inherited fields (the `id` of the base class) are not declared here. */
  datatype ModelClass = ModelClass(modelAnn: Option<string>, declaredFields: seq<DeclaredField>)

  /** A declared field: the simple name of its type, its `@Attribute(name)` and its
      `@OneToOne(name, repository)`, when present. */
  datatype DeclaredField = DeclaredField(typeName: string, attribute: Option<string>, oneToOne: Option<OneToOneAnn>)

  datatype OneToOneAnn = OneToOneAnn(name: string, repository: RepositoryClass)

  /** A repository class and its `@Repository(model = ...)` annotation. */
  datatype RepositoryClass = RepositoryClass(repositoryAnn: Option<ModelClass>)

  /** A discovered attribute: its column and the simple name of its field's declared type. */
  datatype Attr = Attr(column: string, typeName: string)

  /** A discovered relation: its foreign-key column and the repository that loads its value. */
  datatype Relation = Relation(column: string, repo: RepoConfig)

  /** What a repository knows once initialised: the table it queries, and the model it
      instantiates (`None` when the repository class carries no `@Repository`). */
  datatype RepoConfig = RepoConfig(table: string, model: Option<Descriptor>)

  /** Everything the mapper knows about a model class. */
  datatype Descriptor = Descriptor(table: string, attributes: seq<Attr>, relations: seq<Relation>)

  function AttrColumn(a: Attr): string { a.column }

  function RelationColumn(r: Relation): string { r.column }

  function AttributeColumns(d: Descriptor): (r: seq<string>)
    ensures |r| == |d.attributes| && forall i :: 0 <= i < |r| ==> r[i] == d.attributes[i].column
  {
    seq(|d.attributes|, i requires 0 <= i < |d.attributes| => d.attributes[i].column)
  }

  function RelationColumns(d: Descriptor): (r: seq<string>)
    ensures |r| == |d.relations| && forall j :: 0 <= j < |r| ==> r[j] == d.relations[j].column
  {
    seq(|d.relations|, i requires 0 <= i < |d.relations| => d.relations[i].column)
  }

  /** No two entries share a key, as in a map. */
  ghost predicate DistinctKeys<T>(entries: seq<T>, key: T -> string) {
    forall i, j :: 0 <= i < j < |entries| ==> key(entries[i]) != key(entries[j])
  }

  /** The entry stored under `k`, if any. */
  function Lookup<T>(entries: seq<T>, key: T -> string, k: string): Option<T> {
    if |entries| == 0 then None
    else if key(entries[0]) == k then Some(entries[0])
    else Lookup(entries[1..], key, k)
  }

  /** `HashMap.put`: an entry with the same key is replaced in place, otherwise `x` is appended. */
  function Put<T>(entries: seq<T>, key: T -> string, x: T): (r: seq<T>)
    requires DistinctKeys(entries, key)
    ensures DistinctKeys(r, key)
    ensures forall k :: Lookup(r, key, k) == if k == key(x) then Some(x) else Lookup(entries, key, k)
  {
    if |entries| == 0 then [x]
    else if key(entries[0]) == key(x) then
      assert forall k :: k != key(x) ==> Lookup(entries[1..], key, k) == Lookup(entries, key, k);
      LookupAbsent(entries[1..], key, key(x));
      [x] + entries[1..]
    else
      var rest := Put(entries[1..], key, x);
      LookupPrepend(entries[0], rest, key);
      LookupAbsent(entries[1..], key, key(entries[0]));
      LookupFindsKeys(rest, key, key(entries[0]));
      [entries[0]] + rest
  }

  /** A key no entry carries is not found. */
  lemma {:induction false} LookupAbsent<T>(entries: seq<T>, key: T -> string, k: string)
    requires forall i :: 0 <= i < |entries| ==> key(entries[i]) != k
    ensures Lookup(entries, key, k) == None
  {
    if |entries| > 0 {
      LookupAbsent(entries[1..], key, k);
    }
  }

  /** Lookup finds exactly the keys of the entries. */
  lemma {:induction false} LookupFindsKeys<T>(entries: seq<T>, key: T -> string, k: string)
    ensures Lookup(entries, key, k).Some? <==> exists i :: 0 <= i < |entries| && key(entries[i]) == k
    ensures Lookup(entries, key, k).Some? ==> key(Lookup(entries, key, k).value) == k
  {
    if |entries| > 0 {
      LookupFindsKeys(entries[1..], key, k);
      if key(entries[0]) != k && Lookup(entries[1..], key, k).Some? {
        var i :| 0 <= i < |entries[1..]| && key(entries[1..][i]) == k;
        assert key(entries[i + 1]) == k;
      }
    }
  }

  lemma LookupPrepend<T>(x: T, rest: seq<T>, key: T -> string)
    ensures forall k :: Lookup([x] + rest, key, k) == if k == key(x) then Some(x) else Lookup(rest, key, k)
  {
    forall k ensures Lookup([x] + rest, key, k) == if k == key(x) then Some(x) else Lookup(rest, key, k) {
      assert ([x] + rest)[1..] == rest;
    }
  }

  /** `initTable` of a model: the table of its `@Model`, or "" without one. */
  function InitTable(mc: ModelClass): string {
    mc.modelAnn.GetOr("")
  }

  /** The mapper's discovery of a model class: its table and its attribute and relation columns. */
  function Resolve(mc: ModelClass): (d: Descriptor)
    decreases mc, 2
    ensures d.table == InitTable(mc)
    ensures DistinctKeys(d.attributes, AttrColumn) && DistinctKeys(d.relations, RelationColumn)
  {
    var found := InitAttributes(mc, |mc.declaredFields|);
    Descriptor(InitTable(mc), found.attributes, found.relations)
  }

  /** The two maps `initAttributes` fills. */
  datatype Discovered = Discovered(attributes: seq<Attr>, relations: seq<Relation>)

  /** The attribute declared last under column `c` among the first `n` declared fields. */
  function LastAttribute(fields: seq<DeclaredField>, n: nat, c: string): Option<Attr>
    requires n <= |fields|
  {
    if n == 0 then None
    else if fields[n - 1].attribute == Some(c) then Some(Attr(c, fields[n - 1].typeName))
    else LastAttribute(fields, n - 1, c)
  }

  /** Which of the first `n` declared fields is the last to declare a relation under column `c`:
      a `@OneToOne` field that carries no `@Attribute` (that annotation wins). */
  function LastOneToOne(fields: seq<DeclaredField>, n: nat, c: string): (r: Option<nat>)
    requires n <= |fields|
    ensures r.Some? ==> r.value < n && fields[r.value].attribute.None? && fields[r.value].oneToOne.Some?
                        && fields[r.value].oneToOne.value.name == c
  {
    if n == 0 then None
    else if fields[n - 1].attribute.None? && fields[n - 1].oneToOne.Some? && fields[n - 1].oneToOne.value.name == c
    then Some(n - 1)
    else LastOneToOne(fields, n - 1, c)
  }

  /** `initAttributes` over the first `n` declared fields of `mc`: each `@Attribute` field is put
      into the attributes under its column, each other `@OneToOne` field into the relations. */
  function InitAttributes(mc: ModelClass, n: nat): (r: Discovered)
    requires n <= |mc.declaredFields|
    decreases mc, 1, n
    ensures DistinctKeys(r.attributes, AttrColumn) && DistinctKeys(r.relations, RelationColumn)
    ensures forall c :: Lookup(r.attributes, AttrColumn, c) == LastAttribute(mc.declaredFields, n, c)
    ensures forall c :: Lookup(r.relations, RelationColumn, c).Some? <==> LastOneToOne(mc.declaredFields, n, c).Some?
    ensures forall c :: Lookup(r.relations, RelationColumn, c).Some? ==>
      var i := LastOneToOne(mc.declaredFields, n, c).value;
      Lookup(r.relations, RelationColumn, c).value.repo == InitRepository(mc.declaredFields[i].oneToOne.value.repository)
  {
    if n == 0 then Discovered([], [])
    else
      var before := InitAttributes(mc, n - 1);
      var f := mc.declaredFields[n - 1];
      match f.attribute
      case Some(column) =>
        Discovered(Put(before.attributes, AttrColumn, Attr(column, f.typeName)), before.relations)
      case None =>
        match f.oneToOne
        case Some(ann) =>
          Discovered(before.attributes, Put(before.relations, RelationColumn, Relation(ann.name, InitRepository(ann.repository))))
        case None => before
  }

  /** `RepositoryBase.initTable`: the table comes from the `@Model` of the class named by the
      repository's `@Repository`; if either annotation is missing the table stays "". The model
      is known as soon as the `@Repository` is there. */
  function InitRepository(rc: RepositoryClass): (r: RepoConfig)
    decreases rc, 3
    ensures r.model.Some? <==> rc.repositoryAnn.Some?
    ensures r.table == if rc.repositoryAnn.Some? && rc.repositoryAnn.value.modelAnn.Some?
                       then rc.repositoryAnn.value.modelAnn.value else ""
    ensures r.model.Some? ==> r.model.value == Resolve(rc.repositoryAnn.value)
  {
    match rc.repositoryAnn
    case None => RepoConfig("", None)
    case Some(mc) => RepoConfig(InitTable(mc), Some(Resolve(mc)))
  }

  /** The inherited `id` is never discovered as an attribute: only a field the model class itself
      declares with `@Attribute(name = "id")` puts "id" among the attribute columns. */
  lemma {:induction false} IdDiscoveredOnlyIfDeclared(mc: ModelClass)
    ensures Lookup(Resolve(mc).attributes, AttrColumn, "id").Some?
        <==> exists i :: 0 <= i < |mc.declaredFields| && mc.declaredFields[i].attribute == Some("id")
  {
    LastAttributeFindsDeclaration(mc.declaredFields, |mc.declaredFields|, "id");
  }

  lemma {:induction false} LastAttributeFindsDeclaration(fields: seq<DeclaredField>, n: nat, c: string)
    requires n <= |fields|
    ensures LastAttribute(fields, n, c).Some? <==> exists i :: 0 <= i < n && fields[i].attribute == Some(c)
  {
    if n > 0 {
      LastAttributeFindsDeclaration(fields, n - 1, c);
    }
  }
}
