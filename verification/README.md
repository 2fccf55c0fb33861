# Laurea-Otto-teller active-record mapper, in Dafny

This project models the persistence core of the Laurea-Otto-teller banking application.
In that core, model classes extend `ModelBase` and declare their table and columns through
annotations:

- `@Model(table)` names the table.
- `@Attribute(name)` marks a plain column.
- `@OneToOne(name, repository)` marks a foreign key loaded through another repository.

The mapper discovers these annotations by reflection. From them it builds the SQL text and
binds statement parameters by gluing "get"/"set" onto the capitalized type name of each field.
It saves the related instances before the instance itself, and reads rows back into fresh
instances. `RepositoryBase` runs `SELECT` queries and hydrates the rows. `HomeController`
merges, de-duplicates and sorts an account's transactions.

Modules:

- `StringUtils`: `capitalize`.
- `Binder`: the reflective type dispatch of `getValueFromDatabase` and the statement setters,
  over a closed set of JDBC accessor families.
- `Sql`: the INSERT, UPDATE, DELETE and SELECT texts, built the way the source builds them.
  Each item is appended after ", " and the first two characters are cut off.
- `Metadata`: `initTable`, `initAttributes` and `RepositoryBase.initTable`. These turn the
  annotations into a `Descriptor`. The Java `HashMap`s become sequences in one fixed order.
  `put` replaces an entry in place.
- `Database`: an in-memory stand-in for the JDBC connection. It has tables of rows in result
  order, an auto-increment key per table, and a flag saying whether generated keys come back.
  A statement with an unbound placeholder, or one naming a missing table, fails with an SQL
  error.
- `Entity`: `fillStatement`, `assignUpdateDatas`, `persist`, `update`, `delete`, `destroy`,
  `persistRelations` and `save`. They run over immutable instances and return the new
  instance, the new database and the statements sent. `Abrupt` is an exception that escapes
  `save` (an instance with no column at all).
- `Hydration`: `fromDatabase` and `RepositoryBase.find`. The two are mutually recursive
  through the relations.
- `Repository`: `findAll` and its `fillResult` loop.
- `Lifecycle`: properties that span several operations. These cover the cascade order of
  `save`, the round trips save-then-find and update-then-find, and destroy-then-save.
- `TransactionList`: the list logic of `HomeController.transactions`.

## Model

| member | source | states |
|---|---|---|
| StringUtils.Capitalize | src/main/java/utils/StringUtils.java:15-17 | the result has the input's length, its first character upper-cased when it is an ASCII lower-case letter, and every other character unchanged |
| StringUtils.CapitalizeIdempotent | src/main/java/utils/StringUtils.java:15-17 | capitalizing twice is the same as capitalizing once |
| StringUtils.CapitalizeKeepsCapitalized | src/main/java/utils/StringUtils.java:15-17 | a name that does not start with a lower-case letter (such as "String") is left unchanged |
| StringUtils.CapitalizeTypeNames | src/main/java/utils/StringUtils.java:15-17 | the simple type names the mapper meets become the accessor suffixes: "int" gives "Int", "float" "Float", "boolean" "Boolean", and "String" stays "String" |
| Binder.GetterFor | src/main/java/models/ModelBase.java:218-229 | a getter is found exactly when the type name is non-empty and its capitalized form is the suffix of some `ResultSet` accessor, and the accessor found is that one |
| Binder.SetterFor | src/main/java/models/ModelBase.java:297-309 | a setter is found exactly when the declared type is the parameter type of some `PreparedStatement` setter, so wrapper types such as `Long` find none |
| Binder.SetterForHasSetter | src/main/java/models/ModelBase.java:301-303 | the types that find a setter are exactly boolean, byte, short, int, long, float, double and String |
| Binder.SetterImpliesGetter | src/main/java/models/ModelBase.java:218-221 | a type that can be bound into a statement is read back through the getter of the same family |
| Binder.DispatchExamples | src/main/java/models/ModelBase.java:218-229 | `int`, `float` and `String` reach `getInt`/`setInt`, `getFloat`/`setFloat` and `getString`/`setString`; `Integer` finds no accessor; `Long` finds `getLong` but no setter |
| Binder.ReadColumn | src/main/java/models/ModelBase.java:218-229 | an unknown type reads as `null`. For a known getter family: SQL NULL reads as the family's default (0, 0.0 or false, and `null` for `getString`); a cell of the family reads as itself; a cell of another family makes the getter throw, and the caught exception reads as `null`. So the value read is `null` or of the getter's family |
| Binder.AssignField | src/main/java/models/ModelBase.java:237-248 | a non-null value is stored. A `null` is refused by a primitive field, whose old value stays, and is stored in any other field |
| Binder.WriteThenRead | src/main/java/models/ModelBase.java:170-175 | a value written through a field's setter and read back through its getter is the same value, and the field stores it |
| Sql.InsertSql | src/main/java/models/ModelBase.java:278-291 | there is no text (the builder throws) exactly when there are no columns; otherwise the text is the columns, separated by ", ", then as many "?" placeholders |
| Sql.UpdateSql | src/main/java/models/ModelBase.java:361-373 | there is no text exactly when there are no columns; otherwise the text is one `table.column = ?` per column, separated by ", ", and then the `WHERE table.id = ?` clause |
| Sql.InsertPlaceholders | src/main/java/models/ModelBase.java:278-291 | the INSERT text holds exactly one placeholder per column |
| Sql.UpdatePlaceholders | src/main/java/models/ModelBase.java:361-373 | the UPDATE text holds one placeholder per column plus the one for the id |
| Sql.DeletePlaceholders | src/main/java/models/ModelBase.java:407 | the DELETE text holds exactly one placeholder, the id's |
| Sql.SelectByIdPlaceholders | src/main/java/repositories/RepositoryBase.java:44 | the `find` query holds exactly one placeholder, the id's |
| Sql.SelectAllPlaceholders | src/main/java/repositories/RepositoryBase.java:24 | the `findAll` query holds no placeholder |
| Metadata.Put | src/main/java/models/ModelBase.java:157 | after `put`, the key maps to the new entry, every other key keeps its entry, and keys stay unique |
| Metadata.InitAttributes | src/main/java/models/ModelBase.java:152-164 | each column maps to the last `@Attribute` field declaring it; relations hold the `@OneToOne` fields that carry no `@Attribute`, each with its repository's configuration; keys are unique |
| Metadata.Resolve | src/main/java/models/ModelBase.java:48-52 | the descriptor's table is the `@Model` table (or "" without one), and its attribute and relation columns are unique |
| Metadata.InitRepository | src/main/java/repositories/RepositoryBase.java:65-74 | the model is known exactly when `@Repository` is present; the table is the model's `@Model` table, or "" when either annotation is missing |
| Metadata.IdDiscoveredOnlyIfDeclared | src/main/java/models/ModelBase.java:152-164 | "id" is an attribute column exactly when a declared field carries `@Attribute(name = "id")`; the inherited id never is |
| Entity.NewInstance | src/main/java/models/ModelBase.java:28 | a fresh instance has id -1, each attribute at its type's default (null for non-primitives), and no related instance |
| Entity.FillStatement | src/main/java/models/ModelBase.java:297-319 | every placeholder is bound exactly when every attribute type has a setter and every relation is set; a settable attribute goes to index 1 + the number of settable attributes before it, so a missing setter shifts the later ones; relation `j` goes to 1 + the number of settable attributes + `j` |
| Entity.FillStatementInOrder | src/main/java/models/ModelBase.java:297-309 | when every attribute type has a setter, attribute `i` is bound at index `i + 1` |
| Entity.AssignUpdateDatas | src/main/java/models/ModelBase.java:379-399 | the id's index is bound exactly when every attribute has a setter and every relation is set, since the first failure ends all binding; the bound indices carry the attribute values, then the related ids, then the id |
| Entity.AssignUpdateDatasInOrder | src/main/java/models/ModelBase.java:379-390 | with every setter present and every relation set, all columns and the id are bound in order |
| Entity.Persist | src/main/java/models/ModelBase.java:254-272 | an instance with no column escapes with an exception; otherwise the one INSERT is sent. The result is true exactly when the table exists, every parameter is bound, the columns are writable and the driver returns the key. Only then does the instance take the table's next key as its id |
| Entity.Update | src/main/java/models/ModelBase.java:339-355 | an instance with no column escapes; otherwise the one UPDATE is sent and the instance is unchanged. The result is false exactly when the statement ran and no row has the id; every exception reads as true |
| Entity.Delete | src/main/java/models/ModelBase.java:405-424 | the one DELETE is sent with the id bound, the result is always true, and the id becomes -1 exactly when a row carried it |
| Entity.Destroy | src/main/java/models/ModelBase.java:98-103 | an instance without an id is refused: false, with nothing sent and nothing changed. Otherwise exactly the rows with its id leave its own table, other tables are untouched, and the values and relations stay |
| Entity.SaveRelations | src/main/java/models/ModelBase.java:116-127 | each relation slot keeps its shape (null stays null, a stored id stays); keys only advance and a consistent database stays consistent; with no related instance nothing is sent. Which saves it runs, and in what order, is `Lifecycle.CascadeIssuesEach` |
| Entity.Save | src/main/java/models/ModelBase.java:85-92 | values are unchanged and a stored id is kept. A new instance gets an id at least the table's next key on success, and keeps -1 otherwise. The last statement is the instance's own INSERT (no id) or UPDATE (id); the database stays consistent. Its parameters and its result are stated by `Lifecycle.RelationsSavedFirst`, `Lifecycle.SaveBindsRelatedIds` and `Lifecycle.SaveCompletesAsOwn` |
| Entity.SaveOwn | src/main/java/models/ModelBase.java:87-91 | exactly one statement is sent: INSERT while the id is -1, UPDATE once it is set; a successful INSERT gives the table's next key |
| Entity.SaveOwnParams | src/main/java/models/ModelBase.java:86-91 | the one statement sent for the instance itself carries the parameters `fillStatement` binds (INSERT) or `assignUpdateDatas` binds (UPDATE) |
| Hydration.ForeignKey | src/main/java/models/ModelBase.java:178 | a NULL foreign key reads as 0, an integer as itself, and anything else throws |
| Hydration.FindStatement | src/main/java/repositories/RepositoryBase.java:44-50 | `find` sends `SELECT * FROM t WHERE t.id = ?;`, whose single placeholder (for a table name without '?') is bound, at index 1 and only there, to the id |
| Hydration.ReadId | src/main/java/models/ModelBase.java:180 | the id column reads as 0 when NULL, as itself when an integer, and otherwise as `null`, which `setId` ignores |
| Hydration.ReadAttributes | src/main/java/models/ModelBase.java:172-175 | the loop aborts exactly when a column is missing; attributes before the first missing column are loaded and the rest keep their values |
| Hydration.ReadRelations | src/main/java/models/ModelBase.java:176-179 | the loop aborts exactly when a foreign key is missing or unreadable; each relation before that is `find` on its key, and the rest are kept |
| Hydration.FromDatabase | src/main/java/models/ModelBase.java:170-189 | attributes load up to the first missing column. Relations load only if every attribute column is present. The id is set only if the whole row was read and the id cell is readable; what was read before an abort stays |
| Hydration.Find | src/main/java/repositories/RepositoryBase.java:42-63 | the query run is `FindStatement`. The result is an instance exactly when the repository has a model, the table exists and some row carries the id; the instance is well formed and of the repository's model |
| Hydration.FindReadsFirstMatch | src/main/java/repositories/RepositoryBase.java:51-54 | the instance returned is the first row carrying the id, imported into a new instance |
| Repository.FillResult | src/main/java/repositories/RepositoryBase.java:76-83 | without a model the first row throws and nothing is collected; with one, each row becomes one instance, in row order |
| Repository.HydrateRows | src/main/java/repositories/RepositoryBase.java:77-82 | one hydrated instance per row, in row order |
| Repository.FindAllStatement | src/main/java/repositories/RepositoryBase.java:24-30 | `findAll` sends `SELECT * FROM t` with no placeholder (for a table name without '?') and nothing bound |
| Repository.FindAll | src/main/java/repositories/RepositoryBase.java:23-40 | the statement sent is `FindAllStatement`. The result is empty unless the table exists and the repository has a model; otherwise it is every row of the table hydrated in order |
| Repository.FindAgreesWithFindAll | src/main/java/repositories/RepositoryBase.java:42-54 | in a consistent database, `find` on a row's id returns what `findAll` returns at that row |
| Lifecycle.CascadeIssuesEach | src/main/java/models/ModelBase.java:116-127 | when no save ends abruptly, the non-null related instances are saved one after another in slot order, each on the database the previous save left; the statements sent are exactly those saves' statements, concatenated in slot order, and each slot then holds its saved instance. Two related instances of one class are two separate saves |
| Lifecycle.RelationsSavedFirst | src/main/java/models/ModelBase.java:85-92 | when `save` completes, the related instances were saved first, as `CascadeIssuesEach` describes, and exactly one statement follows: the instance's own INSERT or UPDATE, its parameters bound from the instance holding its saved related instances |
| Lifecycle.SaveCompletesAsOwn | src/main/java/models/ModelBase.java:85-92 | `save` reports what the instance's own `persist` (no id) or `update` (an id) reports on the database the related saves left; an abrupt related save propagates and nothing more is sent |
| Lifecycle.SaveBindsRelatedIds | src/main/java/models/ModelBase.java:310-317 | the instance's own statement binds at each relation's index the id the related instance has after its own save: in the INSERT a null relation leaves its index unbound; in the UPDATE a bound relation index carries that id, and all indices are bound when every attribute has a setter and every relation is set |
| Lifecycle.SaveWithoutRelations | src/main/java/models/ModelBase.java:85-92 | with no relation, `save` is just the INSERT or UPDATE of the instance itself |
| Lifecycle.SaveThenFind | src/main/java/models/ModelBase.java:85-92 | a new instance without relations, whose values fit their types, is found by its new id after a successful save, equal to the saved instance |
| Lifecycle.PersistThenFind | src/main/java/models/ModelBase.java:254-272 | for an instance without relations: after a successful INSERT, `find` on the generated key gives back the persisted instance |
| Lifecycle.UpdateThenFind | src/main/java/models/ModelBase.java:339-355 | for a stored instance without relations, with at least one attribute, every attribute type having a setter, values that fit those types, writable columns and an existing row with its id in a consistent database: `save` reports success, leaves the instance as it is, and `find` then gives it back |
| Lifecycle.UpdateRowThenFind | src/main/java/models/ModelBase.java:339-349 | for a stored instance without relations, with at least one attribute, every attribute type having a setter, values that fit those types, writable columns and an existing row with its id in a consistent database: the UPDATE reports a changed row, and `find` then gives the instance back |
| Lifecycle.DestroyThenSaveFreshId | src/main/java/models/ModelBase.java:405-418 | a destroyed instance has id -1, so saving it again INSERTs it under a key larger than its old id |
| Lifecycle.DestroyThenFindNone | src/main/java/models/ModelBase.java:405-418 | after `destroy`, `find` on the old id finds nothing |
| Lifecycle.LoadWrittenRow | src/main/java/models/ModelBase.java:170-180 | for a model without relations: a row holding each attribute's value under its column, and the id, imports into a new instance equal to the original with that id |
| TransactionList.Duplicated | src/main/java/controllers/HomeController.java:75-79 | the collected list holds exactly the received withdraws, where a withdraw has the same initiator and recipient |
| TransactionList.RemoveAll | src/main/java/controllers/HomeController.java:80 | the result holds exactly the list's elements not in the removed list |
| TransactionList.DropDuplicated | src/main/java/controllers/HomeController.java:74-80 | removing the duplicated list leaves the received non-withdraws, in their order |
| TransactionList.Compare | src/main/java/controllers/HomeController.java:82 | negative exactly when the first id is larger, zero exactly on equal ids |
| TransactionList.CompareAsWrittenAgrees | src/main/java/controllers/HomeController.java:82 | when the difference of the ids fits in an `int`, the written comparator has the sign of the intended one |
| TransactionList.CompareAsWrittenOverflows | src/main/java/controllers/HomeController.java:82 | for ids 2147483647 and -2 the written comparator orders the smaller id first |
| TransactionList.InsertSorted | src/main/java/controllers/HomeController.java:82 | inserting into a list sorted from the largest id down keeps it sorted |
| TransactionList.Sort | src/main/java/controllers/HomeController.java:82 | the result is sorted from the largest id down and is a permutation of the input |
| TransactionList.Transactions | src/main/java/controllers/HomeController.java:71-84 | the list is sorted from the largest id down; it is a permutation of the initiated transactions plus the received non-withdraws; its length is the sum of the two |
| TransactionList.TransactionsMembers | src/main/java/controllers/HomeController.java:73-81 | a transaction is in the list exactly when it was initiated, or was received and is not a withdraw |
| TransactionList.TransactionsCount | src/main/java/controllers/HomeController.java:75-81 | each transaction occurs as often as it was initiated, plus as often as it was received unless it is a withdraw |

## Left out

- I/O is not modelled: connections, `DatabaseProvider`, logging to stdout and stderr, and `closeOnCompletion`. The database is a parameter (`Database.Db`) whose behaviour is an explicit model, not JDBC.
- The order of Java `HashMap` iteration is not modelled. Attributes and relations are walked in one fixed order (first insertion). The builders and binders share that order, as in the source, where they iterate the same maps.
- Reflection is modelled only through the type name of each field. The accessors form a closed set of eight families (boolean, byte, short, int, long, float, double, String). `Date`, `Timestamp`, `BigDecimal`, `Object`, `char` and other accessors are not modelled.
- Hydration.FromDatabase: column names are compared exactly (`Hydration.FirstMissing`, `Hydration.KeyReadable`), whereas JDBC's `findColumn` ignores case. For a row whose column is `Balance` under `@Attribute(name = "balance")`, the source loads the value, but the model treats the column as missing and aborts the import there.
- Hydration.ReadRelations: a relation carries no declared field type, so whatever `find` on the relation's repository returns is stored in the slot. In the source, `setValueFromDb` calls `field.set`, which throws `IllegalArgumentException` when the repository's model does not fit the field's type; the catch leaves the field as it was and loading goes on. The model assumes each `@OneToOne` repository returns instances of the field's type, as in Transaction.
- Entity.FillStatement, Entity.AssignUpdateDatas and Entity.SaveRelations assume every annotated field can be read from `ModelBase`, as the `protected` and `public` fields of Account, Transaction and Car in package `models` can. Only `setValueFromDb` calls `setAccessible(true)`; `fillStatement`, `assignUpdateDatas` and `persistRelations` call `field.get` directly. For a `private` field, or a `protected` one declared outside `models`, `get` throws `IllegalAccessException`, with these effects:
  - in `fillStatement` the throw comes after `idx++`, so the index is left unbound and the INSERT fails, making `persist` report false;
  - in `assignUpdateDatas` binding stops at that field, the UPDATE fails, and `update` still reports true;
  - in `persistRelations` that relation is skipped and never saved;
  - `find` still reads every such field.
- Driver coercions are not modelled: a getter on a cell of another family is modelled as throwing. Column types and schemas are not modelled either; a row holds the columns it was written with.
- `float`/`double` arithmetic is not modelled; those values are carried as `real` and never computed on.
- StringUtils.Capitalize: upper-cases ASCII letters only, as `toUpperCase()` does under a locale that maps ASCII to ASCII. `toUpperCase()` uses the default locale, and under a Turkish locale "int" becomes "İnt", so `getİnt`/`setİnt` are not found and the dispatch fails; that locale is not modelled. Java also maps other alphabets, which no JDBC type name uses. On an empty string the source throws; the callers model that as "no accessor found".
- Object identity and aliasing are not modelled. Instances are immutable values, so one Java object shared by two relations is two values here, and cyclic relation graphs cannot be expressed.
- Model descriptors are finite trees: a `Metadata.Descriptor` holds its relations, each relation's repository holds the related model's descriptor, and so on, so a schema whose `@OneToOne` leads back to its own model, directly or through other models, cannot be written down. `Hydration.Find` and `Entity.Save` therefore terminate on every input. In the source, `find` on such a schema, over a row whose foreign key leads back to a row already being loaded, recurses through `fromDatabase`, `getRelationInstance` and `find` until a `StackOverflowError`. That is an `Error`, not an `Exception`, so none of the `catch` blocks stops it.
- Lifecycle.SaveThenFind: the round trip is stated for instances without relations. With relations, each related instance is re-read through its own repository, which this lemma does not follow.
- Lifecycle.UpdateThenFind: stated, like the INSERT round trip, for instances without relations. It also needs every attribute type to have a setter. For a field of a wrapper type such as `Long`, `assignUpdateDatas` stops at the missing setter, `executeUpdate` fails on the unbound parameters, the exception is caught and `update` still returns true, and `find` returns the old row.
- Lifecycle.PersistThenFind: stated for instances without relations; a row's foreign keys would be read back through other repositories, which the lemma does not follow.
- Lifecycle.UpdateRowThenFind: stated for instances without relations, for the same reason, and with the same setter, fitting-value and existing-row hypotheses as `Lifecycle.UpdateThenFind`.
- Lifecycle.LoadWrittenRow: stated for models without relations; loading a relation runs `find` on another repository.
- Lifecycle.CascadeIssuesEach: describes a cascade in which no save ends abruptly. When one does, `SaveRelations` stops there and propagates the exception, but no lemma lists the statements sent before it.
- Ids and keys are unbounded integers. In the source `id` is a 32-bit `int`, bound with `setInt` and read back with `getInt(1)`, so a generated key above 2147483647 cannot be taken: `persist` would report false with the row already inserted. The model hands out any key, and `Lifecycle.DestroyThenSaveFreshId` relies on that.
- The database model refuses an INSERT or UPDATE whose column list repeats a column or names `id` (`Database.WritableColumns`). MySQL accepts an explicit id, and a class that declares `@Attribute(name = "id")` reaches this case (`Metadata.IdDiscoveredOnlyIfDeclared`); here its `persist` reports false.
- The statements `find` and `findAll` send are stated (`Hydration.FindStatement`, `Repository.FindAllStatement`), but the database model answers them from the table and the bound id, without parsing the text. The `find` calls made while loading relations are not recorded as statements.
- `toString`, `getId`, `importDatabaseData` and `getRelationInstance` are not separate members. The last two are folded into `Hydration.FromDatabase` and `Hydration.Find`.
- `findBy`, `validatePassword` and the `Transaction` accessors `getInitiator`/`getRecipient` are called by the controllers but are not part of this model. The two `findBy` lists are parameters of `TransactionList.Transactions`, and a transaction is reduced to its id and its two account ids.
- TransactionList.Sort: sorts with the intended comparator. The stability `Collections.sort` guarantees is not stated as a property. With the written comparator, the result of `Collections.sort` on overflowing ids is not modelled: TimSort may throw or return any order.
- The views, controllers other than the `transactions()` list logic, the Swing code, account balances and `Main` are not modelled.

## Findings

| source | as written | input that shows it | evidently intended | confidence | as-written member | corrected member |
|---|---|---|---|---|---|---|
| src/main/java/controllers/HomeController.java:82 | the comparator returns `elem2.getId() - elem1.getId()` in 32-bit `int` arithmetic, which wraps around | ids 2147483647 and -2: the difference -2147483649 wraps to 2147483647, so the larger id is sorted after the smaller | order by id from the largest down, as `Integer.compare(elem2.getId(), elem1.getId())` does | low: not executed; auto-increment ids are positive, and two non-negative ids never overflow (`TransactionList.CompareAsWrittenAgrees`) | TransactionList.CompareAsWrittenOverflows | TransactionList.Compare |
