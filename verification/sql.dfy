/** The SQL text the mapper sends, built the way the source builds it: every item appended with a
    leading ", " and the first two characters cut off afterwards. */
module Sql {
  import opened Wrappers

  /** One ", item" per item, as the StringBuilders in the mapper append them. */
  function LeadingJoin(items: seq<string>): string {
    if |items| == 0 then "" else ", " + items[0] + LeadingJoin(items[1..])
  }

  /** Reference rendering of a list: the items separated by ", ". */
  function Join(items: seq<string>): string {
    if |items| == 0 then "" else if |items| == 1 then items[0] else items[0] + ", " + Join(items[1..])
  }

  /** `n` parameter placeholders. */
  function Placeholders(n: nat): seq<string> {
    seq(n, _ => "?")
  }

  /** One `table.column = ?` per column, as `generateSQLUpdate` writes them. */
  function Assignments(table: string, columns: seq<string>): seq<string> {
    seq(|columns|, i requires 0 <= i < |columns| => table + "." + columns[i] + " = ?")
  }

  /** `generateSqlValueSet`: "(c1, ..., cn) VALUES (?, ..., ?)" over the attribute columns then
      the relation columns. With no column at all `substring(2)` throws: `None`. */
  function ValueSet(attributeColumns: seq<string>, relationColumns: seq<string>): Option<string> {
    var columns := LeadingJoin(attributeColumns) + LeadingJoin(relationColumns);
    var values := LeadingJoin(Placeholders(|attributeColumns|)) + LeadingJoin(Placeholders(|relationColumns|));
    if |columns| < 2 || |values| < 2 then None
    else Some("(" + columns[2..] + ") VALUES (" + values[2..] + ")")
  }

  /** The INSERT text of `persist`. */
  function InsertSql(table: string, attributeColumns: seq<string>, relationColumns: seq<string>): (r: Option<string>)
    ensures r.None? <==> |attributeColumns| + |relationColumns| == 0
    ensures r.Some? ==>
      var columns := attributeColumns + relationColumns;
      r.value == "INSERT INTO " + table + " (" + Join(columns) + ") VALUES (" + Join(Placeholders(|columns|)) + ");"
  {
    ValueSetShape(attributeColumns, relationColumns);
    var columns := attributeColumns + relationColumns;
    InsertText(table, Join(columns), Join(Placeholders(|columns|)));
    match ValueSet(attributeColumns, relationColumns)
    case None => None
    case Some(valueSet) => Some("INSERT INTO " + table + " " + valueSet + ";")
  }

  lemma InsertText(table: string, columns: string, marks: string)
    ensures "INSERT INTO " + table + " " + ("(" + columns + ") VALUES (" + marks + ")") + ";"
         == "INSERT INTO " + table + " (" + columns + ") VALUES (" + marks + ");"
  {
    assert " " + "(" == " (";
    assert ")" + ";" == ");";
  }

  /** The UPDATE text of `generateSQLUpdate`; with no column at all `substring(2)` throws. */
  function UpdateSql(table: string, attributeColumns: seq<string>, relationColumns: seq<string>): (r: Option<string>)
    ensures r.None? <==> |attributeColumns| + |relationColumns| == 0
    ensures r.Some? ==>
      r.value == "UPDATE " + table + " SET " + Join(Assignments(table, attributeColumns + relationColumns))
                 + " WHERE " + table + ".id = ?;"
  {
    var values := LeadingJoin(Assignments(table, attributeColumns)) + LeadingJoin(Assignments(table, relationColumns));
    UpdateValuesShape(table, attributeColumns, relationColumns);
    if |values| < 2 then None
    else Some("UPDATE " + table + " SET" + " " + values[2..] + " " + "WHERE " + table + ".id = ?" + ";")
  }

  /** The DELETE text of `delete`. */
  function DeleteSql(table: string): string {
    "DELETE FROM " + table + " WHERE " + table + ".id = ?;"
  }

  /** The query of `findAll`. */
  function SelectAllSql(table: string): string {
    "SELECT * FROM " + table
  }

  /** The query of `find`. */
  function SelectByIdSql(table: string): string {
    "SELECT * FROM " + table + " WHERE " + table + ".id = ?;"
  }

  lemma ValueSetShape(attributeColumns: seq<string>, relationColumns: seq<string>)
    ensures ValueSet(attributeColumns, relationColumns).None? <==> |attributeColumns| + |relationColumns| == 0
    ensures ValueSet(attributeColumns, relationColumns).Some? ==>
      var columns := attributeColumns + relationColumns;
      ValueSet(attributeColumns, relationColumns).value
        == "(" + Join(columns) + ") VALUES (" + Join(Placeholders(|columns|)) + ")"
  {
    var columns := attributeColumns + relationColumns;
    LeadingJoinAppend(attributeColumns, relationColumns);
    LeadingJoinAppend(Placeholders(|attributeColumns|), Placeholders(|relationColumns|));
    assert Placeholders(|attributeColumns|) + Placeholders(|relationColumns|) == Placeholders(|columns|);
    if |columns| > 0 {
      LeadingJoinStrip(columns);
      LeadingJoinStrip(Placeholders(|columns|));
    }
  }

  lemma UpdateValuesShape(table: string, attributeColumns: seq<string>, relationColumns: seq<string>)
    ensures var values := LeadingJoin(Assignments(table, attributeColumns)) + LeadingJoin(Assignments(table, relationColumns));
      && (|values| < 2 <==> |attributeColumns| + |relationColumns| == 0)
      && (|values| >= 2 ==> values[2..] == Join(Assignments(table, attributeColumns + relationColumns)))
  {
    LeadingJoinAppend(Assignments(table, attributeColumns), Assignments(table, relationColumns));
    AssignmentsAppend(table, attributeColumns, relationColumns);
    if |attributeColumns + relationColumns| > 0 {
      LeadingJoinStrip(Assignments(table, attributeColumns + relationColumns));
    }
  }

  lemma AssignmentsAppend(table: string, a: seq<string>, b: seq<string>)
    ensures Assignments(table, a) + Assignments(table, b) == Assignments(table, a + b)
  {
    var l := Assignments(table, a) + Assignments(table, b);
    var r := Assignments(table, a + b);
    forall i | 0 <= i < |l| ensures l[i] == r[i] {
      if i < |a| {
        assert (a + b)[i] == a[i];
      } else {
        assert (a + b)[i] == b[i - |a|];
      }
    }
  }

  lemma LeadingJoinAppend(a: seq<string>, b: seq<string>)
    ensures LeadingJoin(a + b) == LeadingJoin(a) + LeadingJoin(b)
  {
    if |a| > 0 {
      assert (a + b)[1..] == a[1..] + b;
      LeadingJoinAppend(a[1..], b);
    } else {
      assert a + b == b;
    }
  }

  /** Cutting the first separator off the leading-separator rendering gives the reference one. */
  lemma {:induction false} LeadingJoinStrip(items: seq<string>)
    requires |items| > 0
    ensures |LeadingJoin(items)| >= 2 && LeadingJoin(items)[2..] == Join(items)
  {
    if |items| == 1 {
      assert LeadingJoin(items) == ", " + items[0];
    } else {
      LeadingJoinStrip(items[1..]);
      assert LeadingJoin(items) == ", " + items[0] + LeadingJoin(items[1..]);
      calc {
        LeadingJoin(items)[2..];
        items[0] + LeadingJoin(items[1..]);
        items[0] + ", " + LeadingJoin(items[1..])[2..];
        items[0] + ", " + Join(items[1..]);
      }
    }
  }

  // Counting placeholders.

  /** The number of '?' characters in `s`. */
  function QuestionMarks(s: string): nat {
    if |s| == 0 then 0 else (if s[0] == '?' then 1 else 0) + QuestionMarks(s[1..])
  }

  lemma {:induction false} QuestionMarksConcat(a: string, b: string)
    ensures QuestionMarks(a + b) == QuestionMarks(a) + QuestionMarks(b)
  {
    if |a| > 0 {
      assert (a + b)[1..] == a[1..] + b;
      QuestionMarksConcat(a[1..], b);
    } else {
      assert a + b == b;
    }
  }

  lemma {:induction false} NoQuestionMarks(s: string)
    requires '?' !in s
    ensures QuestionMarks(s) == 0
  {
    if |s| > 0 {
      assert s[0] in s;
      assert forall c :: c in s[1..] ==> c in s;
      NoQuestionMarks(s[1..]);
    }
  }

  /** When every item holds `k` placeholders, the joined list holds `k` per item. */
  lemma {:induction false} QuestionMarksJoin(items: seq<string>, k: nat)
    requires forall i :: 0 <= i < |items| ==> QuestionMarks(items[i]) == k
    ensures QuestionMarks(Join(items)) == k * |items|
  {
    if |items| == 1 {
    } else if |items| > 1 {
      assert forall i :: 0 <= i < |items[1..]| ==> items[1..][i] == items[i + 1];
      QuestionMarksJoin(items[1..], k);
      QuestionMarksConcat(items[0] + ", ", Join(items[1..]));
      QuestionMarksConcat(items[0], ", ");
      NoQuestionMarks(", ");
      MulSucc(k, |items[1..]|);
    }
  }

  lemma MulSucc(k: nat, n: nat)
    ensures k * (n + 1) == k + k * n
  {
  }

  /** A name is safe to splice into SQL text when it holds no placeholder character. */
  predicate PlainName(name: string) {
    '?' !in name
  }

  /** Counting over a text spliced from five pieces. */
  lemma QuestionMarks5(a: string, b: string, c: string, d: string, e: string)
    ensures QuestionMarks(a + b + c + d + e)
         == QuestionMarks(a) + QuestionMarks(b) + QuestionMarks(c) + QuestionMarks(d) + QuestionMarks(e)
  {
    QuestionMarksConcat(a, b);
    QuestionMarksConcat(a + b, c);
    QuestionMarksConcat(a + b + c, d);
    QuestionMarksConcat(a + b + c + d, e);
  }

  /** Counting over a text spliced from seven pieces. */
  lemma QuestionMarks7(a: string, b: string, c: string, d: string, e: string, f: string, g: string)
    ensures QuestionMarks(a + b + c + d + e + f + g)
         == QuestionMarks(a) + QuestionMarks(b) + QuestionMarks(c) + QuestionMarks(d)
          + QuestionMarks(e) + QuestionMarks(f) + QuestionMarks(g)
  {
    QuestionMarks5(a, b, c, d, e);
    QuestionMarksConcat(a + b + c + d + e, f);
    QuestionMarksConcat(a + b + c + d + e + f, g);
  }

  /** The INSERT text holds exactly one placeholder per column. */
  lemma InsertPlaceholders(table: string, attributeColumns: seq<string>, relationColumns: seq<string>)
    requires PlainName(table)
    requires forall i :: 0 <= i < |attributeColumns| ==> PlainName(attributeColumns[i])
    requires forall i :: 0 <= i < |relationColumns| ==> PlainName(relationColumns[i])
    requires |attributeColumns| + |relationColumns| > 0
    ensures QuestionMarks(InsertSql(table, attributeColumns, relationColumns).value)
         == |attributeColumns| + |relationColumns|
  {
    var columns := attributeColumns + relationColumns;
    var n := |columns|;
    ColumnListMarks(columns);
    PlaceholderListMarks(n);
    NoQuestionMarks(table);
    InsertMarks(); OpenMarks(); ValuesMarks(); CloseMarks();
    QuestionMarks7("INSERT INTO ", table, " (", Join(columns), ") VALUES (", Join(Placeholders(n)), ");");
  }

  lemma ColumnListMarks(columns: seq<string>)
    requires forall i :: 0 <= i < |columns| ==> PlainName(columns[i])
    ensures QuestionMarks(Join(columns)) == 0
  {
    forall i | 0 <= i < |columns| ensures QuestionMarks(columns[i]) == 0 {
      NoQuestionMarks(columns[i]);
    }
    QuestionMarksJoin(columns, 0);
  }

  lemma PlaceholderListMarks(n: nat)
    ensures QuestionMarks(Join(Placeholders(n))) == n
  {
    forall i | 0 <= i < n ensures QuestionMarks(Placeholders(n)[i]) == 1 {
      assert Placeholders(n)[i] == "?";
    }
    QuestionMarksJoin(Placeholders(n), 1);
  }

  /** The UPDATE text holds one placeholder per column plus the trailing identity one. */
  lemma UpdatePlaceholders(table: string, attributeColumns: seq<string>, relationColumns: seq<string>)
    requires PlainName(table)
    requires forall i :: 0 <= i < |attributeColumns| ==> PlainName(attributeColumns[i])
    requires forall i :: 0 <= i < |relationColumns| ==> PlainName(relationColumns[i])
    requires |attributeColumns| + |relationColumns| > 0
    ensures QuestionMarks(UpdateSql(table, attributeColumns, relationColumns).value)
         == |attributeColumns| + |relationColumns| + 1
  {
    var columns := attributeColumns + relationColumns;
    var assignments := Assignments(table, columns);
    NoQuestionMarks(table);
    forall i | 0 <= i < |columns| ensures QuestionMarks(assignments[i]) == 1 {
      AssignmentPlaceholder(table, columns[i]);
    }
    QuestionMarksJoin(assignments, 1);
    UpdateMarks(); SetMarks(); WhereMarks(); IdMarks();
    QuestionMarks7("UPDATE ", table, " SET ", Join(assignments), " WHERE ", table, ".id = ?;");
  }

  /** One `t.c = ?` assignment holds one placeholder. */
  lemma AssignmentPlaceholder(table: string, column: string)
    requires PlainName(table) && PlainName(column)
    ensures QuestionMarks(table + "." + column + " = ?") == 1
  {
    NoQuestionMarks(table);
    NoQuestionMarks(column);
    DotMarks(); EqualsMarks();
    QuestionMarksConcat(table, ".");
    QuestionMarksConcat(table + ".", column);
    QuestionMarksConcat(table + "." + column, " = ?");
  }

  /** The DELETE text holds the single identity placeholder. */
  lemma DeletePlaceholders(table: string)
    requires PlainName(table)
    ensures QuestionMarks(DeleteSql(table)) == 1
  {
    NoQuestionMarks(table);
    DeleteMarks();
    WhereMarks();
    IdMarks();
    QuestionMarks5("DELETE FROM ", table, " WHERE ", table, ".id = ?;");
  }

  /** The `find` query holds the single identity placeholder. */
  lemma SelectByIdPlaceholders(table: string)
    requires PlainName(table)
    ensures QuestionMarks(SelectByIdSql(table)) == 1
  {
    NoQuestionMarks(table);
    SelectMarks();
    WhereMarks();
    IdMarks();
    QuestionMarks5("SELECT * FROM ", table, " WHERE ", table, ".id = ?;");
  }

  /** The `findAll` query holds no placeholder. */
  lemma SelectAllPlaceholders(table: string)
    requires PlainName(table)
    ensures QuestionMarks(SelectAllSql(table)) == 0
  {
    NoQuestionMarks(table);
    SelectMarks();
    QuestionMarksConcat("SELECT * FROM ", table);
  }

  // The placeholders in the fixed pieces of the statements, one literal per lemma so that no
  // proof has to unfold more literals than it uses.
  lemma InsertMarks() ensures QuestionMarks("INSERT INTO ") == 0 { NoQuestionMarks("INSERT INTO "); }
  lemma OpenMarks() ensures QuestionMarks(" (") == 0 { NoQuestionMarks(" ("); }
  lemma ValuesMarks() ensures QuestionMarks(") VALUES (") == 0 { NoQuestionMarks(") VALUES ("); }
  lemma CloseMarks() ensures QuestionMarks(");") == 0 { NoQuestionMarks(");"); }
  lemma UpdateMarks() ensures QuestionMarks("UPDATE ") == 0 { NoQuestionMarks("UPDATE "); }
  lemma SetMarks() ensures QuestionMarks(" SET ") == 0 { NoQuestionMarks(" SET "); }
  lemma WhereMarks() ensures QuestionMarks(" WHERE ") == 0 { NoQuestionMarks(" WHERE "); }
  lemma IdMarks() ensures QuestionMarks(".id = ?;") == 1 {}
  lemma DeleteMarks() ensures QuestionMarks("DELETE FROM ") == 0 { NoQuestionMarks("DELETE FROM "); }
  lemma SelectMarks() ensures QuestionMarks("SELECT * FROM ") == 0 { NoQuestionMarks("SELECT * FROM "); }
  lemma DotMarks() ensures QuestionMarks(".") == 0 { NoQuestionMarks("."); }
  lemma EqualsMarks() ensures QuestionMarks(" = ?") == 1 {}
}
