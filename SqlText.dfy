/**
 * The statement text that `create_table`, `insert_data`, `select_data`,
 * `update_data` and `delete_data` build before handing it to the database
 * engine. Table names, column names and conditions are pasted in verbatim;
 * only inserted cells and updated values travel as bound parameters.
 */
module SqlText {
  import opened Wrappers
  import opened PyText
  import PyDict

  /** The column list of CREATE TABLE: `f"{col} TEXT"` per column, joined by ", ". */
  function ColumnDefs(columns: seq<string>): (r: string)
    ensures r == "" <==> columns == []
    ensures columns != [] ==> |r| >= 5 && r[|r| - 5..] == " TEXT"
  {
    var defs := seq(|columns|, i requires 0 <= i < |columns| => columns[i] + " TEXT");
    JoinEnds(", ", defs);
    if columns != [] then
      EndsWith(Join(", ", defs), defs[|defs| - 1], " TEXT");
      Join(", ", defs)
    else Join(", ", defs)
  }

  /** CREATE TABLE: the table name, then the column list in parentheses. */
  function CreateTableSql(table: string, columns: seq<string>): (r: string)
    ensures var head := "CREATE TABLE " + table + " (";
            |head| < |r| && r[..|head|] == head && r[|r| - 1] == ')'
            && r[|head|..|r| - 1] == ColumnDefs(columns)
  {
    "CREATE TABLE " + table + " (" + ColumnDefs(columns) + ")"
  }

  /** `', '.join(['?'] * n)`. */
  function Placeholders(n: nat): (r: string)
    ensures r == "" <==> n == 0
    ensures n > 0 ==> r[0] == '?' && r[|r| - 1] == '?'
  {
    var marks := seq(n, _ => "?");
    JoinEnds(", ", marks);
    Join(", ", marks)
  }

  /** `data[0]` on an empty batch raises IndexError before any statement exists. */
  datatype InsertError = EmptyBatch

  /** The INSERT statement; its placeholder count is taken from the first row. */
  function InsertSql(table: string, data: seq<seq<string>>): (r: Result<string, InsertError>)
    ensures r.Failure? <==> data == []
    ensures r.Success? ==> r.value == "INSERT INTO " + table + " VALUES (" + Placeholders(|data[0]|) + ")"
  {
    if data == [] then Failure(EmptyBatch)
    else Success("INSERT INTO " + table + " VALUES (" + Placeholders(|data[0]|) + ")")
  }

  /** Python truthiness of an optional string: neither None nor "". */
  predicate Truthy(condition: Option<string>)
  {
    condition.Some? && condition.value != ""
  }

  function SelectSql(table: string, condition: Option<string>): (r: string)
    ensures var base := "SELECT * FROM " + table;
            |base| <= |r| && r[..|base|] == base && (r == base <==> !Truthy(condition))
    ensures Truthy(condition) ==>
              |condition.value| <= |r| && r[|r| - |condition.value|..] == condition.value
    ensures Truthy(condition) ==> r[|"SELECT * FROM " + table|..] == " WHERE " + condition.value
  {
    var query := "SELECT * FROM " + table;
    if Truthy(condition) then query + " WHERE " + condition.value else query
  }

  /** The SET list of UPDATE: `f"{col} = ?"` per column, joined by ", ". */
  function SetClause(columns: seq<string>): (r: string)
    ensures r == "" <==> columns == []
    ensures columns != [] ==> |r| >= 4 && r[|r| - 4..] == " = ?"
  {
    var items := seq(|columns|, i requires 0 <= i < |columns| => columns[i] + " = ?");
    JoinEnds(", ", items);
    if columns != [] then
      EndsWith(Join(", ", items), items[|items| - 1], " = ?");
      Join(", ", items)
    else Join(", ", items)
  }

  /** A statement together with the values bound to its `?` marks, in order. */
  datatype Statement = Statement(sql: string, params: seq<string>)

  /** UPDATE: one `col = ?` per key of `setValues`; the values are bound in key order. */
  function UpdateSql(table: string, setValues: PyDict.Dict, condition: string): (r: Statement)
    ensures var head := "UPDATE " + table + " SET ";
            |head| <= |r.sql| && r.sql[..|head|] == head
    ensures |condition| <= |r.sql| && r.sql[|r.sql| - |condition|..] == condition
    ensures var head := "UPDATE " + table + " SET ";
            var setList := SetClause(PyDict.Keys(setValues));
            |head| + |setList| + 7 + |condition| == |r.sql|
            && r.sql[|head|..|r.sql| - |condition| - 7] == setList
            && r.sql[|r.sql| - |condition| - 7..|r.sql| - |condition|] == " WHERE "
    ensures |r.params| == |setValues|
            && forall i :: 0 <= i < |setValues| ==> r.params[i] == setValues[i].value
  {
    Statement("UPDATE " + table + " SET " + SetClause(PyDict.Keys(setValues)) + " WHERE " + condition,
              PyDict.Values(setValues))
  }

  function DeleteSql(table: string, condition: string): (r: string)
    ensures var head := "DELETE FROM " + table + " WHERE ";
            |r| == |head| + |condition| && r[..|head|] == head && r[|head|..] == condition
  {
    "DELETE FROM " + table + " WHERE " + condition
  }

  /** A text ending in `x`, where `x` ends in `tail`, ends in `tail`. */
  lemma EndsWith(r: string, x: string, tail: string)
    requires |x| <= |r| && r[|r| - |x|..] == x
    requires |tail| <= |x| && x[|x| - |tail|..] == tail
    ensures |tail| <= |r| && r[|r| - |tail|..] == tail
  {
    assert r[|r| - |tail|..] == r[|r| - |x|..][|x| - |tail|..];
  }

  lemma PlaceholdersStep(n: nat)
    requires n >= 1
    ensures Placeholders(n + 1) == "?, " + Placeholders(n)
  {
    var xs := seq(n + 1, _ => "?");
    assert xs[1..] == seq(n, _ => "?");
  }

  /** Two cells per row give two placeholders. */
  lemma InsertTwoColumns(table: string, data: seq<seq<string>>)
    requires data != [] && |data[0]| == 2
    ensures InsertSql(table, data) == Success("INSERT INTO " + table + " VALUES (?, ?)")
  {
    assert seq(1, _ => "?") == ["?"];
    assert Placeholders(1) == "?";
    PlaceholdersStep(1);
    assert "?, " + "?" == "?, ?";
    assert Placeholders(2) == "?, ?";
    var head := "INSERT INTO " + table;
    assert head + " VALUES (" + "?, ?" + ")" == head + (" VALUES (" + "?, ?" + ")");
    assert " VALUES (" + "?, ?" + ")" == " VALUES (?, ?)";
  }

  /**
   * The placeholder text holds exactly n question marks; for n >= 1 it is
   * "?", ", ?", ", ?", ... of length 3n - 2, and for n = 0 it is empty.
   */
  lemma {:induction false} PlaceholdersShape(n: nat)
    ensures var p := Placeholders(n);
            Count(p, '?') == n
            && (n == 0 ==> p == "")
            && (n >= 1 ==> |p| == 3 * n - 2)
            && forall i :: 0 <= i < |p| ==>
                 p[i] == (if i % 3 == 0 then '?' else if i % 3 == 1 then ',' else ' ')
  {
    if n == 1 {
      assert Placeholders(1) == "?";
    } else if n > 1 {
      PlaceholdersShape(n - 1);
      PlaceholdersStep(n - 1);
      var p := Placeholders(n);
      var q := Placeholders(n - 1);
      CountConcat("?, ", q, '?');
      forall i | 3 <= i < |p|
        ensures p[i] == (if i % 3 == 0 then '?' else if i % 3 == 1 then ',' else ' ')
      {
        assert p[i] == q[i - 3];
        assert (i - 3) % 3 == i % 3;
      }
    }
  }

  /**
   * The INSERT statement has exactly one `?` per cell of the first row
   * (when the table name itself holds none), and fails only on an empty batch.
   */
  lemma InsertPlaceholderCount(table: string, data: seq<seq<string>>)
    requires '?' !in table
    ensures InsertSql(table, data).Success? <==> data != []
    ensures data != [] ==> Count(InsertSql(table, data).value, '?') == |data[0]|
  {
    if data != [] {
      var p := Placeholders(|data[0]|);
      PlaceholdersShape(|data[0]|);
      CountConcat("INSERT INTO ", table, '?');
      CountConcat("INSERT INTO " + table, " VALUES (", '?');
      CountConcat("INSERT INTO " + table + " VALUES (", p, '?');
      CountConcat("INSERT INTO " + table + " VALUES (" + p, ")", '?');
    }
  }

  /**
   * Split back on ",", the CREATE TABLE column list has one field per
   * column, in input order: the column followed by " TEXT", every field
   * after the first preceded by the space of ", ".
   */
  lemma ColumnDefsFields(columns: seq<string>)
    requires columns != []
    requires forall i :: 0 <= i < |columns| ==> ',' !in columns[i]
    ensures var fields := Split(ColumnDefs(columns), ',');
            |fields| == |columns|
            && fields[0] == columns[0] + " TEXT"
            && forall i :: 1 <= i < |columns| ==> fields[i] == " " + columns[i] + " TEXT"
  {
    var defs := seq(|columns|, i requires 0 <= i < |columns| => columns[i] + " TEXT");
    assert [','] + " " == ", ";
    forall i | 0 <= i < |defs| ensures ',' !in defs[i] {
      assert " TEXT" == [' ', 'T', 'E', 'X', 'T'];
    }
    SplitJoinPadded(defs, ',', " ");
  }

  /**
   * Two SELECT statements on one table agree exactly when their conditions
   * agree as Python sees them: None and "" both mean "no WHERE", any other
   * condition is pasted after " WHERE " verbatim.
   */
  lemma SelectDeterminesCondition(table: string, c1: Option<string>, c2: Option<string>)
    ensures SelectSql(table, c1) == SelectSql(table, c2)
        <==> (Truthy(c1) == Truthy(c2) && (Truthy(c1) ==> c1.value == c2.value))
  {
    var base := "SELECT * FROM " + table;
    if Truthy(c1) && Truthy(c2) && SelectSql(table, c1) == SelectSql(table, c2) {
      var n := |base + " WHERE "|;
      assert c1.value == SelectSql(table, c1)[n..];
    }
  }

  /**
   * DELETE always ends in " WHERE " followed by the condition verbatim, even
   * when the condition is empty, and the statement determines the condition.
   */
  lemma DeleteKeepsCondition(table: string, c1: string, c2: string)
    ensures DeleteSql(table, c1)[..|DeleteSql(table, c1)| - |c1|] == "DELETE FROM " + table + " WHERE "
    ensures DeleteSql(table, c1)[|DeleteSql(table, c1)| - |c1|..] == c1
    ensures DeleteSql(table, c1) == DeleteSql(table, c2) <==> c1 == c2
  {
    var n := |"DELETE FROM " + table + " WHERE "|;
    if DeleteSql(table, c1) == DeleteSql(table, c2) {
      assert c1 == DeleteSql(table, c1)[n..];
    }
  }

  /**
   * UPDATE likewise always ends in " WHERE " followed by the condition
   * verbatim, and for one table and assignment set the statement determines
   * the condition.
   */
  lemma UpdateKeepsCondition(table: string, setValues: PyDict.Dict, c1: string, c2: string)
    ensures var sql := UpdateSql(table, setValues, c1).sql;
            sql[|sql| - |c1|..] == c1 && sql[|sql| - |c1| - 7..|sql| - |c1|] == " WHERE "
    ensures UpdateSql(table, setValues, c1) == UpdateSql(table, setValues, c2) <==> c1 == c2
  {
    var head := "UPDATE " + table + " SET " + SetClause(PyDict.Keys(setValues)) + " WHERE ";
    if UpdateSql(table, setValues, c1) == UpdateSql(table, setValues, c2) {
      assert c1 == UpdateSql(table, setValues, c1).sql[|head|..];
    }
  }

  /**
   * The i-th `key = ?` field of the SET list binds the value of the i-th key: split on
   * ",", the SET list has one `key = ?` field per key in key order, and the
   * bound values have the same length and order.
   */
  lemma UpdateBindsByPosition(table: string, setValues: PyDict.Dict, condition: string)
    requires PyDict.DistinctKeys(setValues)
    requires setValues != []
    requires forall i :: 0 <= i < |setValues| ==> ',' !in setValues[i].key
    ensures var u := UpdateSql(table, setValues, condition);
            var fields := Split(SetClause(PyDict.Keys(setValues)), ',');
            |fields| == |u.params| == |setValues|
            && fields[0] == setValues[0].key + " = ?"
            && (forall i :: 1 <= i < |fields| ==> fields[i] == " " + setValues[i].key + " = ?")
            && forall i :: 0 <= i < |fields| ==> PyDict.Get(setValues, setValues[i].key) == Some(u.params[i])
  {
    var keys := PyDict.Keys(setValues);
    var items := seq(|keys|, i requires 0 <= i < |keys| => keys[i] + " = ?");
    assert [','] + " " == ", ";
    forall i | 0 <= i < |items| ensures ',' !in items[i] {
      assert " = ?" == [' ', '=', ' ', '?'];
    }
    SplitJoinPadded(items, ',', " ");
    var fields := Split(SetClause(keys), ',');
    assert |fields| == |keys| == |setValues|;
    forall i | 1 <= i < |fields|
      ensures fields[i] == " " + setValues[i].key + " = ?"
    {
      assert fields[i] == " " + items[i];
    }
    var u := UpdateSql(table, setValues, condition);
    PyDict.ValuesFollowKeys(setValues);
    forall i | 0 <= i < |fields|
      ensures PyDict.Get(setValues, setValues[i].key) == Some(u.params[i])
    {
      assert keys[i] == setValues[i].key;
    }
  }

  /** One `key = ?` item of the SET list holds exactly one `?` when the key holds none. */
  lemma SetItemMarks(key: string)
    requires '?' !in key
    ensures Count(key + " = ?", '?') == 1
  {
    CountConcat(key, " = ?", '?');
    assert " = ?"[1..] == "= ?" && "= ?"[1..] == " ?" && " ?"[1..] == "?" && "?"[1..] == "";
  }

  /** The SET list holds exactly one `?` per key when no key holds one. */
  lemma SetClauseMarks(keys: seq<string>)
    requires forall i :: 0 <= i < |keys| ==> '?' !in keys[i]
    ensures Count(SetClause(keys), '?') == |keys|
  {
    var items := seq(|keys|, i requires 0 <= i < |keys| => keys[i] + " = ?");
    forall i | 0 <= i < |items| ensures Count(items[i], '?') == 1 {
      SetItemMarks(keys[i]);
    }
    assert '?' !in ", ";
    JoinMarks(", ", items, '?');
  }

  /**
   * The UPDATE statement has exactly one `?` per bound value when neither the
   * table name, the keys nor the condition hold one, so the engine binds the
   * i-th value to the i-th `key = ?` field.
   */
  lemma UpdatePlaceholderCount(table: string, setValues: PyDict.Dict, condition: string)
    requires '?' !in table && '?' !in condition
    requires forall i :: 0 <= i < |setValues| ==> '?' !in setValues[i].key
    ensures var u := UpdateSql(table, setValues, condition);
            Count(u.sql, '?') == |u.params|
  {
    var keys := PyDict.Keys(setValues);
    SetClauseMarks(keys);
    UpdateFrameMarks(table, condition);
    MarksAround("UPDATE " + table + " SET ", SetClause(keys), " WHERE ", condition);
  }

  /** The fixed text of UPDATE around the SET list adds no `?` of its own. */
  lemma UpdateFrameMarks(table: string, condition: string)
    requires '?' !in table && '?' !in condition
    ensures Count("UPDATE " + table + " SET ", '?') == 0
    ensures Count(" WHERE ", '?') == 0 && Count(condition, '?') == 0
  {
    assert '?' !in "UPDATE " + table + " SET ";
  }

  /** Marks only in the second piece: the whole holds as many as that piece. */
  lemma MarksAround(head: string, mid: string, sep: string, tail: string)
    requires Count(head, '?') == 0 && Count(sep, '?') == 0 && Count(tail, '?') == 0
    ensures Count(head + mid + sep + tail, '?') == Count(mid, '?')
  {
    CountConcat(head, mid, '?');
    CountConcat(head + mid, sep, '?');
    CountConcat(head + mid + sep, tail, '?');
  }
}
