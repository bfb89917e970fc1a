/**
 * The parsing that the menu loop of `main` applies to the free text typed
 * at its prompts before calling the database functions.
 */
module MenuParse {
  import opened Wrappers
  import opened PyText
  import PyDict
  import SqlText

  /**
   * Menu action 2: `[col.strip() for col in columns_str.split(',')]`.
   * One name per comma-separated field, in input order, each with no
   * whitespace at either end.
   */
  function ParseColumns(s: string): (columns: seq<string>)
    ensures |columns| == Count(s, ',') + 1
    ensures forall i :: 0 <= i < |columns| ==> columns[i] == Strip(Split(s, ',')[i])
    ensures forall i :: 0 <= i < |columns| ==>
              ',' !in columns[i] && Stripped(columns[i])
  {
    var fields := Split(s, ',');
    var columns := StripEach(fields);
    assert forall i :: 0 <= i < |columns| ==> ',' !in columns[i] by {
      forall i | 0 <= i < |columns| ensures ',' !in columns[i] {
        StripKeepsAbsence(fields[i], ',');
      }
    }
    columns
  }

  /**
   * Column names without commas or surrounding whitespace are read back
   * exactly, whatever whitespace is typed before and after each of them:
   * field i of the input is `lead[i] + names[i] + trail[i]`.
   */
  lemma ParseColumnsInverse(fields: seq<string>, names: seq<string>, lead: seq<string>, trail: seq<string>)
    requires names != [] && |fields| == |names| && |lead| == |names| && |trail| == |names|
    requires forall i :: 0 <= i < |names| ==> ',' !in names[i] && Stripped(names[i])
    requires forall i, j :: 0 <= i < |lead| && 0 <= j < |lead[i]| ==> IsSpace(lead[i][j])
    requires forall i, j :: 0 <= i < |trail| && 0 <= j < |trail[i]| ==> IsSpace(trail[i][j])
    requires forall i :: 0 <= i < |fields| ==> fields[i] == lead[i] + names[i] + trail[i]
    ensures ParseColumns(Join(",", fields)) == names
  {
    forall i | 0 <= i < |fields|
      ensures ',' !in fields[i] && Strip(fields[i]) == names[i]
    {
      PaddedField(lead[i], names[i], trail[i]);
    }
    var text := Join(",", fields);
    assert Split(text, ',') == fields by {
      assert [','] == ",";
      SplitJoin(fields, ',');
    }
    var columns := ParseColumns(text);
    assert |columns| == |Split(text, ',')| == |names|;
    forall i | 0 <= i < |names| ensures columns[i] == names[i] {
      assert columns[i] == Strip(Split(text, ',')[i]) == Strip(fields[i]);
    }
  }

  /** A stripped, comma-free name with whitespace around it: comma-free, and strip gives the name. */
  lemma PaddedField(lead: string, name: string, trail: string)
    requires ',' !in name && Stripped(name)
    requires forall j :: 0 <= j < |lead| ==> IsSpace(lead[j])
    requires forall j :: 0 <= j < |trail| ==> IsSpace(trail[j])
    ensures ',' !in lead + name + trail && Strip(lead + name + trail) == name
  {
    assert ',' !in lead by {
      forall j | 0 <= j < |lead| ensures lead[j] != ',' {
        assert IsSpace(lead[j]);
      }
    }
    assert ',' !in trail by {
      forall j | 0 <= j < |trail| ensures trail[j] != ',' {
        assert IsSpace(trail[j]);
      }
    }
    StripSurrounded(lead, name, trail);
  }

  /**
   * The CREATE TABLE statement built from typed column names defines one
   * `<name> TEXT` column per comma-separated field of the input, in input
   * order, between the parentheses that follow the table name.
   */
  lemma CreateTableFromInput(table: string, s: string)
    ensures var columns := ParseColumns(s);
            var sql := SqlText.CreateTableSql(table, columns);
            var head := "CREATE TABLE " + table + " (";
            |head| < |sql| && sql[..|head|] == head && sql[|sql| - 1] == ')'
            && var fields := Split(sql[|head|..|sql| - 1], ',');
               |fields| == Count(s, ',') + 1
               && fields[0] == columns[0] + " TEXT"
               && forall i :: 1 <= i < |fields| ==> fields[i] == " " + columns[i] + " TEXT"
  {
    var columns := ParseColumns(s);
    SqlText.ColumnDefsFields(columns);
  }

  /**
   * Menu action 3: `[row.strip().split(',') for row in data_str.split(';')]`.
   * One row per semicolon-separated segment; each row is that segment,
   * stripped, cut at every comma. The cells themselves are not stripped.
   */
  function ParseRows(s: string): (rows: seq<seq<string>>)
    ensures |rows| == Count(s, ';') + 1
    ensures forall i :: 0 <= i < |rows| ==>
              var line := Strip(Split(s, ';')[i]);
              |rows[i]| == Count(line, ',') + 1 && Join(",", rows[i]) == line
  {
    var segments := Split(s, ';');
    var rows := seq(|segments|, i requires 0 <= i < |segments| => Split(Strip(segments[i]), ','));
    assert forall i :: 0 <= i < |rows| ==> Join(",", rows[i]) == Strip(segments[i]) by {
      forall i | 0 <= i < |rows| ensures Join(",", rows[i]) == Strip(segments[i]) {
        JoinSplit(Strip(segments[i]), ',');
      }
    }
    rows
  }

  /**
   * Rows of comma- and semicolon-free cells, written as the prompt asks
   * (cells joined by ",", rows by ";"), are read back exactly, provided no
   * row's text begins or ends with whitespace.
   */
  lemma ParseRowsInverse(rows: seq<seq<string>>)
    requires rows != []
    requires forall i :: 0 <= i < |rows| ==> rows[i] != [] && Stripped(Join(",", rows[i]))
    requires forall i, j :: 0 <= i < |rows| && 0 <= j < |rows[i]| ==> ',' !in rows[i][j] && ';' !in rows[i][j]
    ensures ParseRows(Join(";", seq(|rows|, i requires 0 <= i < |rows| => Join(",", rows[i])))) == rows
  {
    var lines := seq(|rows|, i requires 0 <= i < |rows| => Join(",", rows[i]));
    forall i | 0 <= i < |lines| ensures ';' !in lines[i] {
      JoinKeepsAbsence(",", rows[i], ';');
    }
    SplitJoin(lines, ';');
    var parsed := ParseRows(Join(";", lines));
    forall i | 0 <= i < |rows| ensures parsed[i] == rows[i] {
      StripStripped(lines[i]);
      SplitJoin(rows[i], ',');
    }
  }

  /** Cells keep the spaces typed after a comma: only whole rows are stripped. */
  lemma CellsNotStripped()
    ensures ParseRows("Alice, 30;Bob ,25") == [["Alice", " 30"], ["Bob ", "25"]]
  {
    var rows := [["Alice", " 30"], ["Bob ", "25"]];
    var lines := seq(|rows|, i requires 0 <= i < |rows| => Join(",", rows[i]));
    assert lines[0] == "Alice, 30" && lines[1] == "Bob ,25";
    assert Stripped(lines[0]) && Stripped(lines[1]);
    assert lines == ["Alice, 30", "Bob ,25"];
    assert Join(";", lines) == "Alice, 30;Bob ,25";
    ParseRowsInverse(rows);
  }

  /**
   * A batch read from the menu is never empty, whatever the table name, so
   * `data[0]` in `insert_data` is always defined there; when the table name
   * holds no `?`, the INSERT statement has one `?` per comma-separated cell
   * of the first stripped segment.
   */
  lemma InsertFromInput(table: string, s: string)
    ensures SqlText.InsertSql(table, ParseRows(s)).Success?
    ensures '?' !in table ==>
              Count(SqlText.InsertSql(table, ParseRows(s)).value, '?')
              == Count(Strip(Split(s, ';')[0]), ',') + 1
  {
    if '?' !in table {
      SqlText.InsertPlaceholderCount(table, ParseRows(s));
    }
  }

  /**
   * `dict(item.split('=') ...)` raises ValueError for the first item whose
   * split does not have exactly two parts: "dictionary update sequence
   * element #index has length length; 2 is required".
   */
  datatype AssignError = BadItem(index: nat, length: nat)

  /** The key/value pairs of `items[i..]`, in order, or the first bad item. */
  function PairsFrom(items: seq<string>, i: nat): (r: Result<seq<PyDict.Entry>, AssignError>)
    requires i <= |items|
    decreases |items| - i
    ensures r.Success? <==> forall j :: i <= j < |items| ==> Count(items[j], '=') == 1
    ensures r.Success? ==>
              |r.value| == |items| - i
              && forall j :: 0 <= j < |r.value| ==>
                   items[i + j] == r.value[j].key + "=" + r.value[j].value
                   && '=' !in r.value[j].key && '=' !in r.value[j].value
    ensures r.Failure? ==>
              i <= r.error.index < |items|
              && r.error.length == Count(items[r.error.index], '=') + 1 != 2
              && forall j :: i <= j < r.error.index ==> Count(items[j], '=') == 1
  {
    if i == |items| then Success([])
    else
      var parts := Split(items[i], '=');
      if |parts| != 2 then Failure(BadItem(i, |parts|))
      else match PairsFrom(items, i + 1)
        case Failure(e) => Failure(e)
        case Success(rest) =>
          JoinSplit(items[i], '=');
          assert Join("=", parts) == parts[0] + "=" + parts[1];
          Success([PyDict.Entry(parts[0], parts[1])] + rest)
  }

  /** The pairs produced by `item.split('=') for item in s.split(',')`. */
  function AssignmentPairs(s: string): (r: Result<seq<PyDict.Entry>, AssignError>)
    ensures r.Success? ==>
              |r.value| == |Split(s, ',')|
              && forall j :: 0 <= j < |r.value| ==>
                   Split(s, ',')[j] == r.value[j].key + "=" + r.value[j].value
                   && ',' !in r.value[j].key
  {
    var items := Split(s, ',');
    var r := PairsFrom(items, 0);
    if r.Success? then
      assert forall j :: 0 <= j < |r.value| ==> ',' !in r.value[j].key by {
        forall j | 0 <= j < |r.value| ensures ',' !in r.value[j].key {
          assert items[j] == r.value[j].key + "=" + r.value[j].value;
          assert ',' !in items[j];
        }
      }
      r
    else r
  }

  /**
   * Menu action 5: `dict(item.split('=') for item in set_values_str.split(','))`.
   * Succeeds exactly when every comma-separated item holds exactly one "=";
   * otherwise reports the first item that does not.
   */
  function ParseAssignments(s: string): (r: Result<PyDict.Dict, AssignError>)
    ensures r.Success? <==> forall j :: 0 <= j < |Split(s, ',')| ==> Count(Split(s, ',')[j], '=') == 1
    ensures r.Failure? ==>
              var items := Split(s, ',');
              r.error.index < |items|
              && r.error.length == Count(items[r.error.index], '=') + 1 != 2
              && forall j :: 0 <= j < r.error.index ==> Count(items[j], '=') == 1
  {
    match AssignmentPairs(s)
    case Failure(e) => Failure(e)
    case Success(pairs) => Success(PyDict.FromPairs(pairs))
  }

  /**
   * A parsed assignment string is a non-empty dict whose keys are the text
   * left of each "=" (unstripped), ordered by first occurrence, each mapped
   * to the text right of its last "=" occurrence; no key holds a comma.
   */
  lemma ParseAssignmentsDict(s: string)
    requires ParseAssignments(s).Success?
    ensures AssignmentPairs(s).Success?
    ensures var pairs := AssignmentPairs(s).value;
            var d := ParseAssignments(s).value;
            d == PyDict.FromPairs(pairs)
            && d != [] && PyDict.DistinctKeys(d)
            && (forall k :: PyDict.Get(d, k) == PyDict.LastValue(pairs, k))
            && (forall i :: 0 <= i < |d| ==> ',' !in d[i].key)
            && forall i, j :: 0 <= i < j < |d| ==>
                 PyDict.IndexOf(pairs, d[i].key).Some? && PyDict.IndexOf(pairs, d[j].key).Some?
                 && PyDict.IndexOf(pairs, d[i].key).value < PyDict.IndexOf(pairs, d[j].key).value
  {
    var pairs := AssignmentPairs(s).value;
    var d := PyDict.FromPairs(pairs);
    forall k ensures PyDict.Get(d, k) == PyDict.LastValue(pairs, k) {
      PyDict.FromPairsLastValue(pairs, k);
    }
    PyDict.FromPairsKeysOccur(pairs);
    forall i | 0 <= i < |d| ensures ',' !in d[i].key {
      var j := PyDict.IndexOf(pairs, d[i].key).value;
      assert pairs[j].key == d[i].key;
    }
    PyDict.FromPairsKeyOrder(pairs);
  }

  /**
   * An UPDATE built from a parsed assignment string binds the i-th value to
   * the i-th `key = ?` of its SET list.
   */
  lemma UpdateFromInput(table: string, s: string, condition: string)
    requires ParseAssignments(s).Success?
    ensures var d := ParseAssignments(s).value;
            var u := SqlText.UpdateSql(table, d, condition);
            var fields := Split(SqlText.SetClause(PyDict.Keys(d)), ',');
            |fields| == |u.params| == |d| >= 1
            && fields[0] == d[0].key + " = ?"
            && (forall i :: 1 <= i < |fields| ==> fields[i] == " " + d[i].key + " = ?")
            && forall i :: 0 <= i < |fields| ==> PyDict.Get(d, d[i].key) == Some(u.params[i])
  {
    var d := ParseAssignments(s).value;
    assert d != [] && PyDict.DistinctKeys(d) && forall i :: 0 <= i < |d| ==> ',' !in d[i].key by {
      ParseAssignmentsDict(s);
    }
    SqlText.UpdateBindsByPosition(table, d, condition);
  }

  /**
   * A repeated key keeps the position of its first occurrence and takes the
   * last value: "k1=v1,k2=v2,k1=v3" gives {k1: v3, k2: v2} in that order.
   */
  lemma RepeatedKey(k1: string, k2: string, v1: string, v2: string, v3: string)
    requires k1 != k2
    requires forall t :: t in [k1, k2, v1, v2, v3] ==> ',' !in t && '=' !in t
    ensures ParseAssignments(k1 + "=" + v1 + "," + k2 + "=" + v2 + "," + k1 + "=" + v3)
         == Success([PyDict.Entry(k1, v3), PyDict.Entry(k2, v2)])
  {
    var i1, i2, i3 := k1 + "=" + v1, k2 + "=" + v2, k1 + "=" + v3;
    assert k1 + "=" + v1 + "," + k2 + "=" + v2 + "," + k1 + "=" + v3 == i1 + "," + i2 + "," + i3;
    SplitThree(i1, i2, i3, ',');
    PairsOfThree(k1, v1, k2, v2, k1, v3);
    PyDict.FromPairsRepeated(k1, k2, v1, v2, v3);
  }

  /** Three comma-free items joined by commas split back into the three. */
  lemma SplitThree(i1: string, i2: string, i3: string, c: char)
    requires c !in i1 && c !in i2 && c !in i3
    ensures Split(i1 + [c] + i2 + [c] + i3, c) == [i1, i2, i3]
  {
    var tail := i2 + [c] + i3;
    assert i1 + [c] + i2 + [c] + i3 == i1 + [c] + tail;
    assert Split(tail, c) == [i2, i3] by {
      SplitConcat(i2, i3, c);
      SplitNoSep(i2, c);
      SplitNoSep(i3, c);
      assert [i2] + [i3] == [i2, i3];
    }
    assert Split(i1 + [c] + tail, c) == [i1] + [i2, i3] by {
      SplitConcat(i1, tail, c);
      SplitNoSep(i1, c);
    }
    assert [i1] + [i2, i3] == [i1, i2, i3];
  }

  /** Three well-formed items give their three key/value pairs in order. */
  lemma PairsOfThree(k1: string, v1: string, k2: string, v2: string, k3: string, v3: string)
    requires forall t :: t in [k1, v1, k2, v2, k3, v3] ==> '=' !in t
    ensures PairsFrom([k1 + "=" + v1, k2 + "=" + v2, k3 + "=" + v3], 0)
         == Success([PyDict.Entry(k1, v1), PyDict.Entry(k2, v2), PyDict.Entry(k3, v3)])
  {
    var items := [k1 + "=" + v1, k2 + "=" + v2, k3 + "=" + v3];
    assert items[0] == k1 + "=" + v1 && items[1] == k2 + "=" + v2 && items[2] == k3 + "=" + v3;
    assert PairsFrom(items, 3) == Success([]);
    var e1, e2, e3 := PyDict.Entry(k1, v1), PyDict.Entry(k2, v2), PyDict.Entry(k3, v3);
    SplitItem(k3, v3);
    PairsFromStep(items, 2, k3, v3);
    assert PairsFrom(items, 3).value == [];
    assert [e3] + [] == [e3];
    assert PairsFrom(items, 2) == Success([e3]);
    SplitItem(k2, v2);
    PairsFromStep(items, 1, k2, v2);
    assert [e2] + [e3] == [e2, e3];
    assert PairsFrom(items, 1) == Success([e2, e3]);
    SplitItem(k1, v1);
    PairsFromStep(items, 0, k1, v1);
    assert [e1] + [e2, e3] == [e1, e2, e3];
    assert PairsFrom(items, 0) == Success([e1, e2, e3]);
  }

  /** A well-formed item puts its pair in front of the pairs of the later items. */
  lemma PairsFromStep(items: seq<string>, i: nat, key: string, value: string)
    requires i < |items|
    requires Split(items[i], '=') == [key, value]
    requires PairsFrom(items, i + 1).Success?
    ensures PairsFrom(items, i) == Success([PyDict.Entry(key, value)] + PairsFrom(items, i + 1).value)
  {
  }

  /** `(key + "=" + value).split('=')` for a key and value without "=". */
  lemma SplitItem(key: string, value: string)
    requires '=' !in key && '=' !in value
    ensures Split(key + "=" + value, '=') == [key, value]
  {
    assert key + "=" + value == key + ['='] + value;
    SplitConcat(key, value, '=');
    SplitNoSep(key, '=');
    SplitNoSep(value, '=');
  }
}
