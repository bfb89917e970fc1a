/**
 * The text `create_report` writes to the report file: nothing at all when
 * there is no data, otherwise one line per row, each row rendered by Python's
 * `str(row)` and followed by a newline. The rendering is a parameter.
 */
module Report {
  import opened Wrappers
  import opened PyText

  /** The rows in order, each rendered and followed by exactly one "\n". */
  function Lines<Row>(rows: seq<Row>, render: Row -> string): (r: string)
    ensures rows != [] ==> |r| > 0 && r[|r| - 1] == '\n'
  {
    if rows == [] then "" else render(rows[0]) + "\n" + Lines(rows[1..], render)
  }

  /**
   * The report text, or None when `data` is None or empty: then the function
   * returns before the file is opened, so nothing is written.
   */
  function ReportText<Row>(data: Option<seq<Row>>, render: Row -> string): (text: Option<string>)
    ensures text.None? <==> (data.None? || data.value == [])
  {
    if data.None? || data.value == [] then None else Some(Lines(data.value, render))
  }

  /** Writing one more row appends its rendering and a newline. */
  lemma {:induction false} LinesAppend<Row>(rows: seq<Row>, row: Row, render: Row -> string)
    ensures Lines(rows + [row], render) == Lines(rows, render) + render(row) + "\n"
  {
    if rows != [] {
      assert (rows + [row])[1..] == rows[1..] + [row];
      LinesAppend(rows[1..], row, render);
    } else {
      assert Lines([row], render) == render(row) + "\n" + Lines([], render);
    }
  }

  /**
   * When no rendering holds a newline, the report splits back into exactly
   * the rendered rows, in order, followed by the empty text after the last
   * newline; so it holds one newline per row.
   */
  lemma {:induction false} LinesSplit<Row>(rows: seq<Row>, render: Row -> string)
    requires forall i :: 0 <= i < |rows| ==> '\n' !in render(rows[i])
    ensures Split(Lines(rows, render), '\n')
         == seq(|rows|, i requires 0 <= i < |rows| => render(rows[i])) + [""]
    ensures Count(Lines(rows, render), '\n') == |rows|
  {
    if rows != [] {
      var first, rest := render(rows[0]), Lines(rows[1..], render);
      var tail := rows[1..];
      LinesSplit(tail, render);
      var later := seq(|tail|, i requires 0 <= i < |tail| => render(tail[i]));
      assert Split(rest, '\n') == later + [""];
      assert Lines(rows, render) == first + ['\n'] + rest;
      SplitConcat(first, rest, '\n');
      SplitNoSep(first, '\n');
      assert Split(Lines(rows, render), '\n') == [first] + (later + [""]);
      var all := seq(|rows|, i requires 0 <= i < |rows| => render(rows[i]));
      assert all == [first] + later;
      assert [first] + (later + [""]) == all + [""];
    }
  }

  /**
   * The report of a non-empty result set has one line per row: splitting it
   * at newlines gives back every rendered row in order.
   */
  lemma ReportOneLinePerRow<Row>(rows: seq<Row>, render: Row -> string)
    requires rows != []
    requires forall i :: 0 <= i < |rows| ==> '\n' !in render(rows[i])
    ensures ReportText(Some(rows), render).Some?
    ensures var text := ReportText(Some(rows), render).value;
            Count(text, '\n') == |rows|
            && |Split(text, '\n')| == |rows| + 1
            && Split(text, '\n')[|rows|] == ""
            && forall i :: 0 <= i < |rows| ==> Split(text, '\n')[i] == render(rows[i])
  {
    LinesSplit(rows, render);
  }

  /**
   * `create_report` without the file system: the early return for no data,
   * then one `write(str(row) + '\n')` per row into the text that becomes the
   * file's contents.
   */
  method CreateReport<Row>(data: Option<seq<Row>>, render: Row -> string) returns (written: Option<string>)
    ensures written == ReportText(data, render)
  {
    if data.None? || data.value == [] {
      return None;
    }
    var rows := data.value;
    var contents := "";
    for i := 0 to |rows|
      invariant contents == Lines(rows[..i], render)
    {
      LinesAppend(rows[..i], rows[i], render);
      assert rows[..i + 1] == rows[..i] + [rows[i]];
      contents := contents + render(rows[i]) + "\n";
    }
    assert rows[..|rows|] == rows;
    written := Some(contents);
  }
}
