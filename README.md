# Database manager: the text layer

`database_manager.py` is an interactive menu over a single SQLite file. It
turns free text typed at its prompts into SQL statements and turns query
results into a text report. This project models that text layer in Dafny and
proves properties of it:

- `SqlText`: the statements that `create_table`, `insert_data`,
  `select_data`, `update_data` and `delete_data` build. Table names, column
  names and conditions are pasted in verbatim. Inserted cells and updated
  values are bound to `?` markers.
- `MenuParse`: how the menu loop of `main` parses its input:
  - column names for action 2;
  - the `;`/`,` batch for action 3;
  - the `key=value` list for action 5, including the ValueError that
    `dict(...)` raises on a malformed item, modelled as a `Failure`.
- `Report`: the contents of the file that `create_report` writes. It is
  nothing when there is no data, and otherwise one line per row. The
  `CreateReport` method keeps the source's loop, with one write per row.
- `PyText` and `PyDict`: the Python operations the code relies on, with
  Python's semantics:
  - `str.split` with a one-character separator;
  - `str.join`;
  - `str.strip()`, using the whitespace set of `str.isspace`;
  - `dict(pairs)`: keeps insertion order; a repeated key stays at its first
    position and takes the last value.
- `Wrappers`: `Option` and `Result`.

Three behaviours of the code are worth noting:

- Action 5 splits each item on every `=` and needs exactly two parts, so
  `a=b=c` is a malformed item.
- Line 166 is outside any `try`, so the ValueError for a malformed item ends
  the menu loop. The model reports it as `AssignError.BadItem`.
- Only SELECT treats an empty condition as "no WHERE clause". UPDATE and
  DELETE always append `" WHERE "` followed by the condition, even an empty one.

## Model

| member | source | states |
|---|---|---|
| PyText.Join | database_manager.py:19 | `sep.join(xs)`; its meaning is fixed by PyText.JoinEnds, PyText.JoinSplit and PyText.SplitJoin |
| PyText.JoinEnds | database_manager.py:19 | a join of no parts is empty; otherwise it starts with the first part and ends with the last |
| PyText.Split | database_manager.py:142 | `s.split(sep)` has one field more than `s` has separators, and no field holds the separator |
| PyText.JoinSplit | database_manager.py:149 | joining the fields of a split with the separator gives back the original text |
| PyText.SplitJoin | database_manager.py:149 | splitting a join of one or more separator-free parts gives back the parts |
| PyText.SplitConcat | database_manager.py:166 | splitting `a + sep + b` gives the fields of `a` followed by the fields of `b` |
| PyText.SplitJoinPadded | database_manager.py:19 | for one or more parts, with neither the parts nor the padding holding the separator, splitting a `", "`-style join on the separator gives each part, every later part behind the padding |
| PyText.JoinMarks | database_manager.py:62 | when the separator does not hold a character and every part holds it exactly once, the join holds it once per part |
| PyText.Strip | database_manager.py:142 | `strip()` is a slice of the input with only whitespace before and after it, and it neither starts nor ends with whitespace |
| PyText.StripUnique | database_manager.py:142 | any slice with whitespace-only surroundings and non-whitespace ends is the result of `strip()` |
| PyText.StripSurrounded | database_manager.py:142 | whitespace on either side of already stripped text is removed |
| PyText.IsSpace | database_manager.py:142 | the whitespace `strip()` removes: the code points for which `str.isspace` is true (9-13, 28-32, 0x85, 0xA0, 0x1680, 0x2000-0x200A, 0x2028, 0x2029, 0x202F, 0x205F, 0x3000); used by PyText.Strip and PyText.StripUnique |
| PyText.StripEach | database_manager.py:142 | the list comprehension strips each field and keeps the count and order |
| PyDict.Keys | database_manager.py:62 | `set_values.keys()`: the keys in insertion order, one per entry; PyDict.ValuesFollowKeys pairs them with the values |
| PyDict.Values | database_manager.py:63 | `list(set_values.values())`: the values in insertion order, one per entry |
| PyDict.ValuesFollowKeys | database_manager.py:62-63 | for a dict with distinct keys, keys and values have the same length and the i-th value is what the i-th key maps to |
| PyDict.FromPairs | database_manager.py:166 | `dict(pairs)` has distinct keys; what it maps each key to and in which order is stated by PyDict.FromPairsLastValue and PyDict.FromPairsKeyOrder |
| PyDict.Put | database_manager.py:166 | a dict update sets the key's value, leaves other keys alone, keeps existing positions and appends a new key at the end |
| PyDict.FromPairsLastValue | database_manager.py:166 | in `dict(pairs)`, every key maps to the value of its last pair |
| PyDict.FromPairsHasKey | database_manager.py:166 | a key is in `dict(pairs)` exactly when some pair has it |
| PyDict.FromPairsKeyOrder | database_manager.py:166 | the keys of `dict(pairs)` are ordered by their first occurrence in the pairs |
| PyDict.FromPairsRepeated | database_manager.py:166 | `[(k1,v1),(k2,v2),(k1,v3)]` gives `{k1: v3, k2: v2}` in that order |
| SqlText.ColumnDefs | database_manager.py:19 | the column list is empty exactly when there are no columns and otherwise ends in ` TEXT`; its fields are stated by SqlText.ColumnDefsFields |
| SqlText.CreateTableSql | database_manager.py:20 | the statement is `CREATE TABLE <table> (`, the column list, then `)` |
| SqlText.ColumnDefsFields | database_manager.py:19-20 | for one or more comma-free columns, the CREATE TABLE column list holds one `<col> TEXT` definition per column, in order |
| SqlText.Placeholders | database_manager.py:32 | the placeholder text is empty exactly for n = 0 and otherwise starts and ends with `?`; its shape is stated by SqlText.PlaceholdersShape |
| SqlText.InsertSql | database_manager.py:32-33 | the INSERT statement fails exactly on an empty batch, where `data[0]` raises; otherwise it is `INSERT INTO <table> VALUES (`, the placeholders for the first row's cells, then `)` |
| SqlText.PlaceholdersShape | database_manager.py:32 | `', '.join(['?'] * n)` has exactly n question marks and the shape `?, ?, ...` of length 3n-2 |
| SqlText.InsertPlaceholderCount | database_manager.py:32-33 | when the table name holds no `?`, the INSERT statement has exactly one `?` per cell of the first row |
| SqlText.InsertTwoColumns | database_manager.py:32-33 | a two-cell first row gives `INSERT INTO <table> VALUES (?, ?)` |
| SqlText.Truthy | database_manager.py:46 | Python truthiness of `if condition:`: the condition is neither None nor `""`; SqlText.SelectDeterminesCondition shows both falsy values give the same statement |
| SqlText.SelectSql | database_manager.py:45-47 | the statement starts with `SELECT * FROM <table>`, is exactly that when the condition is falsy, and otherwise continues with ` WHERE ` and the condition verbatim |
| SqlText.SelectDeterminesCondition | database_manager.py:45-47 | two SELECTs agree exactly when their conditions agree by Python truthiness: None and "" both give no WHERE |
| SqlText.SetClause | database_manager.py:62 | the SET list is empty exactly when there are no keys and otherwise ends in ` = ?`; its fields are stated by SqlText.UpdateBindsByPosition |
| SqlText.UpdateSql | database_manager.py:62-65 | the statement is `UPDATE <table> SET `, the SET list of the dict's keys, ` WHERE ` and the condition verbatim; the bound values are the dict's values in key order |
| SqlText.UpdateBindsByPosition | database_manager.py:62-65 | for a non-empty dict with distinct, comma-free keys, the i-th `key = ?` field of the SET list and the i-th bound value belong to the same entry, with equal counts |
| SqlText.SetClauseMarks | database_manager.py:62 | the SET list holds one `?` per key when no key holds one |
| SqlText.UpdatePlaceholderCount | database_manager.py:62-65 | when neither the table name, the keys nor the condition hold a `?`, the UPDATE statement has exactly one `?` per bound value, so the engine binds the i-th value to the i-th `key = ?` field |
| SqlText.UpdateKeepsCondition | database_manager.py:64 | UPDATE always ends in `" WHERE "` and the condition verbatim, and the statement determines the condition |
| SqlText.DeleteSql | database_manager.py:77 | the statement is `DELETE FROM <table> WHERE ` followed by the condition verbatim |
| SqlText.DeleteKeepsCondition | database_manager.py:77 | DELETE is `DELETE FROM <table> WHERE ` plus the condition verbatim, even an empty one, and the statement determines the condition |
| MenuParse.ParseColumns | database_manager.py:142 | one column per comma-separated field, in input order: column i is field i stripped, so it is comma-free with no whitespace at either end |
| MenuParse.ParseColumnsInverse | database_manager.py:142 | stripped, comma-free names typed with any whitespace before and after each of them are read back exactly |
| MenuParse.CreateTableFromInput | database_manager.py:142-143 | the CREATE TABLE built from typed input holds, between the parentheses after the table name, one `<name> TEXT` per comma-separated field, in order |
| MenuParse.ParseRows | database_manager.py:149 | one row per `;` segment; each row is that segment, stripped, cut at every comma, and joining it back gives the stripped segment |
| MenuParse.ParseRowsInverse | database_manager.py:149 | rows of comma- and semicolon-free cells, written as the prompt asks, are read back exactly, provided no row's text begins or ends with whitespace |
| MenuParse.CellsNotStripped | database_manager.py:149 | `"Alice, 30;Bob ,25"` keeps the spaces inside the cells: only whole segments are stripped |
| MenuParse.InsertFromInput | database_manager.py:149-150 | a batch typed at the menu is never empty, whatever the table name, so `data[0]` is defined; when the table name holds no `?`, the INSERT has one `?` per cell of the first segment |
| MenuParse.AssignmentPairs | database_manager.py:166 | on success there is one pair per comma-separated item, in order, each item being `key=value` with a comma-free key |
| MenuParse.PairsFrom | database_manager.py:166 | each item with exactly one `=` gives its key/value pair, in order; otherwise the result is the first bad item, with its part count |
| MenuParse.ParseAssignments | database_manager.py:166 | parsing succeeds exactly when every comma-separated item holds exactly one `=`; otherwise it reports the first item that does not, as `dict` does |
| MenuParse.ParseAssignmentsDict | database_manager.py:166 | a parsed dict is non-empty with distinct, comma-free keys ordered by first occurrence, each mapped to its last value |
| MenuParse.RepeatedKey | database_manager.py:166 | `k1=v1,k2=v2,k1=v3` gives `{k1: v3, k2: v2}` in that order |
| MenuParse.UpdateFromInput | database_manager.py:166-168 | an UPDATE built from parsed input binds the i-th value to the i-th `key = ?` |
| Report.Lines | database_manager.py:114-115 | the text of one or more rows ends with a newline; its lines are stated by Report.LinesSplit |
| Report.ReportText | database_manager.py:108-110 | nothing is written exactly when the data is None or empty |
| Report.LinesSplit | database_manager.py:114-115 | the report splits at newlines into exactly the rendered rows, in order, with one newline per row |
| Report.ReportOneLinePerRow | database_manager.py:108-115 | a non-empty result set gives one line per row, each the row's rendering |
| Report.CreateReport | database_manager.py:106-115 | the loop writes exactly the report text: one `str(row) + '\n'` per row, or nothing when there is no data |

## Left out

- The database engine: connecting, executing, committing and closing, and what the statements do to the stored rows. Only the statement text and its bound values are modelled.
- The `except sqlite3.Error` handlers that print a message: they depend on the engine's answer.
- `executemany`'s check that every row has as many cells as the first row has placeholders: the engine does that check.
- `create_database`: it only opens and closes a connection.
- `visualize_data`: it draws with pandas and matplotlib.
- The interactive loop of `main`: printing the menu, reading input and dispatching on the choice. Each parser is modelled as a function of the typed text.
- Report.CreateReport: it returns the text that would be written and does not open or write the file. Python's `str(row)` tuple rendering is the `render` parameter.
- Report.LinesSplit and Report.ReportOneLinePerRow require that no rendered row holds a newline. That holds for the rows `select_data` returns: `str` of a tuple shows each cell by its `repr`, which writes a newline as `\n`.
- Report.CreateReport: the `except Exception` around the file write is not modelled.
