# menu-generator: the data-access layer and the setup script, in Dafny

menu-generator is a meal-planning web application. This project models the part of it
that turns data into SQL. There are two source files.

- `database/models.py`. `BaseModel` builds a statement from a table name and an
  insertion-ordered mapping: `insert`, `update`, `filter_by`, `get_by_id`, `get_all`,
  `delete` and `delete_all`. Each statement is text with `%s` placeholders plus a
  parameter tuple. `run_query` runs it and decides whether it is a read (the stripped,
  upper-cased text starts with `SELECT`). A read returns the fetched rows. Anything else
  returns the last inserted id. `None` comes back when there is no connection or the
  database raises. `get_by_id` keeps only the first row. `populate_from_csv` intersects the
  model's columns with the stripped CSV headers, leaving out `id`. It projects every row
  onto those columns, with stripped cells and `None` for missing or empty ones. The model
  subclasses are constant table and column lists.
- `setup_db.py`. `run_schema` splits the schema file on `;`. It executes the non-blank
  fragments in order inside one transaction and commits only if none raised; otherwise it
  rolls back. `populate_meals` inserts the six meal slots of `meals_dict`. A seed is
  inserted only when its key list equals the model's columns after `id`.

The database is an oracle. For `run_query` it is a function from statement text and
parameters to "raised" or "completed with these rows and this last row id". For
`run_schema` it says whether a command executes, given the commands the transaction has
already executed, and whether the commit succeeds.

The MySQL driver substitutes parameters into the `%s` placeholders. `Binding.Bind` gives
this a reference meaning: placeholders are replaced left to right by the literal of the
next parameter, and binding fails when the counts differ. How a literal is quoted is the
driver's business, so the literal rendering is a parameter `lit`. With this meaning the
lemmas show, for every builder, that each value lands beside its own column.

Modules:
- `Wrappers`: `Option`.
- `Seqs`: order-preserving filtering, the list comprehensions with an `if`.
- `Text`: the Python string operations used. These are `strip` with Python's `isspace`
  set, `upper`, `startswith`, `join`, and `split` on one character.
- `Models`: `database/models.py`.
- `Binding`: the placeholder semantics and what each statement means.
- `SetupDb`: `setup_db.py`.

The application's draft-menu workflow (initialise, regenerate, manual pick, finalise)
appears in neither file, so it is not modelled.

## Model

| member | source | states |
|---|---|---|
| `Binding.InsertBindsValuesInColumnOrder` | database/models.py:57-60 | the INSERT text has exactly one `%s` per key. Once bound, it is `INSERT INTO t (k1, k2, ...) VALUES (lit(v1), lit(v2), ...)`, so the i-th value sits at the i-th column |
| `Models.InsertIsWrite` | database/models.py:23 | whatever the table and mapping, an INSERT is never classified as a read |
| `Models.Insert` | database/models.py:55-61 | `insert` gives `None` exactly when there is no connection or the database raises on the INSERT it built; otherwise it gives the last row id the database reports for that statement |
| `Binding.UpdateBindsEachColumnToItsValue` | database/models.py:65-67 | the UPDATE text has one `%s` per key plus one. Once bound, every `key = ` is followed by the literal of that key's own value, and `WHERE id = ` by the record id's literal |
| `Models.UpdateIsWrite` | database/models.py:23 | an UPDATE is never classified as a read |
| `Models.Update` | database/models.py:63-68 | `update` gives `None` exactly when there is no connection or the database raises on its UPDATE; otherwise the last row id the database reports for it |
| `Binding.FilterBindsEachColumnToItsValue` | database/models.py:83-85 | the filter text has one `%s` per condition. Once bound, the WHERE clause is the `key = lit(value)` comparisons joined by ` AND `, each value beside its own key |
| `Models.FilterIsRead` | database/models.py:23 | a `filter_by` statement is always a read |
| `Models.FilterBy` | database/models.py:81-86 | `filter_by` gives `None` exactly when there is no connection or the database raises on its SELECT; otherwise exactly the rows the database fetched for it |
| `Binding.GetByIdBindsId` | database/models.py:72-73 | bound, the `get_by_id` statement selects `WHERE id = lit(record_id)` |
| `Models.GetByIdIsRead` | database/models.py:23 | a `get_by_id` statement is always a read |
| `Models.GetById` | database/models.py:70-74 | `get_by_id` returns the first fetched row exactly when the query completed with a non-empty result, and `None` when there is no connection, the query raised, or nothing matched |
| `Binding.GetAllBinds` | database/models.py:78 | the `get_all` text has no placeholder and binds to `SELECT * FROM t` |
| `Models.GetAllIsRead` | database/models.py:23 | a `get_all` statement is always a read |
| `Models.GetAll` | database/models.py:76-79 | `get_all` gives `None` exactly when there is no connection or the database raises on its SELECT; otherwise exactly the rows the database fetched for it |
| `Binding.DeleteBindsId` | database/models.py:52-53 | bound, the `delete` statement deletes `WHERE id = lit(record_id)` |
| `Models.DeleteIsWrite` | database/models.py:23 | a DELETE by id is never classified as a read |
| `Models.Delete` | database/models.py:50-53 | `delete` gives `None` exactly when there is no connection or the database raises on its DELETE; otherwise the last row id the database reports for it |
| `Binding.DeleteAllBinds` | database/models.py:47 | the `delete_all` text has no placeholder and binds to `DELETE FROM t` |
| `Models.DeleteAllIsWrite` | database/models.py:23 | a `delete_all` statement is never classified as a read |
| `Models.DeleteAll` | database/models.py:45-48 | `delete_all` gives `None` exactly when there is no connection or the database raises on its DELETE; otherwise the last row id the database reports for it |
| `Binding.BindSucceedsIffCountMatches` | database/models.py:22 | the driver can substitute the parameters exactly when there are as many `%s` placeholders as parameters |
| `Models.RunQuery` | database/models.py:18-43 | `run_query` returns `None` exactly when there is no connection or the database raises. Otherwise it returns rows exactly for reads (the fetched rows), and the cursor's last row id for everything else |
| `Models.ReadIffSelectAfterBlanks` | database/models.py:23 | both directions: a statement is a read exactly when, after some leading whitespace, its next six characters upper-case to `SELECT` |
| `Models.KeywordDecidesRead` | database/models.py:23 | for text starting with six non-blank characters, those six alone decide read or write |
| `Models.AllModelsIdFirst` | database/models.py:139-223 | every model subclass lists `id` first and repeats no column |
| `Models.StrippedHeaders` | database/models.py:101-102 | every header is replaced by its stripped form, position by position; these stripped names are both the `cols_to_use` test and the keys of every row |
| `Models.CsvColumns` | database/models.py:107 | the columns used are a subsequence of the model's columns (model order kept), and never `id`. A column is used exactly when it is a model column and a stripped header |
| `Models.CsvColumnsAreNonIdColumns` | database/models.py:107 | for a model listing `id` first, a file whose headers cover the other columns uses exactly `columns[1:]` |
| `Models.Field` | database/models.py:99-102 | a column that is not among the stripped field names reads as `None`, and any other read gives one of the record's cells |
| `Models.FieldAtLastPosition` | database/models.py:99-102 | a row's value under a field name is the cell at that name's last position among the stripped names, or `None` when the record is shorter |
| `Models.ProjectRowByPosition` | database/models.py:119-122 | with distinct stripped field names, each used column takes the record's cell at its name's position, or `None` past the record's end |
| `Models.CellValue` | database/models.py:122 | a cell becomes `None` exactly when it is missing or empty. Otherwise it becomes its stripped text, which starts and ends with non-whitespace; it is never an integer or another driver value |
| `Models.BlankCellIsEmptyString` | database/models.py:122 | a non-empty, whitespace-only cell becomes `""`, not `None` |
| `Models.ProjectRow` | database/models.py:122-123 | a record becomes one value per used column, in column order, each the cell value its dict holds under that column |
| `Models.PlanCsvImport` | database/models.py:107-126 | nothing is inserted when no column matches. Otherwise the statement names exactly the used columns, with one projected tuple per row, and `executemany` runs exactly when there is at least one row |
| `Binding.CsvRowsBindInColumnOrder` | database/models.py:114-126 | every projected row binds to the CSV INSERT statement, each cell's literal at its own column's position |
| `Binding.SetupModelsPlain` | database/models.py:139-181 | no table or column name of `MealsModel` or `RecipesModel` contains `%`, so the binding lemmas apply to them |
| `Text.Split` | setup_db.py:21 | a split on one character has one fragment more than there are separators, and no fragment contains the separator |
| `Text.JoinSplit` | setup_db.py:21 | joining the fragments with `;` gives back the text |
| `Text.SplitJoin` | setup_db.py:21 | splitting the `;`-join of separator-free parts gives back the parts |
| `Text.StripIsSlice` | database/models.py:122 | `strip` returns a slice of its input between a whitespace-only prefix and a whitespace-only suffix |
| `Text.StripUnique` | database/models.py:122 | text with non-blank ends, surrounded by whitespace, strips to exactly that text |
| `Text.StripIdempotent` | database/models.py:101 | stripping an already stripped header changes nothing |
| `Seqs.Filter` | database/models.py:107 | a comprehension with an `if` keeps only elements that pass, and never more than it was given |
| `Seqs.FilterIsSubsequence` | database/models.py:107 | the kept elements stay in their original order |
| `Seqs.FilterCounts` | database/models.py:107 | every passing element is kept as often as it occurs, and no other element is kept |
| `Seqs.FilterAppend` | setup_db.py:25-26 | filtering a concatenation filters each part |
| `SetupDb.SchemaCommands` | setup_db.py:21-26 | every command run is one of the `;` fragments of the file and is not blank once stripped, and there are at most one more commands than separators |
| `SetupDb.SchemaCommandsAreNonBlankFragments` | setup_db.py:21-26 | the commands are the non-blank fragments in file order, each as often as it occurs in the file, and no blank fragment |
| `SetupDb.SchemaFragmentsRebuildText` | setup_db.py:21 | splitting the schema loses nothing: the fragments joined by `;` are the file text |
| `SetupDb.SplitAtSeparator` | setup_db.py:21 | text split at a `;` is the fragments of the part before it followed by those of the part after it |
| `SetupDb.SchemaCommandsOfConcatenation` | setup_db.py:21-26 | the commands of `a;b` are the commands of `a` followed by those of `b` |
| `SetupDb.SemicolonAlwaysSplits` | setup_db.py:21-26 | every `;` splits, including one inside a quoted literal, and whitespace after the last `;` is not a command |
| `SetupDb.LastCommand` | setup_db.py:21-26 | a command followed by `;` and trailing whitespace gives exactly that one command |
| `SetupDb.BlankTail` | setup_db.py:26 | a blank fragment is skipped |
| `SetupDb.SingleCommand` | setup_db.py:26 | a separator-free, already stripped, non-empty text is one command |
| `SetupDb.ExecuteInOrder` | setup_db.py:25-28 | the commands attempted are a prefix of the non-blank fragments, and each but the last succeeded given the ones before it. The loop reaches the end exactly when every non-blank fragment succeeds after those before it; otherwise the last one attempted raised |
| `SetupDb.RunSchema` | setup_db.py:5-38 | there is no outcome without a connection. The run commits exactly when every command executes after the ones before it and the commit succeeds, and then it has executed exactly the non-blank fragments in order. Otherwise it rolls back, after a prefix of those commands whose last one raised, or after all of them when the commit failed |
| `SetupDb.PopulateMeals` | setup_db.py:51-57 | at most one insert is attempted per seed. Each names exactly the model's columns after `id`, in model order, with one parameter per column |
| `SetupDb.PopulateMealsAttemptsFittingSeeds` | setup_db.py:54-57 | for any seed list, the inserts attempted are those of a subsequence of the seeds that holds every seed whose keys equal `columns[1:]` exactly as often as the list does, and no other seed |
| `SetupDb.PopulateMealsInsertsFittingSeeds` | setup_db.py:54-57 | when every seed's keys equal `columns[1:]`, each seed is inserted, in list order |
| `SetupDb.AllMealSeedsInserted` | setup_db.py:41-57 | all six entries of `meals_dict` pass the guard against `MealsModel`, so all six are inserted in list order, and their names are distinct |
| `SetupDb.ReorderedSeedSkipped` | setup_db.py:55 | the guard compares key lists, so a seed naming the right columns in the other order is skipped |

## Left out

- Connections and I/O are not modelled. This covers `create_connection` (database/db_connector.py, not part of this model), cursors, closing, reading the schema and CSV files, and `csv.DictReader` parsing. The CSV input is given as the raw header names plus each record's cells by position. The rows' dicts are built from the stripped names, as `reader.fieldnames = csv_headers` makes them; cells past the last field name (`restkey`) and the reader's skipping of empty records are not modelled.
- `print` output is not modelled: every success and error message, including the `Executing: ...` lines.
- app.py is not modelled: it is a web route stub.
- The draft-menu workflow (initialise, regenerate, manual pick, finalise) and the one-menu-per-day check are not modelled: neither modelled file contains them.
- The database's meaning is not modelled. There is no SQL semantics, no table contents, and no `lastrowid` values beyond what the oracle returns.
- `Models.PlanCsvImport`: does not model `executemany`, the commit, the rollback, or the case where the file has no header row (`fieldnames` is `None`). All of these are I/O or database behaviour.
- `Models.PlanCsvImport`: does not model the crash when there is no connection. `db` is then `None` (database/models.py:93) and `cursor` is never bound, because line 95 is skipped. Reaching `cursor.executemany` at line 126 raises `NameError`, and the handler's `db.rollback()` at line 133 then raises `AttributeError` on `None`. On every path the `finally` block's `cursor.close()` at line 135 raises `NameError`.
- `Models.Value`: dates, times, `Decimal`s, floats and other driver values are one opaque case, `Other`, carrying a textual representation. Their Python semantics (a `datetime` for a timestamp column, a `timedelta` for a TIME column) are not modelled, because every operation passes values through unchanged.
- `Models.Response`: `lastRowId` is an integer. The driver's `None` for statements that insert nothing is not distinguished.
- `Text.Upper`: ASCII letters only. Python also upper-cases other letters; for example `ſ` becomes `S`, so `ſelect` is classified as a read by Python but not by the model.
- `Binding.SetupModelsPlain`: states plainness only for the two models that the setup script fills. It is not stated for the other eight, to keep the proof small.
- `SetupDb.RunSchema`: does not model `start_transaction` or the file read raising. Both are inside the same `try`, and both lead to a rollback.
- `SetupDb.PopulateMeals`: returns the insert statements attempted. It does not model the per-insert outcome, which `populate_meals` only prints.
- `SetupDb.SemicolonAlwaysSplits`: is stated for any two separator-free pieces rather than for a concrete quoted literal. An instance is `SELECT 'a;b';` followed by a newline, which runs `SELECT 'a` and `b'`.
- Table and column names are never validated or escaped in the source. The binding lemmas therefore assume that names contain no `%`.
- `update` and `filter_by` with an empty mapping build malformed SQL (`SET  WHERE`, a bare `WHERE`). The model builds the same text and does not reason about SQL syntax.
