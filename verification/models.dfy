/** The data-access layer of database/models.py: `BaseModel` turns a table name and an
    insertion-ordered mapping into a parameterised SQL statement, runs it through a database
    connection, and projects CSV rows onto the model's columns. The database itself is an
    oracle: a function from statement text and parameters to a response. */
module Models {
  import opened Wrappers
  import opened Text
  import opened Seqs

  /** A Python value passed as a statement parameter or fetched in a row: `None`, an integer, a
      string, or any other value the driver handles (a `datetime` from a timestamp column, a
      `timedelta` from a TIME column, a `Decimal`, a float), which this layer passes through
      without looking inside and so is kept only as an opaque representation. */
  datatype Value = Null | Int(i: int) | Str(s: string) | Other(repr: string)

  /** A Python dict, in insertion order: the mapping handed to a builder, and the shape of a row
      fetched with `dictionary=True`, column name to value. */
  type Record = seq<(string, Value)>

  /** `list(d.keys())`. */
  function Keys(d: Record): (ks: seq<string>)
    ensures |ks| == |d| && forall k :: 0 <= k < |d| ==> ks[k] == d[k].0
  {
    seq(|d|, k requires 0 <= k < |d| => d[k].0)
  }

  /** `tuple(d.values())`. */
  function Values(d: Record): (vs: seq<Value>)
    ensures |vs| == |d| && forall k :: 0 <= k < |d| ==> vs[k] == d[k].1
  {
    seq(|d|, k requires 0 <= k < |d| => d[k].1)
  }

  /** A query string with `%s` placeholders and the parameter tuple passed beside it. */
  datatype Statement = Statement(text: string, params: seq<Value>)

  /** A `BaseModel` instance: its table name and its column list. */
  datatype Model = Model(table: string, columns: seq<string>)

  const MealsModel := Model("Meals", ["id", "name", "default_time"])
  const MenuModel := Model("Menus", ["id", "user_id", "created_at", "submitted_at"])
  const MenuMealsModel := Model("Menu_meals", ["id", "menu_id", "meal_id", "recipe_id", "meal_time",
                                               "regenerated_times", "if_picked_manually", "submitted_at"])
  const RecipesModel := Model("Recipes", ["id", "name", "external_id", "country_id", "meal_id",
                                          "category_id", "n_portions", "prep_time", "cooking_time",
                                          "area", "thumb", "source_url", "youtube", "rating", "created_at"])
  const CategoriesModel := Model("Categories", ["id", "name"])
  const CountriesModel := Model("Countries", ["id", "name"])
  const IngredientsModel := Model("Ingredients", ["id", "name"])
  const UsersModel := Model("Users", ["id", "username", "email", "role_id", "password_hash", "created_at",
                                      "is_active", "country_id", "age_full_years", "birth_date"])
  const UserRolesModel := Model("User_roles", ["id", "name", "description"])
  const FavoritesRecipesModel := Model("User_favorite_recipes", ["id", "user_id", "recipe_id", "added_at"])

  const AllModels := [MealsModel, MenuModel, MenuMealsModel, RecipesModel, CategoriesModel,
                      CountriesModel, IngredientsModel, UsersModel, UserRolesModel, FavoritesRecipesModel]

  /** The column list starts with the auto-increment `id` and names every column once. */
  ghost predicate IdFirst(m: Model) {
    && |m.columns| > 0
    && m.columns[0] == "id"
    && forall j, k :: 0 <= j < k < |m.columns| ==> m.columns[j] != m.columns[k]
  }

  /** Every model subclass lists `id` first and has no repeated column. */
  lemma AllModelsIdFirst()
    ensures forall k :: 0 <= k < |AllModels| ==> IdFirst(AllModels[k])
  {
    SmallModelsIdFirst();
    MenuMealsIdFirst();
    UsersIdFirst();
    RecipesIdFirst();
  }

  // The per-model facts behind `AllModelsIdFirst`, one lemma for each long column list.
  lemma SmallModelsIdFirst()
    ensures IdFirst(MealsModel) && IdFirst(MenuModel) && IdFirst(CategoriesModel) && IdFirst(CountriesModel)
    ensures IdFirst(IngredientsModel) && IdFirst(UserRolesModel) && IdFirst(FavoritesRecipesModel)
  {
  }

  lemma MenuMealsIdFirst()
    ensures IdFirst(MenuMealsModel)
  {
  }

  lemma UsersIdFirst()
    ensures IdFirst(UsersModel)
  {
  }

  lemma RecipesIdFirst()
    ensures IdFirst(RecipesModel)
  {
  }

  // ---------------------------------------------------------------------------------------------
  // Statement text

  /** `['%s'] * n`. */
  function Placeholders(n: nat): (ps: seq<string>)
    ensures |ps| == n && forall k :: 0 <= k < n ==> ps[k] == "%s"
  {
    seq(n, k => "%s")
  }

  /** `[f"{key} = %s" for key in keys]`. */
  function Assignments(keys: seq<string>): (xs: seq<string>)
    ensures |xs| == |keys| && forall k :: 0 <= k < |keys| ==> xs[k] == keys[k] + " = %s"
  {
    seq(|keys|, k requires 0 <= k < |keys| => keys[k] + " = %s")
  }

  /** The INSERT text after its keyword. */
  function InsertTail(table: string, cols: seq<string>): string {
    " INTO " + table + " (" + Join(cols, ", ") + ") VALUES (" + Join(Placeholders(|cols|), ", ") + ")"
  }

  /** The INSERT text shared by `insert` and `populate_from_csv`. */
  function InsertText(table: string, cols: seq<string>): string {
    "INSERT" + InsertTail(table, cols)
  }

  // ---------------------------------------------------------------------------------------------
  // Read/write classification in `run_query`

  /** `query.strip().upper().startswith("SELECT")`. */
  predicate IsRead(q: string) {
    StartsWith(Upper(Strip(q)), "SELECT")
  }

  lemma UpperPrefix(s: string, n: nat)
    requires n <= |s|
    ensures Upper(s)[..n] == Upper(s[..n])
  {
  }

  /** Upper-casing never turns whitespace into a letter, so a keyword that upper-cases to
      `SELECT` contains no whitespace. */
  lemma SelectHasNoSpace(w: string)
    requires Upper(w) == "SELECT"
    ensures forall k :: 0 <= k < |w| ==> !IsSpace(w[k])
  {
    forall k | 0 <= k < |w|
      ensures !IsSpace(w[k])
    {
      assert Upper(w)[k] == UpperChar(w[k]);
    }
  }

  /** When a statement starts with six non-blank characters, those six alone decide whether it
      is a read. */
  lemma KeywordDecidesRead(q: string)
    requires |q| >= 6 && forall k :: 0 <= k < 6 ==> !IsSpace(q[k])
    ensures IsRead(q) <==> Upper(q[..6]) == "SELECT"
  {
    TrimStartNonSpace(q);
    TrimEndKeeps(q, 6);
    var r := Strip(q);
    assert r == q[..|r|];
    assert r[..6] == q[..6];
    UpperPrefix(r, 6);
  }

  /** A read has `SELECT`, in any case, right after its leading whitespace. */
  lemma ReadHasSelectAfterBlanks(q: string) returns (i: nat)
    requires IsRead(q)
    ensures i <= |q| - 6 && AllSpace(q[..i]) && Upper(q[i..i + 6]) == "SELECT"
  {
    var t := TrimStart(q);
    i := |q| - |t|;
    var r := TrimEnd(t);
    assert r == Strip(q);
    assert |r| >= 6;
    assert r[..6] == t[..6] == q[i..i + 6];
    UpperPrefix(r, 6);
  }

  /** `SELECT`, in any case, right after leading whitespace makes a statement a read. */
  lemma SelectAfterBlanksIsRead(q: string, i: nat)
    requires i <= |q| - 6 && AllSpace(q[..i]) && Upper(q[i..i + 6]) == "SELECT"
    ensures IsRead(q)
  {
    var x := q[i..];
    SelectHasNoSpace(q[i..i + 6]);
    assert x[..6] == q[i..i + 6];
    assert forall k :: 0 <= k < 6 ==> !IsSpace(x[k]) by {
      forall k | 0 <= k < 6 ensures !IsSpace(x[k]) {
        assert x[k] == q[i..i + 6][k];
      }
    }
    assert q == q[..i] + x;
    TrimStartSkips(q[..i], x);
    TrimStartNonSpace(x);
    assert Strip(q) == Strip(x);
    KeywordDecidesRead(x);
  }

  /** Independent statement of the classification: a statement is a read exactly when, after
      some leading whitespace, its next six characters upper-case to `SELECT`. */
  lemma ReadIffSelectAfterBlanks(q: string)
    ensures IsRead(q) <==> exists i :: 0 <= i <= |q| - 6 && AllSpace(q[..i]) && Upper(q[i..i + 6]) == "SELECT"
  {
    if IsRead(q) {
      var i := ReadHasSelectAfterBlanks(q);
    }
    if exists i :: 0 <= i <= |q| - 6 && AllSpace(q[..i]) && Upper(q[i..i + 6]) == "SELECT" {
      var i :| 0 <= i <= |q| - 6 && AllSpace(q[..i]) && Upper(q[i..i + 6]) == "SELECT";
      SelectAfterBlanksIsRead(q, i);
    }
  }

  /** Every statement that begins with the keyword `SELECT` is a read. */
  lemma SelectIsRead(rest: string)
    ensures IsRead("SELECT" + rest)
  {
    var q := "SELECT" + rest;
    assert q[..6] == "SELECT";
    assert Upper("SELECT") == "SELECT" by {
      forall k | 0 <= k < 6 ensures Upper("SELECT")[k] == "SELECT"[k] {
      }
    }
    KeywordDecidesRead(q);
  }

  /** A statement that begins with a six-letter keyword other than `SELECT` is a write. */
  lemma OtherKeywordIsWrite(keyword: string, rest: string)
    requires |keyword| == 6 && forall k :: 0 <= k < 6 ==> !IsSpace(keyword[k])
    requires UpperChar(keyword[0]) != 'S'
    ensures !IsRead(keyword + rest)
  {
    var q := keyword + rest;
    assert q[..6] == keyword;
    assert Upper(keyword)[0] != "SELECT"[0];
    KeywordDecidesRead(q);
  }

  // ---------------------------------------------------------------------------------------------
  // Statement builders of `BaseModel`

  /** The statement `insert(data)` runs: one column and one `%s` per key, in mapping order, and
      the values in the same order. */
  function InsertStatement(table: string, data: Record): (q: Statement)
    ensures |q.params| == |data| && forall k :: 0 <= k < |data| ==> q.params[k] == data[k].1
  {
    var text := InsertText(table, Keys(data));
    Statement(text, Values(data))
  }

  /** The statement `update(record_id, data)` runs: the values in key order, then the record id
      for the `WHERE id = %s`. */
  function UpdateStatement(table: string, recordId: Value, data: Record): (q: Statement)
    ensures |q.params| == |data| + 1
    ensures forall k :: 0 <= k < |data| ==> q.params[k] == data[k].1
    ensures q.params[|data|] == recordId
  {
    var rest := " " + table + " SET " + Join(Assignments(Keys(data)), ", ") + " WHERE id = %s";
    var text := "UPDATE" + rest;
    Statement(text, Values(data) + [recordId])
  }

  /** The statement `filter_by(**conditions)` runs: one `key = %s` per condition joined by
      `AND`, and the condition values in the same order. */
  function FilterStatement(table: string, conditions: Record): (q: Statement)
    ensures |q.params| == |conditions| && forall k :: 0 <= k < |conditions| ==> q.params[k] == conditions[k].1
  {
    var rest := " * FROM " + table + " WHERE " + Join(Assignments(Keys(conditions)), " AND ");
    var text := "SELECT" + rest;
    Statement(text, Values(conditions))
  }

  /** The statement `get_by_id(record_id)` runs, with the record id as its one parameter. */
  function GetByIdStatement(table: string, recordId: Value): (q: Statement)
    ensures q.params == [recordId]
  {
    var rest := " * FROM " + table + " WHERE id = %s";
    var text := "SELECT" + rest;
    Statement(text, [recordId])
  }

  /** The statement `get_all()` runs, with no parameters. */
  function GetAllStatement(table: string): (q: Statement)
    ensures q.params == []
  {
    var rest := " * FROM " + table;
    var text := "SELECT" + rest;
    Statement(text, [])
  }

  /** The statement `delete(record_id)` runs, with the record id as its one parameter. */
  function DeleteStatement(table: string, recordId: Value): (q: Statement)
    ensures q.params == [recordId]
  {
    var rest := " FROM " + table + " WHERE id = %s";
    var text := "DELETE" + rest;
    Statement(text, [recordId])
  }

  /** The statement `delete_all()` runs, with no parameters. */
  function DeleteAllStatement(table: string): (q: Statement)
    ensures q.params == []
  {
    var rest := " FROM " + table;
    var text := "DELETE" + rest;
    Statement(text, [])
  }

  // The statements `get_by_id`, `get_all` and `filter_by` build are reads, and those `insert`,
  // `update`, `delete` and `delete_all` build are writes, whatever the table, keys and values.

  lemma GetByIdIsRead(table: string, recordId: Value)
    ensures IsRead(GetByIdStatement(table, recordId).text)
  {
    SelectIsRead(" * FROM " + table + " WHERE id = %s");
  }

  lemma GetAllIsRead(table: string)
    ensures IsRead(GetAllStatement(table).text)
  {
    SelectIsRead(" * FROM " + table);
  }

  lemma FilterIsRead(table: string, conditions: Record)
    ensures IsRead(FilterStatement(table, conditions).text)
  {
    SelectIsRead(" * FROM " + table + " WHERE " + Join(Assignments(Keys(conditions)), " AND "));
  }

  lemma InsertIsWrite(table: string, data: Record)
    ensures !IsRead(InsertStatement(table, data).text)
  {
    OtherKeywordIsWrite("INSERT", InsertTail(table, Keys(data)));
  }

  lemma UpdateIsWrite(table: string, recordId: Value, data: Record)
    ensures !IsRead(UpdateStatement(table, recordId, data).text)
  {
    OtherKeywordIsWrite("UPDATE", " " + table + " SET " + Join(Assignments(Keys(data)), ", ") + " WHERE id = %s");
  }

  lemma DeleteIsWrite(table: string, recordId: Value)
    ensures !IsRead(DeleteStatement(table, recordId).text)
  {
    OtherKeywordIsWrite("DELETE", " FROM " + table + " WHERE id = %s");
  }

  lemma DeleteAllIsWrite(table: string)
    ensures !IsRead(DeleteAllStatement(table).text)
  {
    OtherKeywordIsWrite("DELETE", " FROM " + table);
  }

  // ---------------------------------------------------------------------------------------------
  // Running a statement

  /** What the database does with one statement: it raises (in execute, fetch or commit), or it
      completes with the fetched rows and the cursor's last inserted id. */
  datatype Response = Raised | Completed(rows: seq<Record>, lastRowId: int)

  /** An open connection, seen as an oracle. */
  type Connection = (string, seq<Value>) -> Response

  /** What `run_query` returns when it does not return `None`. */
  datatype QueryResult = Rows(rows: seq<Record>) | LastRowId(id: int)

  /** `run_query(query, params)`: `None` when there is no connection or the database raises;
      otherwise the fetched rows for a read and the last inserted id for anything else. */
  function RunQuery(db: Option<Connection>, q: Statement): (r: Option<QueryResult>)
    ensures r.None? <==> db.None? || db.value(q.text, q.params).Raised?
    ensures r.Some? ==> (r.value.Rows? <==> IsRead(q.text))
    ensures r.Some? && r.value.Rows? ==> r.value.rows == db.value(q.text, q.params).rows
    ensures r.Some? && r.value.LastRowId? ==> r.value.id == db.value(q.text, q.params).lastRowId
  {
    match db
    case None => None
    case Some(execute) =>
      match execute(q.text, q.params)
      case Raised => None
      case Completed(rows, lastRowId) =>
        if IsRead(q.text) then Some(Rows(rows)) else Some(LastRowId(lastRowId))
  }

  /** `insert(data)`: `None` when there is no connection or the database raises, otherwise the id of the new row. */
  function Insert(db: Option<Connection>, table: string, data: Record): (r: Option<QueryResult>)
    ensures r.Some? <==> db.Some? && db.value(InsertStatement(table, data).text, InsertStatement(table, data).params).Completed?
    ensures r.Some? ==> r.value == LastRowId(db.value(InsertStatement(table, data).text, InsertStatement(table, data).params).lastRowId)
  {
    InsertIsWrite(table, data);
    WriteReturnsLastRowId(db, InsertStatement(table, data));
    RunQuery(db, InsertStatement(table, data))
  }

  /** `update(record_id, data)`: `None` when there is no connection or the database raises, otherwise the cursor's last row id; never a row set. */
  function Update(db: Option<Connection>, table: string, recordId: Value, data: Record): (r: Option<QueryResult>)
    ensures r.Some? <==> db.Some? && db.value(UpdateStatement(table, recordId, data).text, UpdateStatement(table, recordId, data).params).Completed?
    ensures r.Some? ==> r.value == LastRowId(db.value(UpdateStatement(table, recordId, data).text, UpdateStatement(table, recordId, data).params).lastRowId)
  {
    UpdateIsWrite(table, recordId, data);
    WriteReturnsLastRowId(db, UpdateStatement(table, recordId, data));
    RunQuery(db, UpdateStatement(table, recordId, data))
  }

  /** `delete(record_id)`: `None` when there is no connection or the database raises, otherwise the cursor's last row id; never a row set. */
  function Delete(db: Option<Connection>, table: string, recordId: Value): (r: Option<QueryResult>)
    ensures r.Some? <==> db.Some? && db.value(DeleteStatement(table, recordId).text, DeleteStatement(table, recordId).params).Completed?
    ensures r.Some? ==> r.value == LastRowId(db.value(DeleteStatement(table, recordId).text, DeleteStatement(table, recordId).params).lastRowId)
  {
    DeleteIsWrite(table, recordId);
    WriteReturnsLastRowId(db, DeleteStatement(table, recordId));
    RunQuery(db, DeleteStatement(table, recordId))
  }

  /** `delete_all()`: `None` when there is no connection or the database raises, otherwise the cursor's last row id; never a row set. */
  function DeleteAll(db: Option<Connection>, table: string): (r: Option<QueryResult>)
    ensures r.Some? <==> db.Some? && db.value(DeleteAllStatement(table).text, DeleteAllStatement(table).params).Completed?
    ensures r.Some? ==> r.value == LastRowId(db.value(DeleteAllStatement(table).text, DeleteAllStatement(table).params).lastRowId)
  {
    DeleteAllIsWrite(table);
    WriteReturnsLastRowId(db, DeleteAllStatement(table));
    RunQuery(db, DeleteAllStatement(table))
  }

  /** `get_all()`: `None` when there is no connection or the database raises, otherwise every fetched row. */
  function GetAll(db: Option<Connection>, table: string): (r: Option<QueryResult>)
    ensures r.Some? <==> db.Some? && db.value(GetAllStatement(table).text, GetAllStatement(table).params).Completed?
    ensures r.Some? ==> r.value == Rows(db.value(GetAllStatement(table).text, GetAllStatement(table).params).rows)
  {
    GetAllIsRead(table);
    ReadReturnsRows(db, GetAllStatement(table));
    RunQuery(db, GetAllStatement(table))
  }

  /** `filter_by(**conditions)`: `None` when there is no connection or the database raises, otherwise every fetched row. */
  function FilterBy(db: Option<Connection>, table: string, conditions: Record): (r: Option<QueryResult>)
    ensures r.Some? <==> db.Some? && db.value(FilterStatement(table, conditions).text, FilterStatement(table, conditions).params).Completed?
    ensures r.Some? ==> r.value == Rows(db.value(FilterStatement(table, conditions).text, FilterStatement(table, conditions).params).rows)
  {
    FilterIsRead(table, conditions);
    ReadReturnsRows(db, FilterStatement(table, conditions));
    RunQuery(db, FilterStatement(table, conditions))
  }

  /** A read that the database completes yields exactly the fetched rows. */
  lemma ReadReturnsRows(db: Option<Connection>, q: Statement)
    requires IsRead(q.text)
    ensures RunQuery(db, q) ==
      if db.Some? && db.value(q.text, q.params).Completed? then Some(Rows(db.value(q.text, q.params).rows)) else None
  {
  }

  /** A write that the database completes yields exactly the cursor's last inserted id. */
  lemma WriteReturnsLastRowId(db: Option<Connection>, q: Statement)
    requires !IsRead(q.text)
    ensures RunQuery(db, q) ==
      if db.Some? && db.value(q.text, q.params).Completed? then Some(LastRowId(db.value(q.text, q.params).lastRowId)) else None
  {
  }

  /** `get_by_id(record_id)`: the first fetched row, or `None` when the query failed or found
      nothing. */
  function GetById(db: Option<Connection>, table: string, recordId: Value): (r: Option<Record>)
    ensures db.None? ==> r.None?
    ensures r.Some? <==> (db.Some? && db.value(GetByIdStatement(table, recordId).text, [recordId]).Completed?
                          && |db.value(GetByIdStatement(table, recordId).text, [recordId]).rows| > 0)
    ensures r.Some? ==> r.value == db.value(GetByIdStatement(table, recordId).text, [recordId]).rows[0]
  {
    var q := GetByIdStatement(table, recordId);
    GetByIdIsRead(table, recordId);
    ReadReturnsRows(db, q);
    var results := RunQuery(db, q);
    if results.Some? && results.value.Rows? && |results.value.rows| > 0 then Some(results.value.rows[0]) else None
  }

  // ---------------------------------------------------------------------------------------------
  // CSV projection in `populate_from_csv`

  /** `[name.strip() for name in fieldnames]`. */
  function StrippedHeaders(raw: seq<string>): (hs: seq<string>)
    ensures |hs| == |raw| && forall k :: 0 <= k < |raw| ==> hs[k] == Strip(raw[k])
  {
    seq(|raw|, k requires 0 <= k < |raw| => Strip(raw[k]))
  }

  /** The test of the `cols_to_use` comprehension. */
  function UsableColumn(headers: seq<string>): string -> bool {
    c => c in headers && c != "id"
  }

  /** `cols_to_use`: the model's columns, in model order, that appear among the stripped
      headers, leaving out `id`. */
  function CsvColumns(columns: seq<string>, rawHeaders: seq<string>): (cols: seq<string>)
    ensures IsSubsequence(cols, columns)
    ensures "id" !in cols
    ensures forall c :: c in cols <==> c in columns && c in StrippedHeaders(rawHeaders) && c != "id"
  {
    FilterIsSubsequence(columns, UsableColumn(StrippedHeaders(rawHeaders)));
    FilterMembers(columns, UsableColumn(StrippedHeaders(rawHeaders)));
    Filter(columns, UsableColumn(StrippedHeaders(rawHeaders)))
  }

  /** `row.get(col)`, where `row` is the dict `csv.DictReader` builds from one record's `cells`
      under the field names `headers`: `dict(zip(headers, cells))`, then `None` for every field
      name past the record's end. A name that occurs more than once keeps its last position, and
      a name that does not occur gives `None`. */
  function Field(headers: seq<string>, cells: seq<string>, col: string): (v: Option<string>)
    ensures col !in headers ==> v == None
    ensures v.Some? ==> v.value in cells
    decreases |headers|
  {
    if |headers| == 0 then None
    else if headers[|headers| - 1] == col then (if |headers| - 1 < |cells| then Some(cells[|headers| - 1]) else None)
    else Field(headers[..|headers| - 1], cells, col)
  }

  /** The field read is the cell at the last position of the name, or `None` when the record
      does not reach that position. */
  lemma {:induction false} FieldAtLastPosition(headers: seq<string>, cells: seq<string>, col: string, j: nat)
    requires j < |headers| && headers[j] == col
    requires forall i :: j < i < |headers| ==> headers[i] != col
    ensures Field(headers, cells, col) == if j < |cells| then Some(cells[j]) else None
    decreases |headers|
  {
    var n := |headers| - 1;
    if j < n {
      assert headers[n] != col;
      var init := headers[..n];
      assert init[j] == col;
      assert forall i :: j < i < |init| ==> init[i] == headers[i];
      FieldAtLastPosition(init, cells, col, j);
    }
  }

  /** `cell.strip() if cell else None`: `None` for a missing or empty cell, otherwise the
      stripped text, which no longer starts or ends with whitespace. */
  function CellValue(cell: Option<string>): (v: Value)
    ensures v.Null? <==> cell.None? || cell.value == ""
    ensures v.Str? ==> cell.Some? && v.s == Strip(cell.value)
    ensures v.Str? ==> v.s == [] || (!IsSpace(v.s[0]) && !IsSpace(v.s[|v.s| - 1]))
    ensures !v.Int? && !v.Other?
  {
    match cell
    case None => Null
    case Some(text) => if text == "" then Null else Str(Strip(text))
  }

  /** A non-empty cell of whitespace only is kept as an empty string, not turned into `None`. */
  lemma BlankCellIsEmptyString(text: string)
    requires text != "" && AllSpace(text)
    ensures CellValue(Some(text)) == Str("")
  {
    assert text + "" + "" == text;
    StripUnique(text, "", "");
  }

  /** The tuple one CSV record becomes: one entry per used column, in column order, read from
      the record's dict under the field names `headers`. */
  function ProjectRow(headers: seq<string>, cells: seq<string>, cols: seq<string>): (t: seq<Value>)
    ensures |t| == |cols|
    ensures forall k :: 0 <= k < |cols| ==> t[k] == CellValue(Field(headers, cells, cols[k]))
  {
    seq(|cols|, k requires 0 <= k < |cols| => CellValue(Field(headers, cells, cols[k])))
  }

  /** With distinct field names, each used column takes the cell at the position of its name,
      and `None` when the record is too short to reach it. */
  lemma ProjectRowByPosition(headers: seq<string>, cells: seq<string>, cols: seq<string>, k: nat, j: nat)
    requires forall a, b :: 0 <= a < b < |headers| ==> headers[a] != headers[b]
    requires k < |cols| && j < |headers| && cols[k] == headers[j]
    ensures ProjectRow(headers, cells, cols)[k] == CellValue(if j < |cells| then Some(cells[j]) else None)
  {
    FieldAtLastPosition(headers, cells, cols[k], j);
  }

  /** What `populate_from_csv` decides to do with a parsed file. */
  datatype CsvPlan =
    | NoMatchingColumns
    | InsertRows(sql: string, columns: seq<string>, rows: seq<seq<Value>>)

  /** `executemany` is called only when there is at least one row to insert. */
  predicate ExecutesInsert(p: CsvPlan) {
    p.InsertRows? && |p.rows| > 0
  }

  /** `populate_from_csv` up to the `executemany` call: nothing is inserted when no column
      matches; otherwise every row is projected onto the matching columns and inserted with
      one statement over exactly those columns. */
  function PlanCsvImport(m: Model, rawHeaders: seq<string>, rows: seq<seq<string>>): (p: CsvPlan)
    ensures p.NoMatchingColumns? <==> CsvColumns(m.columns, rawHeaders) == []
    ensures p.InsertRows? ==>
      && p.columns == CsvColumns(m.columns, rawHeaders)
      && p.sql == InsertText(m.table, p.columns)
      && |p.rows| == |rows|
      && forall i :: 0 <= i < |rows| ==> p.rows[i] == ProjectRow(StrippedHeaders(rawHeaders), rows[i], p.columns)
    ensures ExecutesInsert(p) <==> CsvColumns(m.columns, rawHeaders) != [] && |rows| > 0
  {
    var cols := CsvColumns(m.columns, rawHeaders);
    if cols == [] then NoMatchingColumns
    else InsertRows(InsertText(m.table, cols), cols, seq(|rows|, i requires 0 <= i < |rows| => ProjectRow(StrippedHeaders(rawHeaders), rows[i], cols)))
  }

  /** For a model that lists `id` first, a file whose headers cover every other column uses
      exactly the columns `populate_meals` compares seed keys against, `columns[1:]`. */
  lemma {:induction false} CsvColumnsAreNonIdColumns(m: Model, rawHeaders: seq<string>)
    requires IdFirst(m)
    requires forall k :: 1 <= k < |m.columns| ==> m.columns[k] in StrippedHeaders(rawHeaders)
    ensures CsvColumns(m.columns, rawHeaders) == m.columns[1..]
  {
    var p := UsableColumn(StrippedHeaders(rawHeaders));
    assert m.columns == [m.columns[0]] + m.columns[1..];
    FilterAppend([m.columns[0]], m.columns[1..], p);
    assert Filter([m.columns[0]], p) == [];
    assert forall k :: 0 <= k < |m.columns[1..]| ==> p(m.columns[1..][k]) by {
      forall k | 0 <= k < |m.columns[1..]| ensures p(m.columns[1..][k]) {
        assert m.columns[1..][k] == m.columns[k + 1];
      }
    }
    FilterAll(m.columns[1..], p);
  }
}
