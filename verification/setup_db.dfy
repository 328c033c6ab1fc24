/** The database setup script, setup_db.py: it runs a schema file one `;`-separated command at
    a time inside a single transaction, and seeds the meal slots. Reading the file and the
    connection are outside the model; the schema text is given, and the database is an oracle
    telling which commands execute and whether the final commit succeeds. */
module SetupDb {
  import opened Wrappers
  import opened Text
  import opened Seqs
  import opened Models

  // ---------------------------------------------------------------------------------------------
  // `run_schema`

  /** `command.strip()` is truthy: the fragment holds something besides whitespace. */
  predicate IsCommand(fragment: string) {
    Strip(fragment) != ""
  }

  /** The commands `run_schema` executes, in file order: the `;`-separated fragments of the
      text that are not blank, unstripped. */
  function SchemaCommands(text: string): (cmds: seq<string>)
    ensures |cmds| <= CountChar(text, ';') + 1
    ensures forall k :: 0 <= k < |cmds| ==> IsCommand(cmds[k]) && cmds[k] in Split(text, ';')
  {
    FilterMembers(Split(text, ';'), IsCommand);
    Filter(Split(text, ';'), IsCommand)
  }

  /** The commands are exactly the non-blank fragments, kept in file order: each non-blank
      fragment occurs among them as often as in the text, and no blank fragment occurs. Together
      the two postconditions determine the command list. */
  lemma SchemaCommandsAreNonBlankFragments(text: string)
    ensures IsSubsequence(SchemaCommands(text), Split(text, ';'))
    ensures forall f :: multiset(SchemaCommands(text))[f] == if IsCommand(f) then multiset(Split(text, ';'))[f] else 0
  {
    FilterIsSubsequence(Split(text, ';'), IsCommand);
    FilterCounts(Split(text, ';'), IsCommand);
  }

  /** The schema file's text is exactly its fragments joined by `;`: splitting loses nothing,
      and a `;` inside a quoted literal splits like any other. */
  lemma SchemaFragmentsRebuildText(text: string)
    ensures Join(Split(text, ';'), ";") == text
    ensures |Split(text, ';')| == CountChar(text, ';') + 1
  {
    JoinSplit(text, ';');
  }

  /** Splitting text at a separator splits each side independently. */
  lemma {:induction false} SplitAtSeparator(a: string, b: string, c: char)
    ensures Split(a + [c] + b, c) == Split(a, c) + Split(b, c)
    decreases |a|
  {
    if |a| == 0 {
      assert a + [c] + b == [c] + b;
      assert ([c] + b)[1..] == b;
    } else {
      var ab := a + [c] + b;
      assert Split(ab, c) == SplitStep(a[0], Split(a[1..] + [c] + b, c), c) by {
        assert ab[1..] == a[1..] + [c] + b && ab[0] == a[0];
        SplitUnfold(ab, c);
      }
      SplitAtSeparator(a[1..], b, c);
      SplitStepAppend(a[0], Split(a[1..], c), Split(b, c), c);
      SplitUnfold(a, c);
    }
  }

  /** The fragments of a text whose first character is `ch`, from the fragments of the rest. */
  function SplitStep(ch: char, rest: seq<string>, c: char): seq<string>
    requires |rest| > 0
  {
    if ch == c then [""] + rest else [[ch] + rest[0]] + rest[1..]
  }

  /** One unfolding of `Split`. */
  lemma SplitUnfold(s: string, c: char)
    requires |s| > 0
    ensures Split(s, c) == SplitStep(s[0], Split(s[1..], c), c)
  {
  }

  /** The first character only touches the first fragment, so later fragments pass through. */
  lemma SplitStepAppend(ch: char, left: seq<string>, right: seq<string>, c: char)
    requires |left| > 0
    ensures SplitStep(ch, left + right, c) == SplitStep(ch, left, c) + right
  {
    if ch != c {
      assert (left + right)[0] == left[0];
      assert (left + right)[1..] == left[1..] + right;
    }
  }

  /** Two schema texts joined by `;` run the commands of the first, then those of the second. */
  lemma SchemaCommandsOfConcatenation(a: string, b: string)
    ensures SchemaCommands(a + ";" + b) == SchemaCommands(a) + SchemaCommands(b)
  {
    assert a + ";" + b == a + [';'] + b;
    SplitAtSeparator(a, b, ';');
    FilterAppend(Split(a, ';'), Split(b, ';'), IsCommand);
  }

  /** Splitting is purely textual: two pieces separated by `;` are two commands even when the
      `;` sits inside a quoted SQL literal (`a` ending in `('x` and `b` starting with `y')`), and
      whitespace after the last `;` is not a command. */
  lemma SemicolonAlwaysSplits(a: string, b: string, z: string)
    requires a != "" && ';' !in a && Strip(a) == a
    requires b != "" && ';' !in b && Strip(b) == b
    requires Strip(z) == "" && ';' !in z
    ensures SchemaCommands(a + ";" + (b + ";" + z)) == [a] + [b]
  {
    SingleCommand(a);
    LastCommand(b, z);
    SchemaCommandsOfConcatenation(a, b + ";" + z);
  }

  /** A last command followed by `;` and trailing whitespace. */
  lemma LastCommand(b: string, z: string)
    requires b != "" && ';' !in b && Strip(b) == b
    requires Strip(z) == "" && ';' !in z
    ensures SchemaCommands(b + ";" + z) == [b]
  {
    SingleCommand(b);
    BlankTail(z);
    SchemaCommandsOfConcatenation(b, z);
  }

  /** A blank fragment without `;` holds no command. */
  lemma BlankTail(z: string)
    requires Strip(z) == "" && ';' !in z
    ensures SchemaCommands(z) == []
  {
    SplitWithoutSeparator(z, ';');
  }

  /** A fragment without `;` and without surrounding whitespace is a schema text of exactly one command. */
  lemma SingleCommand(x: string)
    requires x != "" && ';' !in x && Strip(x) == x
    ensures SchemaCommands(x) == [x]
  {
    SplitWithoutSeparator(x, ';');
  }

  /** A schema connection: whether a command executes without raising, given the commands the
      transaction has already executed before it (so a repeated `CREATE TABLE` or a
      duplicate-key `INSERT` may succeed once and raise the second time), and whether the final
      commit succeeds. */
  datatype SchemaConnection = SchemaConnection(execute: (seq<string>, string) -> bool, commits: bool)

  /** How `run_schema` ends: no connection; every command run and committed; or an exception
      followed by a rollback. `executed` lists the commands attempted, in order. */
  datatype SchemaOutcome =
    | NoDatabase
    | Committed(executed: seq<string>)
    | RolledBack(executed: seq<string>)

  /** Each of `xs` executed after the ones before it. */
  ghost predicate AllSucceed<T>(execute: (seq<T>, T) -> bool, xs: seq<T>) {
    forall k :: 0 <= k < |xs| ==> execute(xs[..k], xs[k])
  }

  /** Every one of `xs` but the last executed after the ones before it, and the last raised. */
  ghost predicate FailsLast<T>(execute: (seq<T>, T) -> bool, xs: seq<T>) {
    |xs| > 0 && AllSucceed(execute, xs[..|xs| - 1]) && !execute(xs[..|xs| - 1], xs[|xs| - 1])
  }

  /** The loop of `run_schema`: walks the fragments in order, executing each one that `keep`
      selects after those already executed, and stops at the first execution that fails. `ok`
      tells whether the walk reached the end; `executed` lists the commands attempted, the
      failing one last. */
  method ExecuteInOrder<T(!new)>(fragments: seq<T>, keep: T -> bool, execute: (seq<T>, T) -> bool)
    returns (executed: seq<T>, ok: bool)
    ensures executed <= Filter(fragments, keep)
    ensures ok <==> AllSucceed(execute, Filter(fragments, keep))
    ensures ok ==> executed == Filter(fragments, keep) && AllSucceed(execute, executed)
    ensures !ok ==> FailsLast(execute, executed)
  {
    executed := [];
    var i := 0;
    while i < |fragments|
      invariant i <= |fragments|
      invariant executed == Filter(fragments[..i], keep)
      invariant AllSucceed(execute, executed)
    {
      var command := fragments[i];
      FilterSnoc(fragments, i, keep);
      if keep(command) {
        var before := executed;
        executed := executed + [command];
        assert executed[..|before|] == before;
        if !execute(before, command) {
          FilterPrefix(fragments, i + 1, keep);
          var all := Filter(fragments, keep);
          assert all[..|before|] == before && all[|before|] == command;
          assert executed[..|executed| - 1] == before;
          return executed, false;
        }
        assert forall k :: 0 <= k < |before| ==> executed[..k] == before[..k];
      }
      i := i + 1;
    }
    assert fragments[..i] == fragments;
    return executed, true;
  }

  /** `run_schema`: executes the schema's commands in order within one transaction and commits
      only when all of them executed; the first command that raises stops the run, and the
      transaction is rolled back instead. */
  method RunSchema(text: string, db: Option<SchemaConnection>) returns (outcome: SchemaOutcome)
    ensures outcome.NoDatabase? <==> db.None?
    ensures outcome.Committed? <==>
      db.Some? && db.value.commits && AllSucceed(db.value.execute, SchemaCommands(text))
    ensures outcome.Committed? ==> outcome.executed == SchemaCommands(text)
    ensures outcome.RolledBack? ==>
      && outcome.executed <= SchemaCommands(text)
      && (FailsLast(db.value.execute, outcome.executed)
          || (outcome.executed == SchemaCommands(text) && AllSucceed(db.value.execute, outcome.executed)
              && !db.value.commits))
  {
    if db.None? {
      return NoDatabase;
    }
    var conn := db.value;
    var executed, ok := ExecuteInOrder(Split(text, ';'), IsCommand, conn.execute);
    assert Filter(Split(text, ';'), IsCommand) == SchemaCommands(text);
    if !ok {
      return RolledBack(executed);
    }
    if conn.commits {
      return Committed(executed);
    }
    return RolledBack(executed);
  }

  // ---------------------------------------------------------------------------------------------
  // `populate_meals`

  /** `meals_dict`: the six meal slots with their default times. */
  const MealSeeds: seq<Record> := [
    [("name", Str("Breakfast")), ("default_time", Str("07:00:00"))],
    [("name", Str("Morning Snack")), ("default_time", Str("10:00:00"))],
    [("name", Str("Lunch")), ("default_time", Str("12:30:00"))],
    [("name", Str("Afternoon Snack")), ("default_time", Str("16:00:00"))],
    [("name", Str("Dinner")), ("default_time", Str("19:00:00"))],
    [("name", Str("Evening Snack")), ("default_time", Str("21:00:00"))]
  ]

  /** `columns[1:]`, which is empty for an empty list. */
  function DropFirst(columns: seq<string>): seq<string> {
    if |columns| == 0 then [] else columns[1..]
  }

  /** The guard of `populate_meals`: the seed's keys, in order, are the model's columns after
      the first. */
  function SeedFits(m: Model): Record -> bool {
    seed => Keys(seed) == DropFirst(m.columns)
  }

  /** `populate_meals`: the inserts it attempts, one per seed that passes the guard, in seed
      order. Each names exactly the model's columns after `id`, in model order, with one
      parameter per column. */
  function PopulateMeals(m: Model, seeds: seq<Record>): (attempts: seq<Statement>)
    ensures |attempts| <= |seeds|
    ensures forall k :: 0 <= k < |attempts| ==> attempts[k].text == InsertText(m.table, DropFirst(m.columns))
    ensures forall k :: 0 <= k < |attempts| ==> |attempts[k].params| == |DropFirst(m.columns)|
  {
    var chosen := Filter(seeds, SeedFits(m));
    seq(|chosen|, k requires 0 <= k < |chosen| => InsertStatement(m.table, chosen[k]))
  }

  /** For any seed list, the attempts are the inserts of a subsequence `chosen` of the seeds
      that holds each seed passing the guard exactly as often as the list does, and no other
      seed. */
  lemma PopulateMealsAttemptsFittingSeeds(m: Model, seeds: seq<Record>) returns (chosen: seq<Record>)
    ensures PopulateMeals(m, seeds) == seq(|chosen|, k requires 0 <= k < |chosen| => InsertStatement(m.table, chosen[k]))
    ensures IsSubsequence(chosen, seeds)
    ensures forall seed :: multiset(chosen)[seed] == if Keys(seed) == DropFirst(m.columns) then multiset(seeds)[seed] else 0
  {
    chosen := Filter(seeds, SeedFits(m));
    FilterIsSubsequence(seeds, SeedFits(m));
    FilterCounts(seeds, SeedFits(m));
  }

  /** When every seed passes the guard, each one is inserted, in list order. */
  lemma PopulateMealsInsertsFittingSeeds(m: Model, seeds: seq<Record>)
    requires forall k :: 0 <= k < |seeds| ==> Keys(seeds[k]) == DropFirst(m.columns)
    ensures PopulateMeals(m, seeds) == seq(|seeds|, k requires 0 <= k < |seeds| => InsertStatement(m.table, seeds[k]))
  {
    FilterAll(seeds, SeedFits(m));
  }

  /** Every meal seed passes the guard, so all six slots are inserted, in list order, and the six
      slot names are distinct. */
  lemma AllMealSeedsInserted()
    ensures PopulateMeals(MealsModel, MealSeeds) == seq(6, k requires 0 <= k < 6 => InsertStatement("Meals", MealSeeds[k]))
    ensures forall j, k :: 0 <= j < k < 6 ==> MealSeeds[j][0].1 != MealSeeds[k][0].1
  {
    MealSeedsFit();
    PopulateMealsInsertsFittingSeeds(MealsModel, MealSeeds);
    MealSeedNamesDistinct();
  }

  /** Every meal seed's keys are `name` then `default_time`, the columns of `MealsModel` after
      `id`. */
  lemma MealSeedsFit()
    ensures forall k :: 0 <= k < |MealSeeds| ==> Keys(MealSeeds[k]) == DropFirst(MealsModel.columns)
  {
    assert DropFirst(MealsModel.columns) == ["name", "default_time"];
    forall k | 0 <= k < |MealSeeds| ensures Keys(MealSeeds[k]) == DropFirst(MealsModel.columns) {
      assert Keys(MealSeeds[k]) == ["name", "default_time"];
    }
  }

  /** The six slot names differ. */
  lemma MealSeedNamesDistinct()
    ensures forall j, k :: 0 <= j < k < 6 ==> MealSeeds[j][0].1 != MealSeeds[k][0].1
  {
  }

  /** The guard compares key lists, so a seed that names the right columns in another order is
      skipped. */
  lemma ReorderedSeedSkipped(name: string, time: string)
    ensures PopulateMeals(MealsModel, [[("default_time", Str(time)), ("name", Str(name))]]) == []
  {
    var seed := [("default_time", Str(time)), ("name", Str(name))];
    assert Keys(seed)[0] == "default_time";
    assert DropFirst(MealsModel.columns)[0] == "name";
    assert !SeedFits(MealsModel)(seed);
  }
}
