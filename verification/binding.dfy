/** The meaning of a parameterised statement: the MySQL driver replaces each `%s` placeholder,
    left to right, by the literal of the next parameter, and refuses the statement when there
    are fewer or more parameters than placeholders. How a value is written as a literal
    (quoting, escaping) is the driver's business and is a parameter `lit` here. With this
    meaning, the lemmas below show that every statement builder of `BaseModel` puts each value
    beside its own column. */
module Binding {
  import opened Wrappers
  import opened Text
  import opened Models

  /** Text without `%` can neither hold nor complete a placeholder. */
  predicate Plain(s: string) {
    '%' !in s
  }

  /** Text whose last character cannot start a placeholder with what follows it. */
  predicate EndsClean(s: string) {
    |s| == 0 || s[|s| - 1] != '%'
  }

  /** The number of `%s` placeholders, found left to right without overlap. */
  function PlaceholderCount(s: string): nat
    decreases |s|
  {
    if |s| == 0 then 0
    else if |s| >= 2 && s[0] == '%' && s[1] == 's' then 1 + PlaceholderCount(s[2..])
    else PlaceholderCount(s[1..])
  }

  /** The statement text with its parameters substituted, or `None` when the numbers of
      placeholders and parameters differ. */
  function Bind(text: string, params: seq<Value>, lit: Value -> string): Option<string>
    decreases |text|
  {
    if |text| == 0 then
      if |params| == 0 then Some("") else None
    else if |text| >= 2 && text[0] == '%' && text[1] == 's' then
      if |params| == 0 then None
      else
        match Bind(text[2..], params[1..], lit)
        case None => None
        case Some(rest) => Some(lit(params[0]) + rest)
    else
      match Bind(text[1..], params, lit)
      case None => None
      case Some(rest) => Some([text[0]] + rest)
  }

  /** A statement binds exactly when it has one placeholder per parameter. */
  lemma {:induction false} BindSucceedsIffCountMatches(text: string, params: seq<Value>, lit: Value -> string)
    ensures Bind(text, params, lit).Some? <==> PlaceholderCount(text) == |params|
    decreases |text|
  {
    if |text| == 0 {
    } else if |text| >= 2 && text[0] == '%' && text[1] == 's' {
      if |params| > 0 {
        BindSucceedsIffCountMatches(text[2..], params[1..], lit);
      }
    } else {
      BindSucceedsIffCountMatches(text[1..], params, lit);
    }
  }

  /** Text without placeholders binds to itself with no parameters. */
  lemma {:induction false} BindPlain(s: string, lit: Value -> string)
    requires Plain(s)
    ensures Bind(s, [], lit) == Some(s)
    decreases |s|
  {
    if |s| > 0 {
      assert s[0] != '%';
      assert forall k :: 0 <= k < |s[1..]| ==> s[1..][k] == s[k + 1];
      BindPlain(s[1..], lit);
      assert s == [s[0]] + s[1..];
    }
  }

  /** Binding is compositional: the parameters of a concatenation split at the boundary. */
  lemma {:induction false} BindAppend(a: string, b: string, p: seq<Value>, q: seq<Value>, lit: Value -> string)
    requires EndsClean(a)
    requires Bind(a, p, lit).Some? && Bind(b, q, lit).Some?
    ensures Bind(a + b, p + q, lit) == Some(Bind(a, p, lit).value + Bind(b, q, lit).value)
    decreases |a|, 1
  {
    if |a| == 0 {
      assert |p| == 0 && Bind(a, p, lit).value == "";
      assert a + b == b && p + q == q;
      assert "" + Bind(b, q, lit).value == Bind(b, q, lit).value;
    } else if |a| >= 2 && a[0] == '%' && a[1] == 's' {
      BindAppendAtPlaceholder(a, b, p, q, lit);
    } else {
      BindAppendAtChar(a, b, p, q, lit);
    }
  }

  /** `BindAppend` when the text starts with a placeholder. */
  lemma {:induction false} BindAppendAtPlaceholder(a: string, b: string, p: seq<Value>, q: seq<Value>, lit: Value -> string)
    requires EndsClean(a) && |a| >= 2 && a[0] == '%' && a[1] == 's'
    requires Bind(a, p, lit).Some? && Bind(b, q, lit).Some?
    ensures Bind(a + b, p + q, lit) == Some(Bind(a, p, lit).value + Bind(b, q, lit).value)
    decreases |a|, 0
  {
    assert |a[2..]| > 0 ==> a[2..][|a[2..]| - 1] == a[|a| - 1];
    assert |p| > 0 && Bind(a[2..], p[1..], lit).Some?;
    BindAppend(a[2..], b, p[1..], q, lit);
    var x := Bind(a[2..], p[1..], lit).value;
    var y := Bind(b, q, lit).value;
    BindUnfoldPlaceholderAppend(a, b, p, q, lit);
    assert Bind(a, p, lit) == Some(lit(p[0]) + x) by {
      BindUnfoldPlaceholder(a, p, lit);
    }
    assert lit(p[0]) + (x + y) == (lit(p[0]) + x) + y;
  }

  /** `BindAppend` when the text starts with an ordinary character. */
  lemma {:induction false} BindAppendAtChar(a: string, b: string, p: seq<Value>, q: seq<Value>, lit: Value -> string)
    requires EndsClean(a) && |a| > 0 && !(|a| >= 2 && a[0] == '%' && a[1] == 's')
    requires Bind(a, p, lit).Some? && Bind(b, q, lit).Some?
    ensures Bind(a + b, p + q, lit) == Some(Bind(a, p, lit).value + Bind(b, q, lit).value)
    decreases |a|, 0
  {
    assert |a[1..]| > 0 ==> a[1..][|a[1..]| - 1] == a[|a| - 1];
    assert Bind(a[1..], p, lit).Some?;
    BindAppend(a[1..], b, p, q, lit);
    var x := Bind(a[1..], p, lit).value;
    var y := Bind(b, q, lit).value;
    BindUnfoldCharAppend(a, b, p + q, lit);
    assert Bind(a, p, lit) == Some([a[0]] + x) by {
      BindUnfoldChar(a, p, lit);
    }
    assert [a[0]] + (x + y) == ([a[0]] + x) + y;
  }

  /** One unfolding of `Bind` at a leading placeholder. */
  lemma BindUnfoldPlaceholder(t: string, ps: seq<Value>, lit: Value -> string)
    requires |t| >= 2 && t[0] == '%' && t[1] == 's' && |ps| > 0
    requires Bind(t[2..], ps[1..], lit).Some?
    ensures Bind(t, ps, lit) == Some(lit(ps[0]) + Bind(t[2..], ps[1..], lit).value)
  {
  }

  /** One unfolding of `Bind` at a leading ordinary character. */
  lemma BindUnfoldChar(t: string, ps: seq<Value>, lit: Value -> string)
    requires |t| > 0 && !(|t| >= 2 && t[0] == '%' && t[1] == 's')
    requires Bind(t[1..], ps, lit).Some?
    ensures Bind(t, ps, lit) == Some([t[0]] + Bind(t[1..], ps, lit).value)
  {
  }

  /** One unfolding of `Bind` on a concatenation whose first part starts with a placeholder. */
  lemma BindUnfoldPlaceholderAppend(a: string, b: string, p: seq<Value>, q: seq<Value>, lit: Value -> string)
    requires |a| >= 2 && a[0] == '%' && a[1] == 's' && |p| > 0
    requires Bind(a[2..] + b, p[1..] + q, lit).Some?
    ensures Bind(a + b, p + q, lit) == Some(lit(p[0]) + Bind(a[2..] + b, p[1..] + q, lit).value)
  {
    var ab, pq := a + b, p + q;
    assert ab[2..] == a[2..] + b && pq[1..] == p[1..] + q;
    assert ab[0] == '%' && ab[1] == 's' && pq[0] == p[0];
    BindUnfoldPlaceholder(ab, pq, lit);
  }

  /** One unfolding of `Bind` on a concatenation whose clean-ended first part starts with an
      ordinary character. */
  lemma BindUnfoldCharAppend(a: string, b: string, ps: seq<Value>, lit: Value -> string)
    requires |a| > 0 && !(|a| >= 2 && a[0] == '%' && a[1] == 's') && EndsClean(a)
    requires Bind(a[1..] + b, ps, lit).Some?
    ensures Bind(a + b, ps, lit) == Some([a[0]] + Bind(a[1..] + b, ps, lit).value)
  {
    var ab := a + b;
    assert ab[1..] == a[1..] + b && ab[0] == a[0];
    assert !(|ab| >= 2 && ab[0] == '%' && ab[1] == 's');
    BindUnfoldChar(ab, ps, lit);
  }

  /** Appending a clean-ended piece to clean-ended text keeps it clean-ended. */
  lemma EndsCleanAppend(a: string, b: string)
    requires EndsClean(a) && EndsClean(b)
    ensures EndsClean(a + b)
  {
    if |b| > 0 {
      assert (a + b)[|a + b| - 1] == b[|b| - 1];
    } else {
      assert a + b == a;
    }
  }

  lemma PlainEndsClean(s: string)
    requires Plain(s)
    ensures EndsClean(s)
  {
    if |s| > 0 {
      assert s[|s| - 1] in s;
    }
  }

  /** Joining clean-ended items with a plain separator gives clean-ended text. */
  lemma {:induction false} JoinEndsClean(items: seq<string>, sep: string)
    requires Plain(sep)
    requires forall k :: 0 <= k < |items| ==> EndsClean(items[k])
    ensures EndsClean(Join(items, sep))
    decreases |items|
  {
    if |items| >= 2 {
      JoinEndsClean(items[1..], sep);
      PlainEndsClean(sep);
      EndsCleanAppend(items[0], sep);
      EndsCleanAppend(items[0] + sep, Join(items[1..], sep));
    }
  }

  /** Joining plain items with a plain separator gives plain text. */
  lemma {:induction false} JoinPlain(items: seq<string>, sep: string)
    requires Plain(sep)
    requires forall k :: 0 <= k < |items| ==> Plain(items[k])
    ensures Plain(Join(items, sep))
    decreases |items|
  {
    if |items| >= 2 {
      JoinPlain(items[1..], sep);
    }
  }

  /** When the k-th item binds its one parameter `vs[k]` to `outs[k]`, the joined items bind
      all the parameters, in order, to the joined results. */
  lemma {:induction false} BindJoinEach(items: seq<string>, vs: seq<Value>, outs: seq<string>, sep: string, lit: Value -> string)
    requires |items| == |vs| == |outs|
    requires Plain(sep)
    requires forall k :: 0 <= k < |items| ==> EndsClean(items[k]) && Bind(items[k], [vs[k]], lit) == Some(outs[k])
    ensures Bind(Join(items, sep), vs, lit) == Some(Join(outs, sep))
    decreases |items|
  {
    if |items| == 1 {
      assert vs == [vs[0]];
    } else if |items| >= 2 {
      BindJoinEach(items[1..], vs[1..], outs[1..], sep, lit);
      BindPlain(sep, lit);
      PlainEndsClean(sep);
      BindAppend(items[0], sep, [vs[0]], [], lit);
      assert [vs[0]] + [] == [vs[0]];
      EndsCleanAppend(items[0], sep);
      BindAppend(items[0] + sep, Join(items[1..], sep), [vs[0]], vs[1..], lit);
      assert [vs[0]] + vs[1..] == vs;
    }
  }

  /** Binding plain text, then a clean-ended middle, then a tail, binds the middle's and the
      tail's parameters in that order. */
  lemma BindHeadMidTail(head: string, mid: string, tail: string, vs: seq<Value>, ws: seq<Value>,
                        boundMid: string, boundTail: string, lit: Value -> string)
    requires Plain(head) && EndsClean(mid)
    requires Bind(mid, vs, lit) == Some(boundMid) && Bind(tail, ws, lit) == Some(boundTail)
    ensures Bind(head + mid + tail, vs + ws, lit) == Some(head + boundMid + boundTail)
  {
    BindPlain(head, lit);
    PlainEndsClean(head);
    BindAppend(head, mid, [], vs, lit);
    assert [] + vs == vs;
    EndsCleanAppend(head, mid);
    BindAppend(head + mid, tail, vs, ws, lit);
  }

  /** `key = %s` items joined by a plain separator end clean. */
  lemma AssignmentsEndClean(keys: seq<string>, sep: string)
    requires Plain(sep)
    ensures EndsClean(Join(Assignments(keys), sep))
  {
    var items := Assignments(keys);
    forall k | 0 <= k < |items| ensures EndsClean(items[k]) {
      assert items[k][|items[k]| - 1] == 's';
    }
    JoinEndsClean(items, sep);
  }

  /** `%s` binds its one parameter to that parameter's literal. */
  lemma BindPlaceholder(v: Value, lit: Value -> string)
    ensures Bind("%s", [v], lit) == Some(lit(v))
  {
    assert "%s"[2..] == "";
    assert lit(v) + "" == lit(v);
  }

  /** Plain text followed by one placeholder binds to the text followed by the literal. */
  lemma BindTrailingPlaceholder(s: string, v: Value, lit: Value -> string)
    requires Plain(s)
    ensures Bind(s + "%s", [v], lit) == Some(s + lit(v))
  {
    BindPlain(s, lit);
    PlainEndsClean(s);
    BindPlaceholder(v, lit);
    BindAppend(s, "%s", [], [v], lit);
    assert [] + [v] == [v];
  }

  /** The literals of the values, in order. */
  function Literals(vs: seq<Value>, lit: Value -> string): (ls: seq<string>)
    ensures |ls| == |vs| && forall k :: 0 <= k < |vs| ==> ls[k] == lit(vs[k])
  {
    seq(|vs|, k requires 0 <= k < |vs| => lit(vs[k]))
  }

  /** `key = <literal of its value>` for every entry of the mapping, in order. */
  function BoundAssignments(d: Record, lit: Value -> string): (xs: seq<string>)
    ensures |xs| == |d| && forall k :: 0 <= k < |d| ==> xs[k] == d[k].0 + " = " + lit(d[k].1)
  {
    seq(|d|, k requires 0 <= k < |d| => d[k].0 + " = " + lit(d[k].1))
  }

  /** Every key of the mapping is plain text. */
  ghost predicate PlainKeys(d: Record) {
    forall k :: 0 <= k < |d| ==> Plain(d[k].0)
  }

  /** `n` placeholders joined by a plain separator bind `n` values to their literals. */
  lemma BindPlaceholderList(vs: seq<Value>, sep: string, lit: Value -> string)
    requires Plain(sep)
    ensures Bind(Join(Placeholders(|vs|), sep), vs, lit) == Some(Join(Literals(vs, lit), sep))
  {
    var items := Placeholders(|vs|);
    forall k | 0 <= k < |items|
      ensures EndsClean(items[k]) && Bind(items[k], [vs[k]], lit) == Some(Literals(vs, lit)[k])
    {
      BindPlaceholder(vs[k], lit);
    }
    BindJoinEach(items, vs, Literals(vs, lit), sep, lit);
  }

  /** `key = %s` items joined by a plain separator bind the mapping's values, each beside its
      own key. */
  lemma BindAssignmentList(d: Record, sep: string, lit: Value -> string)
    requires Plain(sep) && PlainKeys(d)
    ensures Bind(Join(Assignments(Keys(d)), sep), Values(d), lit) == Some(Join(BoundAssignments(d, lit), sep))
  {
    var items := Assignments(Keys(d));
    forall k | 0 <= k < |items|
      ensures EndsClean(items[k]) && Bind(items[k], [Values(d)[k]], lit) == Some(BoundAssignments(d, lit)[k])
    {
      assert items[k] == (d[k].0 + " = ") + "%s";
      BindTrailingPlaceholder(d[k].0 + " = ", d[k].1, lit);
    }
    BindJoinEach(items, Values(d), BoundAssignments(d, lit), sep, lit);
  }

  // ---------------------------------------------------------------------------------------------
  // What each statement of `BaseModel` means

  /** A plain head followed by a `, `-separated placeholder list and `)` binds each value in
      turn into the list. */
  lemma BindValuesList(head: string, vs: seq<Value>, lit: Value -> string)
    requires Plain(head)
    ensures Bind(head + Join(Placeholders(|vs|), ", ") + ")", vs, lit) == Some(head + Join(Literals(vs, lit), ", ") + ")")
  {
    BindPlaceholderList(vs, ", ", lit);
    JoinEndsClean(Placeholders(|vs|), ", ");
    BindPlain(")", lit);
    assert vs + [] == vs;
    BindHeadMidTail(head, Join(Placeholders(|vs|), ", "), ")", vs, [], Join(Literals(vs, lit), ", "), ")", lit);
  }

  /** A prefix joins the first piece of a left-nested concatenation of seven pieces. */
  lemma PrefixChain(k: string, t1: string, t2: string, t3: string, t4: string, t5: string, t6: string, t7: string)
    ensures k + (t1 + t2 + t3 + t4 + t5 + t6 + t7) == (k + t1) + t2 + t3 + t4 + t5 + t6 + t7
  {
    assert k + (t1 + t2) == (k + t1) + t2;
    assert k + (t1 + t2 + t3) == (k + t1) + t2 + t3;
    assert k + (t1 + t2 + t3 + t4) == (k + t1) + t2 + t3 + t4;
    assert k + (t1 + t2 + t3 + t4 + t5) == (k + t1) + t2 + t3 + t4 + t5;
    assert k + (t1 + t2 + t3 + t4 + t5 + t6) == (k + t1) + t2 + t3 + t4 + t5 + t6;
  }

  /** A prefix joins the first piece of a left-nested concatenation of four pieces. */
  lemma PrefixChain4(k: string, t1: string, t2: string, t3: string, t4: string)
    ensures k + (t1 + t2 + t3 + t4) == (k + t1) + t2 + t3 + t4
  {
    assert k + (t1 + t2) == (k + t1) + t2;
    assert k + (t1 + t2 + t3) == (k + t1) + t2 + t3;
  }

  /** The INSERT text with its keyword and tail written as one string. */
  lemma InsertTextShape(table: string, cols: seq<string>)
    ensures InsertText(table, cols) ==
      "INSERT INTO " + table + " (" + Join(cols, ", ") + ") VALUES (" + Join(Placeholders(|cols|), ", ") + ")"
  {
    PrefixChain("INSERT", " INTO ", table, " (", Join(cols, ", "), ") VALUES (", Join(Placeholders(|cols|), ", "), ")");
    assert "INSERT" + " INTO " == "INSERT INTO ";
  }

  /** `insert(data)` has one placeholder per key and, bound, lists the values' literals in the
      order of their columns. */
  lemma InsertBindsValuesInColumnOrder(table: string, data: Record, lit: Value -> string)
    requires Plain(table) && PlainKeys(data)
    ensures PlaceholderCount(InsertStatement(table, data).text) == |data|
    ensures Bind(InsertStatement(table, data).text, InsertStatement(table, data).params, lit) ==
      Some("INSERT INTO " + table + " (" + Join(Keys(data), ", ") + ") VALUES (" + Join(Literals(Values(data), lit), ", ") + ")")
  {
    var q := InsertStatement(table, data);
    var vs := Values(data);
    var head := "INSERT INTO " + table + " (" + Join(Keys(data), ", ") + ") VALUES (";
    InsertTextShape(table, Keys(data));
    assert q.text == head + Join(Placeholders(|vs|), ", ") + ")" && q.params == vs;
    assert Bind(q.text, q.params, lit) == Some(head + Join(Literals(vs, lit), ", ") + ")") by {
      JoinPlain(Keys(data), ", ");
      BindValuesList(head, vs, lit);
    }
    BindSucceedsIffCountMatches(q.text, q.params, lit);
  }

  /** `update(record_id, data)` has one placeholder per key plus one for the id and, bound,
      sets every column to the literal of its own value and selects the row by the id. */
  lemma UpdateBindsEachColumnToItsValue(table: string, recordId: Value, data: Record, lit: Value -> string)
    requires Plain(table) && PlainKeys(data)
    ensures PlaceholderCount(UpdateStatement(table, recordId, data).text) == |data| + 1
    ensures Bind(UpdateStatement(table, recordId, data).text, UpdateStatement(table, recordId, data).params, lit) ==
      Some("UPDATE " + table + " SET " + Join(BoundAssignments(data, lit), ", ") + " WHERE id = " + lit(recordId))
  {
    UpdateTextBinds(table, recordId, data, lit);
    UpdateShape(table, recordId, data);
  }

  lemma UpdateTextBinds(table: string, recordId: Value, data: Record, lit: Value -> string)
    requires Plain(table) && PlainKeys(data)
    ensures var text := ("UPDATE " + table + " SET ") + Join(Assignments(Keys(data)), ", ") + (" WHERE id = " + "%s");
      && PlaceholderCount(text) == |data| + 1
      && Bind(text, Values(data) + [recordId], lit) ==
           Some("UPDATE " + table + " SET " + Join(BoundAssignments(data, lit), ", ") + " WHERE id = " + lit(recordId))
  {
    var head := "UPDATE " + table + " SET ";
    var mid := Join(Assignments(Keys(data)), ", ");
    AssignmentsEndClean(Keys(data), ", ");
    BindAssignmentList(data, ", ", lit);
    BindIdClause(head, mid, " WHERE id = ", Values(data), recordId, Join(BoundAssignments(data, lit), ", "), lit);
    assert " WHERE id = " + "%s" == " WHERE id = %s";
  }

  /** Plain text, a clean-ended middle and a plain clause ending in one `%s` bind the middle's
      parameters and then one more value, in that order. */
  lemma BindIdClause(head: string, mid: string, clause: string, vs: seq<Value>, v: Value, boundMid: string, lit: Value -> string)
    requires Plain(head) && EndsClean(mid) && Plain(clause)
    requires Bind(mid, vs, lit) == Some(boundMid)
    ensures PlaceholderCount(head + mid + (clause + "%s")) == |vs| + 1
    ensures Bind(head + mid + (clause + "%s"), vs + [v], lit) == Some(head + boundMid + clause + lit(v))
  {
    BindTrailingPlaceholder(clause, v, lit);
    BindHeadMidTail(head, mid, clause + "%s", vs, [v], boundMid, clause + lit(v), lit);
    assert head + boundMid + (clause + lit(v)) == head + boundMid + clause + lit(v);
    BindSucceedsIffCountMatches(head + mid + (clause + "%s"), vs + [v], lit);
  }

  lemma UpdateShape(table: string, recordId: Value, data: Record)
    ensures UpdateStatement(table, recordId, data).text ==
      ("UPDATE " + table + " SET ") + Join(Assignments(Keys(data)), ", ") + (" WHERE id = " + "%s")
    ensures UpdateStatement(table, recordId, data).params == Values(data) + [recordId]
  {
  }

  /** `filter_by(**conditions)` has one placeholder per condition and, bound, compares every
      column with the literal of its own value, the comparisons joined by `AND`. */
  lemma FilterBindsEachColumnToItsValue(table: string, conditions: Record, lit: Value -> string)
    requires Plain(table) && PlainKeys(conditions)
    ensures PlaceholderCount(FilterStatement(table, conditions).text) == |conditions|
    ensures Bind(FilterStatement(table, conditions).text, FilterStatement(table, conditions).params, lit) ==
      Some("SELECT * FROM " + table + " WHERE " + Join(BoundAssignments(conditions, lit), " AND "))
  {
    var q := FilterStatement(table, conditions);
    var vs := Values(conditions);
    var head := "SELECT * FROM " + table + " WHERE ";
    var mid := Join(Assignments(Keys(conditions)), " AND ");
    assert q.text == head + mid by {
      PrefixChain4("SELECT", " * FROM ", table, " WHERE ", mid);
      assert "SELECT" + " * FROM " == "SELECT * FROM ";
    }
    assert q.params == [] + vs;
    assert Bind(q.text, q.params, lit) == Some(head + Join(BoundAssignments(conditions, lit), " AND ")) by {
      BindPlain(head, lit);
      PlainEndsClean(head);
      BindAssignmentList(conditions, " AND ", lit);
      BindAppend(head, mid, [], vs, lit);
    }
    BindSucceedsIffCountMatches(q.text, q.params, lit);
  }

  /** `get_by_id` binds its one parameter to the id in `WHERE id = ...`. */
  lemma GetByIdBindsId(table: string, recordId: Value, lit: Value -> string)
    requires Plain(table)
    ensures Bind(GetByIdStatement(table, recordId).text, GetByIdStatement(table, recordId).params, lit) ==
      Some("SELECT * FROM " + table + " WHERE id = " + lit(recordId))
  {
    var select := "SELECT * FROM " + table + " WHERE id = ";
    assert GetByIdStatement(table, recordId).text == select + "%s";
    BindTrailingPlaceholder(select, recordId, lit);
  }

  /** `delete` binds its one parameter to the id in `WHERE id = ...`. */
  lemma DeleteBindsId(table: string, recordId: Value, lit: Value -> string)
    requires Plain(table)
    ensures Bind(DeleteStatement(table, recordId).text, DeleteStatement(table, recordId).params, lit) ==
      Some("DELETE FROM " + table + " WHERE id = " + lit(recordId))
  {
    var delete := "DELETE FROM " + table + " WHERE id = ";
    assert DeleteStatement(table, recordId).text == delete + "%s";
    BindTrailingPlaceholder(delete, recordId, lit);
  }

  /** `get_all` has no placeholder and binds to its own text. */
  lemma GetAllBinds(table: string, lit: Value -> string)
    requires Plain(table)
    ensures Bind(GetAllStatement(table).text, GetAllStatement(table).params, lit) == Some("SELECT * FROM " + table)
  {
    assert GetAllStatement(table).text == "SELECT * FROM " + table;
    BindPlain("SELECT * FROM " + table, lit);
  }

  /** `delete_all` has no placeholder and binds to its own text. */
  lemma DeleteAllBinds(table: string, lit: Value -> string)
    requires Plain(table)
    ensures Bind(DeleteAllStatement(table).text, DeleteAllStatement(table).params, lit) == Some("DELETE FROM " + table)
  {
    assert DeleteAllStatement(table).text == "DELETE FROM " + table;
    BindPlain("DELETE FROM " + table, lit);
  }

  /** The mapping `dict(zip(cols, row))`. */
  function Zip(cols: seq<string>, row: seq<Value>): (d: Record)
    requires |cols| == |row|
    ensures Keys(d) == cols && Values(d) == row
  {
    seq(|cols|, k requires 0 <= k < |cols| => (cols[k], row[k]))
  }

  /** Every row tuple `populate_from_csv` hands to `executemany` fits its INSERT statement: one
      placeholder per used column, each filled by that column's cell. */
  lemma CsvRowsBindInColumnOrder(m: Model, rawHeaders: seq<string>, rows: seq<seq<string>>, lit: Value -> string)
    requires PlainModel(m)
    ensures var p := PlanCsvImport(m, rawHeaders, rows);
      p.InsertRows? ==> forall i :: 0 <= i < |p.rows| ==>
        Bind(p.sql, p.rows[i], lit) ==
          Some("INSERT INTO " + m.table + " (" + Join(p.columns, ", ") + ") VALUES (" + Join(Literals(p.rows[i], lit), ", ") + ")")
  {
    var p := PlanCsvImport(m, rawHeaders, rows);
    if p.InsertRows? {
      forall i | 0 <= i < |p.rows|
        ensures Bind(p.sql, p.rows[i], lit) ==
          Some("INSERT INTO " + m.table + " (" + Join(p.columns, ", ") + ") VALUES (" + Join(Literals(p.rows[i], lit), ", ") + ")")
      {
        var d := Zip(p.columns, p.rows[i]);
        forall k | 0 <= k < |d| ensures Plain(d[k].0) {
          assert d[k].0 == p.columns[k];
          assert p.columns[k] in m.columns;
        }
        assert InsertStatement(m.table, d) == Statement(p.sql, p.rows[i]);
        InsertBindsValuesInColumnOrder(m.table, d, lit);
      }
    }
  }

  /** No table or column name of the model contains `%`. */
  ghost predicate PlainModel(m: Model) {
    Plain(m.table) && forall k :: 0 <= k < |m.columns| ==> Plain(m.columns[k])
  }

  /** No table or column name of the two models the setup script fills contains `%`, so the
      statements built for them bind as the lemmas above describe. */
  lemma SetupModelsPlain()
    ensures PlainModel(MealsModel) && PlainModel(RecipesModel)
  {
    assert PlainModel(MealsModel);
    RecipesPlain();
  }

  /** No column name of `RecipesModel` contains `%`. */
  lemma RecipesPlain()
    ensures PlainModel(RecipesModel)
  {
  }
}
