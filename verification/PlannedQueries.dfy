/**
 * Whole queries over one filtered table as the planner builds them: sorting before the select list, or
 * aggregation, over the scan that loses its alias when it is rewritten.
 */
module PlannedQueries {
  import opened Wrappers
  import opened Values
  import opened Queries
  import opened Optimizer
  import opened OptimizedPlans

  // ------------------------------------------- what is a function of some expressions

  /** Some expressions on one row, each with its value or error. */
  function ValuesOn(lib: Library, es: seq<Expr>, row: Row): (r: seq<Result<Value>>)
    ensures |r| == |es| && forall i :: 0 <= i < |es| ==> r[i] == Eval(lib, es[i], row)
  {
    seq(|es|, i requires 0 <= i < |es| => Eval(lib, es[i], row))
  }

  function ValuesOver(lib: Library, es: seq<Expr>, rows: seq<Row>): (r: seq<seq<Result<Value>>>)
    ensures |r| == |rows| && forall i :: 0 <= i < |rows| ==> r[i] == ValuesOn(lib, es, rows[i])
  {
    seq(|rows|, i requires 0 <= i < |rows| => ValuesOn(lib, es, rows[i]))
  }

  ghost predicate AllRef(lib: Library, columns: seq<string>, alias: string, es: seq<Expr>) {
    forall i :: 0 <= i < |es| ==> Refs(lib, columns, Some(alias), es[i])
  }

  lemma ValuesSame(lib: Library, es: seq<Expr>, rows: seq<Row>, lost: Loss)
    requires Fits(rows, Some(lost)) && AllRef(lib, lost.columns, lost.alias, es)
    ensures ValuesOver(lib, es, QualifiedAll(rows, Some(lost.alias))) == ValuesOver(lib, es, rows)
  {
    hide Eval, Qualified, Refs;
    var q := QualifiedAll(rows, Some(lost.alias));
    forall i | 0 <= i < |rows| ensures ValuesOn(lib, es, q[i]) == ValuesOn(lib, es, rows[i]) {
      forall j | 0 <= j < |es| ensures Eval(lib, es[j], q[i]) == Eval(lib, es[j], rows[i]) {
        EvalQualified(lib, rows[i], Some(lost.alias), es[j]);
      }
    }
  }

  /** Aggregation, with or without groups: some function of the keys and arguments on the rows. */
  function Aggregation(lib: Library, es: seq<Expr>, g: seq<seq<Result<Value>>> -> Result<seq<Row>>)
    : seq<Row> -> Result<seq<Row>>
  {
    rows => g(ValuesOver(lib, es, rows))
  }

  /** It does not notice the alias. */
  lemma AggregateCloses(lib: Library, es: seq<Expr>, g: seq<seq<Result<Value>>> -> Result<seq<Row>>, lost: Loss)
    requires AllRef(lib, lost.columns, lost.alias, es)
    ensures Closes(Aggregation(lib, es, g), Some(lost))
  {
    hide ValuesOver, AllRef;
    var f := Aggregation(lib, es, g);
    forall rows: seq<Row> | Fits(rows, Some(lost)) ensures f(Restored(rows, Some(lost))) == f(rows) {
      ValuesSame(lib, es, rows, lost);
    }
  }

  /** An order of the rows, or the first error, from their sort keys. */
  type Sorter = seq<seq<Result<Value>>> -> Result<seq<nat>>

  predicate InOrder(order: seq<nat>, n: nat) { forall i :: 0 <= i < |order| ==> order[i] < n }

  function Picked(rows: seq<Row>, order: seq<nat>): (r: seq<Row>)
    requires InOrder(order, |rows|)
    ensures |r| == |order| && forall i :: 0 <= i < |order| ==> r[i] == rows[order[i]]
  {
    seq(|order|, i requires 0 <= i < |order| => rows[order[i]])
  }

  /** ORDER BY: where the rows go depends on their keys. */
  function Sorting(lib: Library, es: seq<Expr>, sorter: Sorter): seq<Row> -> Result<seq<Row>> {
    rows =>
      var order := sorter(ValuesOver(lib, es, rows));
      if order.Err? then Err(order.error)
      else if InOrder(order.value, |rows|) then Ok(Picked(rows, order.value)) else Err(Failed(3))
  }

  /** Sorting passes the rows on, in the order they would have with the alias. */
  lemma SortPasses(lib: Library, es: seq<Expr>, sorter: Sorter, lost: Loss)
    requires AllRef(lib, lost.columns, lost.alias, es)
    ensures Passes(Sorting(lib, es, sorter), Some(lost))
  {
    var f := Sorting(lib, es, sorter);
    forall rows: seq<Row> | Fits(rows, Some(lost))
      ensures f(rows).Err? ==> f(Restored(rows, Some(lost))) == f(rows)
      ensures f(rows).Ok? ==> Fits(f(rows).value, Some(lost))
      ensures f(rows).Ok? ==> f(Restored(rows, Some(lost))) == Ok(Restored(f(rows).value, Some(lost))) {
      hide AllRef, Qualified;
      ValuesSame(lib, es, rows, lost);
      hide ValuesOver;
      var order := sorter(ValuesOver(lib, es, rows));
      var q := QualifiedAll(rows, Some(lost.alias));
      if order.Ok? && InOrder(order.value, |rows|) {
        assert Picked(q, order.value) == QualifiedAll(Picked(rows, order.value), Some(lost.alias));
      }
    }
  }

  /** Where nothing is lost, joins, set operations and everything else see the rows they would see. */
  lemma NothingLost(f: seq<Row> -> Result<seq<Row>>, g: (seq<Row>, seq<Row>) -> Result<seq<Row>>)
    ensures Closes(f, None) && BothClose(g, None, None)
  {
    NoLoss();
    hide Restored, Fits;
  }

  // ------------------------------------------------------------------ queries

  /** FROM table AS alias WHERE e. */
  function Found(table: string, alias: string, e: Expr): Plan { Filter(TableScan(table, Some(alias), None), e) }

  lemma FoundSound(w: World, table: string, alias: string, e: Expr)
    requires table in w.tables && Setting(w, w.tables[table], e) && ScanRefs(w, table, Some(alias), None, e)
    requires AllSafe(w, w.tables[table], None, e)
    ensures Sound(w, Found(table, alias, e))
    ensures Lost(w, Found(table, alias, e)) == Some(Loss(alias, w.tables[table].columns))
  {
    var scan := TableScan(table, Some(alias), None);
    assert TryIndexScan(w, scan, e).Some? && Optimize(w, scan) == scan;
    hide Setting, ScanRefs, AllSafe, TryIndexScan;
    assert RewriteSound(w, scan, e);
  }

  /** SELECT items FROM table AS alias WHERE e ORDER BY keys LIMIT limit OFFSET offset. */
  function OrderedSelect(lib: Library, items: seq<(string, Expr)>, table: string, alias: string, e: Expr,
                         keys: seq<Expr>, sorter: Sorter, limit: nat, offset: nat): Plan {
    Unary(Unary(Unary(Found(table, alias, e), Sorting(lib, keys, sorter)), Projection(lib, items)),
          Limited(limit, offset))
  }

  /** A sorted query answers as before if every tuple is safe. */
  lemma OrderedPreserves(w: World, items: seq<(string, Expr)>, table: string, alias: string, e: Expr,
                         keys: seq<Expr>, sorter: Sorter, limit: nat, offset: nat)
    requires table in w.tables && Setting(w, w.tables[table], e) && ScanRefs(w, table, Some(alias), None, e)
    requires ItemRefs(w.lib, w.tables[table].columns, alias, items) && AllSafe(w, w.tables[table], None, e)
    requires AllRef(w.lib, w.tables[table].columns, alias, keys)
    requires Exec(w, OrderedSelect(w.lib, items, table, alias, e, keys, sorter, limit, offset)).Ok?
    ensures var plan := OrderedSelect(w.lib, items, table, alias, e, keys, sorter, limit, offset);
      Exec(w, Optimize(w, plan)) == Exec(w, plan)
  {
    hide Exec, Setting, ScanRefs, AllSafe, ItemRefs, AllRef, Closes, Passes, Found, Optimize;
    hide Sorting, Projection, Limited;
    var lost := Loss(alias, w.tables[table].columns);
    FoundSound(w, table, alias, e);
    SortPasses(w.lib, keys, sorter, lost);
    ProjectCloses(w.lib, items, lost);
    var sorted := Unary(Found(table, alias, e), Sorting(w.lib, keys, sorter));
    var listed := Unary(sorted, Projection(w.lib, items));
    SortedLost(w, Found(table, alias, e), Sorting(w.lib, keys, sorter), Projection(w.lib, items), lost);
    NothingLost(Limited(limit, offset), (l, r) => Ok([]));
    var plan := Unary(listed, Limited(limit, offset));
    assert Sound(w, plan) && Lost(w, plan) == None;
    OptimizePreserves(w, plan);
    NoLoss();
  }

  /** After the select list nothing is lost any more. */
  lemma SortedLost(w: World, input: Plan, sort: seq<Row> -> Result<seq<Row>>, list: seq<Row> -> Result<seq<Row>>,
                   lost: Loss)
    requires Sound(w, input) && Lost(w, input) == Some(lost) && Passes(sort, Some(lost)) && Closes(list, Some(lost))
    ensures Sound(w, Unary(Unary(input, sort), list)) && Lost(w, Unary(Unary(input, sort), list)) == None
  {
    hide Passes, Closes;
    var sorted := Unary(input, sort);
    if Closes(sort, Some(lost)) {
      assert Lost(w, sorted) == None;
      NothingLost(list, (l, r) => Ok([]));
    } else {
      assert Lost(w, sorted) == Some(lost);
    }
  }

  /** An aggregate query, whatever is done with its result, answers as before if every tuple is safe. */
  lemma AggregatePreserves(w: World, es: seq<Expr>, g: seq<seq<Result<Value>>> -> Result<seq<Row>>, table: string,
                           alias: string, e: Expr, rest: seq<Row> -> Result<seq<Row>>)
    requires table in w.tables && Setting(w, w.tables[table], e) && ScanRefs(w, table, Some(alias), None, e)
    requires AllRef(w.lib, w.tables[table].columns, alias, es) && AllSafe(w, w.tables[table], None, e)
    requires Exec(w, Unary(Unary(Found(table, alias, e), Aggregation(w.lib, es, g)), rest)).Ok?
    ensures var plan := Unary(Unary(Found(table, alias, e), Aggregation(w.lib, es, g)), rest);
      Exec(w, Optimize(w, plan)) == Exec(w, plan)
  {
    hide Exec, Setting, ScanRefs, AllSafe, AllRef, Closes, Found, Optimize, Aggregation;
    var lost := Loss(alias, w.tables[table].columns);
    FoundSound(w, table, alias, e);
    AggregateCloses(w.lib, es, g, lost);
    var grouped := Unary(Found(table, alias, e), Aggregation(w.lib, es, g));
    assert Sound(w, grouped) && Lost(w, grouped) == None;
    NothingLost(rest, (l, r) => Ok([]));
    OptimizePreserves(w, Unary(grouped, rest));
    NoLoss();
  }
}
