/**
 * Plans as the planner builds them: every scanned table has an alias, so that its rows carry each column
 * twice, as `alias.column` and as `column`. The index scan that a filtered table scan is rewritten to drops
 * the alias. What is above it may tell the difference, or look columns up and not notice.
 */
module OptimizedPlans {
  import opened Wrappers
  import opened BTreeNodes
  import BTreePaths
  import opened Values
  import opened SortKeys
  import opened Queries
  import opened Optimizer

  // ---------------------------------------------------------- qualified rows

  function QualifiedAll(rows: seq<Row>, alias: Option<string>): (q: seq<Row>)
    ensures |q| == |rows| && forall i :: 0 <= i < |rows| ==> q[i] == Qualified(rows[i], alias)
  {
    seq(|rows|, i requires 0 <= i < |rows| => Qualified(rows[i], alias))
  }

  function QualifiedResult(r: Result<seq<Row>>, alias: Option<string>): Result<seq<Row>> {
    if r.Err? then r else Ok(QualifiedAll(r.value, alias))
  }

  /** Rows of a table with these columns. */
  predicate Tabular(rows: seq<Row>, columns: seq<string>) {
    forall i :: 0 <= i < |rows| ==> rows[i].names == columns && |rows[i].values| == |columns|
  }

  predicate Undotted(names: seq<string>) {
    forall k :: 0 <= k < |names| ==> '.' !in names[k]
  }

  lemma {:induction false} TwiceAt(vs: seq<Value>, k: nat)
    ensures |Twice(vs)| == 2 * |vs|
    ensures k < |vs| ==> Twice(vs)[2 * k] == vs[k] && Twice(vs)[2 * k + 1] == vs[k]
  {
    if vs != [] {
      TwiceAt(vs[1..], if k == 0 then 0 else k - 1);
    }
  }

  lemma {:induction false} NamesAt(names: seq<string>, a: string, k: nat)
    ensures |QualifiedNames(names, a)| == 2 * |names|
    ensures k < |names| ==>
      QualifiedNames(names, a)[2 * k] == a + "." + names[k] && QualifiedNames(names, a)[2 * k + 1] == names[k]
  {
    if names != [] {
      NamesAt(names[1..], a, if k == 0 then 0 else k - 1);
    }
  }

  /** A row can be told from its qualified form. */
  lemma QualifiedInjective(r: Row, s: Row, alias: Option<string>)
    requires Qualified(r, alias) == Qualified(s, alias)
    ensures r == s
  {
    if alias.Some? {
      var a := alias.value;
      TwiceAt(r.values, 0);
      TwiceAt(s.values, 0);
      NamesAt(r.names, a, 0);
      NamesAt(s.names, a, 0);
      forall k: nat | k < |r.values| ensures r.values[k] == s.values[k] {
        TwiceAt(r.values, k);
        TwiceAt(s.values, k);
      }
      forall k: nat | k < |r.names| ensures r.names[k] == s.names[k] {
        NamesAt(r.names, a, k);
        NamesAt(s.names, a, k);
      }
    }
  }

  lemma AllInjective(rows: seq<Row>, others: seq<Row>, alias: Option<string>)
    requires QualifiedAll(rows, alias) == QualifiedAll(others, alias)
    ensures rows == others
  {
    hide Qualified;
    var q := QualifiedAll(rows, alias);
    assert |rows| == |others|;
    forall i | 0 <= i < |rows| ensures rows[i] == others[i] {
      assert q[i] == Qualified(rows[i], alias) == Qualified(others[i], alias);
      QualifiedInjective(rows[i], others[i], alias);
    }
  }

  // ---------------------------------------------------- looking columns up

  /** A dotted name splits at its last dot. */
  lemma DotSplits(a: string, b: string, c: string, d: string)
    requires '.' !in b && '.' !in d && a + "." + b == c + "." + d
    ensures a == c && b == d
  {
    var x, y := a + "." + b, c + "." + d;
    assert x[|a|] == '.' && y[|c|] == '.';
    assert forall k :: |a| < k < |x| ==> x[k] == b[k - |a| - 1];
    assert forall k :: |c| < k < |y| ==> y[k] == d[k - |c| - 1];
    assert |a| == |c|;
    assert a == x[..|a|] && c == y[..|c|] && b == x[|a| + 1..] && d == y[|c| + 1..];
  }

  /** Where a bare name is found. */
  lemma {:induction false} PlaceBare(names: seq<string>, a: string, name: string)
    requires Undotted(names) && '.' !in name
    ensures Place(QualifiedNames(names, a), name) ==
      if Place(names, name) < |names| then 2 * Place(names, name) + 1 else 2 * |names|
  {
    if names != [] {
      var q, full := QualifiedNames(names, a), a + "." + names[0];
      assert full[|a|] == '.' && '.' in full;
      assert q[0] == full && q[1] == names[0] && q[1..][1..] == QualifiedNames(names[1..], a);
      PlaceBare(names[1..], a, name);
    }
  }

  /** Where one qualified by the alias is found. */
  lemma {:induction false} PlaceDotted(names: seq<string>, a: string, name: string)
    requires Undotted(names) && '.' !in name
    ensures Place(QualifiedNames(names, a), a + "." + name) ==
      if Place(names, name) < |names| then 2 * Place(names, name) else 2 * |names|
  {
    if names != [] {
      var q, full := QualifiedNames(names, a), a + "." + name;
      assert full[|a|] == '.' && '.' in full && '.' !in names[0];
      assert q[0] == a + "." + names[0] && q[1] == names[0] && q[1..][1..] == QualifiedNames(names[1..], a);
      PlaceDotted(names[1..], a, name);
      if q[0] == full { DotSplits(a, names[0], a, name); }
    }
  }

  lemma {:induction false} OtherAlias(names: seq<string>, a: string, table: string, name: string)
    requires Undotted(names) && '.' !in name && table != a
    ensures table + "." + name !in QualifiedNames(names, a)
  {
    if names != [] {
      var q, full := QualifiedNames(names, a), table + "." + name;
      assert full[|table|] == '.' && '.' in full && '.' !in names[0];
      OtherAlias(names[1..], a, table, name);
      if a + "." + names[0] == full { DotSplits(a, names[0], table, name); }
      assert q == [a + "." + names[0], names[0]] + QualifiedNames(names[1..], a);
    }
  }

  /**
   * A reference to a column of the table: bare, qualified by the alias, or qualified by something that not
   * even in lower case is another column of the alias.
   */
  predicate Refers(lib: Library, columns: seq<string>, alias: Option<string>, table: Option<string>, name: string) {
    && name in columns
    && (table.Some? && alias.Some? && table != alias ==>
          var lower := lib.lower(table.value) + "." + lib.lower(name);
          lower !in QualifiedNames(columns, alias.value) || lower == alias.value + "." + name)
  }

  lemma InPlace(names: seq<string>, name: string)
    ensures name in names <==> Place(names, name) < |names|
  {
    var p := Place(names, name);
    hide Place;
    assert names == names[..p] + names[p..];
  }

  lemma DottedGet(row: Row, name: string)
    requires name !in row.names && '.' in name
    ensures Get(row, name).None?
  {
    InPlace(row.names, name);
    hide Place;
  }

  lemma FoundGet(row: Row, name: string, p: nat)
    requires Place(row.names, name) == p < |row.names| == |row.values|
    ensures Get(row, name) == Some(row.values[p])
  {
  }

  /** A column that is referred to is found in the qualified row as in the row itself. */
  lemma LookupQualified(lib: Library, row: Row, alias: Option<string>, table: Option<string>, name: string)
    requires |row.values| == |row.names| && Undotted(row.names) && Refers(lib, row.names, alias, table, name)
    ensures Lookup(lib, Qualified(row, alias), table, name) == Lookup(lib, row, table, name)
  {
    var p := Place(row.names, name);
    InPlace(row.names, name);
    ColumnFound(lib, row, table, name);
    if alias.Some? {
      var a, q := alias.value, Qualified(row, alias);
      TwiceAt(row.values, p);
      NamesAt(row.names, a, p);
      PlaceBare(row.names, a, name);
      PlaceDotted(row.names, a, name);
      hide Place, Matches, Get, Twice, QualifiedNames;
      FoundGet(q, name, 2 * p + 1);
      FoundGet(q, a + "." + name, 2 * p);
      if table.Some? && table != alias {
        OtherAlias(row.names, a, table.value, name);
        var full, lower := table.value + "." + name, lib.lower(table.value) + "." + lib.lower(name);
        assert full[|table.value|] == '.' && lower[|lib.lower(table.value)|] == '.';
        DottedGet(q, full);
        if lower !in q.names { DottedGet(q, lower); }
      }
    }
  }

  /** An expression that looks at a row only by referring to columns of the table. */
  ghost predicate Refs(lib: Library, columns: seq<string>, alias: Option<string>, e: Expr) {
    match e
    case Literal(_) => true
    case Column(table, name) => Refers(lib, columns, alias, table, name)
    case Binary(l, _, r) => Refs(lib, columns, alias, l) && Refs(lib, columns, alias, r)
    case Not(x) => Refs(lib, columns, alias, x)
    case IsNull(x) => Refs(lib, columns, alias, x)
    case Other(f) =>
      forall vs: seq<Value> :: |vs| == |columns| ==>
        f(Qualified(Row(vs, columns), alias)) == f(Row(vs, columns))
  }

  lemma {:induction false} EvalQualified(lib: Library, row: Row, alias: Option<string>, e: Expr)
    requires |row.values| == |row.names| && Undotted(row.names) && Refs(lib, row.names, alias, e)
    ensures Eval(lib, e, Qualified(row, alias)) == Eval(lib, e, row)
    decreases e
  {
    hide Lookup, EvalOp, Qualified, Refers;
    match e
    case Literal(_) =>
    case Column(table, name) => LookupQualified(lib, row, alias, table, name);
    case Binary(l, _, r) =>
      EvalQualified(lib, row, alias, l);
      EvalQualified(lib, row, alias, r);
    case Not(x) => EvalQualified(lib, row, alias, x);
    case IsNull(x) => EvalQualified(lib, row, alias, x);
    case Other(f) => assert row == Row(row.values, row.names);
  }

  // ------------------------------------------------------------ scans

  /** Filtering qualified rows is filtering the rows. */
  lemma {:induction false} FilterQualified(lib: Library, cond: Expr, rows: seq<Row>, columns: seq<string>,
                                           alias: Option<string>)
    requires Tabular(rows, columns) && Undotted(columns) && Refs(lib, columns, alias, cond)
    ensures FilterRows(lib, cond, QualifiedAll(rows, alias)) == QualifiedResult(FilterRows(lib, cond, rows), alias)
    ensures FilterRows(lib, cond, rows).Ok? ==> Tabular(FilterRows(lib, cond, rows).value, columns)
  {
    hide Eval, Qualified, Refs;
    if rows != [] {
      var last := |rows| - 1;
      FilterQualified(lib, cond, rows[..last], columns, alias);
      EvalQualified(lib, rows[last], alias, cond);
      assert QualifiedAll(rows, alias)[..last] == QualifiedAll(rows[..last], alias);
      var before := FilterRows(lib, cond, rows[..last]);
      if before.Ok? {
        assert QualifiedAll(before.value + [rows[last]], alias)
            == QualifiedAll(before.value, alias) + [Qualified(rows[last], alias)];
        assert QualifiedAll(before.value + [], alias) == QualifiedAll(before.value, alias) + [];
      }
    }
  }

  lemma {:induction false} VisibleQualified(w: World, columns: seq<string>, heap: seq<Stored>, alias: Option<string>)
    ensures VisibleRows(w, columns, heap, alias) == QualifiedResult(VisibleRows(w, columns, heap, None), alias)
    decreases |heap|
  {
    hide TableSees, Qualified;
    if heap != [] {
      var last := heap[|heap| - 1];
      VisibleQualified(w, columns, heap[..|heap| - 1], alias);
      var before := VisibleRows(w, columns, heap[..|heap| - 1], None);
      BareIs(Row(if last.values.Ok? then last.values.value else [], columns));
      if before.Ok? && last.values.Ok? {
        var row := Row(last.values.value, columns);
        assert QualifiedAll(before.value + [row], alias) == QualifiedAll(before.value, alias) + [Qualified(row, alias)];
      }
    }
  }

  lemma BareIs(row: Row)
    ensures Qualified(row, None) == row
  {
  }

  lemma {:induction false} VisibleTabular(w: World, columns: seq<string>, heap: seq<Stored>)
    requires forall i :: 0 <= i < |heap| && TableSees(w, heap[i]) && heap[i].values.Ok? ==>
      |heap[i].values.value| == |columns|
    requires VisibleRows(w, columns, heap, None).Ok?
    ensures Tabular(VisibleRows(w, columns, heap, None).value, columns)
    decreases |heap|
  {
    hide TableSees;
    if heap != [] {
      VisibleTabular(w, columns, heap[..|heap| - 1]);
    }
  }

  /** The scan's filter and the equality only refer to columns of the table. */
  ghost predicate ScanRefs(w: World, table: string, alias: Option<string>, filter: Option<Expr>, e: Expr)
    requires table in w.tables
  {
    var columns := w.tables[table].columns;
    Refs(w.lib, columns, alias, e) && (filter.Some? ==> Refs(w.lib, columns, alias, filter.value))
  }

  lemma SettingShape(w: World, t: Table, e: Expr)
    requires Setting(w, t, e)
    ensures Undotted(t.columns)
    ensures forall i :: 0 <= i < |t.heap| && TableSees(w, t.heap[i]) && t.heap[i].values.Ok? ==>
      |t.heap[i].values.value| == |t.columns|
  {
    hide TableSees, Proper, Encode, Place;
    forall i | 0 <= i < |t.heap| && TableSees(w, t.heap[i]) && t.heap[i].values.Ok?
      ensures |t.heap[i].values.value| == |t.columns| {
      assert TupleFaithful(w, t, ExtractEq(e).value.0, t.indexes[ExtractEq(e).value.0], i);
    }
  }

  /** An aliased filtered scan gives the qualified rows of the unaliased one. */
  lemma ScanQualified(w: World, table: string, alias: Option<string>, filter: Option<Expr>, e: Expr)
    requires table in w.tables && Setting(w, w.tables[table], e) && ScanRefs(w, table, alias, filter, e)
    ensures Exec(w, Filter(TableScan(table, alias, filter), e))
         == QualifiedResult(Exec(w, Filter(TableScan(table, None, filter), e)), alias)
    ensures var rows := Exec(w, Filter(TableScan(table, None, filter), e));
      rows.Ok? ==> Tabular(rows.value, w.tables[table].columns)
  {
    var t := w.tables[table];
    SettingShape(w, t, e);
    hide Setting, TableSees, Refs, FilterRows, VisibleRows, Qualified;
    VisibleQualified(w, t.columns, t.heap, alias);
    var rows := VisibleRows(w, t.columns, t.heap, None);
    if rows.Ok? {
      VisibleTabular(w, t.columns, t.heap);
      if filter.None? {
        FilterQualified(w.lib, e, rows.value, t.columns, alias);
      } else {
        FilterQualified(w.lib, filter.value, rows.value, t.columns, alias);
        var kept := FilterRows(w.lib, filter.value, rows.value);
        if kept.Ok? { FilterQualified(w.lib, e, kept.value, t.columns, alias); }
      }
    }
  }

  /** The rows of the table scan are those of the index scan, each with its alias. */
  ghost predicate SameUnderAlias(w: World, table: string, alias: Option<string>, filter: Option<Expr>, e: Expr)
    requires ExtractEq(e).Some?
  {
    var found := Exec(w, EqualityScan(TableScan(table, alias, filter), e));
    found.Ok? && Exec(w, Filter(TableScan(table, alias, filter), e)) == Ok(QualifiedAll(found.value, alias))
  }

  /**
   * One rewriting, exactly: over a faithful index a filtered scan that succeeds gives the rows of the
   * index scan it becomes, qualified by the alias, if and only if every tuple is safe.
   */
  lemma RewriteExact(w: World, table: string, alias: Option<string>, filter: Option<Expr>, e: Expr)
    requires table in w.tables && Setting(w, w.tables[table], e) && ScanRefs(w, table, alias, filter, e)
    requires Exec(w, Filter(TableScan(table, alias, filter), e)).Ok?
    ensures SameUnderAlias(w, table, alias, filter, e) <==> AllSafe(w, w.tables[table], filter, e)
  {
    hide Exec, Faithful, Proper, AllSafe, ScanRefs;
    ScanQualified(w, table, alias, filter, e);
    BareRewriteExact(w, table, filter, e);
    var found, rows := Exec(w, EqualityScan(TableScan(table, alias, filter), e)),
                       Exec(w, Filter(TableScan(table, None, filter), e));
    if SameUnderAlias(w, table, alias, filter, e) {
      AllInjective(found.value, rows.value, alias);
    }
  }

  /**
   * With a literal of the column's type and a current snapshot: if and only if no tuple under the literal's
   * key is one the transaction has deleted itself and the scan's own filter would pass.
   */
  lemma OwnDeletesDecide(w: World, table: string, alias: Option<string>, filter: Option<Expr>, e: Expr)
    requires table in w.tables && Setting(w, w.tables[table], e) && ScanRefs(w, table, alias, filter, e)
    requires Ongoing(w) && Current(w) && OneType(w, w.tables[table], ExtractEq(e).value.0, ExtractEq(e).value.1)
    requires Exec(w, Filter(TableScan(table, alias, filter), e)).Ok?
    ensures SameUnderAlias(w, table, alias, filter, e) <==>
      DeletesRejected(w, w.tables[table], filter, ExtractEq(e).value.0, ExtractEq(e).value.1)
  {
    hide Exec, Faithful, Proper, AllSafe, ScanRefs, DeletesRejected, OneType, SameUnderAlias, Current;
    RewriteExact(w, table, alias, filter, e);
    SafeByDeletes(w, w.tables[table], filter, e);
  }

  // ------------------------------------------------------------ whole plans

  /** The alias that the rows of an optimized plan lack, with the columns they have. */
  datatype Loss = Loss(alias: string, columns: seq<string>)

  function Restored(rows: seq<Row>, lost: Option<Loss>): seq<Row> {
    if lost.None? then rows else QualifiedAll(rows, Some(lost.value.alias))
  }

  predicate Fits(rows: seq<Row>, lost: Option<Loss>) {
    lost.Some? ==> Tabular(rows, lost.value.columns) && Undotted(lost.value.columns)
  }

  /** An operator that does not notice the alias, as it only looks columns up. */
  ghost predicate Closes(f: seq<Row> -> Result<seq<Row>>, lost: Option<Loss>) {
    forall rows: seq<Row> {:trigger Fits(rows, lost)} :: Fits(rows, lost) ==> f(Restored(rows, lost)) == f(rows)
  }

  /** An operator that passes rows through as they are. */
  ghost predicate Passes(f: seq<Row> -> Result<seq<Row>>, lost: Option<Loss>) {
    forall rows: seq<Row> {:trigger Fits(rows, lost)} :: Fits(rows, lost) ==>
      if f(rows).Err? then f(Restored(rows, lost)) == f(rows)
      else f(Restored(rows, lost)) == Ok(Restored(f(rows).value, lost)) && Fits(f(rows).value, lost)
  }

  ghost predicate BothClose(f: (seq<Row>, seq<Row>) -> Result<seq<Row>>, left: Option<Loss>, right: Option<Loss>) {
    forall l: seq<Row>, r: seq<Row> {:trigger Fits(l, left), Fits(r, right)} ::
      Fits(l, left) && Fits(r, right) ==> f(Restored(l, left), Restored(r, right)) == f(l, r)
  }

  /** What the optimized plan's rows lack. */
  ghost function Lost(w: World, plan: Plan): Option<Loss> {
    match plan
    case Filter(input, cond) =>
      if TryIndexScan(w, Optimize(w, input), cond).None? then Lost(w, input)
      else if input.TableScan? && input.alias.Some? && input.table in w.tables then
        Some(Loss(input.alias.value, w.tables[input.table].columns))
      else None
    case Unary(input, f) => if Closes(f, Lost(w, input)) then None else Lost(w, input)
    case _ => None
  }

  ghost predicate RewriteSound(w: World, scan: Plan, e: Expr) {
    && scan.TableScan? && scan.table in w.tables && Setting(w, w.tables[scan.table], e)
    && ScanRefs(w, scan.table, scan.alias, scan.filter, e) && AllSafe(w, w.tables[scan.table], scan.filter, e)
  }

  /** Every rewriting in a plan is safe, and what is above it only looks columns up or passes rows through. */
  ghost predicate Sound(w: World, plan: Plan) {
    match plan
    case Filter(input, cond) =>
      && Sound(w, input)
      && (if TryIndexScan(w, Optimize(w, input), cond).Some? then RewriteSound(w, input, cond)
          else var lost := Lost(w, input);
               lost.Some? ==> Refs(w.lib, lost.value.columns, Some(lost.value.alias), cond))
    case Unary(input, f) => Sound(w, input) && (Closes(f, Lost(w, input)) || Passes(f, Lost(w, input)))
    case Both(left, right, f) => Sound(w, left) && Sound(w, right) && BothClose(f, Lost(w, left), Lost(w, right))
    case _ => true
  }

  /** The optimized plan succeeds with the plan's rows, but for the alias. */
  ghost predicate Shown(w: World, plan: Plan) {
    && Exec(w, plan).Ok? && Exec(w, Optimize(w, plan)).Ok?
    && Exec(w, plan).value == Restored(Exec(w, Optimize(w, plan)).value, Lost(w, plan))
    && Fits(Exec(w, Optimize(w, plan)).value, Lost(w, plan))
  }

  lemma RewriteShown(w: World, plan: Plan)
    requires plan.Filter? && TryIndexScan(w, Optimize(w, plan.input), plan.condition).Some?
    requires RewriteSound(w, plan.input, plan.condition) && Exec(w, plan).Ok?
    ensures Shown(w, plan)
  {
    var scan, e := plan.input, plan.condition;
    SettingShape(w, w.tables[scan.table], e);
    OnlyEqualities(w, Optimize(w, scan), e);
    hide Exec, Faithful, Proper, AllSafe, ScanRefs, TryIndexScan;
    assert scan == TableScan(scan.table, scan.alias, scan.filter) && Optimize(w, scan) == scan;
    RewriteExact(w, scan.table, scan.alias, scan.filter, e);
    ScanQualified(w, scan.table, scan.alias, scan.filter, e);
    var found, rows := Exec(w, EqualityScan(scan, e)), Exec(w, Filter(TableScan(scan.table, None, scan.filter), e));
    AllInjective(found.value, rows.value, scan.alias);
    if scan.alias.None? { BareAll(found.value); }
  }

  lemma BareAll(rows: seq<Row>)
    ensures QualifiedAll(rows, None) == rows
  {
  }

  lemma FilterShown(w: World, plan: Plan)
    requires plan.Filter? && TryIndexScan(w, Optimize(w, plan.input), plan.condition).None?
    requires Shown(w, plan.input) && Exec(w, plan).Ok?
    requires var lost := Lost(w, plan.input);
      lost.Some? ==> Refs(w.lib, lost.value.columns, Some(lost.value.alias), plan.condition)
    ensures Shown(w, plan)
  {
    hide TryIndexScan, FilterRows, Tabular, Undotted, Refs;
    var lost, after := Lost(w, plan.input), Exec(w, Optimize(w, plan.input)).value;
    if lost.Some? {
      FilterQualified(w.lib, plan.condition, after, lost.value.columns, Some(lost.value.alias));
    }
  }

  /**
   * Optimizing keeps the rows of every plan that succeeds, in their order; where an alias is lost on the
   * way and nothing above looks columns up, the rows are the same but for it.
   */
  lemma {:induction false} OptimizePreserves(w: World, plan: Plan)
    requires Sound(w, plan) && Exec(w, plan).Ok?
    ensures Shown(w, plan)
    decreases plan
  {
    hide RewriteSound, TryIndexScan, VisibleRows, MaybeFilter, FilterRows, Fetch, Restored, Fits;
    match plan
    case Filter(input, cond) =>
      OptimizePreserves(w, input);
      if TryIndexScan(w, Optimize(w, input), cond).Some? { RewriteShown(w, plan); } else { FilterShown(w, plan); }
    case Unary(input, f) =>
      OptimizePreserves(w, input);
      NoLoss();
    case Both(left, right, f) =>
      OptimizePreserves(w, left);
      OptimizePreserves(w, right);
      NoLoss();
    case _ => NoLoss();
  }

  lemma NoLoss()
    ensures forall rows: seq<Row> :: Restored(rows, None) == rows && Fits(rows, None)
  {
  }

  // ---------------------------------------------------------------- queries

  function ProjectValues(lib: Library, items: seq<(string, Expr)>, row: Row): Result<seq<Value>> {
    if items == [] then Ok([])
    else
      var before := ProjectValues(lib, items[..|items| - 1], row);
      if before.Err? then before
      else
        var v := Eval(lib, items[|items| - 1].1, row);
        if v.Err? then Err(v.error) else Ok(before.value + [v.value])
  }

  function ItemNames(items: seq<(string, Expr)>): seq<string> {
    seq(|items|, i requires 0 <= i < |items| => items[i].0)
  }

  /** The select list, evaluated on each row. */
  function ProjectRows(lib: Library, items: seq<(string, Expr)>, rows: seq<Row>): Result<seq<Row>> {
    if rows == [] then Ok([])
    else
      var before := ProjectRows(lib, items, rows[..|rows| - 1]);
      if before.Err? then before
      else
        var vs := ProjectValues(lib, items, rows[|rows| - 1]);
        if vs.Err? then Err(vs.error) else Ok(before.value + [Row(vs.value, ItemNames(items))])
  }

  function Projection(lib: Library, items: seq<(string, Expr)>): seq<Row> -> Result<seq<Row>> {
    rows => ProjectRows(lib, items, rows)
  }

  ghost predicate ItemRefs(lib: Library, columns: seq<string>, alias: string, items: seq<(string, Expr)>) {
    forall i :: 0 <= i < |items| ==> Refs(lib, columns, Some(alias), items[i].1)
  }

  lemma {:induction false} ProjectValuesSame(lib: Library, items: seq<(string, Expr)>, row: Row, alias: string)
    requires |row.values| == |row.names| && Undotted(row.names) && ItemRefs(lib, row.names, alias, items)
    ensures ProjectValues(lib, items, Qualified(row, Some(alias))) == ProjectValues(lib, items, row)
  {
    hide Eval, Qualified, Refs;
    if items != [] {
      ProjectValuesSame(lib, items[..|items| - 1], row, alias);
      EvalQualified(lib, row, Some(alias), items[|items| - 1].1);
    }
  }

  lemma {:induction false} ProjectSame(lib: Library, items: seq<(string, Expr)>, rows: seq<Row>, lost: Loss)
    requires Fits(rows, Some(lost)) && ItemRefs(lib, lost.columns, lost.alias, items)
    ensures ProjectRows(lib, items, QualifiedAll(rows, Some(lost.alias))) == ProjectRows(lib, items, rows)
  {
    hide ProjectValues, Qualified, ItemRefs;
    if rows != [] {
      var last := |rows| - 1;
      assert QualifiedAll(rows, Some(lost.alias))[..last] == QualifiedAll(rows[..last], Some(lost.alias));
      ProjectSame(lib, items, rows[..last], lost);
      ProjectValuesSame(lib, items, rows[last], lost.alias);
    }
  }

  /** A select list of expressions over the columns does not notice the alias. */
  lemma ProjectCloses(lib: Library, items: seq<(string, Expr)>, lost: Loss)
    requires ItemRefs(lib, lost.columns, lost.alias, items)
    ensures Closes(Projection(lib, items), Some(lost))
  {
    hide ProjectRows, ItemRefs;
    forall rows: seq<Row> | Fits(rows, Some(lost))
      ensures Projection(lib, items)(Restored(rows, Some(lost))) == Projection(lib, items)(rows) {
      ProjectSame(lib, items, rows, lost);
    }
  }

  /** LIMIT and OFFSET. */
  function Limited(limit: nat, offset: nat): seq<Row> -> Result<seq<Row>> {
    (rows: seq<Row>) =>
      var from := if offset < |rows| then offset else |rows|;
      var to := if from + limit < |rows| then from + limit else |rows|;
      Ok(rows[from..to])
  }

  /** The rows after the first `offset`, at most `limit` of them. */
  lemma LimitedAre(limit: nat, offset: nat, rows: seq<Row>, k: nat)
    ensures var r := Limited(limit, offset)(rows);
      && r.Ok? && (k < |r.value| <==> k < limit && offset + k < |rows|)
      && (k < |r.value| ==> r.value[k] == rows[offset + k])
  {
  }

  /** LIMIT passes rows through. */
  lemma LimitPasses(limit: nat, offset: nat, lost: Option<Loss>)
    ensures Passes(Limited(limit, offset), lost)
  {
    forall rows: seq<Row> | Fits(rows, lost)
      ensures var f := Limited(limit, offset);
        f(Restored(rows, lost)) == Ok(Restored(f(rows).value, lost)) && Fits(f(rows).value, lost) {
      hide Qualified, QualifiedAll, Fits, Limited;
      LimitSame(limit, offset, rows, lost);
    }
  }

  lemma LimitSame(limit: nat, offset: nat, rows: seq<Row>, lost: Option<Loss>)
    requires Fits(rows, lost)
    ensures var f := Limited(limit, offset);
      && f(rows).Ok? && f(Restored(rows, lost)) == Ok(Restored(f(rows).value, lost)) && Fits(f(rows).value, lost)
  {
    hide Qualified;
    if lost.Some? {
      var from := if offset < |rows| then offset else |rows|;
      var to := if from + limit < |rows| then from + limit else |rows|;
      CutQualified(rows, Some(lost.value.alias), from, to);
    }
  }

  lemma CutQualified(rows: seq<Row>, alias: Option<string>, from: nat, to: nat)
    requires from <= to <= |rows|
    ensures QualifiedAll(rows, alias)[from..to] == QualifiedAll(rows[from..to], alias)
  {
    hide Qualified;
  }

  /** SELECT items FROM table AS alias WHERE e. */
  function Select(lib: Library, items: seq<(string, Expr)>, table: string, alias: string, e: Expr): Plan {
    Unary(Filter(TableScan(table, Some(alias), None), e), Projection(lib, items))
  }

  /** A query over one table answers as before if every tuple is safe. */
  lemma SelectPreserves(w: World, items: seq<(string, Expr)>, table: string, alias: string, e: Expr)
    requires table in w.tables && Setting(w, w.tables[table], e) && ScanRefs(w, table, Some(alias), None, e)
    requires ItemRefs(w.lib, w.tables[table].columns, alias, items) && AllSafe(w, w.tables[table], None, e)
    requires Exec(w, Select(w.lib, items, table, alias, e)).Ok?
    ensures Exec(w, Optimize(w, Select(w.lib, items, table, alias, e)))
         == Exec(w, Select(w.lib, items, table, alias, e))
  {
    var scan := TableScan(table, Some(alias), None);
    var lost := Loss(alias, w.tables[table].columns);
    assert TryIndexScan(w, scan, e).Some? && Optimize(w, scan) == scan;
    hide Exec, Setting, ScanRefs, AllSafe, ItemRefs, Projection, TryIndexScan, Closes;
    ProjectCloses(w.lib, items, lost);
    assert Lost(w, Filter(scan, e)) == Some(lost);
    assert RewriteSound(w, scan, e);
    assert Sound(w, Filter(scan, e));
    OptimizePreserves(w, Select(w.lib, items, table, alias, e));
  }

  // ------------------------------------------------------------------ SELECT *

  /** Every column under its own name, as `*` is expanded. */
  function Star(columns: seq<string>): (items: seq<(string, Expr)>)
    ensures |items| == |columns|
    ensures forall i :: 0 <= i < |columns| ==> items[i] == (columns[i], Column(None, columns[i]))
  {
    seq(|columns|, i requires 0 <= i < |columns| => (columns[i], Column(None, columns[i])))
  }

  predicate Different(names: seq<string>) {
    forall i, j :: 0 <= i < j < |names| ==> names[i] != names[j]
  }

  lemma {:induction false} StarValues(lib: Library, row: Row, k: nat)
    requires |row.values| == |row.names| && Undotted(row.names) && Different(row.names) && k <= |row.names|
    ensures ProjectValues(lib, Star(row.names)[..k], row) == Ok(row.values[..k])
  {
    hide Lookup, Place;
    if k > 0 {
      var i := k - 1;
      StarValues(lib, row, i);
      assert Star(row.names)[..k][..i] == Star(row.names)[..i] && Star(row.names)[..k][i] == Star(row.names)[i];
      InPlace(row.names, row.names[i]);
      ColumnFound(lib, row, None, row.names[i]);
      assert Place(row.names, row.names[i]) == i;
      assert row.values[..i] + [row.values[i]] == row.values[..k];
    }
  }

  /** On rows of the table `*` changes nothing. */
  lemma {:induction false} StarKeeps(lib: Library, rows: seq<Row>, columns: seq<string>)
    requires Tabular(rows, columns) && Undotted(columns) && Different(columns)
    ensures ProjectRows(lib, Star(columns), rows) == Ok(rows)
  {
    hide ProjectValues, Star;
    if rows != [] {
      var last := rows[|rows| - 1];
      StarKeeps(lib, rows[..|rows| - 1], columns);
      StarValues(lib, last, |columns|);
      assert Star(columns)[..|columns|] == Star(columns) && last.values[..|columns|] == last.values;
      assert ItemNames(Star(columns)) == columns;
      assert rows == rows[..|rows| - 1] + [last];
    }
  }

  lemma StarRefs(lib: Library, columns: seq<string>, alias: string)
    ensures ItemRefs(lib, columns, alias, Star(columns))
  {
  }

  function SelectStar(w: World, table: string, alias: string, e: Expr): Plan
    requires table in w.tables
  {
    Select(w.lib, Star(w.tables[table].columns), table, alias, e)
  }

  /** What is decoded from a tuple has a value for each column. */
  predicate Decoded(t: Table) {
    forall i :: 0 <= i < |t.heap| && t.heap[i].values.Ok? ==> |t.heap[i].values.value| == |t.columns|
  }

  lemma {:induction false} FetchTabular(w: World, t: Table, es: seq<LeafEntry>, filter: Option<Expr>)
    requires Decoded(t) && Fetch(w, t, es, filter).Ok?
    ensures Tabular(Fetch(w, t, es, filter).value, t.columns)
    decreases |es|
  {
    hide Eval, IndexSees, MaybeFilter;
    if es != [] {
      FetchTabular(w, t, es[..|es| - 1], filter);
      var p := TupleAt(t.heap, es[|es| - 1].tid);
      if p < |t.heap| && t.heap[p].values.Ok? { OneFiltered(w.lib, filter, RowOf(t, p)); }
    }
  }

  lemma FoundTabular(w: World, table: string, alias: Option<string>, e: Expr)
    requires table in w.tables && Setting(w, w.tables[table], e) && Decoded(w.tables[table])
    ensures var found := Exec(w, EqualityScan(TableScan(table, alias, None), e));
      found.Ok? ==> Tabular(found.value, w.tables[table].columns)
  {
    hide Fetch, Faithful, Tabular, Decoded;
    var t, column, literal := w.tables[table], ExtractEq(e).value.0, ExtractEq(e).value.1;
    var es := BTreePaths.Range(t.indexes[column], Bounds(Some(literal), None), Bounds(Some(literal), None));
    if Fetch(w, t, es, None).Ok? { FetchTabular(w, t, es, None); }
  }

  /**
   * SELECT * FROM table AS alias WHERE column = literal, optimized, gives the same answer if and only if
   * every tuple is safe.
   */
  lemma SelectStarExact(w: World, table: string, alias: string, e: Expr)
    requires table in w.tables && Setting(w, w.tables[table], e) && ScanRefs(w, table, Some(alias), None, e)
    requires Decoded(w.tables[table]) && Different(w.tables[table].columns)
    requires Exec(w, SelectStar(w, table, alias, e)).Ok?
    ensures Exec(w, Optimize(w, SelectStar(w, table, alias, e))) == Exec(w, SelectStar(w, table, alias, e))
       <==> AllSafe(w, w.tables[table], None, e)
  {
    var scan, columns := TableScan(table, Some(alias), None), w.tables[table].columns;
    var f := Projection(w.lib, Star(columns));
    assert TryIndexScan(w, scan, e) == Some(EqualityScan(scan, e)) && Optimize(w, scan) == scan;
    assert SelectStar(w, table, alias, e) == Unary(Filter(scan, e), f);
    assert Exec(w, SelectStar(w, table, alias, e)) == f(Exec(w, Filter(scan, e)).value);
    hide Exec, ScanRefs, AllSafe, TryIndexScan, ProjectRows, Star, Setting, Decoded, Tabular, Undotted, Different;
    SettingShape(w, w.tables[table], e);
    ScanQualified(w, table, Some(alias), None, e);
    RewriteExact(w, table, Some(alias), None, e);
    FoundTabular(w, table, Some(alias), e);
    StarRefs(w.lib, columns, alias);
    var rows := Exec(w, Filter(TableScan(table, None, None), e)).value;
    var found := Exec(w, EqualityScan(scan, e));
    ProjectSame(w.lib, Star(columns), rows, Loss(alias, columns));
    StarKeeps(w.lib, rows, columns);
    UnaryIs(w, EqualityScan(scan, e), f);
    if found.Ok? {
      StarKeeps(w.lib, found.value, columns);
      if QualifiedAll(found.value, Some(alias)) == QualifiedAll(rows, Some(alias)) {
        AllInjective(found.value, rows, Some(alias));
      }
    }
  }

  lemma UnaryIs(w: World, plan: Plan, f: seq<Row> -> Result<seq<Row>>)
    ensures Exec(w, Unary(plan, f)) == if Exec(w, plan).Err? then Exec(w, plan) else f(Exec(w, plan).value)
  {
  }

  // ------------------------------------------------------- where it goes wrong

  /** A table `t` of one column `id` with one tuple, indexed on it. */
  function OneTuple(lib: Library, committed: set<Xid>, snapshot: Snapshot, xmin: Xid, xmax: Xid, v: Value): World
    requires Proper(v)
  {
    var tid := Tid(0, 0);
    var t := Table(["id"], [Stored(tid, xmin, xmax, Ok([v]))], map["id" := [LeafEntry(Encode(v), tid)]]);
    World(lib, 2, committed, snapshot, map["t" := t], (table, column) => None, value => "")
  }

  /** `id = literal`. */
  function ById(literal: Value): Expr { Binary(Column(None, "id"), Eq, Literal(literal)) }

  lemma OneTupleSetting(w: World, lib: Library, committed: set<Xid>, snapshot: Snapshot, xmin: Xid, xmax: Xid, v: Value,
                        literal: Value)
    requires Proper(v) && !v.Null? && Proper(literal) && w == OneTuple(lib, committed, snapshot, xmin, xmax, v)
    ensures ExtractEq(ById(literal)) == Some(("id", literal)) && Setting(w, w.tables["t"], ById(literal))
    ensures ScanRefs(w, "t", Some("t"), None, ById(literal)) && Different(w.tables["t"].columns)
  {
    hide Encode, Proper, TableSees;
    var t := w.tables["t"];
    var es := t.indexes["id"];
    assert t.columns[0] == "id" && Place(t.columns, "id") == 0;
    assert es[0] in es && ColumnOf(t, "id", t.heap[0]) == v;
    forall k: nat ensures EntryFaithful(t, "id", es, k) { }
    forall i: nat ensures TupleFaithful(w, t, "id", es, i) { }
    assert '.' !in "id";
    assert Refers(lib, t.columns, Some("t"), None, "id") by { assert t.columns[0] in t.columns; }
    assert Refs(lib, t.columns, Some("t"), Column(None, "id"));
    assert Refs(lib, t.columns, Some("t"), Literal(literal));
  }

  lemma OneVisible(w: World, s: Stored, columns: seq<string>)
    requires s.values.Ok?
    ensures VisibleRows(w, columns, [s], None) == Ok(if TableSees(w, s) then [Row(s.values.value, columns)] else [])
  {
    hide TableSees;
    var one, none: seq<Row> := [s], [];
    assert one[..|one| - 1] == [] && one[|one| - 1] == s;
    assert VisibleRows(w, columns, one[..|one| - 1], None) == Ok(none);
    assert none + [Row(s.values.value, columns)] == [Row(s.values.value, columns)];
  }

  lemma ByIdIs(lib: Library, v: Value, literal: Value)
    ensures Eval(lib, ById(literal), Row([v], ["id"])) == EvalOp(lib, v, Eq, literal)
    ensures EvalOp(lib, v, Eq, literal).Ok?
  {
    var row := Row([v], ["id"]);
    assert Place(row.names, "id") == 0 && '.' !in "id";
    ColumnFound(lib, row, None, "id");
    EqualityEvaluates(lib, v, literal);
    hide EvalOp, Lookup, Place;
  }

  lemma EqualityEvaluates(lib: Library, v: Value, literal: Value)
    ensures EvalOp(lib, v, Eq, literal).Ok?
  {
  }

  /** What the two scans find in the one-tuple table. */
  lemma OneTupleScans(w: World, lib: Library, committed: set<Xid>, snapshot: Snapshot, xmin: Xid, xmax: Xid, v: Value,
                      literal: Value)
    requires Proper(v) && !v.Null? && Proper(literal) && w == OneTuple(lib, committed, snapshot, xmin, xmax, v)
    ensures var s, row := w.tables["t"].heap[0], Row([v], ["id"]);
      && Exec(w, Filter(TableScan("t", None, None), ById(literal)))
         == Ok(if TableSees(w, s) && True(EvalOp(lib, v, Eq, literal)) then [row] else [])
      && Exec(w, EqualityScan(TableScan("t", Some("t"), None), ById(literal)))
         == Ok(if IndexSees(w, s) && v == literal then [row] else [])
  {
    hide Encode, Proper, TableSees, IndexSees, VisibleRows, Eval, EvalOp, Setting, ScanRefs;
    var t := w.tables["t"];
    OneVisible(w, t.heap[0], t.columns);
    assert t.heap == [t.heap[0]];
    ByIdIs(lib, v, literal);
    OneFiltered(lib, Some(ById(literal)), Row([v], ["id"]));
    OneTupleSetting(w, lib, committed, snapshot, xmin, xmax, v, literal);
    IndexFinds(w, "t", None, ById(literal));
    KeyInjective(v, literal);
    OneFiltered(lib, None, Row([v], ["id"]));
    var es := t.indexes["id"];
    assert Named(es, literal, t.heap[0].tid) <==> v == literal by { assert es[0] in es; }
  }

  /** SELECT * FROM t WHERE id = literal, as planned and as optimized. */
  lemma OneTupleAnswers(w: World, lib: Library, committed: set<Xid>, snapshot: Snapshot, xmin: Xid, xmax: Xid, v: Value,
                        literal: Value)
    requires Proper(v) && !v.Null? && Proper(literal) && w == OneTuple(lib, committed, snapshot, xmin, xmax, v)
    ensures var s, row, plan := w.tables["t"].heap[0], Row([v], ["id"]), SelectStar(w, "t", "t", ById(literal));
      && Exec(w, plan) == Ok(if TableSees(w, s) && True(EvalOp(lib, v, Eq, literal)) then [row] else [])
      && Exec(w, Optimize(w, plan)) == Ok(if IndexSees(w, s) && v == literal then [row] else [])
  {
    hide Exec, ScanRefs, TryIndexScan, ProjectRows, Star, Setting, TableSees, IndexSees, EvalOp, Proper, OneTuple, ById;
    hide Tabular, Undotted, Different;
    OneTupleShape(w, lib, committed, snapshot, xmin, xmax, v, literal);
    OneTupleSetting(w, lib, committed, snapshot, xmin, xmax, v, literal);
    SettingShape(w, w.tables["t"], ById(literal));
    OneTupleScans(w, lib, committed, snapshot, xmin, xmax, v, literal);
    var scan, columns, e := TableScan("t", Some("t"), None), w.tables["t"].columns, ById(literal);
    var f := Projection(lib, Star(columns));
    ScanQualified(w, "t", Some("t"), None, e);
    StarRefs(lib, columns, "t");
    var rows, found := Exec(w, Filter(TableScan("t", None, None), e)).value, Exec(w, EqualityScan(scan, e)).value;
    ProjectSame(lib, Star(columns), rows, Loss("t", columns));
    StarKeeps(lib, rows, columns);
    OneRow(found, v);
    StarKeeps(lib, found, columns);
    UnaryIs(w, Filter(scan, e), f);
    UnaryIs(w, EqualityScan(scan, e), f);
  }

  lemma OneRow(rows: seq<Row>, v: Value)
    requires rows == [] || rows == [Row([v], ["id"])]
    ensures Tabular(rows, ["id"])
  {
  }

  /** How the one-tuple table is queried. */
  lemma OneTupleShape(w: World, lib: Library, committed: set<Xid>, snapshot: Snapshot, xmin: Xid, xmax: Xid, v: Value,
                      literal: Value)
    requires Proper(v) && w == OneTuple(lib, committed, snapshot, xmin, xmax, v)
    ensures "t" in w.tables && w.tables["t"].columns == ["id"] && w.lib == lib && ExtractEq(ById(literal)).Some?
    ensures |w.tables["t"].heap| == 1 && w.tables["t"].heap[0] == Stored(Tid(0, 0), xmin, xmax, Ok([v]))
    ensures var scan, e := TableScan("t", Some("t"), None), ById(literal);
      && Optimize(w, Filter(scan, e)) == EqualityScan(scan, e)
      && forall f :: Optimize(w, Unary(Filter(scan, e), f)) == Unary(EqualityScan(scan, e), f)
  {
    hide Encode, Proper;
    var scan, e := TableScan("t", Some("t"), None), ById(literal);
    assert TryIndexScan(w, scan, e) == Some(EqualityScan(scan, e)) && Optimize(w, scan) == scan;
    assert Optimize(w, Filter(scan, e)) == EqualityScan(scan, e);
  }

  /** BEGIN; DELETE FROM t WHERE id = 7; SELECT * FROM t WHERE id = 7: the index scan brings the row back. */
  lemma OwnDeleteReturns(lib: Library)
    ensures var w := OneTuple(lib, {1}, Snapshot(2, 3, {2}), 1, 2, Int4(7));
      var plan := SelectStar(w, "t", "t", ById(Int4(7)));
      && Ongoing(w) && Current(w)
      && Exec(w, plan) == Ok([]) && Exec(w, Optimize(w, plan)) == Ok([Row([Int4(7)], ["id"])])
  {
    var w := OneTuple(lib, {1}, Snapshot(2, 3, {2}), 1, 2, Int4(7));
    hide Exec, Optimize, Encode, EvalOp;
    OneTupleAnswers(w, lib, {1}, Snapshot(2, 3, {2}), 1, 2, Int4(7), Int4(7));
  }

  /** Under REPEATABLE READ the index scan shows what was committed after the snapshot. */
  lemma LaterCommitReturns(lib: Library)
    ensures var w := OneTuple(lib, {3}, Snapshot(2, 3, {2}), 3, INVALID_XID, Int4(7));
      var plan := SelectStar(w, "t", "t", ById(Int4(7)));
      && Ongoing(w)
      && Exec(w, plan) == Ok([]) && Exec(w, Optimize(w, plan)) == Ok([Row([Int4(7)], ["id"])])
  {
    var w := OneTuple(lib, {3}, Snapshot(2, 3, {2}), 3, INVALID_XID, Int4(7));
    hide Exec, Optimize, Encode, EvalOp;
    OneTupleAnswers(w, lib, {3}, Snapshot(2, 3, {2}), 3, INVALID_XID, Int4(7), Int4(7));
  }

  /** WHERE id = 7 on a BIGINT column: the literal is an Int4, whose key is not the key of Int8(7). */
  lemma NarrowLiteralLost(lib: Library)
    ensures var w := OneTuple(lib, {1}, Snapshot(2, 3, {2}), 1, INVALID_XID, Int8(7));
      var plan := SelectStar(w, "t", "t", ById(Int4(7)));
      && Ongoing(w) && Current(w)
      && Exec(w, plan) == Ok([Row([Int8(7)], ["id"])]) && Exec(w, Optimize(w, plan)) == Ok([])
  {
    var w := OneTuple(lib, {1}, Snapshot(2, 3, {2}), 1, INVALID_XID, Int8(7));
    hide Exec, Optimize, Encode, EvalOp;
    OneTupleAnswers(w, lib, {1}, Snapshot(2, 3, {2}), 1, INVALID_XID, Int8(7), Int4(7));
    SevenIsSeven(lib);
  }

  /** Without a select list the answers differ even where nothing is lost: the index scan drops the alias. */
  lemma AliasDropped(lib: Library)
    ensures var w := OneTuple(lib, {1}, Snapshot(2, 3, {2}), 1, INVALID_XID, Int4(7));
      var plan := Filter(TableScan("t", Some("t"), None), ById(Int4(7)));
      && Exec(w, plan) == Ok([Row([Int4(7), Int4(7)], ["t.id", "id"])])
      && Exec(w, Optimize(w, plan)) == Ok([Row([Int4(7)], ["id"])])
  {
    var w := OneTuple(lib, {1}, Snapshot(2, 3, {2}), 1, INVALID_XID, Int4(7));
    assert TableSees(w, w.tables["t"].heap[0]) && IndexSees(w, w.tables["t"].heap[0]);
    hide Exec, Optimize, Encode, EvalOp;
    SevenIsSeven(lib);
    AliasGone(w, lib, {1}, Snapshot(2, 3, {2}), 1, INVALID_XID, Int4(7));
  }

  lemma AliasGone(w: World, lib: Library, committed: set<Xid>, snapshot: Snapshot, xmin: Xid, xmax: Xid, v: Value)
    requires Proper(v) && !v.Null? && w == OneTuple(lib, committed, snapshot, xmin, xmax, v)
    requires TableSees(w, w.tables["t"].heap[0]) && IndexSees(w, w.tables["t"].heap[0])
    requires True(EvalOp(lib, v, Eq, v))
    ensures var plan := Filter(TableScan("t", Some("t"), None), ById(v));
      Exec(w, plan) == Ok([Row([v, v], ["t.id", "id"])]) && Exec(w, Optimize(w, plan)) == Ok([Row([v], ["id"])])
  {
    hide Exec, Encode, Qualified, Optimize, TableSees, IndexSees, EvalOp, Setting, ScanRefs, OneTuple, ById, Proper;
    var row := Row([v], ["id"]);
    OneTupleShape(w, lib, committed, snapshot, xmin, xmax, v, v);
    QualifiedOne(row, "t", "id", v);
    OneTupleSetting(w, lib, committed, snapshot, xmin, xmax, v, v);
    OneTupleScans(w, lib, committed, snapshot, xmin, xmax, v, v);
    ScanQualified(w, "t", Some("t"), None, ById(v));
    assert QualifiedAll([row], Some("t")) == [Qualified(row, Some("t"))];
    assert "t" + "." + "id" == "t.id";
  }

  lemma SevenIsSeven(lib: Library)
    ensures True(EvalOp(lib, Int4(7), Eq, Int4(7))) && True(EvalOp(lib, Int8(7), Eq, Int4(7)))
  {
  }

  lemma QualifiedOne(row: Row, a: string, name: string, v: Value)
    requires row == Row([v], [name])
    ensures Qualified(row, Some(a)) == Row([v, v], [a + "." + name, name])
  {
    assert row.values[1..] == [] && row.names[1..] == [];
    assert [v, v] + Twice([]) == [v, v];
    assert [a + "." + name, name] + QualifiedNames([], a) == [a + "." + name, name];
  }
}
