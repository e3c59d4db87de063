/** Plans, their execution, and the rewriting of a filtered table scan into an index scan. */
module Optimizer {
  import opened Bytes
  import opened Wrappers
  import opened BTreeNodes
  import opened BTreePaths
  import opened Values
  import opened SortKeys
  import opened Queries
  import Savepoints

  type Xid = Savepoints.Xid
  const INVALID_XID: Xid := Savepoints.INVALID_XID

  /**
   * Projection, sorting, limit, aggregation and windows are functions of one input, joins and set
   * operations of two.
   */
  datatype Plan =
    | TableScan(table: string, alias: Option<string>, filter: Option<Expr>)
    | IndexScan(table: string, column: string, eq: Option<Value>, low: Option<Value>, high: Option<Value>,
                filter: Option<Expr>)
    | Filter(input: Plan, condition: Expr)
    | Unary(input: Plan, apply: seq<Row> -> Result<seq<Row>>)
    | Both(left: Plan, right: Plan, combine: (seq<Row>, seq<Row>) -> Result<seq<Row>>)
    | Leaf(rows: Result<seq<Row>>)

  /** A tuple of the heap: who made and who deleted it, and its decoded values. */
  datatype Stored = Stored(tid: Tid, xmin: Xid, xmax: Xid, values: Result<seq<Value>>)

  /** What was in progress when the snapshot was taken; transactions from `xmax` on had not begun. */
  datatype Snapshot = Snapshot(xmin: Xid, xmax: Xid, inProgress: set<Xid>)

  datatype Table = Table(columns: seq<string>, heap: seq<Stored>, indexes: map<string, seq<LeafEntry>>)

  /** Statistics of a column: distinct values, and the commonest ones with their frequencies. */
  datatype Stats = Stats(distinct: real, common: seq<(string, real)>)

  /** The database as transaction `xid` finds it. */
  datatype World = World(
    lib: Library,
    xid: Xid,
    committed: set<Xid>,
    snapshot: Snapshot,
    tables: map<string, Table>,
    stats: (string, string) -> Option<Stats>,
    display: Value -> string)

  // -------------------------------------------------------------- visibility

  predicate SeenBy(s: Snapshot, x: Xid) {
    x != INVALID_XID && (x < s.xmin || (x < s.xmax && x !in s.inProgress))
  }

  /** What a table scan sees: own work at once, the work of others through the snapshot. */
  predicate TableSees(w: World, s: Stored) {
    if s.xmin == w.xid then s.xmax != w.xid
    else if s.xmax == w.xid then false
    else
      && s.xmin in w.committed && SeenBy(w.snapshot, s.xmin)
      && (s.xmax == INVALID_XID || !(s.xmax in w.committed && SeenBy(w.snapshot, s.xmax)))
  }

  /** What an index scan sees: it asks neither the snapshot nor, for the tuples of others, who deleted them. */
  predicate IndexSees(w: World, s: Stored) {
    if s.xmin == w.xid then s.xmax != w.xid
    else s.xmin in w.committed && (s.xmax == INVALID_XID || s.xmax !in w.committed)
  }

  predicate Ongoing(w: World) {
    w.xid != INVALID_XID && w.xid !in w.committed && INVALID_XID !in w.committed
  }

  /** A tuple of someone else that the running transaction has deleted. */
  predicate OwnDeleted(w: World, s: Stored) {
    s.xmin != w.xid && s.xmin in w.committed && s.xmax == w.xid
  }

  /** The snapshot of a read-committed statement sees everything committed. */
  ghost predicate Current(w: World) {
    forall x: Xid :: x in w.committed ==> SeenBy(w.snapshot, x)
  }

  /** Exactly where the two tests differ. */
  lemma SeesDiffer(w: World, s: Stored)
    requires Ongoing(w)
    ensures IndexSees(w, s) && !TableSees(w, s) <==>
      || OwnDeleted(w, s)
      || (s.xmin != w.xid && s.xmin in w.committed && !SeenBy(w.snapshot, s.xmin) && s.xmax !in w.committed)
    ensures TableSees(w, s) && !IndexSees(w, s) <==>
      && s.xmin != w.xid && s.xmin in w.committed && SeenBy(w.snapshot, s.xmin)
      && s.xmax != w.xid && s.xmax in w.committed && !SeenBy(w.snapshot, s.xmax)
    ensures Current(w) ==> (TableSees(w, s) <==> IndexSees(w, s) && !OwnDeleted(w, s))
  {
  }

  /** A snapshot taken by transaction `own` while `active` run and `next` is the next number. */
  predicate TakenFrom(s: Snapshot, active: set<Xid>, next: Xid, own: Xid) {
    && s.xmax == next && s.inProgress == active
    && (forall x :: x in active && x != own ==> s.xmin <= x)
    && (s.xmin == next || (s.xmin in active && s.xmin != own))
  }

  /**
   * What others have done shows in a snapshot exactly if they had begun and were no longer running when it was
   * taken.
   */
  lemma SnapshotShows(s: Snapshot, active: set<Xid>, next: Xid, own: Xid, x: Xid)
    requires TakenFrom(s, active, next, own) && x != own && forall y :: y in active ==> y < next
    ensures SeenBy(s, x) <==> x != INVALID_XID && x < next && x !in active
  {
  }

  /** With a snapshot of now a scan sees the tuples a session sees: made by itself or committed, and not so deleted. */
  lemma CurrentSees(w: World, s: Stored)
    requires Ongoing(w) && Current(w)
    ensures TableSees(w, s) <==>
      (s.xmin == w.xid || s.xmin in w.committed) && s.xmax != w.xid && (s.xmin == w.xid || s.xmax !in w.committed)
  {
  }

  /** The rewriting is done exactly for an equality of a column with a literal where the column has an index. */
  lemma RewrittenExact(w: World, plan: Plan, e: Expr)
    ensures TryIndexScan(w, plan, e).Some? <==>
      && plan.TableScan? && e.Binary? && e.op.Eq?
      && ((e.left.Column? && e.right.Literal? && Indexed(w, plan.table, e.left.name))
          || (e.left.Literal? && e.right.Column? && Indexed(w, plan.table, e.right.name)))
  {
    OnlyEqualities(w, plan, e);
  }

  // --------------------------------------------------------------- executing

  function FilterRows(lib: Library, cond: Expr, rows: seq<Row>): Result<seq<Row>> {
    if rows == [] then Ok([])
    else
      var before := FilterRows(lib, cond, rows[..|rows| - 1]);
      if before.Err? then before
      else
        var v := Eval(lib, cond, rows[|rows| - 1]);
        if v.Err? then Err(v.error) else Ok(before.value + if True(v) then [rows[|rows| - 1]] else [])
  }

  function MaybeFilter(lib: Library, filter: Option<Expr>, rows: seq<Row>): Result<seq<Row>> {
    if filter.None? then Ok(rows) else FilterRows(lib, filter.value, rows)
  }

  /** With an alias every column is there twice, qualified and bare. */
  function Qualified(row: Row, alias: Option<string>): Row {
    if alias.None? then row else Row(Twice(row.values), QualifiedNames(row.names, alias.value))
  }

  function Twice(vs: seq<Value>): seq<Value> { if vs == [] then [] else [vs[0], vs[0]] + Twice(vs[1..]) }

  function QualifiedNames(names: seq<string>, alias: string): seq<string> {
    if names == [] then [] else [alias + "." + names[0], names[0]] + QualifiedNames(names[1..], alias)
  }

  /** The visible tuples in heap order, up to the first that cannot be decoded. */
  function VisibleRows(w: World, columns: seq<string>, heap: seq<Stored>, alias: Option<string>): Result<seq<Row>>
    decreases |heap|
  {
    if heap == [] then Ok([])
    else
      var before, last := VisibleRows(w, columns, heap[..|heap| - 1], alias), heap[|heap| - 1];
      if before.Err? || !TableSees(w, last) then before
      else if last.values.Err? then Err(last.values.error)
      else Ok(before.value + [Qualified(Row(last.values.value, columns), alias)])
  }

  /** The place of a tuple in the heap, or its length. */
  function TupleAt(heap: seq<Stored>, tid: Tid): (p: nat)
    ensures p <= |heap| && (p < |heap| ==> heap[p].tid == tid)
    ensures forall i :: 0 <= i < p ==> heap[i].tid != tid
  {
    if heap == [] || heap[0].tid == tid then 0
    else
      var q := TupleAt(heap[1..], tid);
      assert forall i :: 1 <= i < q + 1 ==> heap[i] == heap[1..][i - 1];
      q + 1
  }

  /** The tuples the index names, fetched one by one: missing and invisible ones are skipped. */
  function Fetch(w: World, t: Table, es: seq<LeafEntry>, filter: Option<Expr>): Result<seq<Row>>
    decreases |es|
  {
    if es == [] then Ok([])
    else
      var before := Fetch(w, t, es[..|es| - 1], filter);
      var p := TupleAt(t.heap, es[|es| - 1].tid);
      if before.Err? || p == |t.heap| || !IndexSees(w, t.heap[p]) then before
      else if t.heap[p].values.Err? then Err(t.heap[p].values.error)
      else
        var row := MaybeFilter(w.lib, filter, [Row(t.heap[p].values.value, t.columns)]);
        if row.Err? then row else Ok(before.value + row.value)
  }

  function Bounds(eq: Option<Value>, bound: Option<Value>): Option<Key>
    requires (eq.Some? ==> Proper(eq.value)) && (bound.Some? ==> Proper(bound.value))
  {
    if eq.Some? then KeyOf(eq) else KeyOf(bound)
  }

  predicate ProperOption(v: Option<Value>) { v.Some? ==> Proper(v.value) }

  function Exec(w: World, plan: Plan): Result<seq<Row>> {
    match plan
    case TableScan(table, alias, filter) =>
      if table !in w.tables then Err(Failed(0))
      else
        var rows := VisibleRows(w, w.tables[table].columns, w.tables[table].heap, alias);
        if rows.Err? then rows else MaybeFilter(w.lib, filter, rows.value)
    case IndexScan(table, column, eq, low, high, filter) =>
      if table !in w.tables || column !in w.tables[table].indexes then Err(Failed(1))
      else if !ProperOption(eq) || !ProperOption(low) || !ProperOption(high) then Err(Failed(2))
      else
        var t := w.tables[table];
        Fetch(w, t, Range(t.indexes[column], Bounds(eq, low), Bounds(eq, high)), filter)
    case Filter(input, cond) =>
      var rows := Exec(w, input);
      if rows.Err? then rows else FilterRows(w.lib, cond, rows.value)
    case Unary(input, f) =>
      var rows := Exec(w, input);
      if rows.Err? then rows else f(rows.value)
    case Both(left, right, f) =>
      var l := Exec(w, left);
      if l.Err? then l
      else
        var r := Exec(w, right);
        if r.Err? then r else f(l.value, r.value)
    case Leaf(rows) => rows
  }

  // -------------------------------------------------------------- optimizing

  /** `column = literal`, written either way round. */
  function ExtractEq(e: Expr): Option<(string, Value)> {
    match e
    case Binary(l, op, r) =>
      if !op.Eq? then None
      else if l.Column? && r.Literal? then Some((l.name, r.value))
      else if l.Literal? && r.Column? then Some((r.name, l.value))
      else None
    case _ => None
  }

  /** A comparison of a column with a literal, as the bounds it puts on the column. */
  function ExtractRange(e: Expr): Option<(string, Option<Value>, Option<Value>)> {
    match e
    case Binary(l, op, r) =>
      if l.Column? && r.Literal? && (op.Gt? || op.Ge?) then Some((l.name, Some(r.value), None))
      else if l.Column? && r.Literal? && (op.Lt? || op.Le?) then Some((l.name, None, Some(r.value)))
      else if l.Literal? && r.Column? && (op.Lt? || op.Le?) then Some((r.name, Some(l.value), None))
      else if l.Literal? && r.Column? && (op.Gt? || op.Ge?) then Some((r.name, None, Some(l.value)))
      else None
    case _ => None
  }

  function Frequency(common: seq<(string, real)>, text: string, otherwise: real): real {
    if common == [] then otherwise
    else if common[0].0 == text then common[0].1
    else Frequency(common[1..], text, otherwise)
  }

  function Even(s: Stats): real { 1.0 / if s.distinct < 1.0 then 1.0 else s.distinct }

  /** The estimated fraction of rows a predicate keeps. */
  function Selectivity(w: World, table: string, e: Expr): real {
    match e
    case Binary(l, op, r) =>
      if !l.Column? && !r.Column? then 0.5
      else
        var s := w.stats(table, if l.Column? then l.name else r.name);
        if s.None? then 0.5
        else if op.Eq? then
          if r.Literal? then Frequency(s.value.common, w.display(r.value), Even(s.value))
          else if l.Literal? then Frequency(s.value.common, w.display(l.value), Even(s.value))
          else Even(s.value)
        else if op.Lt? || op.Le? || op.Gt? || op.Ge? then 0.3
        else 0.5
    case _ => 0.5
  }

  predicate Indexed(w: World, table: string, column: string) {
    table in w.tables && column in w.tables[table].indexes
  }

  function TryIndexScan(w: World, plan: Plan, e: Expr): Option<Plan> {
    match plan
    case TableScan(table, _, filter) =>
      var eq, range := ExtractEq(e), ExtractRange(e);
      if table !in w.tables then None
      else if eq.Some? && Indexed(w, table, eq.value.0) then
        Some(IndexScan(table, eq.value.0, Some(eq.value.1), None, None, filter))
      else if range.Some? && Indexed(w, table, range.value.0) && Selectivity(w, table, e) < 0.20 then
        Some(IndexScan(table, range.value.0, None, range.value.1, range.value.2, filter))
      else None
    case _ => None
  }

  function Optimize(w: World, plan: Plan): Plan {
    match plan
    case Filter(input, cond) =>
      var inner := Optimize(w, input);
      var scan := TryIndexScan(w, inner, cond);
      if scan.Some? then scan.value else Filter(inner, cond)
    case Unary(input, f) => Unary(Optimize(w, input), f)
    case Both(left, right, f) => Both(Optimize(w, left), Optimize(w, right), f)
    case _ => plan
  }

  // ------------------------------------------------------ ranges never fire

  /** The estimate for a range is 0.3, or 0.5 without statistics, and never below 0.2. */
  lemma RangeSelectivity(w: World, table: string, e: Expr)
    requires ExtractRange(e).Some?
    ensures Selectivity(w, table, e) == 0.3 || Selectivity(w, table, e) == 0.5
  {
  }

  function EqualityScan(plan: Plan, e: Expr): Plan
    requires plan.TableScan? && ExtractEq(e).Some?
  {
    IndexScan(plan.table, ExtractEq(e).value.0, Some(ExtractEq(e).value.1), None, None, plan.filter)
  }

  /** So every rewriting is of an equality with a literal. */
  lemma OnlyEqualities(w: World, plan: Plan, e: Expr)
    ensures TryIndexScan(w, plan, e).Some? ==> ExtractEq(e).Some? && plan.TableScan?
    ensures TryIndexScan(w, plan, e).Some? ==> TryIndexScan(w, plan, e) == Some(EqualityScan(plan, e))
  {
    if ExtractRange(e).Some? && plan.TableScan? {
      RangeSelectivity(w, plan.table, e);
    }
  }

  // --------------------------------------------------------- the hypotheses

  /** The value of an indexed column in a tuple. */
  function ColumnOf(t: Table, column: string, s: Stored): Value
    requires s.values.Ok?
  {
    var c := Place(t.columns, column);
    if c < |s.values.value| then s.values.value[c] else Null
  }

  predicate TupleFaithful(w: World, t: Table, column: string, es: seq<LeafEntry>, i: nat) {
    i < |t.heap| && TableSees(w, t.heap[i]) ==>
      && t.heap[i].values.Ok? && |t.heap[i].values.value| == |t.columns|
      && var v := ColumnOf(t, column, t.heap[i]);
      Proper(v) && (!v.Null? ==> LeafEntry(Encode(v), t.heap[i].tid) in es)
  }

  predicate EntryFaithful(t: Table, column: string, es: seq<LeafEntry>, k: nat) {
    k < |es| ==>
      var p := TupleAt(t.heap, es[k].tid);
      p < |t.heap| && t.heap[p].values.Ok? ==>
        var v := ColumnOf(t, column, t.heap[p]);
        Proper(v) && !v.Null? && es[k].key == Encode(v)
  }

  /** The index maps each non-NULL key to its one tuple; tuples have different places. */
  ghost predicate Faithful(w: World, t: Table, column: string, es: seq<LeafEntry>) {
    && Sorted(Keys(es))
    && Place(t.columns, column) < |t.columns|
    && (forall k :: 0 <= k < |t.columns| ==> '.' !in t.columns[k])
    && (forall i, j :: 0 <= i < j < |t.heap| ==> t.heap[i].tid != t.heap[j].tid)
    && (forall i: nat {:trigger TupleFaithful(w, t, column, es, i)} :: TupleFaithful(w, t, column, es, i))
    && (forall k: nat {:trigger EntryFaithful(t, column, es, k)} :: EntryFaithful(t, column, es, k))
  }

  /** The equality is true of a column's value. */
  predicate Holds(lib: Library, e: Expr, v: Value, literal: Value) {
    match e
    case Binary(l, _, _) => True(if l.Literal? then EvalOp(lib, literal, Eq, v) else EvalOp(lib, v, Eq, literal))
    case _ => false
  }

  /** The equality says of the column's value what the key says: that it is the literal. */
  predicate Agrees(lib: Library, e: Expr, v: Value, literal: Value) {
    Holds(lib, e, v, literal) <==> v == literal && !v.Null?
  }

  /** In particular for a literal of the column's type, one of the plain types, and for NULL. */
  lemma AgreesByType(lib: Library, e: Expr, v: Value, literal: Value)
    requires e.Binary? && (literal.Null? || v.Null? || (Plain(literal) && SameType(v, literal)))
    ensures Agrees(lib, e, v, literal)
  {
    hide Compare, Equals;
    if !literal.Null? && !v.Null? {
      EqualIsSame(lib, v, literal);
      EqualIsSame(lib, literal, v);
    }
  }

  function RowOf(t: Table, i: nat): Row
    requires i < |t.heap| && t.heap[i].values.Ok?
  {
    Row(t.heap[i].values.value, t.columns)
  }

  predicate Accepts(lib: Library, filter: Option<Expr>, row: Row) {
    filter.Some? ==> True(Eval(lib, filter.value, row))
  }

  /** The filter has a value, and it is not true. */
  predicate Rejects(lib: Library, filter: Option<Expr>, row: Row) {
    filter.Some? && Eval(lib, filter.value, row).Ok? && !True(Eval(lib, filter.value, row))
  }

  /** The index has the tuple under the literal's key. */
  predicate Named(es: seq<LeafEntry>, literal: Value, tid: Tid) {
    Proper(literal) && LeafEntry(Encode(literal), tid) in es
  }

  /**
   * What one tuple must satisfy.  Seen by both scans: the filter rejects it, or
   * the equality says of it what the key says.  Seen by the table scan alone:
   * the filter rejects it or the equality is not true of it.  Seen by the index
   * scan alone and under the literal's key: the filter rejects it.
   */
  predicate TupleSafe(w: World, t: Table, filter: Option<Expr>, e: Expr, i: nat)
    requires ExtractEq(e).Some? && ExtractEq(e).value.0 in t.indexes
  {
    i < |t.heap| ==>
      var s, column, literal := t.heap[i], ExtractEq(e).value.0, ExtractEq(e).value.1;
      if TableSees(w, s) then
        s.values.Ok? && Accepts(w.lib, filter, RowOf(t, i)) ==>
          var v := ColumnOf(t, column, s);
          if IndexSees(w, s) then Agrees(w.lib, e, v, literal) else !Holds(w.lib, e, v, literal)
      else
        IndexSees(w, s) && Named(t.indexes[column], literal, s.tid) ==>
          s.values.Ok? && Rejects(w.lib, filter, RowOf(t, i))
  }

  ghost predicate AllSafe(w: World, t: Table, filter: Option<Expr>, e: Expr)
    requires ExtractEq(e).Some? && ExtractEq(e).value.0 in t.indexes
  {
    forall i: nat {:trigger TupleSafe(w, t, filter, e, i)} :: TupleSafe(w, t, filter, e, i)
  }

  // --------------------------------------------------------------- the proof

  /** On an unaliased row a column, however qualified, is found by its bare name. */
  lemma ColumnFound(lib: Library, row: Row, table: Option<string>, name: string)
    requires |row.values| == |row.names| && Place(row.names, name) < |row.names|
    requires forall k :: 0 <= k < |row.names| ==> '.' !in row.names[k]
    ensures Lookup(lib, row, table, name) == Ok(row.values[Place(row.names, name)])
  {
    if table.Some? {
      DottedMissing(row, table.value, name);
      DottedMissing(row, lib.lower(table.value), lib.lower(name));
    }
    hide Place, Matches;
  }

  lemma DottedMissing(row: Row, table: string, name: string)
    requires forall k :: 0 <= k < |row.names| ==> '.' !in row.names[k]
    ensures Get(row, table + "." + name).None?
  {
    var full := table + "." + name;
    assert full[|table|] == '.';
    assert '.' in full;
  }

  lemma EqualityIs(lib: Library, e: Expr, row: Row, v: Value)
    requires ExtractEq(e).Some? && |row.values| == |row.names| && Place(row.names, ExtractEq(e).value.0) < |row.names|
    requires forall k :: 0 <= k < |row.names| ==> '.' !in row.names[k]
    requires v == row.values[Place(row.names, ExtractEq(e).value.0)]
    ensures True(Eval(lib, e, row)) <==> Holds(lib, e, v, ExtractEq(e).value.1)
  {
    if e.left.Column? {
      ColumnFound(lib, row, e.left.table, e.left.name);
    } else {
      ColumnFound(lib, row, e.right.table, e.right.name);
    }
    hide Lookup, EvalOp, Place;
  }

  ghost function Any(): Row -> bool { r => true }

  ghost function AndTrue(test: Row -> bool, lib: Library, e: Expr): Row -> bool {
    r => test(r) && True(Eval(lib, e, r))
  }

  /** The rows of the tuples the table scan sees that satisfy a test. */
  ghost function Chosen(w: World, t: Table, n: nat, test: Row -> bool): seq<Row>
    requires n <= |t.heap|
    decreases n
  {
    if n == 0 then []
    else Chosen(w, t, n - 1, test) + if Keeps(w, t, n - 1, test) then [RowOf(t, n - 1)] else []
  }

  ghost predicate Keeps(w: World, t: Table, i: nat, test: Row -> bool)
    requires i < |t.heap|
  {
    TableSees(w, t.heap[i]) && t.heap[i].values.Ok? && test(RowOf(t, i))
  }

  lemma {:induction false} VisibleAre(w: World, t: Table, n: nat)
    requires n <= |t.heap|
    requires forall i :: 0 <= i < n && TableSees(w, t.heap[i]) ==> t.heap[i].values.Ok?
    ensures VisibleRows(w, t.columns, t.heap[..n], None) == Ok(Chosen(w, t, n, Any()))
    decreases n
  {
    hide TableSees;
    if n > 0 {
      VisibleAre(w, t, n - 1);
      assert t.heap[..n][..n - 1] == t.heap[..n - 1];
      if !TableSees(w, t.heap[n - 1]) {
        assert Chosen(w, t, n - 1, Any()) + [] == Chosen(w, t, n - 1, Any());
      }
    }
  }

  lemma FilterLast(lib: Library, cond: Expr, rows: seq<Row>, r: Row)
    requires FilterRows(lib, cond, rows + [r]).Ok?
    ensures FilterRows(lib, cond, rows).Ok?
    ensures FilterRows(lib, cond, rows + [r]) ==
      Ok(FilterRows(lib, cond, rows).value + if True(Eval(lib, cond, r)) then [r] else [])
  {
    hide Eval;
    assert (rows + [r])[..|rows|] == rows;
  }

  /** Filtering chosen rows chooses them by both tests. */
  lemma {:induction false} FilterChosen(w: World, cond: Expr, t: Table, n: nat, test: Row -> bool)
    requires n <= |t.heap| && FilterRows(w.lib, cond, Chosen(w, t, n, test)).Ok?
    ensures FilterRows(w.lib, cond, Chosen(w, t, n, test)) == Ok(Chosen(w, t, n, AndTrue(test, w.lib, cond)))
    decreases n
  {
    hide Eval, TableSees;
    if n > 0 {
      var before, both := Chosen(w, t, n - 1, test), AndTrue(test, w.lib, cond);
      if Keeps(w, t, n - 1, test) {
        FilterLast(w.lib, cond, before, RowOf(t, n - 1));
      } else {
        assert before + [] == before;
      }
      FilterChosen(w, cond, t, n - 1, test);
      assert Chosen(w, t, n - 1, both) + [] == Chosen(w, t, n - 1, both);
    }
  }

  /** No row is chosen, or the one of tuple `p`. */
  lemma {:induction false} ChosenNone(w: World, t: Table, n: nat, test: Row -> bool)
    requires n <= |t.heap| && forall i :: 0 <= i < n ==> !Keeps(w, t, i, test)
    ensures Chosen(w, t, n, test) == []
    decreases n
  {
    if n > 0 { ChosenNone(w, t, n - 1, test); }
  }

  lemma {:induction false} ChosenOne(w: World, t: Table, n: nat, test: Row -> bool, p: nat)
    requires p < n <= |t.heap| && forall i :: 0 <= i < n ==> (Keeps(w, t, i, test) <==> i == p)
    ensures t.heap[p].values.Ok? && Chosen(w, t, n, test) == [RowOf(t, p)]
    decreases n
  {
    assert Keeps(w, t, p, test);
    if p == n - 1 { ChosenNone(w, t, n - 1, test); } else { ChosenOne(w, t, n - 1, test, p); }
  }

  lemma {:induction false} ChosenTakes(w: World, t: Table, n: nat, test: Row -> bool, i: nat)
    requires i < n <= |t.heap| && Keeps(w, t, i, test)
    ensures RowOf(t, i) in Chosen(w, t, n, test)
    decreases n
  {
    if i < n - 1 { ChosenTakes(w, t, n - 1, test, i); }
  }

  /** An equality scan of the index finds the entry of the key, if there is one. */
  lemma {:induction false} RangeOne(es: seq<LeafEntry>, key: Key, k: nat)
    requires Sorted(Keys(es)) && k < |es| && es[k].key == key
    ensures Range(es, Some(key), Some(key)) == [es[k]]
  {
    assert Keys(es)[k] == key;
    var before, after := es[..k], es[k + 1..];
    forall i | 0 <= i < |before| ensures !InRange(before[i].key, Some(key), Some(key)) {
      assert Bytes.Lt(Keys(es)[i], Keys(es)[k]);
    }
    forall i | 0 <= i < |after| ensures !InRange(after[i].key, Some(key), Some(key)) {
      assert Bytes.Lt(Keys(es)[k], Keys(es)[k + 1 + i]);
    }
    RangeEmpty(before, Some(key), Some(key));
    RangeEmpty(after, Some(key), Some(key));
    LtIrreflexive(key);
    RangeSelf(es[k], key);
    assert es == before + ([es[k]] + after);
    RangeAppend(before, [es[k]] + after, Some(key), Some(key));
    RangeAppend([es[k]], after, Some(key), Some(key));
  }

  lemma RangeSelf(e: LeafEntry, key: Key)
    requires e.key == key && !Bytes.Lt(key, key)
    ensures Range([e], Some(key), Some(key)) == [e]
  {
  }

  lemma RangeNone(es: seq<LeafEntry>, key: Key)
    requires forall k :: 0 <= k < |es| ==> es[k].key != key
    ensures Range(es, Some(key), Some(key)) == []
  {
    LtOrder();
    RangeEmpty(es, Some(key), Some(key));
  }

  /** Places in the heap are found by their tuple identifiers. */
  lemma PlaceOfTuple(t: Table, i: nat)
    requires i < |t.heap| && forall a, b :: 0 <= a < b < |t.heap| ==> t.heap[a].tid != t.heap[b].tid
    ensures TupleAt(t.heap, t.heap[i].tid) == i
  {
  }

  /** A tuple the table scan sees has the literal exactly when the index names it under the literal's key. */
  lemma NamedTuple(w: World, t: Table, column: string, es: seq<LeafEntry>, literal: Value, k: nat, i: nat)
    requires Faithful(w, t, column, es) && Proper(literal) && k < |es| && es[k].key == Encode(literal)
    requires i < |t.heap| && TableSees(w, t.heap[i]) && t.heap[i].values.Ok?
    ensures var v := ColumnOf(t, column, t.heap[i]);
      v == literal && !v.Null? <==> es[k].tid == t.heap[i].tid
  {
    hide Encode, ColumnOf, Proper, Place, TableSees;
    assert TupleFaithful(w, t, column, es, i) && EntryFaithful(t, column, es, k);
    PlaceOfTuple(t, i);
    var v := ColumnOf(t, column, t.heap[i]);
    KeyInjective(v, literal);
    if v == literal && !v.Null? {
      var e := LeafEntry(Encode(v), t.heap[i].tid);
      var j :| 0 <= j < |es| && es[j] == e;
      SameEntry(es, j, k);
    }
  }

  lemma SameEntry(es: seq<LeafEntry>, j: nat, k: nat)
    requires Sorted(Keys(es)) && j < |es| && k < |es| && es[j].key == es[k].key
    ensures j == k
  {
    LtIrreflexive(es[j].key);
    assert Keys(es)[j] == Keys(es)[k] == es[j].key;
  }

  /** What fetching the one entry gives. */
  lemma FetchOne(w: World, t: Table, e: LeafEntry, filter: Option<Expr>, p: nat)
    requires p == TupleAt(t.heap, e.tid)
    ensures (p == |t.heap| || !IndexSees(w, t.heap[p])) ==> Fetch(w, t, [e], filter) == Ok([])
    ensures p < |t.heap| && IndexSees(w, t.heap[p]) && t.heap[p].values.Err? ==>
      Fetch(w, t, [e], filter) == Err(t.heap[p].values.error)
    ensures p < |t.heap| && IndexSees(w, t.heap[p]) && t.heap[p].values.Ok? ==>
      Fetch(w, t, [e], filter) == MaybeFilter(w.lib, filter, [RowOf(t, p)])
  {
    hide Eval, IndexSees, MaybeFilter;
    assert [e][..0] == [];
    if p < |t.heap| && IndexSees(w, t.heap[p]) && t.heap[p].values.Ok? {
      var out := MaybeFilter(w.lib, filter, [RowOf(t, p)]);
      if out.Ok? { assert [] + out.value == out.value; }
    }
  }

  lemma OneFiltered(lib: Library, filter: Option<Expr>, row: Row)
    ensures MaybeFilter(lib, filter, [row]) ==
      if filter.None? then Ok([row])
      else if Eval(lib, filter.value, row).Err? then Err(Eval(lib, filter.value, row).error)
      else if True(Eval(lib, filter.value, row)) then Ok([row]) else Ok([])
  {
    hide Eval;
    var one := [row];
    assert one[..|one| - 1] == [] && one[|one| - 1] == row;
    var none: seq<Row> := [];
    assert none + one == one && none + none == none;
    if filter.Some? {
      assert FilterRows(lib, filter.value, one[..|one| - 1]) == Ok(none);
    }
  }

  /** The tests of a filtered scan. */
  ghost function Tests(lib: Library, filter: Option<Expr>, e: Expr): Row -> bool {
    AndTrue(if filter.Some? then AndTrue(Any(), lib, filter.value) else Any(), lib, e)
  }

  /** A filtered table scan that succeeds chooses the rows it sees by its tests. */
  lemma ScanChooses(w: World, table: string, filter: Option<Expr>, e: Expr)
    requires table in w.tables
    requires forall i :: 0 <= i < |w.tables[table].heap| && TableSees(w, w.tables[table].heap[i]) ==>
      w.tables[table].heap[i].values.Ok?
    requires Exec(w, Filter(TableScan(table, None, filter), e)).Ok?
    ensures var t := w.tables[table];
      Exec(w, Filter(TableScan(table, None, filter), e)) == Ok(Chosen(w, t, |t.heap|, Tests(w.lib, filter, e)))
  {
    hide Eval, TableSees;
    var t := w.tables[table];
    var n := |t.heap|;
    VisibleAre(w, t, n);
    assert t.heap[..n] == t.heap;
    if filter.None? {
      FilterChosen(w, e, t, n, Any());
    } else {
      FilterChosen(w, filter.value, t, n, Any());
      FilterChosen(w, e, t, n, AndTrue(Any(), w.lib, filter.value));
    }
  }

  /** A filter that succeeded on all the rows succeeded on each. */
  lemma {:induction false} FilterTotal(lib: Library, cond: Expr, rows: seq<Row>, r: Row)
    requires FilterRows(lib, cond, rows).Ok? && r in rows
    ensures Eval(lib, cond, r).Ok?
  {
    hide Eval;
    if r != rows[|rows| - 1] { FilterTotal(lib, cond, rows[..|rows| - 1], r); }
  }

  lemma ScanFilterTotal(w: World, table: string, filter: Expr, e: Expr, p: nat)
    requires table in w.tables && p < |w.tables[table].heap| && TableSees(w, w.tables[table].heap[p])
    requires forall i :: 0 <= i < |w.tables[table].heap| && TableSees(w, w.tables[table].heap[i]) ==>
      w.tables[table].heap[i].values.Ok?
    requires Exec(w, Filter(TableScan(table, None, Some(filter)), e)).Ok?
    ensures Eval(w.lib, filter, RowOf(w.tables[table], p)).Ok?
  {
    hide Eval, FilterRows, Chosen, TableSees;
    var t := w.tables[table];
    VisibleAre(w, t, |t.heap|);
    assert t.heap[..|t.heap|] == t.heap;
    ChosenTakes(w, t, |t.heap|, Any(), p);
    FilterTotal(w.lib, filter, Chosen(w, t, |t.heap|, Any()), RowOf(t, p));
  }

  // ------------------------------------------------------------ tuple by tuple

  /** What is known of the table, its index and the equality throughout the proof. */
  ghost predicate Setting(w: World, t: Table, e: Expr) {
    && ExtractEq(e).Some? && ExtractEq(e).value.0 in t.indexes && Proper(ExtractEq(e).value.1)
    && Faithful(w, t, ExtractEq(e).value.0, t.indexes[ExtractEq(e).value.0])
  }

  /** A tuple is kept by the table scan exactly when the filter accepts it and the equality is true of it. */
  lemma KeepsMeans(w: World, t: Table, filter: Option<Expr>, e: Expr, i: nat)
    requires Setting(w, t, e) && i < |t.heap|
    ensures Keeps(w, t, i, Tests(w.lib, filter, e)) <==>
      && TableSees(w, t.heap[i]) && t.heap[i].values.Ok? && Accepts(w.lib, filter, RowOf(t, i))
      && Holds(w.lib, e, ColumnOf(t, ExtractEq(e).value.0, t.heap[i]), ExtractEq(e).value.1)
  {
    hide TableSees, Holds;
    if TableSees(w, t.heap[i]) && t.heap[i].values.Ok? {
      var column := ExtractEq(e).value.0;
      assert TupleFaithful(w, t, column, t.indexes[column], i);
      EqualityIs(w.lib, e, RowOf(t, i), ColumnOf(t, column, t.heap[i]));
    }
    hide Eval, Place, Encode, Proper;
  }

  /** A tuple the index does not name under the key is safe exactly when the table scan drops it. */
  lemma UnnamedSafe(w: World, t: Table, filter: Option<Expr>, e: Expr, i: nat)
    requires Setting(w, t, e) && i < |t.heap|
    requires !Named(t.indexes[ExtractEq(e).value.0], ExtractEq(e).value.1, t.heap[i].tid)
    ensures TupleSafe(w, t, filter, e, i) <==> !Keeps(w, t, i, Tests(w.lib, filter, e))
  {
    hide TableSees, IndexSees, Holds, Eval, Place, Keeps, Tests;
    KeepsMeans(w, t, filter, e, i);
    var column, literal := ExtractEq(e).value.0, ExtractEq(e).value.1;
    if TableSees(w, t.heap[i]) {
      assert TupleFaithful(w, t, column, t.indexes[column], i);
    }
    hide Encode, Proper;
  }

  /** The tuple named under the key, by who sees it. */
  lemma NamedSafe(w: World, t: Table, filter: Option<Expr>, e: Expr, k: nat, p: nat)
    requires Setting(w, t, e) && p < |t.heap| && k < |t.indexes[ExtractEq(e).value.0]|
    requires t.indexes[ExtractEq(e).value.0][k] == LeafEntry(Encode(ExtractEq(e).value.1), t.heap[p].tid)
    ensures TableSees(w, t.heap[p]) ==> t.heap[p].values.Ok?
    ensures TableSees(w, t.heap[p]) && IndexSees(w, t.heap[p]) ==>
      (TupleSafe(w, t, filter, e, p) <==>
        (Keeps(w, t, p, Tests(w.lib, filter, e)) <==> Accepts(w.lib, filter, RowOf(t, p))))
    ensures TableSees(w, t.heap[p]) && !IndexSees(w, t.heap[p]) ==>
      (TupleSafe(w, t, filter, e, p) <==> !Keeps(w, t, p, Tests(w.lib, filter, e)))
    ensures !TableSees(w, t.heap[p]) && IndexSees(w, t.heap[p]) ==>
      (TupleSafe(w, t, filter, e, p) <==> t.heap[p].values.Ok? && Rejects(w.lib, filter, RowOf(t, p)))
    ensures !TableSees(w, t.heap[p]) && !IndexSees(w, t.heap[p]) ==> TupleSafe(w, t, filter, e, p)
  {
    hide TableSees, IndexSees, Holds, Eval, Place, Keeps, Tests, Rejects, Accepts;
    KeepsMeans(w, t, filter, e, p);
    var column, literal := ExtractEq(e).value.0, ExtractEq(e).value.1;
    var es := t.indexes[column];
    assert es[k] in es;
    if TableSees(w, t.heap[p]) {
      assert TupleFaithful(w, t, column, es, p);
      NamedTuple(w, t, column, es, literal, k, p);
    }
    hide Encode, Proper;
  }

  /** A row chosen by the table scan that is the named tuple's row comes from that tuple. */
  lemma OnlyNamedRow(w: World, t: Table, filter: Option<Expr>, e: Expr, k: nat, p: nat, i: nat)
    requires Setting(w, t, e) && p < |t.heap| && k < |t.indexes[ExtractEq(e).value.0]| && i < |t.heap|
    requires t.indexes[ExtractEq(e).value.0][k] == LeafEntry(Encode(ExtractEq(e).value.1), t.heap[p].tid)
    requires Keeps(w, t, i, Tests(w.lib, filter, e)) && t.heap[p].values.Ok? && RowOf(t, i) == RowOf(t, p)
    ensures i == p
  {
    hide TableSees, Tests, Place, Eval;
    var column, literal := ExtractEq(e).value.0, ExtractEq(e).value.1;
    var es := t.indexes[column];
    assert EntryFaithful(t, column, es, k);
    PlaceOfTuple(t, p);
    KeyInjective(ColumnOf(t, column, t.heap[p]), literal);
    NamedTuple(w, t, column, es, literal, k, i);
  }

  // ------------------------------------------------------------- the theorems

  /** The rows of the table scan, and what the index scan gives. */
  ghost predicate SameRows(w: World, t: Table, filter: Option<Expr>, e: Expr, found: Result<seq<Row>>) {
    found == Ok(Chosen(w, t, |t.heap|, Tests(w.lib, filter, e)))
  }

  /** Without the key in the index, or without its tuple in the heap, the index scan finds nothing. */
  lemma NothingNamed(w: World, t: Table, filter: Option<Expr>, e: Expr)
    requires Setting(w, t, e)
    requires forall i :: 0 <= i < |t.heap| ==>
      !Named(t.indexes[ExtractEq(e).value.0], ExtractEq(e).value.1, t.heap[i].tid)
    ensures SameRows(w, t, filter, e, Ok([])) <==> AllSafe(w, t, filter, e)
  {
    hide Named, Faithful, Proper, Tests, TupleSafe, Keeps;
    var n, tests := |t.heap|, Tests(w.lib, filter, e);
    forall i: nat | i < n ensures TupleSafe(w, t, filter, e, i) <==> !Keeps(w, t, i, tests) {
      UnnamedSafe(w, t, filter, e, i);
    }
    if AllSafe(w, t, filter, e) {
      forall i: nat | i < n ensures !Keeps(w, t, i, tests) { assert TupleSafe(w, t, filter, e, i); }
      ChosenNone(w, t, n, tests);
    } else {
      var i: nat :| !TupleSafe(w, t, filter, e, i);
      SafeOutside(w, t, filter, e, i);
      ChosenTakes(w, t, n, tests, i);
    }
  }

  lemma SafeOutside(w: World, t: Table, filter: Option<Expr>, e: Expr, i: nat)
    requires ExtractEq(e).Some? && ExtractEq(e).value.0 in t.indexes && !TupleSafe(w, t, filter, e, i)
    ensures i < |t.heap|
  {
  }

  /** Tuples other than `p` are not named under the key of `p`'s entry. */
  lemma OthersUnnamed(w: World, t: Table, e: Expr, k: nat, p: nat, i: nat)
    requires Setting(w, t, e) && p < |t.heap| && i < |t.heap| && i != p
    requires k < |t.indexes[ExtractEq(e).value.0]|
    requires t.indexes[ExtractEq(e).value.0][k] == LeafEntry(Encode(ExtractEq(e).value.1), t.heap[p].tid)
    ensures !Named(t.indexes[ExtractEq(e).value.0], ExtractEq(e).value.1, t.heap[i].tid)
  {
    hide Encode, Proper, Place;
    var es, literal := t.indexes[ExtractEq(e).value.0], ExtractEq(e).value.1;
    if Named(es, literal, t.heap[i].tid) {
      var j :| 0 <= j < |es| && es[j] == LeafEntry(Encode(literal), t.heap[i].tid);
      SameEntry(es, j, k);
    }
  }

  /** With tuple `p` named, all is safe exactly when `p` is and the table scan drops the others. */
  lemma SafeByNamed(w: World, t: Table, filter: Option<Expr>, e: Expr, k: nat, p: nat)
    requires Setting(w, t, e) && p < |t.heap| && k < |t.indexes[ExtractEq(e).value.0]|
    requires t.indexes[ExtractEq(e).value.0][k] == LeafEntry(Encode(ExtractEq(e).value.1), t.heap[p].tid)
    ensures AllSafe(w, t, filter, e) <==>
      TupleSafe(w, t, filter, e, p)
      && forall i :: 0 <= i < |t.heap| && i != p ==> !Keeps(w, t, i, Tests(w.lib, filter, e))
  {
    hide Named, Faithful, Proper, Tests, TupleSafe, Keeps;
    forall i: nat | i < |t.heap| && i != p
      ensures TupleSafe(w, t, filter, e, i) <==> !Keeps(w, t, i, Tests(w.lib, filter, e)) {
      OthersUnnamed(w, t, e, k, p, i);
      UnnamedSafe(w, t, filter, e, i);
    }
    forall i: nat ensures i >= |t.heap| ==> TupleSafe(w, t, filter, e, i) {
      if !TupleSafe(w, t, filter, e, i) { SafeOutside(w, t, filter, e, i); }
    }
  }

  /** What the index scan finds of the named tuple. */
  ghost function Found(w: World, t: Table, filter: Option<Expr>, p: nat): Result<seq<Row>>
    requires p < |t.heap|
  {
    if !IndexSees(w, t.heap[p]) then Ok([])
    else if t.heap[p].values.Err? then Err(t.heap[p].values.error)
    else MaybeFilter(w.lib, filter, [RowOf(t, p)])
  }

  /** The table scan's rows are none, or only the named tuple's, exactly as the others and it are kept. */
  lemma ChosenByNamed(w: World, t: Table, filter: Option<Expr>, e: Expr, k: nat, p: nat)
    requires Setting(w, t, e) && p < |t.heap| && k < |t.indexes[ExtractEq(e).value.0]|
    requires t.indexes[ExtractEq(e).value.0][k] == LeafEntry(Encode(ExtractEq(e).value.1), t.heap[p].tid)
    ensures var tests := Tests(w.lib, filter, e);
      Chosen(w, t, |t.heap|, tests) == [] <==> forall i :: 0 <= i < |t.heap| ==> !Keeps(w, t, i, tests)
    ensures var tests := Tests(w.lib, filter, e);
      t.heap[p].values.Ok? ==>
        (Chosen(w, t, |t.heap|, tests) == [RowOf(t, p)] <==>
         forall i :: 0 <= i < |t.heap| ==> (Keeps(w, t, i, tests) <==> i == p))
  {
    hide Faithful, Proper, Tests, Keeps;
    var n, tests := |t.heap|, Tests(w.lib, filter, e);
    if forall i :: 0 <= i < n ==> !Keeps(w, t, i, tests) {
      ChosenNone(w, t, n, tests);
    } else {
      var i :| 0 <= i < n && Keeps(w, t, i, tests);
      ChosenTakes(w, t, n, tests, i);
    }
    if t.heap[p].values.Ok? {
      if forall i :: 0 <= i < n ==> (Keeps(w, t, i, tests) <==> i == p) {
        ChosenOne(w, t, n, tests, p);
      }
      if Chosen(w, t, n, tests) == [RowOf(t, p)] {
        forall i: nat | i < n && Keeps(w, t, i, tests) ensures i == p {
          KeptDecodes(w, t, i, tests);
          ChosenTakes(w, t, n, tests, i);
          OnlyNamedRow(w, t, filter, e, k, p, i);
        }
      }
    }
  }

  lemma KeptDecodes(w: World, t: Table, i: nat, test: Row -> bool)
    requires i < |t.heap| && Keeps(w, t, i, test)
    ensures t.heap[i].values.Ok?
  {
  }

  lemma NamedDecides(w: World, t: Table, filter: Option<Expr>, e: Expr, k: nat, p: nat)
    requires Setting(w, t, e) && p < |t.heap| && k < |t.indexes[ExtractEq(e).value.0]|
    requires t.indexes[ExtractEq(e).value.0][k] == LeafEntry(Encode(ExtractEq(e).value.1), t.heap[p].tid)
    requires TableSees(w, t.heap[p]) && t.heap[p].values.Ok? && filter.Some? ==>
        Eval(w.lib, filter.value, RowOf(t, p)).Ok?
    ensures SameRows(w, t, filter, e, Found(w, t, filter, p)) <==> AllSafe(w, t, filter, e)
  {
    hide TableSees, IndexSees, Faithful, Proper, Tests, TupleSafe, Keeps, Eval, Chosen;
    SafeByNamed(w, t, filter, e, k, p);
    NamedSafe(w, t, filter, e, k, p);
    ChosenByNamed(w, t, filter, e, k, p);
    if !(TableSees(w, t.heap[p]) && t.heap[p].values.Ok?) { NotKept(w, t, p, Tests(w.lib, filter, e)); }
    if t.heap[p].values.Ok? { OneFiltered(w.lib, filter, RowOf(t, p)); }
    hide MaybeFilter;
  }

  lemma NotKept(w: World, t: Table, p: nat, test: Row -> bool)
    requires p < |t.heap| && !(TableSees(w, t.heap[p]) && t.heap[p].values.Ok?)
    ensures !Keeps(w, t, p, test)
  {
  }

  /**
   * One rewriting of an unaliased scan, exactly: over a faithful index a
   * filtered scan that succeeds and the index scan it becomes give the same
   * rows if and only if every tuple is safe.
   */
  lemma BareRewriteExact(w: World, table: string, filter: Option<Expr>, e: Expr)
    requires table in w.tables && Setting(w, w.tables[table], e)
    requires Exec(w, Filter(TableScan(table, None, filter), e)).Ok?
    ensures Exec(w, EqualityScan(TableScan(table, None, filter), e))
         == Exec(w, Filter(TableScan(table, None, filter), e))
      <==> AllSafe(w, w.tables[table], filter, e)
  {
    hide Eval, TableSees, IndexSees, Proper, Encode, TupleSafe, Tests, Chosen, FilterRows, VisibleRows, MaybeFilter;
    var t, column, literal := w.tables[table], ExtractEq(e).value.0, ExtractEq(e).value.1;
    var es := t.indexes[column];
    SeenDecode(w, t, column, es);
    ScanChooses(w, table, filter, e);
    IndexFinds(w, table, filter, e);
    if i, k :| 0 <= k < |es| && 0 <= i < |t.heap| && es[k] == LeafEntry(Encode(literal), t.heap[i].tid) {
      if TableSees(w, t.heap[i]) && filter.Some? { ScanFilterTotal(w, table, filter.value, e, i); }
      assert Named(es, literal, t.heap[i].tid) by { assert es[k] in es; }
      NamedDecides(w, t, filter, e, k, i);
    } else {
      NothingNamed(w, t, filter, e);
    }
  }

  lemma SeenDecode(w: World, t: Table, column: string, es: seq<LeafEntry>)
    requires Faithful(w, t, column, es)
    ensures forall i :: 0 <= i < |t.heap| && TableSees(w, t.heap[i]) ==> t.heap[i].values.Ok?
  {
    hide TableSees, Proper, Encode;
    forall i | 0 <= i < |t.heap| && TableSees(w, t.heap[i]) ensures t.heap[i].values.Ok? {
      assert TupleFaithful(w, t, column, es, i);
    }
  }

  /** The index scan finds the named tuple, if there is one, and nothing else. */
  lemma IndexFinds(w: World, table: string, filter: Option<Expr>, e: Expr)
    requires table in w.tables && Setting(w, w.tables[table], e)
    ensures var t, es := w.tables[table], w.tables[table].indexes[ExtractEq(e).value.0];
      var found := Exec(w, EqualityScan(TableScan(table, None, filter), e));
      && (forall i :: 0 <= i < |t.heap| && Named(es, ExtractEq(e).value.1, t.heap[i].tid) ==>
            found == Found(w, t, filter, i))
      && ((forall i :: 0 <= i < |t.heap| ==> !Named(es, ExtractEq(e).value.1, t.heap[i].tid)) ==> found == Ok([]))
  {
    hide Encode, Proper, Fetch, IndexSees, TableSees, Eval;
    var t, column, literal := w.tables[table], ExtractEq(e).value.0, ExtractEq(e).value.1;
    var es, key := t.indexes[column], Encode(literal);
    if k :| 0 <= k < |es| && es[k].key == key {
      RangeOne(es, key, k);
      var p := TupleAt(t.heap, es[k].tid);
      FetchOne(w, t, es[k], filter, p);
      forall i | 0 <= i < |t.heap| && Named(es, literal, t.heap[i].tid) ensures i == p {
        var m :| 0 <= m < |es| && es[m] == LeafEntry(key, t.heap[i].tid);
        SameEntry(es, m, k);
        PlaceOfTuple(t, i);
      }
      if p < |t.heap| { assert es[k] == LeafEntry(key, t.heap[p].tid); }
    } else {
      RangeNone(es, key);
      FetchNone(w, t, filter);
    }
  }

  lemma FetchNone(w: World, t: Table, filter: Option<Expr>)
    ensures Fetch(w, t, [], filter) == Ok([])
  {
  }

  /** The values of the column are NULL or of the literal's type, one of the plain types; or the literal is NULL. */
  ghost predicate OneType(w: World, t: Table, column: string, literal: Value) {
    forall i :: 0 <= i < |t.heap| && TableSees(w, t.heap[i]) && t.heap[i].values.Ok? ==>
      var v := ColumnOf(t, column, t.heap[i]);
      literal.Null? || v.Null? || (Plain(literal) && SameType(v, literal))
  }

  /** A tuple that the transaction deleted itself and the index still has under the literal's key must be rejected. */
  ghost predicate DeletesRejected(w: World, t: Table, filter: Option<Expr>, column: string, literal: Value)
    requires column in t.indexes
  {
    forall i :: 0 <= i < |t.heap| && OwnDeleted(w, t.heap[i]) && Named(t.indexes[column], literal, t.heap[i].tid) ==>
      t.heap[i].values.Ok? && Rejects(w.lib, filter, RowOf(t, i))
  }

  /**
   * With a literal of the column's type and a current snapshot every tuple is
   * safe if and only if none under the literal's key is one the transaction has
   * deleted itself and the scan's own filter would pass.
   */
  lemma SafeByDeletes(w: World, t: Table, filter: Option<Expr>, e: Expr)
    requires Setting(w, t, e) && Ongoing(w) && Current(w)
    requires OneType(w, t, ExtractEq(e).value.0, ExtractEq(e).value.1)
    ensures AllSafe(w, t, filter, e) <==> DeletesRejected(w, t, filter, ExtractEq(e).value.0, ExtractEq(e).value.1)
  {
    hide Faithful, Proper, Named, TableSees, IndexSees, OwnDeleted, Agrees, Holds, Rejects, Accepts, Current;
    var column, literal := ExtractEq(e).value.0, ExtractEq(e).value.1;
    forall i: nat | i < |t.heap|
      ensures TupleSafe(w, t, filter, e, i) <==>
        (OwnDeleted(w, t.heap[i]) && Named(t.indexes[column], literal, t.heap[i].tid) ==>
           t.heap[i].values.Ok? && Rejects(w.lib, filter, RowOf(t, i))) {
      SeesDiffer(w, t.heap[i]);
      OwnDeletedSeen(w, t.heap[i]);
      if TableSees(w, t.heap[i]) && t.heap[i].values.Ok? {
        AgreesByType(w.lib, e, ColumnOf(t, column, t.heap[i]), literal);
      }
    }
  }

  lemma OwnDeletedSeen(w: World, s: Stored)
    requires Ongoing(w)
    ensures OwnDeleted(w, s) ==> IndexSees(w, s) && !TableSees(w, s)
  {
  }
}
