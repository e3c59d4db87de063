/**
 * The recursive term of WITH RECURSIVE as a plan over the CTE's name: a term that names the CTE once, under
 * filters, select lists and joins, distributes over its rows.
 */
module RecursiveTerms {
  import opened Wrappers
  import opened Queries
  import opened RecursiveCte
  import Optimizer
  import OptimizedPlans
  import HashJoin
  import opened JoinMeaning

  /** `Fixed` is any plan that does not name the CTE. */
  datatype Term =
    | Frontier(alias: Option<string>)
    | Fixed(rows: Result<seq<Row>>)
    | Where(input: Term, condition: Expr)
    | Select(input: Term, items: seq<(string, Expr)>)
    | Join(hash: bool, kind: HashJoin.JoinType, left: Term, right: Term, condition: Expr)

  function JoinRows(lib: Library, hash: bool, kind: HashJoin.JoinType, condition: Expr, l: seq<Row>, r: seq<Row>)
    : Result<seq<Row>>
  {
    if hash then HashJoin.Hashed(lib, kind, condition, l, r) else HashJoin.NestedLoop(lib, kind, condition, l, r)
  }

  /** The term's rows when the name stands for the given ones. */
  function Run(lib: Library, t: Term, rows: seq<Row>): Result<seq<Row>> {
    match t
    case Frontier(alias) => Ok(OptimizedPlans.QualifiedAll(rows, alias))
    case Fixed(r) => r
    case Where(input, cond) =>
      var x := Run(lib, input, rows);
      if x.Err? then x else Optimizer.FilterRows(lib, cond, x.value)
    case Select(input, items) =>
      var x := Run(lib, input, rows);
      if x.Err? then x else OptimizedPlans.ProjectRows(lib, items, x.value)
    case Join(hash, kind, left, right, cond) =>
      var l := Run(lib, left, rows);
      if l.Err? then l
      else
        var r := Run(lib, right, rows);
        if r.Err? then r else JoinRows(lib, hash, kind, cond, l.value, r.value)
  }

  predicate Constant(t: Term) {
    match t
    case Frontier(_) => false
    case Fixed(_) => true
    case Where(input, _) => Constant(input)
    case Select(input, _) => Constant(input)
    case Join(_, _, left, right, _) => Constant(left) && Constant(right)
  }

  /** The name occurs once, and not on the padded side of a left join. */
  predicate Linear(t: Term) {
    match t
    case Frontier(_) => true
    case Fixed(_) => false
    case Where(input, _) => Linear(input)
    case Select(input, _) => Linear(input)
    case Join(_, kind, left, right, _) =>
      (Linear(left) && Constant(right)) || (kind.Inner? && Constant(left) && Linear(right))
  }

  /** On what good rows lead to, the hash joins of the term are nested loops. */
  ghost predicate HashesAgree(lib: Library, t: Term, good: Row -> bool) {
    match t
    case Frontier(_) => true
    case Fixed(_) => true
    case Where(input, _) => HashesAgree(lib, input, good)
    case Select(input, _) => HashesAgree(lib, input, good)
    case Join(hash, kind, left, right, cond) =>
      && HashesAgree(lib, left, good) && HashesAgree(lib, right, good)
      && (hash ==> forall rows {:trigger AllGood(good, rows)} ::
            AllGood(good, rows) ==> HashAgrees(lib, kind, left, right, cond, rows))
  }

  ghost predicate HashAgrees(lib: Library, kind: HashJoin.JoinType, left: Term, right: Term, cond: Expr,
                             rows: seq<Row>) {
    var l, r := Run(lib, left, rows), Run(lib, right, rows);
    l.Ok? && r.Ok? ==>
      HashJoin.Hashed(lib, kind, cond, l.value, r.value) == HashJoin.NestedLoop(lib, kind, cond, l.value, r.value)
  }

  // ------------------------------------------------------------- one by one

  ghost predicate From(f: seq<Row> -> Result<seq<Row>>, rows: seq<Row>, x: Row) {
    exists p :: p in rows && f([p]).Ok? && x in f([p]).value
  }

  /** What an operator makes of rows is what it makes of each; it fails where it fails on one. */
  ghost predicate Spreads(f: seq<Row> -> Result<seq<Row>>, rows: seq<Row>) {
    && (rows != [] ==> (f(rows).Ok? <==> forall p :: p in rows ==> f([p]).Ok?))
    && (f(rows).Ok? ==> forall x {:trigger From(f, rows, x)} {:trigger x in f(rows).value} ::
          x in f(rows).value <==> From(f, rows, x))
  }

  function Filtering(lib: Library, cond: Expr): seq<Row> -> Result<seq<Row>> {
    rows => Optimizer.FilterRows(lib, cond, rows)
  }

  function Looping(lib: Library, kind: HashJoin.JoinType, cond: Expr, right: seq<Row>): seq<Row> -> Result<seq<Row>> {
    left => HashJoin.NestedLoop(lib, kind, cond, left, right)
  }

  function Meeting(lib: Library, cond: Expr, left: seq<Row>): seq<Row> -> Result<seq<Row>> {
    right => HashJoin.NestedLoop(lib, HashJoin.Inner, cond, left, right)
  }

  function Running(lib: Library, t: Term): seq<Row> -> Result<seq<Row>> { rows => Run(lib, t, rows) }

  /** It is enough that the operator goes row by row from the front. */
  lemma SpreadsLast(f: seq<Row> -> Result<seq<Row>>, before: seq<Row>, last: Row)
    requires Spreads(f, before) && f([]) == Ok([])
    requires f(before + [last]) == HashJoin.Joined(f(before), f([last]))
    ensures Spreads(f, before + [last])
  {
    var rows := before + [last];
    assert last in rows && forall p :: p in rows <==> p in before || p == last;
    if f(rows).Ok? {
      assert f(rows).value == f(before).value + f([last]).value;
      forall x ensures x in f(rows).value <==> From(f, rows, x) {
        assert x in f(before).value <==> From(f, before, x);
      }
    }
  }

  lemma SpreadsNone(f: seq<Row> -> Result<seq<Row>>)
    requires f([]) == Ok([])
    ensures Spreads(f, [])
  {
  }

  lemma {:induction false} FilterSpreads(lib: Library, cond: Expr, rows: seq<Row>)
    ensures Spreads(Filtering(lib, cond), rows)
  {
    hide Eval, Spreads;
    var f := Filtering(lib, cond);
    if rows == [] {
      SpreadsNone(f);
    } else {
      var before, last := rows[..|rows| - 1], rows[|rows| - 1];
      FilterSpreads(lib, cond, before);
      var none: seq<Row> := [];
      assert [last][..0] == none && none + [last] == [last] && none + none == none && rows == before + [last];
      SpreadsLast(f, before, last);
    }
  }

  lemma {:induction false} ProjectSpreads(lib: Library, items: seq<(string, Expr)>, rows: seq<Row>)
    ensures Spreads(OptimizedPlans.Projection(lib, items), rows)
  {
    hide OptimizedPlans.ProjectValues, OptimizedPlans.ItemNames, Spreads;
    var f := OptimizedPlans.Projection(lib, items);
    if rows == [] {
      SpreadsNone(f);
    } else {
      var before, last := rows[..|rows| - 1], rows[|rows| - 1];
      ProjectSpreads(lib, items, before);
      var none: seq<Row> := [];
      assert [last][..0] == none && rows == before + [last];
      var vs := OptimizedPlans.ProjectValues(lib, items, last);
      if vs.Ok? {
        var row := Row(vs.value, OptimizedPlans.ItemNames(items));
        assert none + [row] == [row];
      }
      SpreadsLast(f, before, last);
    }
  }

  lemma {:induction false} LoopSpreads(lib: Library, kind: HashJoin.JoinType, cond: Expr, left: seq<Row>,
                                       right: seq<Row>)
    ensures Spreads(Looping(lib, kind, cond, right), left)
  {
    hide Eval, Spreads, HashJoin.Partners, HashJoin.Contribution;
    var f := Looping(lib, kind, cond, right);
    if left == [] {
      SpreadsNone(f);
    } else {
      var before, last := left[..|left| - 1], left[|left| - 1];
      LoopSpreads(lib, kind, cond, before, right);
      var none: seq<Row> := [];
      assert [last][..0] == none && left == before + [last];
      var c := HashJoin.Contribution(kind, last, right, HashJoin.Partners(lib, cond, last, right));
      if c.Ok? { assert none + c.value == c.value; }
      SpreadsLast(f, before, last);
    }
  }

  lemma MeetSpreads(lib: Library, cond: Expr, left: seq<Row>, right: seq<Row>)
    ensures Spreads(Meeting(lib, cond, left), right)
  {
    hide Eval, HashJoin.Merge, HashJoin.NestedLoop;
    var f := Meeting(lib, cond, left);
    InnerPairs(lib, cond, left, right);
    forall r ensures f([r]).Ok? <==> AllValued(lib, cond, left, [r])
      ensures f([r]).Ok? ==> forall x :: x in f([r]).value <==> Pairs(lib, cond, left, [r], x) {
      InnerPairs(lib, cond, left, [r]);
    }
    assert forall r: Row :: r in [r];
    if f(right).Ok? {
      forall x ensures x in f(right).value <==> From(f, right, x) {
        if Pairs(lib, cond, left, right, x) {
          var l, r :| l in left && r in right && x == HashJoin.Merge(l, r)
            && True(Eval(lib, cond, HashJoin.Merge(l, r)));
          assert AllValued(lib, cond, left, [r]) && Pairs(lib, cond, left, [r], x);
        }
        if From(f, right, x) {
          var r :| r in right && f([r]).Ok? && x in f([r]).value;
          assert Pairs(lib, cond, left, [r], x);
        }
      }
    }
  }

  /** One operator after the other. */
  function Then(f: seq<Row> -> Result<seq<Row>>, g: seq<Row> -> Result<seq<Row>>): seq<Row> -> Result<seq<Row>> {
    rows => var x := f(rows); if x.Err? then x else g(x.value)
  }

  lemma ThenSpreads(f: seq<Row> -> Result<seq<Row>>, g: seq<Row> -> Result<seq<Row>>, rows: seq<Row>)
    requires Spreads(f, rows) && (forall xs :: Spreads(g, xs)) && g([]) == Ok([])
    ensures Spreads(Then(f, g), rows)
  {
    var h := Then(f, g);
    if f(rows).Ok? {
      var xs := f(rows).value;
      assert Spreads(g, xs);
      forall p | p in rows && f([p]).Ok? ensures h([p]).Ok? <==> forall x :: x in f([p]).value ==> g([x]).Ok? {
        assert Spreads(g, f([p]).value);
      }
      forall p, x | p in rows && f([p]).Ok? && x in f([p]).value ensures x in xs {
        assert From(f, rows, x);
      }
      if h(rows).Ok? {
        forall y ensures y in h(rows).value <==> From(h, rows, y) {
          if y in h(rows).value {
            assert From(g, xs, y);
            var x :| x in xs && g([x]).Ok? && y in g([x]).value;
            assert From(f, rows, x);
            var p :| p in rows && f([p]).Ok? && x in f([p]).value;
            assert Spreads(g, f([p]).value) && From(g, f([p]).value, y);
            assert h([p]).Ok?;
          }
          if From(h, rows, y) {
            var p :| p in rows && h([p]).Ok? && y in h([p]).value;
            assert Spreads(g, f([p]).value) && From(g, f([p]).value, y);
            var x :| x in f([p]).value && g([x]).Ok? && y in g([x]).value;
            assert x in xs && From(g, xs, y);
          }
        }
      }
      if rows != [] && forall p :: p in rows ==> h([p]).Ok? {
        forall x | x in xs ensures g([x]).Ok? {
          assert From(f, rows, x);
        }
      }
    }
  }

  // ------------------------------------------------------------ linear terms

  lemma {:induction false} ConstantSame(lib: Library, t: Term, rows: seq<Row>, other: seq<Row>)
    requires Constant(t)
    ensures Run(lib, t, rows) == Run(lib, t, other)
    decreases t
  {
    hide JoinRows;
    match t
    case Fixed(_) =>
    case Where(input, _) => ConstantSame(lib, input, rows, other);
    case Select(input, _) => ConstantSame(lib, input, rows, other);
    case Join(_, _, left, right, _) =>
      ConstantSame(lib, left, rows, other);
      ConstantSame(lib, right, rows, other);
  }

  lemma SpreadsSame(f: seq<Row> -> Result<seq<Row>>, g: seq<Row> -> Result<seq<Row>>, rows: seq<Row>)
    requires Spreads(f, rows) && f(rows) == g(rows) && forall p :: p in rows ==> f([p]) == g([p])
    ensures Spreads(g, rows)
  {
    forall x ensures From(g, rows, x) <==> From(f, rows, x) { }
  }

  lemma FrontierSpreads(alias: Option<string>, rows: seq<Row>)
    ensures Spreads(seen => Ok(OptimizedPlans.QualifiedAll(seen, alias)), rows)
  {
    hide Optimizer.Qualified;
    var f: seq<Row> -> Result<seq<Row>> := seen => Ok(OptimizedPlans.QualifiedAll(seen, alias));
    var q := OptimizedPlans.QualifiedAll(rows, alias);
    forall x ensures x in q <==> From(f, rows, x) {
      if x in q {
        var i :| 0 <= i < |q| && q[i] == x;
        assert rows[i] in rows && f([rows[i]]).value[0] == x;
      }
      if From(f, rows, x) {
        var p :| p in rows && f([p]).Ok? && x in f([p]).value;
        var i :| 0 <= i < |rows| && rows[i] == p;
        assert q[i] == x;
      }
    }
  }

  lemma AllSpread(lib: Library, t: Term)
    requires !t.Frontier? && !t.Fixed?
    ensures t.Where? ==> forall xs :: Spreads(Filtering(lib, t.condition), xs)
    ensures t.Select? ==> forall xs :: Spreads(OptimizedPlans.Projection(lib, t.items), xs)
    ensures t.Join? ==> forall r, xs :: Spreads(Looping(lib, t.kind, t.condition, r), xs)
    ensures t.Join? ==> forall l, xs :: Spreads(Meeting(lib, t.condition, l), xs)
  {
    hide Spreads, Filtering, OptimizedPlans.Projection, Looping, Meeting;
    match t
    case Where(_, cond) => forall xs { FilterSpreads(lib, cond, xs); }
    case Select(_, items) => forall xs { ProjectSpreads(lib, items, xs); }
    case Join(_, kind, _, _, cond) =>
      forall r, xs { LoopSpreads(lib, kind, cond, xs, r); }
      forall l, xs { MeetSpreads(lib, cond, l, xs); }
  }

  lemma AlwaysFails(f: seq<Row> -> Result<seq<Row>>, rows: seq<Row>)
    requires f(rows).Err? && forall p :: p in rows ==> f([p]).Err?
    ensures Spreads(f, rows)
  {
    if rows != [] { assert rows[0] in rows; }
  }

  lemma JoinIsLoop(lib: Library, t: Term, good: Row -> bool, rows: seq<Row>)
    requires t.Join? && HashesAgree(lib, t, good) && AllGood(good, rows)
    ensures Run(lib, t, rows) ==
      var l, r := Run(lib, t.left, rows), Run(lib, t.right, rows);
      if l.Err? then l else if r.Err? then r else HashJoin.NestedLoop(lib, t.kind, t.condition, l.value, r.value)
  {
    assert t.hash ==> HashAgrees(lib, t.kind, t.left, t.right, t.condition, rows);
  }

  lemma LeftSpreads(lib: Library, t: Term, good: Row -> bool, rows: seq<Row>)
    requires t.Join? && Constant(t.right) && HashesAgree(lib, t, good) && AllGood(good, rows)
    requires Spreads(Running(lib, t.left), rows)
    ensures Spreads(Running(lib, t), rows)
  {
    var fixed := Run(lib, t.right, []);
    forall seen | seen == rows || exists p :: p in rows && seen == [p]
      ensures Run(lib, t, seen) ==
        var l := Run(lib, t.left, seen);
        if l.Err? then l else if fixed.Err? then fixed
        else HashJoin.NestedLoop(lib, t.kind, t.condition, l.value, fixed.value) {
      ConstantSame(lib, t.right, seen, []);
      JoinIsLoop(lib, t, good, seen);
    }
    hide Spreads, HashesAgree, Run, AllGood, Constant, HashJoin.NestedLoop;
    if fixed.Err? {
      AlwaysFails(Running(lib, t), rows);
    } else {
      AllSpread(lib, t);
      var g := Looping(lib, t.kind, t.condition, fixed.value);
      LoopNone(lib, t.kind, t.condition, fixed.value);
      ThenSpreads(Running(lib, t.left), g, rows);
      SpreadsSame(Then(Running(lib, t.left), g), Running(lib, t), rows);
    }
  }

  lemma RightSpreads(lib: Library, t: Term, good: Row -> bool, rows: seq<Row>)
    requires t.Join? && t.kind.Inner? && Constant(t.left) && HashesAgree(lib, t, good) && AllGood(good, rows)
    requires Spreads(Running(lib, t.right), rows)
    ensures Spreads(Running(lib, t), rows)
  {
    var fixed := Run(lib, t.left, []);
    forall seen | seen == rows || exists p :: p in rows && seen == [p]
      ensures Run(lib, t, seen) ==
        var r := Run(lib, t.right, seen);
        if fixed.Err? then fixed else if r.Err? then r
        else HashJoin.NestedLoop(lib, t.kind, t.condition, fixed.value, r.value) {
      ConstantSame(lib, t.left, seen, []);
      JoinIsLoop(lib, t, good, seen);
    }
    hide Spreads, HashesAgree, Run, AllGood, Constant, HashJoin.NestedLoop;
    if fixed.Err? {
      AlwaysFails(Running(lib, t), rows);
    } else {
      AllSpread(lib, t);
      var g := Meeting(lib, t.condition, fixed.value);
      MeetNone(lib, t.condition, fixed.value);
      ThenSpreads(Running(lib, t.right), g, rows);
      SpreadsSame(Then(Running(lib, t.right), g), Running(lib, t), rows);
    }
  }

  lemma LoopNone(lib: Library, kind: HashJoin.JoinType, cond: Expr, right: seq<Row>)
    ensures Looping(lib, kind, cond, right)([]) == Ok([])
  {
  }

  lemma {:induction false} MeetNone(lib: Library, cond: Expr, left: seq<Row>)
    ensures Meeting(lib, cond, left)([]) == Ok([])
  {
    if left != [] {
      var before, none: seq<Row> := left[..|left| - 1], [];
      MeetNone(lib, cond, before);
      assert HashJoin.NestedLoop(lib, HashJoin.Inner, cond, before, none) == Ok(none);
      assert HashJoin.Partners(lib, cond, left[|left| - 1], none) == Ok(none);
      assert none + none == none;
    }
  }

  /** A term that names the CTE once makes of its rows what it makes of each. */
  lemma {:induction false} TermSpreads(lib: Library, t: Term, good: Row -> bool, rows: seq<Row>)
    requires Linear(t) && HashesAgree(lib, t, good) && AllGood(good, rows)
    ensures Spreads(Running(lib, t), rows)
    decreases t
  {
    hide Spreads, Optimizer.FilterRows, OptimizedPlans.ProjectRows, AllGood;
    match t
    case Frontier(alias) =>
      FrontierSpreads(alias, rows);
      SpreadsSame(seen => Ok(OptimizedPlans.QualifiedAll(seen, alias)), Running(lib, t), rows);
    case Where(input, cond) =>
      TermSpreads(lib, input, good, rows);
      AllSpread(lib, t);
      FilterNone(lib, cond);
      ThenSpreads(Running(lib, input), Filtering(lib, cond), rows);
      SpreadsSame(Then(Running(lib, input), Filtering(lib, cond)), Running(lib, t), rows);
    case Select(input, items) =>
      TermSpreads(lib, input, good, rows);
      AllSpread(lib, t);
      ProjectNone(lib, items);
      ThenSpreads(Running(lib, input), OptimizedPlans.Projection(lib, items), rows);
      SpreadsSame(Then(Running(lib, input), OptimizedPlans.Projection(lib, items)), Running(lib, t), rows);
    case Join(_, _, left, right, _) =>
      if Linear(left) && Constant(right) {
        TermSpreads(lib, left, good, rows);
        LeftSpreads(lib, t, good, rows);
      } else {
        TermSpreads(lib, right, good, rows);
        RightSpreads(lib, t, good, rows);
      }
  }

  lemma FilterNone(lib: Library, cond: Expr)
    ensures Filtering(lib, cond)([]) == Ok([])
  {
  }

  lemma ProjectNone(lib: Library, items: seq<(string, Expr)>)
    ensures OptimizedPlans.Projection(lib, items)([]) == Ok([])
  {
  }

  /**
   * The recursive evaluation of a term that names the CTE once, under filters, select lists and joins: it
   * distributes over its rows as the closure theorems ask, whatever rows are good, if these are kept and the
   * hash joins on them are nested loops.
   */
  lemma LinearDistributes(lib: Library, t: Term, q: Query, good: Row -> bool)
    requires q.term == Running(lib, t) && Linear(t) && HashesAgree(lib, t, good) && Keeps(q, good)
    ensures Distributes(q, good)
  {
    hide Linear, HashesAgree, Keeps, Run;
    forall rows | AllGood(good, rows) ensures DistributesOver(q, rows) {
      TermSpreads(lib, t, good, rows);
      if q.term(rows).Ok? {
        forall r ensures r in q.term(rows).value <==> exists p :: p in rows && Makes(q, p, r) {
          assert r in q.term(rows).value <==> From(q.term, rows, r);
          if From(q.term, rows, r) {
            var p :| p in rows && q.term([p]).Ok? && r in q.term([p]).value;
            assert Makes(q, p, r);
          }
        }
      }
    }
  }

  /** It succeeds on all good rows if it does on each, and on none. */
  lemma LinearTotal(lib: Library, t: Term, q: Query, good: Row -> bool)
    requires q.term == Running(lib, t) && Linear(t) && HashesAgree(lib, t, good)
    requires Run(lib, t, []).Ok? && forall p :: good(p) ==> Run(lib, t, [p]).Ok?
    ensures Total(q, good)
  {
    hide Linear, HashesAgree, Run;
    forall rows | AllGood(good, rows) ensures q.term(rows).Ok? {
      TermSpreads(lib, t, good, rows);
    }
  }

  predicate Hashless(t: Term) {
    match t
    case Frontier(_) => true
    case Fixed(_) => true
    case Where(input, _) => Hashless(input)
    case Select(input, _) => Hashless(input)
    case Join(hash, _, left, right, _) => !hash && Hashless(left) && Hashless(right)
  }

  lemma {:induction false} HashlessAgrees(lib: Library, t: Term, good: Row -> bool)
    requires Hashless(t)
    ensures HashesAgree(lib, t, good)
    decreases t
  {
    match t
    case Frontier(_) =>
    case Fixed(_) =>
    case Where(input, _) => HashlessAgrees(lib, input, good);
    case Select(input, _) => HashlessAgrees(lib, input, good);
    case Join(_, _, left, right, _) =>
      HashlessAgrees(lib, left, good);
      HashlessAgrees(lib, right, good);
  }

  /** Without hash joins, whatever columns its filters and select lists look up, a term distributes over all rows. */
  lemma HashlessDistributes(lib: Library, t: Term, q: Query)
    requires q.term == Running(lib, t) && Linear(t) && Hashless(t)
    ensures Distributes(q, r => true)
  {
    hide Linear, Hashless, Run, DistributesOver;
    HashlessAgrees(lib, t, r => true);
    LinearDistributes(lib, t, q, r => true);
  }
}
