/**
 * The use recursive queries are for: the nodes of a graph that can be reached from one of them,
 *
 *     WITH RECURSIVE t(n) AS (SELECT start UNION ALL SELECT e.dst FROM edges AS e JOIN t ON e.src = t.n)
 *
 * with the hash join that the planner chooses for an equality.
 */
module GraphQueries {
  import opened Wrappers
  import opened Values
  import opened Queries
  import opened RecursiveCte
  import opened RecursiveTerms
  import Optimizer
  import OptimizedPlans
  import HashJoin
  import opened JoinMeaning

  type Edge = (int, int)

  /** A row of `edges AS e`. */
  function EdgeRow(e: Edge): Row {
    Optimizer.Qualified(Row([Int4(e.0), Int4(e.1)], ["src", "dst"]), Some("e"))
  }

  function EdgeRows(edges: seq<Edge>): (rows: seq<Row>)
    ensures |rows| == |edges| && forall i :: 0 <= i < |edges| ==> rows[i] == EdgeRow(edges[i])
  {
    seq(|edges|, i requires 0 <= i < |edges| => EdgeRow(edges[i]))
  }

  function Node(n: int): Row { Row([Int4(n)], ["n"]) }

  predicate IsNode(r: Row) { r.names == ["n"] && |r.values| == 1 && r.values[0].Int4? }

  lemma NodeIs(r: Row)
    requires IsNode(r)
    ensures r == Node(r.values[0].int4)
  {
  }

  const Source := Column(Some("e"), "src")
  const Target := Column(Some("t"), "n")
  const OnEdge := Binary(Source, Eq, Target)
  const Successor: seq<(string, Expr)> := [("dst", Column(Some("e"), "dst"))]

  function Step(edges: seq<Edge>): Term {
    Select(Join(true, HashJoin.Inner, Fixed(Ok(EdgeRows(edges))), Frontier(Some("t")), OnEdge), Successor)
  }

  function GraphQuery(lib: Library, edges: seq<Edge>, cycle: Option<string>, display: Value -> string): Query {
    Query(Running(lib, Step(edges)), cycle, display, ["n"])
  }

  /** A path of at most so many edges. */
  ghost predicate Path(edges: seq<Edge>, from: int, to: int, steps: nat)
    decreases steps
  {
    from == to || (steps > 0 && exists e :: e in edges && e.1 == to && Path(edges, from, e.0, steps - 1))
  }

  // ------------------------------------------------------------- one step

  /** A node under the alias `t`. */
  function Aliased(n: int): Row { Row([Int4(n), Int4(n)], ["t.n", "n"]) }

  lemma NodeAliased(n: int)
    ensures Optimizer.Qualified(Node(n), Some("t")) == Aliased(n)
  {
    var r := Optimizer.Qualified(Node(n), Some("t"));
    OptimizedPlans.NamesAt(["n"], "t", 0);
    OptimizedPlans.TwiceAt([Int4(n)], 0);
    Names();
    assert r.names == ["t.n", "n"] && r.values == [Int4(n), Int4(n)];
  }

  lemma Names()
    ensures "e" + "." + "src" == "e.src" && "e" + "." + "dst" == "e.dst" && "t" + "." + "n" == "t.n"
    ensures "t.n" !in ["e.src", "src", "e.dst", "dst"]
    ensures Place(["e.src", "src", "e.dst", "dst"], "e.src") == 0
    ensures Place(["e.src", "src", "e.dst", "dst"], "e.dst") == 2
    ensures Place(["t.n", "n"], "t.n") == 0
  {
    var names := ["e.src", "src", "e.dst", "dst"];
    assert "e.src"[2] == 's' && "e.dst"[2] == 'd' && "e.dst"[0] == 'e';
    assert "src"[0] == 's' && "dst"[0] == 'd' && "t.n"[0] == 't';
    assert |"t.n"| == 3 && |"e.src"| == 5 && |"src"| == 3 && |"dst"| == 3 && |"e.dst"| == 5;
    hide Place;
    HashJoin.PlaceIs(names, "e.src", 0);
    HashJoin.PlaceIs(names, "e.dst", 2);
    HashJoin.PlaceIs(["t.n", "n"], "t.n", 0);
  }

  lemma EdgeRowIs(e: Edge)
    ensures EdgeRow(e).names == ["e.src", "src", "e.dst", "dst"]
    ensures EdgeRow(e).values == [Int4(e.0), Int4(e.0), Int4(e.1), Int4(e.1)]
  {
    Names();
    var r, vs := EdgeRow(e), [Int4(e.0), Int4(e.1)];
    OptimizedPlans.NamesAt(["src", "dst"], "e", 0);
    OptimizedPlans.NamesAt(["src", "dst"], "e", 1);
    OptimizedPlans.TwiceAt(vs, 0);
    OptimizedPlans.TwiceAt(vs, 1);
    assert r.names[2 * 1] == "e.dst" && r.names[2 * 1 + 1] == "dst";
    assert r.values[2 * 1] == vs[1] && r.values[2 * 1 + 1] == vs[1];
  }

  lemma Columns(lib: Library, e: Edge, n: int)
    ensures Eval(lib, Source, EdgeRow(e)) == Ok(Int4(e.0)) && Eval(lib, Target, Aliased(n)) == Ok(Int4(n))
    ensures var both := HashJoin.Merge(EdgeRow(e), Aliased(n));
      && Eval(lib, Source, both) == Ok(Int4(e.0)) && Eval(lib, Target, both) == Ok(Int4(n))
      && Eval(lib, Column(Some("e"), "dst"), both) == Ok(Int4(e.1))
  {
    Names();
    EdgeRowIs(e);
    hide Matches, Place, EdgeRow;
    var l, r := EdgeRow(e), Aliased(n);
    assert l.names[0] == "e.src" && l.names[2] == "e.dst" && r.names[0] == "t.n";
    HashJoin.LeftColumn(lib, l, r, "e", "src");
    HashJoin.LeftColumn(lib, l, r, "e", "dst");
    HashJoin.RightColumn(lib, l, r, "t", "n");
  }

  lemma Matching(lib: Library, e: Edge, n: int)
    ensures var v := Eval(lib, OnEdge, HashJoin.Merge(EdgeRow(e), Aliased(n)));
      v.Ok? && (True(v) <==> e.0 == n)
  {
    Columns(lib, e, n);
    hide Eval, EdgeRow, Aliased;
    HashJoin.EqualityValue(lib, false, HashJoin.Merge(EdgeRow(e), Aliased(n)), Source, Target, Int4(e.0), Int4(n));
    EqualIsSame(lib, Int4(e.0), Int4(n));
  }

  /** Rows of `t` are nodes under its alias. */
  predicate AllAliased(rows: seq<Row>) { forall i :: 0 <= i < |rows| ==> IsAliased(rows[i]) }

  predicate IsAliased(r: Row) { |r.values| == 2 && r.values[0].Int4? && r == Aliased(r.values[0].int4) }

  lemma FrontierAliased(rows: seq<Row>)
    requires AllGood(IsNode, rows)
    ensures AllAliased(OptimizedPlans.QualifiedAll(rows, Some("t")))
  {
    hide Optimizer.Qualified;
    forall i | 0 <= i < |rows| ensures IsAliased(Optimizer.Qualified(rows[i], Some("t"))) {
      assert rows[i] in rows;
      NodeIs(rows[i]);
      NodeAliased(rows[i].values[0].int4);
    }
  }

  /** The hash join that the planner chooses is the nested loop here. */
  lemma JoinAgrees(lib: Library, edges: seq<Edge>, rows: seq<Row>)
    requires AllAliased(rows)
    ensures HashJoin.Hashed(lib, HashJoin.Inner, OnEdge, EdgeRows(edges), rows)
         == HashJoin.NestedLoop(lib, HashJoin.Inner, OnEdge, EdgeRows(edges), rows)
  {
    var left := EdgeRows(edges);
    hide Eval, EdgeRow, Aliased, HashJoin.Merge;
    forall i, j | 0 <= i < |left| && 0 <= j < |rows|
      ensures Eval(lib, OnEdge, HashJoin.Merge(left[i], rows[j])).Ok?
      ensures Eval(lib, Source, left[i]) == Ok(Int4(edges[i].0)) == Eval(lib, Source, HashJoin.Merge(left[i], rows[j]))
      ensures Eval(lib, Target, HashJoin.Merge(left[i], rows[j])) == Eval(lib, Target, rows[j])
           == Ok(Int4(rows[j].values[0].int4)) {
      Columns(lib, edges[i], rows[j].values[0].int4);
      Matching(lib, edges[i], rows[j].values[0].int4);
    }
    forall i | 0 <= i < |left| ensures Eval(lib, Source, left[i]).Ok? { Columns(lib, edges[i], 0); }
    forall j | 0 <= j < |rows| ensures Eval(lib, Target, rows[j]).Ok? {
      Columns(lib, (0, 0), rows[j].values[0].int4);
    }
    assert HashJoin.ExtractKeys(OnEdge) == Some((Source, Target));
    JoinApplies(lib, left, rows);
  }

  lemma JoinApplies(lib: Library, left: seq<Row>, rows: seq<Row>)
    requires HashJoin.Total(lib, OnEdge, left, rows)
    requires HashJoin.LeftKey(lib, Source, left, rows) && HashJoin.RightKey(lib, Target, left, rows)
    requires HashJoin.KeyTypes(lib, Source, Target, left, rows)
    ensures HashJoin.Hashed(lib, HashJoin.Inner, OnEdge, left, rows)
         == HashJoin.NestedLoop(lib, HashJoin.Inner, OnEdge, left, rows)
  {
    assert HashJoin.ExtractKeys(OnEdge) == Some((Source, Target));
    hide HashJoin.Total, HashJoin.LeftKey, HashJoin.RightKey, HashJoin.KeyTypes, HashJoin.Hashed, HashJoin.NestedLoop;
    assert !HashJoin.Crossed(lib, OnEdge, left, rows, Source, Target);
    HashJoin.JoinsAgree(lib, HashJoin.Inner, OnEdge, left, rows, Source, Target);
  }

  /** The rows of the successors. */
  function Made(n: int): Row { Row([Int4(n)], ["dst"]) }

  lemma Projected(lib: Library, e: Edge, n: int)
    ensures OptimizedPlans.ProjectRows(lib, Successor, [HashJoin.Merge(EdgeRow(e), Aliased(n))]) == Ok([Made(e.1)])
  {
    var both := HashJoin.Merge(EdgeRow(e), Aliased(n));
    Columns(lib, e, n);
    hide Eval;
    var none: seq<Row> := [];
    assert [both][..0] == none && none + [Made(e.1)] == [Made(e.1)];
    assert OptimizedPlans.ItemNames(Successor) == ["dst"];
    var nothing: seq<Value> := [];
    assert Successor[..0] == [] && nothing + [Int4(e.1)] == [Int4(e.1)];
    assert OptimizedPlans.ProjectValues(lib, Successor[..0], both) == Ok([]);
    assert OptimizedPlans.ProjectValues(lib, Successor, both) == Ok([Int4(e.1)]);
    assert OptimizedPlans.ProjectRows(lib, Successor, none) == Ok(none);
  }

  lemma InEdgeRows(edges: seq<Edge>, l: Row)
    ensures l in EdgeRows(edges) <==> exists e :: e in edges && l == EdgeRow(e)
  {
    hide EdgeRow;
    if l in EdgeRows(edges) {
      var i :| 0 <= i < |edges| && EdgeRows(edges)[i] == l;
      assert edges[i] in edges;
    }
    if e :| e in edges && l == EdgeRow(e) {
      var i :| 0 <= i < |edges| && edges[i] == e;
      assert EdgeRows(edges)[i] == l;
    }
  }

  /** The pairs of the join over one node: its outgoing edges. */
  lemma JoinedPairs(lib: Library, edges: seq<Edge>, n: int, x: Row)
    ensures AllValued(lib, OnEdge, EdgeRows(edges), [Aliased(n)])
    ensures Pairs(lib, OnEdge, EdgeRows(edges), [Aliased(n)], x) <==>
      exists e :: e in edges && e.0 == n && x == HashJoin.Merge(EdgeRow(e), Aliased(n))
  {
    hide Eval, EdgeRow, Aliased, HashJoin.Merge;
    var left := EdgeRows(edges);
    forall l | l in left
      ensures exists e :: e in edges && l == EdgeRow(e)
      ensures Eval(lib, OnEdge, HashJoin.Merge(l, Aliased(n))).Ok? {
      InEdgeRows(edges, l);
      var e :| e in edges && l == EdgeRow(e);
      Matching(lib, e, n);
    }
    if Pairs(lib, OnEdge, left, [Aliased(n)], x) {
      var l, r :| l in left && r in [Aliased(n)] && x == HashJoin.Merge(l, r)
        && True(Eval(lib, OnEdge, HashJoin.Merge(l, r)));
      var e :| e in edges && l == EdgeRow(e);
      Matching(lib, e, n);
    }
    if e :| e in edges && e.0 == n && x == HashJoin.Merge(EdgeRow(e), Aliased(n)) {
      Matching(lib, e, n);
      InEdgeRows(edges, EdgeRow(e));
      assert Aliased(n) in [Aliased(n)];
    }
  }

  /** One node leads to the targets of its edges. */
  lemma StepRun(lib: Library, edges: seq<Edge>, n: int, x: Row)
    ensures Run(lib, Step(edges), [Node(n)]).Ok?
    ensures x in Run(lib, Step(edges), [Node(n)]).value <==> exists e :: e in edges && e.0 == n && x == Made(e.1)
  {
    var left, right := EdgeRows(edges), [Aliased(n)];
    var loop := HashJoin.NestedLoop(lib, HashJoin.Inner, OnEdge, left, right);
    StepIs(lib, edges, n);
    hide Run, Step, HashJoin.NestedLoop, Made, EdgeRow, Aliased, HashJoin.Merge;
    InnerPairs(lib, OnEdge, left, right);
    JoinedPairs(lib, edges, n, x);
    ProjectSpreads(lib, Successor, loop.value);
    hide OptimizedPlans.ProjectRows, AllValued, Pairs;
    var f := OptimizedPlans.Projection(lib, Successor);
    forall y | y in loop.value
      ensures exists e ::
          e in edges && e.0 == n && y == HashJoin.Merge(EdgeRow(e), Aliased(n)) && f([y]) == Ok([Made(e.1)]) {
      assert Pairs(lib, OnEdge, left, right, y);
      JoinedPairs(lib, edges, n, y);
      var e :| e in edges && e.0 == n && y == HashJoin.Merge(EdgeRow(e), Aliased(n));
      Projected(lib, e, n);
    }
    ProjectedRows(lib, loop.value);
    if e :| e in edges && e.0 == n && x == Made(e.1) {
      var y := HashJoin.Merge(EdgeRow(e), Aliased(n));
      JoinedPairs(lib, edges, n, y);
      Projected(lib, e, n);
      assert y in loop.value && x in f([y]).value;
      assert From(f, loop.value, x);
    }
    if x in f(loop.value).value {
      assert From(f, loop.value, x);
    }
  }

  lemma ProjectedRows(lib: Library, rows: seq<Row>)
    requires forall y :: y in rows ==> OptimizedPlans.Projection(lib, Successor)([y]).Ok?
    ensures OptimizedPlans.ProjectRows(lib, Successor, rows).Ok?
  {
    var f := OptimizedPlans.Projection(lib, Successor);
    ProjectSpreads(lib, Successor, rows);
    if rows == [] { ProjectNone(lib, Successor); }
    hide OptimizedPlans.ProjectRows;
    assert f(rows) == OptimizedPlans.ProjectRows(lib, Successor, rows);
  }

  lemma StepIs(lib: Library, edges: seq<Edge>, n: int)
    ensures Run(lib, Step(edges), [Node(n)]) ==
      var loop := HashJoin.NestedLoop(lib, HashJoin.Inner, OnEdge, EdgeRows(edges), [Aliased(n)]);
      if loop.Err? then loop else OptimizedPlans.ProjectRows(lib, Successor, loop.value)
  {
    hide HashJoin.NestedLoop, HashJoin.Hashed, OptimizedPlans.ProjectRows, Optimizer.Qualified, Aliased;
    NodeAliased(n);
    var right := OptimizedPlans.QualifiedAll([Node(n)], Some("t"));
    assert right == [Aliased(n)];
    assert AllAliased([Aliased(n)]) by { OneAliased(n); }
    JoinAgrees(lib, edges, [Aliased(n)]);
    var join := Join(true, HashJoin.Inner, Fixed(Ok(EdgeRows(edges))), Frontier(Some("t")), OnEdge);
    assert Run(lib, Fixed(Ok(EdgeRows(edges))), [Node(n)]) == Ok(EdgeRows(edges));
    assert Run(lib, Frontier(Some("t")), [Node(n)]) == Ok(right);
    assert Run(lib, join, [Node(n)]) == HashJoin.Hashed(lib, HashJoin.Inner, OnEdge, EdgeRows(edges), right);
  }

  lemma OneAliased(n: int)
    ensures AllAliased([Aliased(n)])
  {
  }

  // ---------------------------------------------------------- the whole query

  lemma MakesIs(lib: Library, edges: seq<Edge>, q: Query, n: int, x: Row)
    requires q.term == Running(lib, Step(edges))
    ensures Makes(q, Node(n), x) <==> exists e :: e in edges && e.0 == n && x == Made(e.1)
  {
    hide Run, Step, Made;
    StepRun(lib, edges, n, x);
  }

  lemma StepFits(lib: Library, edges: seq<Edge>)
    ensures Linear(Step(edges)) && HashesAgree(lib, Step(edges), IsNode)
  {
    hide HashJoin.NestedLoop, HashJoin.Hashed, OptimizedPlans.QualifiedAll;
    var left, right := Fixed(Ok(EdgeRows(edges))), Frontier(Some("t"));
    forall rows | AllGood(IsNode, rows) ensures HashAgrees(lib, HashJoin.Inner, left, right, OnEdge, rows) {
      FrontierAliased(rows);
      JoinAgrees(lib, edges, OptimizedPlans.QualifiedAll(rows, Some("t")));
    }
    var join := Join(true, HashJoin.Inner, left, right, OnEdge);
    assert Constant(left) && Linear(right) && Linear(join);
    assert HashesAgree(lib, left, IsNode) && HashesAgree(lib, right, IsNode) && HashesAgree(lib, join, IsNode);
  }

  lemma StepNothing(lib: Library, edges: seq<Edge>)
    ensures Run(lib, Step(edges), []) == Ok([])
  {
    var left, right := EdgeRows(edges), OptimizedPlans.QualifiedAll([], Some("t"));
    hide HashJoin.Hashed, HashJoin.NestedLoop;
    assert right == [];
    JoinAgrees(lib, edges, []);
    MeetNone(lib, OnEdge, left);
    var join := Join(true, HashJoin.Inner, Fixed(Ok(left)), Frontier(Some("t")), OnEdge);
    assert Run(lib, Fixed(Ok(left)), []) == Ok(left) && Run(lib, Frontier(Some("t")), []) == Ok(right);
    assert Run(lib, join, []) == HashJoin.Hashed(lib, HashJoin.Inner, OnEdge, left, right);
    assert OptimizedPlans.ProjectRows(lib, Successor, []) == Ok([]);
  }

  lemma NormalMade(q: Query, n: int)
    requires q.names == ["n"]
    ensures Normal(q, Made(n)) == Node(n)
  {
  }

  lemma GraphDistributes(lib: Library, edges: seq<Edge>, q: Query)
    requires q.term == Running(lib, Step(edges)) && q.names == ["n"]
    ensures Distributes(q, IsNode) && Total(q, IsNode)
  {
    StepFits(lib, edges);
    StepNothing(lib, edges);
    hide Run, Step, Distributes, Total, Linear, HashesAgree, Normal;
    forall p, x | IsNode(p) && Makes(q, p, x) ensures IsNode(Normal(q, x)) {
      NodeIs(p);
      MakesIs(lib, edges, q, p.values[0].int4, x);
      var e :| e in edges && e.0 == p.values[0].int4 && x == Made(e.1);
      NormalMade(q, e.1);
    }
    forall p | IsNode(p) ensures Run(lib, Step(edges), [p]).Ok? {
      NodeIs(p);
      StepRun(lib, edges, p.values[0].int4, p);
    }
    LinearDistributes(lib, Step(edges), q, IsNode);
    LinearTotal(lib, Step(edges), q, IsNode);
  }

  /** What the query calls reachable is what the graph does. */
  lemma {:induction false} ReachableIsPath(lib: Library, edges: seq<Edge>, q: Query, start: int, r: Row, steps: nat)
    requires q.term == Running(lib, Step(edges)) && q.names == ["n"]
    ensures Reachable(q, [Node(start)], r, steps) <==> IsNode(r) && Path(edges, start, r.values[0].int4, steps)
    decreases steps
  {
    hide Run, Step, Normal, Makes, Made;
    var base := [Node(start)];
    if IsNode(r) { NodeIs(r); }
    assert r in base <==> r == Node(start);
    if steps > 0 {
      if p, x :| Makes(q, p, x) && r == Normal(q, x) && Reachable(q, base, p, steps - 1) {
        ReachableIsPath(lib, edges, q, start, p, steps - 1);
        NodeIs(p);
        MakesIs(lib, edges, q, p.values[0].int4, x);
        var e :| e in edges && e.0 == p.values[0].int4 && x == Made(e.1);
        NormalMade(q, e.1);
      }
      if IsNode(r) && r !in base && Path(edges, start, r.values[0].int4, steps) {
        var e :| e in edges && e.1 == r.values[0].int4 && Path(edges, start, e.0, steps - 1);
        ReachableIsPath(lib, edges, q, start, Node(e.0), steps - 1);
        MakesIs(lib, edges, q, e.0, Made(e.1));
        NormalMade(q, e.1);
        assert Makes(q, Node(e.0), Made(e.1));
      }
    }
  }

  /** Numbers with the same text are the same. */
  ghost predicate Tells(display: Value -> string) {
    forall m, n {:trigger display(Int4(m)), display(Int4(n))} :: display(Int4(m)) == display(Int4(n)) ==> m == n
  }

  lemma NodeKey(q: Query, n: int)
    requires q.cycle.Some?
    ensures CycleKey(q, Node(n)) == Some(q.display(Int4(n))) && KeyOf(q, Node(n)) == q.display(Int4(n))
  {
  }

  lemma KeysTell(q: Query)
    requires q.cycle.Some? && Tells(q.display)
    ensures KeysDetermine(q, IsNode)
  {
    hide KeyOf, Makes, Normal;
    forall p, x, p' | IsNode(p) && IsNode(p') && Makes(q, p, x) && KeyOf(q, p') == KeyOf(q, p)
      ensures LeadsTo(q, p', KeyOf(q, Normal(q, x))) {
      NodeIs(p);
      NodeIs(p');
      NodeKey(q, p.values[0].int4);
      NodeKey(q, p'.values[0].int4);
    }
  }

  /** The start, and what the edges lead to. */
  function Nodes(edges: seq<Edge>, start: int): set<int> { {start} + set e | e in edges :: e.1 }

  lemma {:induction false} PathNode(edges: seq<Edge>, start: int, v: int, steps: nat)
    requires Path(edges, start, v, steps)
    ensures v in Nodes(edges, start)
  {
  }

  function Texts(display: Value -> string, nodes: set<int>): set<string> { set v | v in nodes :: display(Int4(v)) }

  lemma {:induction false} TextsSize(display: Value -> string, nodes: set<int>)
    ensures |Texts(display, nodes)| <= |nodes|
    decreases |nodes|
  {
    if v :| v in nodes {
      TextsSize(display, nodes - {v});
      assert Texts(display, nodes) == Texts(display, nodes - {v}) + {display(Int4(v))};
    } else {
      assert Texts(display, nodes) == {};
    }
  }

  /** Whether the graph leads from one node to the other. */
  ghost predicate Connected(edges: seq<Edge>, from: int, to: int) { exists n: nat :: Path(edges, from, to, n) }

  lemma GraphStops(lib: Library, edges: seq<Edge>, q: Query, start: int, k: nat)
    requires q.term == Running(lib, Step(edges)) && q.names == ["n"] && q.cycle.Some? && |Nodes(edges, start)| <= k
    ensures Rounds(q, Start(q, [Node(start)]), k).Ok? && Rounds(q, Start(q, [Node(start)]), k).value.stopped
  {
    hide Rounds, Run, Step, Reachable, KeyOf, Nodes, Distributes, Total, Normal, BaseKeys;
    var base, keys := [Node(start)], Texts(q.display, Nodes(edges, start));
    GraphDistributes(lib, edges, q);
    TextsSize(q.display, Nodes(edges, start));
    forall key | ReachableKey(q, base, key) ensures key in keys {
      var r, n: nat :| Reachable(q, base, r, n) && KeyOf(q, r) == key;
      ReachableIsPath(lib, edges, q, start, r, n);
      NodeIs(r);
      NodeKey(q, r.values[0].int4);
      PathNode(edges, start, r.values[0].int4, n);
    }
    OneBaseKey(q, start);
    FewKeysStop(q, IsNode, base, k, keys);
  }

  lemma OneBaseKey(q: Query, start: int)
    requires q.cycle.Some?
    ensures |BaseKeys(q, [Node(start)])| == 1
  {
    NodeKey(q, start);
    hide CycleKey;
    assert Node(start) in [Node(start)];
    assert BaseKeys(q, [Node(start)]) == {q.display(Int4(start))};
  }

  /** The result holds nodes only, each connected node and no other. */
  ghost predicate Answers(edges: seq<Edge>, start: int, all: seq<Row>) {
    && AllGood(IsNode, all)
    && forall v {:trigger Node(v)} {:trigger Connected(edges, start, v)} ::
         Node(v) in all <==> Connected(edges, start, v)
  }

  predicate NoneTwice(rows: seq<Row>) { forall i, j :: 0 <= i < j < |rows| ==> rows[i] != rows[j] }

  /**
   * With CYCLE, over any graph with no more nodes than the cap: the query ends before the cap, and its rows
   * are the nodes that can be reached from the start, each of them once.
   */
  lemma GraphReachable(lib: Library, edges: seq<Edge>, q: Query, start: int, k: nat)
    requires q.term == Running(lib, Step(edges)) && q.names == ["n"] && q.cycle.Some? && Tells(q.display)
    requires |Nodes(edges, start)| <= k
    ensures var o := Rounds(q, Start(q, [Node(start)]), k);
      && o.Ok? && o.value.stopped && Answers(edges, start, o.value.state.all) && NoneTwice(o.value.state.all)
      && AllReachable(q, [Node(start)], o.value.state.all, k)
  {
    hide Rounds, Run, Step, Reachable, KeyOf, Nodes, Distributes, Total, Normal, BaseKeys, Path, KeysDetermine;
    var base := [Node(start)];
    GraphStops(lib, edges, q, start, k);
    GraphDistributes(lib, edges, q);
    KeysTell(q);
    ResultIsClosure(q, IsNode, base, k);
    var all := Rounds(q, Start(q, base), k).value.state.all;
    forall r | r in all ensures IsNode(r) { ReachableIsPath(lib, edges, q, start, r, k); }
    forall v ensures Node(v) in all <==> Connected(edges, start, v) {
      ResultKeysAreReachable(q, IsNode, base, k, q.display(Int4(v)));
      ReachableNode(lib, edges, q, start, v);
      NodeInKeys(q, all, v);
    }
    NodesOnce(q, start, k);
  }

  lemma NodeInKeys(q: Query, all: seq<Row>, v: int)
    requires q.cycle.Some? && Tells(q.display) && AllGood(IsNode, all)
    ensures Node(v) in all <==> q.display(Int4(v)) in Keys(q, all)
  {
    hide KeyOf;
    NodeKey(q, v);
    if q.display(Int4(v)) in Keys(q, all) {
      var r :| r in all && KeyOf(q, r) == q.display(Int4(v));
      NodeIs(r);
      NodeKey(q, r.values[0].int4);
    }
  }

  lemma ReachableNode(lib: Library, edges: seq<Edge>, q: Query, start: int, v: int)
    requires q.term == Running(lib, Step(edges)) && q.names == ["n"] && q.cycle.Some? && Tells(q.display)
    ensures ReachableKey(q, [Node(start)], q.display(Int4(v))) <==> Connected(edges, start, v)
  {
    hide Run, Step, KeyOf, Reachable, Path;
    NodeKey(q, v);
    if ReachableKey(q, [Node(start)], q.display(Int4(v))) {
      var r, n: nat :| Reachable(q, [Node(start)], r, n) && KeyOf(q, r) == q.display(Int4(v));
      ReachableIsPath(lib, edges, q, start, r, n);
      NodeIs(r);
      NodeKey(q, r.values[0].int4);
    }
    if Connected(edges, start, v) {
      var n: nat :| Path(edges, start, v, n);
      ReachableIsPath(lib, edges, q, start, Node(v), n);
    }
  }

  lemma NodesOnce(q: Query, start: int, k: nat)
    requires q.cycle.Some? && Rounds(q, Start(q, [Node(start)]), k).Ok?
    ensures NoneTwice(Rounds(q, Start(q, [Node(start)]), k).value.state.all)
  {
    hide Rounds, KeyOf, CycleKey;
    var base := [Node(start)];
    AddedKeysDistinct(q, base, k);
    var all := Rounds(q, Start(q, base), k).value.state.all;
    NodeKey(q, start);
    assert Node(start) in base && q.display(Int4(start)) in BaseKeys(q, base);
    assert all[0] == all[..1][0] == Node(start);
    assert forall i :: 1 <= i < |all| ==> all[i] == all[1..][i - 1] && all[1..][i - 1] in all[1..];
  }

  /** Without CYCLE: the nodes that can be reached by so many edges, whatever the graph. */
  lemma PlainGraph(lib: Library, edges: seq<Edge>, q: Query, start: int, k: nat)
    requires q.term == Running(lib, Step(edges)) && q.names == ["n"] && q.cycle.None?
    ensures var o := Rounds(q, Start(q, [Node(start)]), k);
      && o.Ok? && AllGood(IsNode, o.value.state.all)
      && forall v :: Node(v) in o.value.state.all <==> Path(edges, start, v, k)
  {
    hide Rounds, Run, Step, Reachable, Distributes, Total, Normal, Path;
    var base := [Node(start)];
    GraphDistributes(lib, edges, q);
    RoundsOk(q, IsNode, Start(q, base), k);
    PlainResultExact(q, IsNode, base, k);
    var all := Rounds(q, Start(q, base), k).value.state.all;
    forall r ensures r in all <==> IsNode(r) && Path(edges, start, r.values[0].int4, k) {
      ReachableIsPath(lib, edges, q, start, r, k);
    }
    assert forall v :: IsNode(Node(v));
  }

  /**
   * Without CYCLE, over any graph with no more nodes than the cap: the query may go on to the cap, round and
   * round its cycles, but its rows are the same nodes.
   */
  lemma PlainGraphReachable(lib: Library, edges: seq<Edge>, q: Query, display: Value -> string, start: int, k: nat)
    requires q.term == Running(lib, Step(edges)) && q.names == ["n"] && q.cycle.None? && Tells(display)
    requires |Nodes(edges, start)| <= k
    ensures var o := Rounds(q, Start(q, [Node(start)]), k); o.Ok? && Answers(edges, start, o.value.state.all)
  {
    hide Rounds, Run, Step, Reachable, Path, Nodes;
    PlainGraph(lib, edges, q, start, k);
    var c, base := Query(q.term, Some("n"), display, q.names), [Node(start)];
    GraphReachable(lib, edges, c, start, k);
    var all := Rounds(c, Start(c, base), k).value.state.all;
    forall v | Connected(edges, start, v) ensures Path(edges, start, v, k) {
      assert Node(v) in all;
      ReachableIsPath(lib, edges, c, start, Node(v), k);
    }
  }

  /** 0 -> 1 -> ... -> n. */
  function Chain(n: nat): (edges: seq<Edge>)
    ensures |edges| == n && forall i :: 0 <= i < n ==> edges[i] == (i, i + 1)
  {
    seq(n, i => (i, i + 1))
  }

  lemma {:induction false} ChainPaths(n: nat, v: int, steps: nat)
    ensures Path(Chain(n), 0, v, steps) <==> 0 <= v <= n && v <= steps
    decreases steps
  {
    if steps > 0 {
      if Path(Chain(n), 0, v, steps) && v != 0 {
        var e :| e in Chain(n) && e.1 == v && Path(Chain(n), 0, e.0, steps - 1);
        ChainPaths(n, e.0, steps - 1);
      }
      if 0 < v <= n && v <= steps {
        ChainPaths(n, v - 1, steps - 1);
        assert Chain(n)[v - 1] == (v - 1, v) && (v - 1, v) in Chain(n);
      }
    }
  }

  /** A chain one edge longer than the cap: its last node is connected, and missing. */
  lemma TooLong(lib: Library, q: Query, k: nat)
    requires q.term == Running(lib, Step(Chain(k + 1))) && q.names == ["n"] && q.cycle.None?
    ensures var o := Rounds(q, Start(q, [Node(0)]), k);
      o.Ok? && Connected(Chain(k + 1), 0, k + 1) && Node(k + 1) !in o.value.state.all
  {
    hide Rounds, Run, Step;
    PlainGraph(lib, Chain(k + 1), q, 0, k);
    ChainPaths(k + 1, k + 1, k);
    ChainPaths(k + 1, k + 1, k + 1);
  }

  /** The base row `start`, under some name, as the base query gives it. */
  function Base(start: int, column: string): seq<Row> { [Row([Int4(start)], [column])] }

  lemma Evaluates(lib: Library, edges: seq<Edge>, cycle: Option<string>, display: Value -> string, start: int,
                  column: string)
    ensures var q := GraphQuery(lib, edges, cycle, display);
      Evaluated(q, Base(start, column), ["n"]) == Rounds(q, Start(q, [Node(start)]), MAX_ITERATIONS)
  {
    hide Rounds, Run, Step;
    var q := GraphQuery(lib, edges, cycle, display);
    var base := RecursiveCte.Aliased(Base(start, column), ["n"]);
    assert base == [Node(start)] && Named(q, base) == q;
  }

  /** The chain of 1001 edges: without an error its last node is not in the answer. */
  lemma ChainCutOff(lib: Library, display: Value -> string, column: string)
    ensures var o := Evaluated(GraphQuery(lib, Chain(1001), None, display), Base(0, column), ["n"]);
      o.Ok? && Connected(Chain(1001), 0, 1001) && Node(1001) !in o.value.state.all
  {
    hide Rounds, Run, Step, Evaluated, Connected;
    Evaluates(lib, Chain(1001), None, display, 0, column);
    TooLong(lib, GraphQuery(lib, Chain(1001), None, display), 1000);
  }

  /** The same of the executor's evaluation, with its cap and the name of the CTE's signature. */
  lemma GraphExecuted(lib: Library, edges: seq<Edge>, cycle: Option<string>, display: Value -> string, start: int,
                      column: string)
    requires Tells(display) && |Nodes(edges, start)| <= 1000
    ensures var o := Evaluated(GraphQuery(lib, edges, cycle, display), Base(start, column), ["n"]);
      && o.Ok? && Answers(edges, start, o.value.state.all)
      && (cycle.Some? ==> o.value.stopped && NoneTwice(o.value.state.all))
  {
    hide Rounds, Run, Step, Reachable, Path, Nodes, Answers, NoneTwice, Evaluated;
    Evaluates(lib, edges, cycle, display, start, column);
    var q := GraphQuery(lib, edges, cycle, display);
    if cycle.Some? {
      GraphReachable(lib, edges, q, start, MAX_ITERATIONS);
    } else {
      PlainGraphReachable(lib, edges, q, display, start, MAX_ITERATIONS);
    }
  }
}
