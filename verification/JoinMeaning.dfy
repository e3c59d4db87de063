/** What inner and left joins give: which pairs, in which order, and what becomes of rows without a partner. */
module JoinMeaning {
  import opened Wrappers
  import opened Queries
  import opened HashJoin

  /** A pair of rows that join to `x`. */
  ghost predicate Pairs(lib: Library, cond: Expr, left: seq<Row>, right: seq<Row>, x: Row) {
    exists l, r :: l in left && r in right && x == Merge(l, r) && True(Eval(lib, cond, Merge(l, r)))
  }

  predicate AllValued(lib: Library, cond: Expr, left: seq<Row>, right: seq<Row>) {
    forall l, r :: l in left && r in right ==> Eval(lib, cond, Merge(l, r)).Ok?
  }

  lemma {:induction false} PartnersHold(lib: Library, cond: Expr, l: Row, right: seq<Row>)
    ensures Partners(lib, cond, l, right).Ok? <==> AllValued(lib, cond, [l], right)
    ensures Partners(lib, cond, l, right).Ok? ==> forall x ::
        x in Partners(lib, cond, l, right).value <==> Pairs(lib, cond, [l], right, x)
  {
    hide Eval, Merge;
    if right != [] {
      var before, last := right[..|right| - 1], right[|right| - 1];
      assert right == before + [last] && l in [l];
      PartnersHold(lib, cond, l, before);
      assert forall r :: r in right <==> r in before || r == last;
      if Partners(lib, cond, l, right).Ok? {
        forall x ensures x in Partners(lib, cond, l, right).value <==> Pairs(lib, cond, [l], right, x) {
          assert x in Partners(lib, cond, l, before).value <==> Pairs(lib, cond, [l], before, x);
        }
      }
    }
  }

  /** The inner nested loop gives the pairs that satisfy the condition, if it has a value on all. */
  lemma {:induction false} InnerPairs(lib: Library, cond: Expr, left: seq<Row>, right: seq<Row>)
    ensures NestedLoop(lib, Inner, cond, left, right).Ok? <==> AllValued(lib, cond, left, right)
    ensures NestedLoop(lib, Inner, cond, left, right).Ok? ==> forall x ::
        x in NestedLoop(lib, Inner, cond, left, right).value <==> Pairs(lib, cond, left, right, x)
  {
    hide Eval, Merge, Partners;
    if left != [] {
      var before, last := left[..|left| - 1], left[|left| - 1];
      assert left == before + [last] && last in [last];
      InnerPairs(lib, cond, before, right);
      PartnersHold(lib, cond, last, right);
      assert forall l :: l in left <==> l in before || l == last;
      if NestedLoop(lib, Inner, cond, left, right).Ok? {
        forall x ensures x in NestedLoop(lib, Inner, cond, left, right).value
                     <==> Pairs(lib, cond, left, right, x) {
          assert Pairs(lib, cond, left, right, x) <==>
            Pairs(lib, cond, before, right, x) || Pairs(lib, cond, [last], right, x);
        }
      }
    }
  }

  // ------------------------------------------------------------- exactly

  /** The pair of left row `i` and right row `j` satisfies the condition. */
  predicate Meets(lib: Library, cond: Expr, left: seq<Row>, right: seq<Row>, i: nat, j: nat) {
    i < |left| && j < |right| && True(Eval(lib, cond, Merge(left[i], right[j])))
  }

  /** A left row without a partner. */
  predicate Lonely(lib: Library, cond: Expr, left: seq<Row>, right: seq<Row>, i: nat) {
    i < |left| && forall j: nat :: j < |right| ==> !Meets(lib, cond, left, right, i, j)
  }

  /** The left row and then a NULL for each name of the right, under those names. */
  predicate IsPadded(row: Row, l: Row, right: seq<Row>) {
    var names := if right == [] then [] else right[0].names;
    && |row.values| == |l.values| + |names| && row.names == l.names + names
    && row.values[..|l.values|] == l.values
    && forall k :: |l.values| <= k < |row.values| ==> row.values[k].Null?
  }

  /** Place `(i, j)` of the result: that pair, or with `j` past the right rows, the padded left row. */
  predicate Belongs(lib: Library, kind: JoinType, cond: Expr, left: seq<Row>, right: seq<Row>, p: (nat, nat)) {
    || Meets(lib, cond, left, right, p.0, p.1)
    || (kind.Left? && p.1 == |right| && Lonely(lib, cond, left, right, p.0))
  }

  predicate At(left: seq<Row>, right: seq<Row>, p: (nat, nat), row: Row) {
    p.0 < |left| && if p.1 < |right| then row == Merge(left[p.0], right[p.1]) else IsPadded(row, left[p.0], right)
  }

  predicate Earlier(p: (nat, nat), q: (nat, nat)) { p.0 < q.0 || (p.0 == q.0 && p.1 < q.1) }

  /** The places are in order, and are exactly those that belong. */
  ghost predicate Lists(lib: Library, kind: JoinType, cond: Expr, left: seq<Row>, right: seq<Row>, rows: seq<Row>,
                        ps: seq<(nat, nat)>) {
    && |ps| == |rows|
    && (forall k :: 0 <= k < |ps| ==> At(left, right, ps[k], rows[k]))
    && (forall k, m :: 0 <= k < m < |ps| ==> Earlier(ps[k], ps[m]))
    && (forall p {:trigger p in ps} {:trigger Belongs(lib, kind, cond, left, right, p)} ::
          p in ps <==> Belongs(lib, kind, cond, left, right, p))
  }

  ghost predicate ListsPartners(lib: Library, cond: Expr, l: Row, right: seq<Row>, rows: seq<Row>, js: seq<nat>) {
    && |js| == |rows|
    && (forall k :: 0 <= k < |js| ==> js[k] < |right| && rows[k] == Merge(l, right[js[k]]))
    && (forall k, m :: 0 <= k < m < |js| ==> js[k] < js[m])
    && (forall j: nat {:trigger j in js} :: j in js <==> j < |right| && True(Eval(lib, cond, Merge(l, right[j]))))
  }

  lemma {:induction false} PartnersListed(lib: Library, cond: Expr, l: Row, right: seq<Row>) returns (js: seq<nat>)
    requires Partners(lib, cond, l, right).Ok?
    ensures ListsPartners(lib, cond, l, right, Partners(lib, cond, l, right).value, js)
  {
    js := [];
    if right != [] {
      var n := |right| - 1;
      hide Eval, Merge, ListsPartners;
      js := PartnersListed(lib, cond, l, right[..n]);
      PartnerNext(lib, cond, l, right, Partners(lib, cond, l, right[..n]).value, js);
      if True(Eval(lib, cond, Merge(l, right[n]))) {
        js := js + [n];
      } else {
        assert Partners(lib, cond, l, right[..n]).value + [] == Partners(lib, cond, l, right[..n]).value;
      }
    }
  }

  lemma PartnerNext(lib: Library, cond: Expr, l: Row, right: seq<Row>, rows: seq<Row>, js: seq<nat>)
    requires right != [] && ListsPartners(lib, cond, l, right[..|right| - 1], rows, js)
    ensures var n := |right| - 1;
      if True(Eval(lib, cond, Merge(l, right[n])))
      then ListsPartners(lib, cond, l, right, rows + [Merge(l, right[n])], js + [n])
      else ListsPartners(lib, cond, l, right, rows, js)
  {
    hide Eval, Merge;
    var n := |right| - 1;
    assert forall j: nat :: j < n ==> right[..n][j] == right[j];
    assert forall k :: 0 <= k < |js| ==> js[k] in js;
    assert n in js + [n] && forall j: nat :: j in js + [n] <==> j in js || j == n;
  }

  lemma PaddedIs(l: Row, right: seq<Row>)
    ensures IsPadded(Padded(l, right), l, right)
  {
  }

  /** The places of one left row. */
  function PlacesOf(i: nat, js: seq<nat>): (ps: seq<(nat, nat)>)
    ensures |ps| == |js| && forall k :: 0 <= k < |js| ==> ps[k] == (i, js[k])
  {
    seq(|js|, k requires 0 <= k < |js| => (i, js[k]))
  }

  lemma InRow(i: nat, js: seq<nat>, p: (nat, nat))
    ensures p in PlacesOf(i, js) <==> p.0 == i && p.1 in js
  {
    if p.0 == i && p.1 in js {
      var k :| 0 <= k < |js| && js[k] == p.1;
      assert PlacesOf(i, js)[k] == p;
    }
  }

  lemma BelongsBefore(lib: Library, kind: JoinType, cond: Expr, left: seq<Row>, right: seq<Row>, n: nat, p: (nat, nat))
    requires n <= |left|
    ensures Belongs(lib, kind, cond, left[..n], right, p) <==> p.0 < n && Belongs(lib, kind, cond, left, right, p)
  {
    hide Eval, Merge;
    if p.0 < n {
      forall j: nat ensures Meets(lib, cond, left[..n], right, p.0, j) <==> Meets(lib, cond, left, right, p.0, j) { }
    }
  }

  /** What the last left row contributes, place by place. */
  lemma LastListed(lib: Library, kind: JoinType, cond: Expr, left: seq<Row>, right: seq<Row>) returns (js: seq<nat>)
    requires left != [] && Partners(lib, cond, left[|left| - 1], right).Ok?
    ensures var n := |left| - 1;
      var c := Contribution(kind, left[n], right, Partners(lib, cond, left[n], right));
      && c.Ok? && |js| == |c.value|
      && (forall k :: 0 <= k < |js| ==> At(left, right, (n, js[k]), c.value[k]))
      && (forall k, m :: 0 <= k < m < |js| ==> js[k] < js[m])
      && (forall j: nat {:trigger j in js} :: j in js <==> Belongs(lib, kind, cond, left, right, (n, j)))
  {
    hide Eval, Merge, Padded;
    var n := |left| - 1;
    var l := left[n];
    js := PartnersListed(lib, cond, l, right);
    hide Partners;
    forall j: nat ensures j in js <==> Meets(lib, cond, left, right, n, j) { }
    if js == [] {
      assert Lonely(lib, cond, left, right, n);
      if kind.Left? {
        PaddedIs(l, right);
        js := [|right|];
      }
    } else {
      assert js[0] in js;
      assert Meets(lib, cond, left, right, n, js[0]);
    }
  }

  /**
   * The nested loop, exactly: pair by pair in the order of the left rows and for each in the order of the right
   * ones; and in a left join, for each left row without a partner, that row with NULLs.
   */
  lemma {:induction false} LoopListed(lib: Library, kind: JoinType, cond: Expr, left: seq<Row>, right: seq<Row>)
    returns (ps: seq<(nat, nat)>)
    requires NestedLoop(lib, kind, cond, left, right).Ok?
    ensures Lists(lib, kind, cond, left, right, NestedLoop(lib, kind, cond, left, right).value, ps)
  {
    hide Eval, Merge, Padded, Partners, Contribution;
    ps := [];
    if left != [] {
      var n := |left| - 1;
      var before := LoopListed(lib, kind, cond, left[..n], right);
      ContributionOk(kind, left[n], right, Partners(lib, cond, left[n], right));
      var js := LastListed(lib, kind, cond, left, right);
      ps := before + PlacesOf(n, js);
      ListsJoined(lib, kind, cond, left, right, NestedLoop(lib, kind, cond, left[..n], right).value,
                  Contribution(kind, left[n], right, Partners(lib, cond, left[n], right)).value, before, js);
    }
  }

  lemma {:induction false} LoopTotal(lib: Library, kind: JoinType, cond: Expr, left: seq<Row>, right: seq<Row>)
    ensures NestedLoop(lib, kind, cond, left, right).Ok? <==> AllValued(lib, cond, left, right)
  {
    hide Eval, Merge, Partners, Contribution;
    if left != [] {
      var before, last := left[..|left| - 1], left[|left| - 1];
      assert left == before + [last] && last in [last];
      LoopTotal(lib, kind, cond, before, right);
      PartnersHold(lib, cond, last, right);
      ContributionOk(kind, last, right, Partners(lib, cond, last, right));
      assert forall l :: l in left <==> l in before || l == last;
    }
  }

  /** It succeeds exactly when the condition has a value on every pair, and then gives these rows in this order. */
  lemma LoopExact(lib: Library, kind: JoinType, cond: Expr, left: seq<Row>, right: seq<Row>)
    ensures NestedLoop(lib, kind, cond, left, right).Ok? <==> AllValued(lib, cond, left, right)
    ensures NestedLoop(lib, kind, cond, left, right).Ok? ==>
      exists ps :: Lists(lib, kind, cond, left, right, NestedLoop(lib, kind, cond, left, right).value, ps)
  {
    hide NestedLoop, AllValued, Lists;
    LoopTotal(lib, kind, cond, left, right);
    if NestedLoop(lib, kind, cond, left, right).Ok? {
      var ps := LoopListed(lib, kind, cond, left, right);
    }
  }

  lemma ContributionOk(kind: JoinType, l: Row, right: seq<Row>, partners: Result<seq<Row>>)
    ensures Contribution(kind, l, right, partners).Ok? <==> partners.Ok?
  {
  }

  lemma ListsJoined(lib: Library, kind: JoinType, cond: Expr, left: seq<Row>, right: seq<Row>, rows: seq<Row>,
                    more: seq<Row>, before: seq<(nat, nat)>, js: seq<nat>)
    requires left != [] && Lists(lib, kind, cond, left[..|left| - 1], right, rows, before)
    requires |js| == |more| && forall k :: 0 <= k < |js| ==> At(left, right, (|left| - 1, js[k]), more[k])
    requires forall k, m :: 0 <= k < m < |js| ==> js[k] < js[m]
    requires forall j: nat {:trigger j in js} ::
      j in js <==> Belongs(lib, kind, cond, left, right, (|left| - 1, j))
    ensures Lists(lib, kind, cond, left, right, rows + more, before + PlacesOf(|left| - 1, js))
  {
    hide Eval, Merge, IsPadded;
    var n := |left| - 1;
    var ps := before + PlacesOf(n, js);
    forall p ensures p in ps <==> Belongs(lib, kind, cond, left, right, p) {
      InRow(n, js, p);
      BelongsBefore(lib, kind, cond, left, right, n, p);
      assert p in before <==> Belongs(lib, kind, cond, left[..n], right, p);
      if p.0 == n { assert p == (n, p.1); }
    }
    hide Belongs;
    forall k | 0 <= k < |before| ensures At(left, right, before[k], rows[k]) && before[k].0 < n {
      assert At(left[..n], right, before[k], rows[k]);
    }
  }

  predicate Begins(row: Row, l: Row) { l.values <= row.values && l.names <= row.names }

  /** A left join keeps every left row. */
  lemma LeftKept(lib: Library, cond: Expr, left: seq<Row>, right: seq<Row>, i: nat)
    requires NestedLoop(lib, Left, cond, left, right).Ok? && i < |left|
    ensures exists row :: row in NestedLoop(lib, Left, cond, left, right).value && Begins(row, left[i])
  {
    hide Eval, NestedLoop;
    var rows := NestedLoop(lib, Left, cond, left, right).value;
    var ps := LoopListed(lib, Left, cond, left, right);
    var p: (nat, nat);
    if Lonely(lib, cond, left, right, i) {
      p := (i, |right|);
    } else {
      var j: nat :| j < |right| && Meets(lib, cond, left, right, i, j);
      p := (i, j);
    }
    assert Belongs(lib, Left, cond, left, right, p) && p in ps;
    var k :| 0 <= k < |ps| && ps[k] == p;
    assert At(left, right, ps[k], rows[k]) && rows[k] in rows;
  }

  /** A column of the left row has its value on the padded one. */
  lemma PaddedColumn(lib: Library, l: Row, right: seq<Row>, row: Row, table: string, name: string)
    requires |l.values| == |l.names| && table + "." + name in l.names && IsPadded(row, l, right)
    ensures Eval(lib, Column(Some(table), name), row) == Eval(lib, Column(Some(table), name), l)
  {
    var names := if right == [] then [] else right[0].names;
    var nulls := Row(row.values[|l.values|..], names);
    assert row == Merge(l, nulls);
    LeftColumn(lib, l, nulls, table, name);
  }
}
