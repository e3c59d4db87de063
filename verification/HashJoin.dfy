/** Inner and left joins: the hash join against the nested loop. */
module HashJoin {
  import opened Wrappers
  import opened Values
  import opened Floats
  import opened Queries

  datatype JoinType = Inner | Left

  function Merge(l: Row, r: Row): Row { Row(l.values + r.values, l.names + r.names) }

  /** A left row without partner, filled with NULLs for the names of the right. */
  function Padded(l: Row, right: seq<Row>): Row {
    var names := if right == [] then [] else right[0].names;
    Row(l.values + seq(|names|, i => Null), l.names + names)
  }

  // ---------------------------------------------------------- the nested loop

  /** The partners of a left row among some right rows, up to the first error of the condition. */
  function Partners(lib: Library, cond: Expr, l: Row, right: seq<Row>): Result<seq<Row>> {
    if right == [] then Ok([])
    else
      var rest := Partners(lib, cond, l, right[..|right| - 1]);
      var last := Merge(l, right[|right| - 1]);
      if rest.Err? then rest
      else
        var v := Eval(lib, cond, last);
        if v.Err? then Err(v.error) else Ok(rest.value + if True(v) then [last] else [])
  }

  /** What a left row contributes. */
  function Contribution(jt: JoinType, l: Row, right: seq<Row>, partners: Result<seq<Row>>): Result<seq<Row>> {
    if jt.Left? && partners == Ok([]) then Ok([Padded(l, right)]) else partners
  }

  function Joined(a: Result<seq<Row>>, b: Result<seq<Row>>): Result<seq<Row>> {
    if a.Err? then a else if b.Err? then b else Ok(a.value + b.value)
  }

  function NestedLoop(lib: Library, jt: JoinType, cond: Expr, left: seq<Row>, right: seq<Row>): Result<seq<Row>> {
    if left == [] then Ok([])
    else
      var l := left[|left| - 1];
      Joined(NestedLoop(lib, jt, cond, left[..|left| - 1], right),
             Contribution(jt, l, right, Partners(lib, cond, l, right)))
  }

  // ------------------------------------------------------------ the hash join

  /** The two sides of the leftmost conjunct, if it is an equality. */
  function ExtractKeys(cond: Expr): Option<(Expr, Expr)> {
    match cond
    case Binary(l, op, r) => if op.Eq? then Some((l, r)) else if op.And? then ExtractKeys(l) else None
    case _ => None
  }

  /** Whether an expression can be evaluated on some row of a side. */
  predicate SomeRow(lib: Library, e: Expr, rows: seq<Row>) {
    exists i :: 0 <= i < |rows| && Eval(lib, e, rows[i]).Ok?
  }

  /** Which key is for which side: as written if both can be evaluated so, else the other way round. */
  function ChooseKeys(lib: Library, cond: Expr, left: seq<Row>, right: seq<Row>): Option<(Expr, Expr)> {
    var keys := ExtractKeys(cond);
    if keys.None? then None
    else if SomeRow(lib, keys.value.0, left) && SomeRow(lib, keys.value.1, right) then keys
    else Some((keys.value.1, keys.value.0))
  }

  /** The text a row is filed under; none for an error or a NULL. */
  function KeyText(lib: Library, key: Option<Expr>, row: Row): Option<string> {
    if key.None? then Some(lib.debugRow(row.values))
    else
      var v := Eval(lib, key.value, row);
      if v.Err? || v.value.Null? then None else Some(lib.debug(v.value))
  }

  /** The right rows filed under a text, in their order. */
  function Bucket(lib: Library, key: Option<Expr>, right: seq<Row>, text: string): seq<Row> {
    if right == [] then []
    else
      Bucket(lib, key, right[..|right| - 1], text)
      + if KeyText(lib, key, right[|right| - 1]) == Some(text) then [right[|right| - 1]] else []
  }

  predicate AllFail(lib: Library, key: Option<Expr>, right: seq<Row>) {
    forall i :: 0 <= i < |right| ==> KeyText(lib, key, right[i]).None?
  }

  /** What a left row contributes when it looks its partners up. */
  function Probed(lib: Library, jt: JoinType, cond: Expr, l: Row, right: seq<Row>,
                  lkey: Option<Expr>, rkey: Option<Expr>): Result<seq<Row>>
  {
    var text := KeyText(lib, lkey, l);
    Contribution(jt, l, right,
      if text.None? then Ok([]) else Partners(lib, cond, l, Bucket(lib, rkey, right, text.value)))
  }

  function ProbeLoop(lib: Library, jt: JoinType, cond: Expr, left: seq<Row>, right: seq<Row>,
                     lkey: Option<Expr>, rkey: Option<Expr>): Result<seq<Row>>
  {
    if left == [] then Ok([])
    else
      var l := left[|left| - 1];
      Joined(ProbeLoop(lib, jt, cond, left[..|left| - 1], right, lkey, rkey),
             Probed(lib, jt, cond, l, right, lkey, rkey))
  }

  function First(keys: Option<(Expr, Expr)>): Option<Expr> { if keys.Some? then Some(keys.value.0) else None }
  function Second(keys: Option<(Expr, Expr)>): Option<Expr> { if keys.Some? then Some(keys.value.1) else None }

  /** The join: if no right row can be filed, the nested loop after all. */
  function Hashed(lib: Library, jt: JoinType, cond: Expr, left: seq<Row>, right: seq<Row>): Result<seq<Row>> {
    var keys := ChooseKeys(lib, cond, left, right);
    if right != [] && AllFail(lib, Second(keys), right) then NestedLoop(lib, jt, cond, left, right)
    else ProbeLoop(lib, jt, cond, left, right, First(keys), Second(keys))
  }

  // -------------------------------------------------------- when they agree

  /** The condition has a value on every pair. */
  predicate Total(lib: Library, cond: Expr, left: seq<Row>, right: seq<Row>) {
    forall i, j :: 0 <= i < |left| && 0 <= j < |right| ==> Eval(lib, cond, Merge(left[i], right[j])).Ok?
  }

  predicate TotalFor(lib: Library, cond: Expr, l: Row, right: seq<Row>) {
    forall j :: 0 <= j < |right| ==> Eval(lib, cond, Merge(l, right[j])).Ok?
  }

  /** A pair that matches is filed under the text its left row looks up. */
  predicate PairFound(lib: Library, cond: Expr, l: Row, r: Row, lkey: Option<Expr>, rkey: Option<Expr>) {
    True(Eval(lib, cond, Merge(l, r))) ==>
      KeyText(lib, lkey, l).Some? && KeyText(lib, rkey, r) == KeyText(lib, lkey, l)
  }

  predicate RowFound(lib: Library, cond: Expr, l: Row, right: seq<Row>, lkey: Option<Expr>, rkey: Option<Expr>) {
    forall j :: 0 <= j < |right| ==> PairFound(lib, cond, l, right[j], lkey, rkey)
  }

  predicate NoneLost(lib: Library, cond: Expr, left: seq<Row>, right: seq<Row>, lkey: Option<Expr>,
                     rkey: Option<Expr>) {
    forall i :: 0 <= i < |left| ==> RowFound(lib, cond, left[i], right, lkey, rkey)
  }

  function BucketOf(lib: Library, key: Option<Expr>, right: seq<Row>, text: Option<string>): seq<Row> {
    if text.None? then [] else Bucket(lib, key, right, text.value)
  }

  lemma {:induction false} PartnersTotal(lib: Library, cond: Expr, l: Row, right: seq<Row>)
    requires TotalFor(lib, cond, l, right)
    ensures Partners(lib, cond, l, right).Ok?
  {
    hide Eval;
    if right != [] { PartnersTotal(lib, cond, l, right[..|right| - 1]); }
  }

  lemma {:induction false} BucketTotal(lib: Library, cond: Expr, l: Row, right: seq<Row>, key: Option<Expr>,
                                       text: string)
    requires TotalFor(lib, cond, l, right)
    ensures TotalFor(lib, cond, l, Bucket(lib, key, right, text))
  {
    hide Eval, KeyText;
    if right != [] { BucketTotal(lib, cond, l, right[..|right| - 1], key, text); }
  }

  lemma PartnersLast(lib: Library, cond: Expr, l: Row, before: seq<Row>, last: Row)
    requires TotalFor(lib, cond, l, before + [last])
    ensures TotalFor(lib, cond, l, before) && Partners(lib, cond, l, before).Ok?
    ensures Partners(lib, cond, l, before + [last]) ==
      Ok(Partners(lib, cond, l, before).value + if True(Eval(lib, cond, Merge(l, last))) then [Merge(l, last)] else [])
  {
    hide Eval;
    var all := before + [last];
    assert all[..|before|] == before && all[|before|] == last;
    assert forall j :: 0 <= j < |before| ==> all[j] == before[j];
    PartnersTotal(lib, cond, l, before);
  }

  lemma BucketLast(lib: Library, key: Option<Expr>, before: seq<Row>, last: Row, text: string)
    ensures Bucket(lib, key, before + [last], text) ==
      Bucket(lib, key, before, text) + if KeyText(lib, key, last) == Some(text) then [last] else []
  {
    hide KeyText;
    assert (before + [last])[..|before|] == before;
  }

  /** Looking up loses a partner or finds them all, and never finds one too many. */
  predicate Finds(lib: Library, cond: Expr, l: Row, right: seq<Row>, bucket: seq<Row>, all: bool) {
    var found, every := Partners(lib, cond, l, bucket), Partners(lib, cond, l, right);
    && found.Ok? && every.Ok?
    && if all then found == every else |found.value| < |every.value|
  }

  lemma {:induction false} LookupPartners(lib: Library, cond: Expr, l: Row, right: seq<Row>, lkey: Option<Expr>,
                                          rkey: Option<Expr>)
    requires TotalFor(lib, cond, l, right)
    ensures Finds(lib, cond, l, right, BucketOf(lib, rkey, right, KeyText(lib, lkey, l)),
                  RowFound(lib, cond, l, right, lkey, rkey))
  {
    hide Eval, KeyText, Merge;
    var text := KeyText(lib, lkey, l);
    if right != [] {
      hide Partners, Bucket, TotalFor, RowFound;
      var before, last := right[..|right| - 1], right[|right| - 1];
      assert right == before + [last];
      PartnersLast(lib, cond, l, before, last);
      LookupPartners(lib, cond, l, before, lkey, rkey);
      var every, found := Partners(lib, cond, l, before).value,
                          Partners(lib, cond, l, BucketOf(lib, rkey, before, text)).value;
      assert every + [] == every && found + [] == found;
      RowFoundLast(lib, cond, l, before, last, lkey, rkey);
      if text.Some? {
        BucketTotal(lib, cond, l, right, rkey, text.value);
        BucketLast(lib, rkey, before, last, text.value);
        if KeyText(lib, rkey, last) == text {
          PartnersLast(lib, cond, l, Bucket(lib, rkey, before, text.value), last);
        } else {
          assert Bucket(lib, rkey, before, text.value) + [] == Bucket(lib, rkey, before, text.value);
        }
      }
    }
  }

  lemma RowFoundLast(lib: Library, cond: Expr, l: Row, before: seq<Row>, last: Row, lkey: Option<Expr>,
                     rkey: Option<Expr>)
    ensures RowFound(lib, cond, l, before + [last], lkey, rkey) <==>
      RowFound(lib, cond, l, before, lkey, rkey) && PairFound(lib, cond, l, last, lkey, rkey)
  {
    hide PairFound;
    var all := before + [last];
    assert all[|before|] == last;
    assert forall j :: 0 <= j < |before| ==> all[j] == before[j];
  }

  lemma ProbedIs(lib: Library, jt: JoinType, cond: Expr, l: Row, right: seq<Row>, lkey: Option<Expr>,
                 rkey: Option<Expr>)
    ensures Probed(lib, jt, cond, l, right, lkey, rkey) ==
      Contribution(jt, l, right, Partners(lib, cond, l, BucketOf(lib, rkey, right, KeyText(lib, lkey, l))))
  {
    hide Eval, KeyText;
  }

  /** Losing no pair, probing gives the rows of the nested loop in their order. */
  lemma {:induction false} ProbeAgrees(lib: Library, jt: JoinType, cond: Expr, left: seq<Row>, right: seq<Row>,
                                       lkey: Option<Expr>, rkey: Option<Expr>)
    requires Total(lib, cond, left, right) && NoneLost(lib, cond, left, right, lkey, rkey)
    ensures ProbeLoop(lib, jt, cond, left, right, lkey, rkey) == NestedLoop(lib, jt, cond, left, right)
  {
    hide Eval, KeyText, Probed, PairFound;
    if left != [] {
      var l := left[|left| - 1];
      ProbeAgrees(lib, jt, cond, left[..|left| - 1], right, lkey, rkey);
      LookupPartners(lib, cond, l, right, lkey, rkey);
      ProbedIs(lib, jt, cond, l, right, lkey, rkey);
      assert RowFound(lib, cond, left[|left| - 1], right, lkey, rkey);
    }
  }

  /** No partner is taken for a left row without partner: padding would not look like it. */
  predicate PartnersShow(lib: Library, cond: Expr, l: Row, right: seq<Row>) {
    forall j :: 0 <= j < |right| && True(Eval(lib, cond, Merge(l, right[j]))) ==> Merge(l, right[j]) != Padded(l, right)
  }

  predicate AllShow(lib: Library, cond: Expr, left: seq<Row>, right: seq<Row>) {
    forall i :: 0 <= i < |left| ==> PartnersShow(lib, cond, left[i], right)
  }

  lemma {:induction false} PartnersAre(lib: Library, cond: Expr, l: Row, right: seq<Row>, all: seq<Row>, r: Row)
    requires Partners(lib, cond, l, right) == Ok(all) && r in all
    ensures exists j :: 0 <= j < |right| && r == Merge(l, right[j]) && True(Eval(lib, cond, Merge(l, right[j])))
  {
    hide Eval, Merge;
    var last := |right| - 1;
    var before := Partners(lib, cond, l, right[..last]).value;
    if r in before {
      PartnersAre(lib, cond, l, right[..last], before, r);
      var j :| 0 <= j < last && r == Merge(l, right[..last][j]) && True(Eval(lib, cond, Merge(l, right[..last][j])));
      assert right[..last][j] == right[j];
    } else {
      assert r == Merge(l, right[last]) && True(Eval(lib, cond, Merge(l, right[last])));
    }
  }

  /** What one left row contributes is never longer, and a lost partner shows. */
  lemma ContributionExact(lib: Library, jt: JoinType, cond: Expr, l: Row, right: seq<Row>, lkey: Option<Expr>,
                          rkey: Option<Expr>)
    requires TotalFor(lib, cond, l, right) && (jt.Left? ==> PartnersShow(lib, cond, l, right))
    ensures var found := Probed(lib, jt, cond, l, right, lkey, rkey);
      var all := Contribution(jt, l, right, Partners(lib, cond, l, right));
      && found.Ok? && all.Ok? && |found.value| <= |all.value|
      && (found == all ==> RowFound(lib, cond, l, right, lkey, rkey))
  {
    hide Eval, KeyText, Merge, Probed, RowFound, TotalFor, Padded;
    LookupPartners(lib, cond, l, right, lkey, rkey);
    ProbedIs(lib, jt, cond, l, right, lkey, rkey);
    hide Bucket;
    var all := Partners(lib, cond, l, right).value;
    if jt.Left? && all == [Padded(l, right)] {
      assert all[0] in all;
      PartnersAre(lib, cond, l, right, all, all[0]);
    }
    hide Partners;
  }

  /** Probing gives no more rows than the nested loop, and the same ones only if no pair is lost. */
  lemma {:induction false} ProbeExact(lib: Library, jt: JoinType, cond: Expr, left: seq<Row>, right: seq<Row>,
                                      lkey: Option<Expr>, rkey: Option<Expr>)
    requires Total(lib, cond, left, right) && (jt.Left? ==> AllShow(lib, cond, left, right))
    ensures var probed := ProbeLoop(lib, jt, cond, left, right, lkey, rkey);
      var all := NestedLoop(lib, jt, cond, left, right);
      && probed.Ok? && all.Ok? && |probed.value| <= |all.value|
      && (probed == all ==> NoneLost(lib, cond, left, right, lkey, rkey))
  {
    hide Eval, KeyText, Probed, RowFound, PartnersShow, Partners, Contribution;
    if left != [] {
      var l, before := left[|left| - 1], left[..|left| - 1];
      ProbeExact(lib, jt, cond, before, right, lkey, rkey);
      ContributionExact(lib, jt, cond, l, right, lkey, rkey);
      NoneLostLast(lib, cond, before, l, right, lkey, rkey);
      assert before + [l] == left;
      SplitEqual(ProbeLoop(lib, jt, cond, before, right, lkey, rkey).value,
                 Probed(lib, jt, cond, l, right, lkey, rkey).value,
                 NestedLoop(lib, jt, cond, before, right).value,
                 Contribution(jt, l, right, Partners(lib, cond, l, right)).value);
    }
  }

  lemma SplitEqual(a: seq<Row>, b: seq<Row>, c: seq<Row>, d: seq<Row>)
    requires |a| <= |c| && |b| <= |d|
    ensures a + b == c + d ==> a == c && b == d
  {
    if a + b == c + d {
      assert |a + b| == |c + d|;
      assert a == (a + b)[..|a|] && b == (a + b)[|a|..];
      assert c == (c + d)[..|c|] && d == (c + d)[|c|..];
    }
  }

  lemma NoneLostLast(lib: Library, cond: Expr, before: seq<Row>, l: Row, right: seq<Row>, lkey: Option<Expr>,
                     rkey: Option<Expr>)
    ensures NoneLost(lib, cond, before + [l], right, lkey, rkey) <==>
      NoneLost(lib, cond, before, right, lkey, rkey) && RowFound(lib, cond, l, right, lkey, rkey)
  {
    hide RowFound;
    var all := before + [l];
    assert all[|before|] == l;
    assert forall j :: 0 <= j < |before| ==> all[j] == before[j];
  }

  // -------------------------------------------- equality of keys of one type

  /** A key of the left rows: it has a value on each, the same one on the merged rows. */
  predicate LeftKey(lib: Library, key: Expr, left: seq<Row>, right: seq<Row>) {
    && (forall i :: 0 <= i < |left| ==> Eval(lib, key, left[i]).Ok?)
    && forall i, j :: 0 <= i < |left| && 0 <= j < |right| ==>
         Eval(lib, key, Merge(left[i], right[j])) == Eval(lib, key, left[i])
  }

  predicate RightKey(lib: Library, key: Expr, left: seq<Row>, right: seq<Row>) {
    && (forall j :: 0 <= j < |right| ==> Eval(lib, key, right[j]).Ok?)
    && forall i, j :: 0 <= i < |left| && 0 <= j < |right| ==>
         Eval(lib, key, Merge(left[i], right[j])) == Eval(lib, key, right[j])
  }

  /** The keys are of one of the plain types, the same on both sides, or NULL. */
  predicate KeyTypes(lib: Library, lkey: Expr, rkey: Expr, left: seq<Row>, right: seq<Row>) {
    forall i, j :: 0 <= i < |left| && 0 <= j < |right| ==>
      var a, b := Eval(lib, lkey, left[i]), Eval(lib, rkey, right[j]);
      a.Ok? && b.Ok? && !a.value.Null? && !b.value.Null? ==> Plain(a.value) && SameType(a.value, b.value)
  }

  /** A true condition makes its leftmost equality true. */
  lemma {:induction false} LeftmostTrue(lib: Library, cond: Expr, row: Row)
    requires ExtractKeys(cond).Some? && True(Eval(lib, cond, row))
    ensures var (a, b) := ExtractKeys(cond).value; True(Eval(lib, Binary(a, Eq, b), row))
  {
    hide EvalOp;
    if cond.op.And? {
      AndTrue(lib, cond.left, cond.right, row);
      LeftmostTrue(lib, cond.left, row);
    }
  }

  lemma EqualityTrue(lib: Library, a: Expr, b: Expr, row: Row)
    requires True(Eval(lib, Binary(a, Eq, b), row))
    ensures Eval(lib, a, row).Ok? && Eval(lib, b, row).Ok?
    ensures True(EvalOp(lib, Eval(lib, a, row).value, Eq, Eval(lib, b, row).value))
  {
    hide EvalOp;
  }

  lemma EqualNotNull(lib: Library, a: Value, b: Value)
    requires True(EvalOp(lib, a, Eq, b))
    ensures !a.Null? && !b.Null?
  {
  }

  lemma EqualTexts(lib: Library, a: Value, b: Value)
    requires True(EvalOp(lib, a, Eq, b)) && !a.Null? && !b.Null? && Plain(a) && SameType(a, b)
    ensures a == b
  {
    EqualIsSame(lib, a, b);
  }

  /** Equal keys give equal texts. */
  lemma KeysMeet(lib: Library, l: Row, r: Row, lkey: Expr, rkey: Expr, a: Value, b: Value)
    requires Eval(lib, lkey, l) == Ok(a) && Eval(lib, rkey, r) == Ok(b) && a == b && !a.Null?
    ensures KeyText(lib, Some(lkey), l).Some? && KeyText(lib, Some(rkey), r) == KeyText(lib, Some(lkey), l)
  {
    hide Eval;
  }

  lemma WrittenForth(lib: Library, cond: Expr, row: Row, lkey: Expr, rkey: Expr, a: Value, b: Value)
    requires ExtractKeys(cond) == Some((lkey, rkey)) && True(Eval(lib, cond, row))
    requires Eval(lib, lkey, row) == Ok(a) && Eval(lib, rkey, row) == Ok(b)
    ensures True(EvalOp(lib, a, Eq, b))
  {
    hide EvalOp;
    LeftmostTrue(lib, cond, row);
    hide Eval;
    EqualityTrue(lib, lkey, rkey, row);
  }

  lemma PairIsFound(lib: Library, cond: Expr, l: Row, r: Row, lkey: Expr, rkey: Expr, a: Value, b: Value)
    requires ExtractKeys(cond) == Some((lkey, rkey)) || ExtractKeys(cond) == Some((rkey, lkey))
    requires Eval(lib, lkey, l) == Ok(a) && Eval(lib, lkey, Merge(l, r)) == Ok(a)
    requires Eval(lib, rkey, r) == Ok(b) && Eval(lib, rkey, Merge(l, r)) == Ok(b)
    requires !a.Null? && !b.Null? ==> Plain(a) && SameType(a, b)
    ensures PairFound(lib, cond, l, r, Some(lkey), Some(rkey))
  {
    hide Eval, EvalOp, ExtractKeys, KeyText, Merge, SameType;
    var row := Merge(l, r);
    if True(Eval(lib, cond, row)) {
      if ExtractKeys(cond) == Some((lkey, rkey)) {
        WrittenForth(lib, cond, row, lkey, rkey, a, b);
        EqualNotNull(lib, a, b);
        EqualTexts(lib, a, b);
      } else {
        WrittenForth(lib, cond, row, rkey, lkey, b, a);
        EqualNotNull(lib, b, a);
        TypesTurned(a, b);
        EqualTexts(lib, b, a);
      }
      KeysMeet(lib, l, r, lkey, rkey, a, b);
    }
  }

  lemma TypesTurned(a: Value, b: Value)
    requires Plain(a) && SameType(a, b)
    ensures Plain(b) && SameType(b, a)
  {
  }

  lemma KeysFind(lib: Library, cond: Expr, left: seq<Row>, right: seq<Row>, lkey: Expr, rkey: Expr)
    requires ExtractKeys(cond) == Some((lkey, rkey)) || ExtractKeys(cond) == Some((rkey, lkey))
    requires LeftKey(lib, lkey, left, right) && RightKey(lib, rkey, left, right)
    requires KeyTypes(lib, lkey, rkey, left, right)
    ensures NoneLost(lib, cond, left, right, Some(lkey), Some(rkey))
  {
    hide Eval, PairFound;
    forall i, j | 0 <= i < |left| && 0 <= j < |right|
      ensures PairFound(lib, cond, left[i], right[j], Some(lkey), Some(rkey)) {
      PairIsFound(lib, cond, left[i], right[j], lkey, rkey,
                  Eval(lib, lkey, left[i]).value, Eval(lib, rkey, right[j]).value);
    }
  }

  /** Without right rows there is nothing to lose. */
  lemma {:induction false} EmptyRight(lib: Library, jt: JoinType, cond: Expr, left: seq<Row>, lkey: Option<Expr>,
                                      rkey: Option<Expr>)
    ensures ProbeLoop(lib, jt, cond, left, [], lkey, rkey) == NestedLoop(lib, jt, cond, left, [])
  {
    hide Eval, KeyText;
    if left != [] { EmptyRight(lib, jt, cond, left[..|left| - 1], lkey, rkey); }
  }

  // --------------------------------------------------- when exactly they agree

  /** The join condition `lkey = rkey`, or written the other way round. */
  function Equality(flipped: bool, lkey: Expr, rkey: Expr): Expr {
    if flipped then Binary(rkey, Eq, lkey) else Binary(lkey, Eq, rkey)
  }

  predicate EqualKeys(lib: Library, flipped: bool, a: Value, b: Value) {
    True(if flipped then EvalOp(lib, b, Eq, a) else EvalOp(lib, a, Eq, b))
  }

  /** Keys that are equal have the same text. */
  predicate TextsAgree(lib: Library, flipped: bool, left: seq<Row>, right: seq<Row>, lkey: Expr, rkey: Expr) {
    forall i, j :: 0 <= i < |left| && 0 <= j < |right| ==>
      var a, b := Eval(lib, lkey, left[i]), Eval(lib, rkey, right[j]);
      a.Ok? && b.Ok? && EqualKeys(lib, flipped, a.value, b.value) ==> lib.debug(a.value) == lib.debug(b.value)
  }

  /** The leftmost equality is between the two keys, whichever way round. */
  ghost predicate Equates(cond: Expr, lkey: Expr, rkey: Expr) {
    ExtractKeys(cond) == Some((lkey, rkey)) || ExtractKeys(cond) == Some((rkey, lkey))
  }

  /**
   * The sides are mistaken: the equality is written with the right key first, and each key can, under
   * its bare name, also be evaluated on the other side.
   */
  ghost predicate Crossed(lib: Library, cond: Expr, left: seq<Row>, right: seq<Row>, lkey: Expr, rkey: Expr) {
    ExtractKeys(cond) == Some((rkey, lkey)) && SomeRow(lib, rkey, left) && SomeRow(lib, lkey, right)
  }

  lemma KeysChosen(lib: Library, cond: Expr, left: seq<Row>, right: seq<Row>, lkey: Expr, rkey: Expr)
    requires left != [] && right != [] && Equates(cond, lkey, rkey)
    requires LeftKey(lib, lkey, left, right) && RightKey(lib, rkey, left, right)
    ensures ChooseKeys(lib, cond, left, right)
         == if Crossed(lib, cond, left, right, lkey, rkey) then Some((rkey, lkey)) else Some((lkey, rkey))
  {
    hide Eval;
    assert Eval(lib, lkey, left[0]).Ok? && Eval(lib, rkey, right[0]).Ok?;
    assert SomeRow(lib, lkey, left) && SomeRow(lib, rkey, right);
  }

  /** Equal keys are filed, and looked up, under the same text of the expressions `lhash` and `rhash`. */
  predicate TextsMeet(lib: Library, flipped: bool, left: seq<Row>, right: seq<Row>, lkey: Expr, rkey: Expr,
                      lhash: Expr, rhash: Expr) {
    forall i, j :: 0 <= i < |left| && 0 <= j < |right| ==>
      var a, b := Eval(lib, lkey, left[i]), Eval(lib, rkey, right[j]);
      a.Ok? && b.Ok? && EqualKeys(lib, flipped, a.value, b.value) ==>
        KeyText(lib, Some(lhash), left[i]).Some?
        && KeyText(lib, Some(rhash), right[j]) == KeyText(lib, Some(lhash), left[i])
  }

  /** With the sides mistaken: no right row can be filed, or equal keys happen to meet all the same. */
  predicate CrossedMeets(lib: Library, flipped: bool, left: seq<Row>, right: seq<Row>, lkey: Expr, rkey: Expr) {
    AllFail(lib, Some(lkey), right) || TextsMeet(lib, flipped, left, right, lkey, rkey, rkey, lkey)
  }

  /** A right row with a key is not all NULLs. */
  predicate KeyShows(lib: Library, key: Expr, right: seq<Row>) {
    forall j :: 0 <= j < |right| && Eval(lib, key, right[j]).Ok? && !Eval(lib, key, right[j]).value.Null? ==>
      exists c :: 0 <= c < |right[j].values| && !right[j].values[c].Null?
  }

  /** As a column's value is one of the row's, a column shows. */
  lemma ColumnShows(lib: Library, table: Option<string>, name: string, right: seq<Row>)
    ensures KeyShows(lib, Column(table, name), right)
  {
    forall j | 0 <= j < |right| && Eval(lib, Column(table, name), right[j]).Ok?
      && !Eval(lib, Column(table, name), right[j]).value.Null?
      ensures exists c :: 0 <= c < |right[j].values| && !right[j].values[c].Null? {
      LookupInRow(lib, right[j], table, name);
    }
  }

  lemma LookupInRow(lib: Library, row: Row, table: Option<string>, name: string)
    requires Lookup(lib, row, table, name).Ok?
    ensures Lookup(lib, row, table, name).value in row.values
  {
    hide Place, Matches;
  }

  lemma EqualityValue(lib: Library, flipped: bool, row: Row, lkey: Expr, rkey: Expr, a: Value, b: Value)
    requires Eval(lib, lkey, row) == Ok(a) && Eval(lib, rkey, row) == Ok(b)
    ensures Eval(lib, Equality(flipped, lkey, rkey), row).Ok?
    ensures True(Eval(lib, Equality(flipped, lkey, rkey), row)) <==> EqualKeys(lib, flipped, a, b)
    ensures EqualKeys(lib, flipped, a, b) ==> !a.Null? && !b.Null?
  {
    hide Compare, Equals;
  }

  /** On one pair: it is found exactly when equal keys meet under the hashed expressions. */
  lemma PairExact(lib: Library, flipped: bool, l: Row, r: Row, lkey: Expr, rkey: Expr, a: Value, b: Value,
                  lhash: Expr, rhash: Expr)
    requires Eval(lib, lkey, Merge(l, r)) == Ok(a) && Eval(lib, rkey, Merge(l, r)) == Ok(b)
    ensures Eval(lib, Equality(flipped, lkey, rkey), Merge(l, r)).Ok?
    ensures True(Eval(lib, Equality(flipped, lkey, rkey), Merge(l, r))) ==> !b.Null?
    ensures PairFound(lib, Equality(flipped, lkey, rkey), l, r, Some(lhash), Some(rhash)) <==>
      (EqualKeys(lib, flipped, a, b) ==>
         KeyText(lib, Some(lhash), l).Some? && KeyText(lib, Some(rhash), r) == KeyText(lib, Some(lhash), l))
  {
    EqualityValue(lib, flipped, Merge(l, r), lkey, rkey, a, b);
    hide Eval, EqualKeys, Merge, Equality, KeyText;
  }

  /** Hashed by the keys themselves, equal keys meet exactly when they have the same text. */
  lemma TextsSame(lib: Library, flipped: bool, left: seq<Row>, right: seq<Row>, lkey: Expr, rkey: Expr)
    ensures TextsMeet(lib, flipped, left, right, lkey, rkey, lkey, rkey) <==>
      TextsAgree(lib, flipped, left, right, lkey, rkey)
  {
    hide Eval, EqualKeys;
    forall i, j | 0 <= i < |left| && 0 <= j < |right| && Eval(lib, lkey, left[i]).Ok? && Eval(lib, rkey, right[j]).Ok?
      && EqualKeys(lib, flipped, Eval(lib, lkey, left[i]).value, Eval(lib, rkey, right[j]).value)
      ensures !Eval(lib, lkey, left[i]).value.Null? && !Eval(lib, rkey, right[j]).value.Null? {
      NotNull(lib, flipped, Eval(lib, lkey, left[i]).value, Eval(lib, rkey, right[j]).value);
    }
  }

  lemma NotNull(lib: Library, flipped: bool, a: Value, b: Value)
    requires EqualKeys(lib, flipped, a, b)
    ensures !a.Null? && !b.Null?
  {
    if flipped { EqualNotNull(lib, b, a); } else { EqualNotNull(lib, a, b); }
  }

  lemma NullRight(lib: Library, flipped: bool, left: seq<Row>, right: seq<Row>, lkey: Expr, rkey: Expr)
    requires AllFail(lib, Some(rkey), right)
    ensures TextsAgree(lib, flipped, left, right, lkey, rkey)
  {
    forall j | 0 <= j < |right| && Eval(lib, rkey, right[j]).Ok? ensures Eval(lib, rkey, right[j]).value.Null? {
      assert KeyText(lib, Some(rkey), right[j]).None?;
    }
    hide Eval;
  }

  lemma Shows(lib: Library, flipped: bool, left: seq<Row>, right: seq<Row>, lkey: Expr, rkey: Expr)
    requires LeftKey(lib, lkey, left, right) && RightKey(lib, rkey, left, right) && KeyShows(lib, rkey, right)
    ensures AllShow(lib, Equality(flipped, lkey, rkey), left, right)
  {
    hide Eval;
    var cond := Equality(flipped, lkey, rkey);
    forall i, j | 0 <= i < |left| && 0 <= j < |right| && True(Eval(lib, cond, Merge(left[i], right[j])))
      ensures Merge(left[i], right[j]) != Padded(left[i], right) {
      var l, r := left[i], right[j];
      PairExact(lib, flipped, l, r, lkey, rkey, Eval(lib, lkey, l).value, Eval(lib, rkey, r).value, lkey, rkey);
      var c :| 0 <= c < |r.values| && !r.values[c].Null?;
      PaddedDiffers(l, r, right, c);
    }
  }

  lemma PaddedDiffers(l: Row, r: Row, right: seq<Row>, c: nat)
    requires c < |r.values| && !r.values[c].Null?
    ensures Merge(l, r) != Padded(l, right)
  {
    var m, p := Merge(l, r).values, Padded(l, right).values;
    assert m[|l.values| + c] == r.values[c];
    assert |l.values| + c < |p| ==> p[|l.values| + c].Null?;
  }

  lemma KeysTotal(lib: Library, flipped: bool, left: seq<Row>, right: seq<Row>, lkey: Expr, rkey: Expr,
                  lhash: Expr, rhash: Expr)
    requires LeftKey(lib, lkey, left, right) && RightKey(lib, rkey, left, right)
    ensures Total(lib, Equality(flipped, lkey, rkey), left, right)
    ensures NoneLost(lib, Equality(flipped, lkey, rkey), left, right, Some(lhash), Some(rhash)) <==>
      TextsMeet(lib, flipped, left, right, lkey, rkey, lhash, rhash)
  {
    hide Eval, PairFound, EqualKeys, Merge, Equality, KeyText;
    var cond := Equality(flipped, lkey, rkey);
    forall i, j | 0 <= i < |left| && 0 <= j < |right|
      ensures Eval(lib, cond, Merge(left[i], right[j])).Ok?
      ensures PairFound(lib, cond, left[i], right[j], Some(lhash), Some(rhash)) <==>
        (EqualKeys(lib, flipped, Eval(lib, lkey, left[i]).value, Eval(lib, rkey, right[j]).value) ==>
           KeyText(lib, Some(lhash), left[i]).Some?
           && KeyText(lib, Some(rhash), right[j]) == KeyText(lib, Some(lhash), left[i])) {
      PairExact(lib, flipped, left[i], right[j], lkey, rkey,
                Eval(lib, lkey, left[i]).value, Eval(lib, rkey, right[j]).value, lhash, rhash);
    }
    if NoneLost(lib, cond, left, right, Some(lhash), Some(rhash)) {
      forall i, j | 0 <= i < |left| && 0 <= j < |right|
        ensures PairFound(lib, cond, left[i], right[j], Some(lhash), Some(rhash)) {
        assert RowFound(lib, cond, left[i], right, Some(lhash), Some(rhash));
      }
    }
  }

  /** Hashing by any two expressions: the join agrees when it falls back, or equal keys meet. */
  lemma HashedExact(lib: Library, jt: JoinType, flipped: bool, left: seq<Row>, right: seq<Row>, lkey: Expr, rkey: Expr,
                    lhash: Expr, rhash: Expr)
    requires LeftKey(lib, lkey, left, right) && RightKey(lib, rkey, left, right) && right != []
    requires jt.Left? ==> KeyShows(lib, rkey, right)
    requires ChooseKeys(lib, Equality(flipped, lkey, rkey), left, right) == Some((lhash, rhash))
    ensures Hashed(lib, jt, Equality(flipped, lkey, rkey), left, right)
         == NestedLoop(lib, jt, Equality(flipped, lkey, rkey), left, right)
      <==> AllFail(lib, Some(rhash), right) || TextsMeet(lib, flipped, left, right, lkey, rkey, lhash, rhash)
  {
    hide Eval, KeyText, LeftKey, RightKey, Total, AllShow, KeyShows, Equality, ChooseKeys, ProbeLoop, NestedLoop;
    hide AllFail, NoneLost, TextsMeet;
    var cond := Equality(flipped, lkey, rkey);
    KeysTotal(lib, flipped, left, right, lkey, rkey, lhash, rhash);
    if jt.Left? { Shows(lib, flipped, left, right, lkey, rkey); }
    ProbeExact(lib, jt, cond, left, right, Some(lhash), Some(rhash));
    if TextsMeet(lib, flipped, left, right, lkey, rkey, lhash, rhash) {
      ProbeAgrees(lib, jt, cond, left, right, Some(lhash), Some(rhash));
    }
  }

  /**
   * An equality join, exactly: the hash join gives the nested loop's rows in
   * their order if and only if a left key and a right key that are equal always
   * have the same text. Only where the sides are mistaken it takes the texts of
   * the keys on the wrong sides, and agrees if and only if these meet.
   */
  lemma EqualityJoinExact(lib: Library, jt: JoinType, flipped: bool, left: seq<Row>, right: seq<Row>, lkey: Expr,
                          rkey: Expr)
    requires LeftKey(lib, lkey, left, right) && RightKey(lib, rkey, left, right)
    requires jt.Left? ==> KeyShows(lib, rkey, right)
    ensures Hashed(lib, jt, Equality(flipped, lkey, rkey), left, right)
         == NestedLoop(lib, jt, Equality(flipped, lkey, rkey), left, right)
      <==> if Crossed(lib, Equality(flipped, lkey, rkey), left, right, lkey, rkey)
           then CrossedMeets(lib, flipped, left, right, lkey, rkey)
           else TextsAgree(lib, flipped, left, right, lkey, rkey)
  {
    var cond := Equality(flipped, lkey, rkey);
    var keys := ChooseKeys(lib, cond, left, right);
    assert Equates(cond, lkey, rkey);
    hide Eval, KeyText, LeftKey, RightKey, KeyShows, Equality, EqualKeys;
    if right == [] {
      EmptyRight(lib, jt, cond, left, First(keys), Second(keys));
    } else if left != [] {
      hide Hashed, NestedLoop;
      KeysChosen(lib, cond, left, right, lkey, rkey);
      if Crossed(lib, cond, left, right, lkey, rkey) {
        HashedExact(lib, jt, flipped, left, right, lkey, rkey, rkey, lkey);
      } else {
        HashedExact(lib, jt, flipped, left, right, lkey, rkey, lkey, rkey);
        TextsSame(lib, flipped, left, right, lkey, rkey);
        if AllFail(lib, Some(rkey), right) { NullRight(lib, flipped, left, right, lkey, rkey); }
      }
    }
  }

  lemma CrossedFind(lib: Library, cond: Expr, left: seq<Row>, right: seq<Row>, lkey: Expr, rkey: Expr)
    requires ExtractKeys(cond) == Some((rkey, lkey))
    requires LeftKey(lib, lkey, left, right) && RightKey(lib, rkey, left, right)
    requires TextsMeet(lib, true, left, right, lkey, rkey, rkey, lkey)
    ensures NoneLost(lib, cond, left, right, Some(rkey), Some(lkey))
  {
    hide Eval, KeyText, ExtractKeys, Merge, EvalOp;
    forall i, j | 0 <= i < |left| && 0 <= j < |right|
      ensures PairFound(lib, cond, left[i], right[j], Some(rkey), Some(lkey)) {
      if True(Eval(lib, cond, Merge(left[i], right[j]))) {
        WrittenForth(lib, cond, Merge(left[i], right[j]), rkey, lkey,
                     Eval(lib, rkey, right[j]).value, Eval(lib, lkey, left[i]).value);
      }
    }
  }

  /**
   * Inner and left joins on a leftmost equality between a left key and a right
   * key of the same plain type: the hash join gives the nested loop's rows in
   * the nested loop's order, NULL keys, fallback and padding included; where the
   * sides are mistaken, if it falls back or equal keys meet all the same.
   */
  lemma JoinsAgree(lib: Library, jt: JoinType, cond: Expr, left: seq<Row>, right: seq<Row>, lkey: Expr, rkey: Expr)
    requires Total(lib, cond, left, right) && Equates(cond, lkey, rkey)
    requires LeftKey(lib, lkey, left, right) && RightKey(lib, rkey, left, right)
    requires KeyTypes(lib, lkey, rkey, left, right)
    ensures (Crossed(lib, cond, left, right, lkey, rkey) ==> CrossedMeets(lib, true, left, right, lkey, rkey)) ==>
      Hashed(lib, jt, cond, left, right) == NestedLoop(lib, jt, cond, left, right)
  {
    hide Eval, KeyTypes, LeftKey, RightKey, Total, KeyText;
    var keys := ChooseKeys(lib, cond, left, right);
    if right == [] {
      EmptyRight(lib, jt, cond, left, First(keys), Second(keys));
    } else if left != [] {
      hide ChooseKeys, ProbeLoop, NestedLoop, AllFail, NoneLost, TextsMeet, Equates, SomeRow;
      KeysChosen(lib, cond, left, right, lkey, rkey);
      if !Crossed(lib, cond, left, right, lkey, rkey) {
        KeysFind(lib, cond, left, right, lkey, rkey);
        ProbeAgrees(lib, jt, cond, left, right, Some(lkey), Some(rkey));
      } else if TextsMeet(lib, true, left, right, lkey, rkey, rkey, lkey) {
        CrossedFind(lib, cond, left, right, lkey, rkey);
        ProbeAgrees(lib, jt, cond, left, right, Some(rkey), Some(lkey));
      }
    }
  }

  // ------------------------------------------------------------------ floats

  /** The keys are floats, or NULL. */
  predicate FloatKeys(lib: Library, key: Expr, rows: seq<Row>) {
    forall i :: 0 <= i < |rows| && Eval(lib, key, rows[i]).Ok? ==>
      || Eval(lib, key, rows[i]).value.Null?
      || (Eval(lib, key, rows[i]).value.Float8? && Proper(Eval(lib, key, rows[i]).value))
  }

  const ZERO: Value := Float8(0)
  const MINUS_ZERO: Value := Float8(TWO63)

  /** A zero meets a zero of the other sign. */
  predicate ZerosMeet(lib: Library, left: seq<Row>, right: seq<Row>, lkey: Expr, rkey: Expr) {
    exists i, j :: 0 <= i < |left| && 0 <= j < |right| &&
      OppositeZeros(Eval(lib, lkey, left[i]), Eval(lib, rkey, right[j]))
  }

  predicate OppositeZeros(a: Result<Value>, b: Result<Value>) {
    (a == Ok(ZERO) && b == Ok(MINUS_ZERO)) || (a == Ok(MINUS_ZERO) && b == Ok(ZERO))
  }

  /** Equal floats have equal patterns, but for the two zeros. */
  lemma EqualFloats(lib: Library, flipped: bool, a: Value, b: Value)
    requires (a.Null? || (a.Float8? && Proper(a))) && (b.Null? || (b.Float8? && Proper(b)))
    ensures EqualKeys(lib, flipped, a, b) ==> a == b || OppositeZeros(Ok(a), Ok(b))
    ensures OppositeZeros(Ok(a), Ok(b)) ==> EqualKeys(lib, flipped, a, b)
  {
    if a.Float8? && b.Float8? {
      SameNumber(a.bits, b.bits);
      FloatEquality(lib, a.bits, b.bits);
      FloatEquality(lib, b.bits, a.bits);
      hide EvalOp;
    }
  }

  lemma FloatEquality(lib: Library, x: nat, y: nat)
    ensures True(EvalOp(lib, Float8(x), Eq, Float8(y))) <==> !IsNaN(x) && !IsNaN(y) && Number(x) == Number(y)
  {
    hide IsNaN, Number;
  }

  lemma SameNumber(x: nat, y: nat)
    requires x < TWO64 && y < TWO64
    ensures !IsNaN(x) && !IsNaN(y) && Number(x) == Number(y) ==>
        x == y || (x == 0 && y == TWO63) || (x == TWO63 && y == 0)
    ensures !IsNaN(0) && !IsNaN(TWO63) && Number(0) == 0 == Number(TWO63)
  {
    LowOrder(x, y);
    LowOrder(x, 0);
    LowOrder(y, 0);
  }

  /**
   * Float keys: the joins agree if and only if no left zero meets a right zero
   * of the other sign, given that the two print differently.
   */
  lemma FloatJoinExact(lib: Library, jt: JoinType, flipped: bool, left: seq<Row>, right: seq<Row>, lkey: Expr,
                       rkey: Expr)
    requires LeftKey(lib, lkey, left, right) && RightKey(lib, rkey, left, right)
    requires jt.Left? ==> KeyShows(lib, rkey, right)
    requires FloatKeys(lib, lkey, left) && FloatKeys(lib, rkey, right) && lib.debug(ZERO) != lib.debug(MINUS_ZERO)
    ensures Hashed(lib, jt, Equality(flipped, lkey, rkey), left, right)
         == NestedLoop(lib, jt, Equality(flipped, lkey, rkey), left, right)
      <==> if Crossed(lib, Equality(flipped, lkey, rkey), left, right, lkey, rkey)
           then CrossedMeets(lib, flipped, left, right, lkey, rkey)
           else !ZerosMeet(lib, left, right, lkey, rkey)
  {
    hide Hashed, NestedLoop, Eval, EqualKeys, Crossed, CrossedMeets, LeftKey, RightKey, KeyShows, Equality;
    EqualityJoinExact(lib, jt, flipped, left, right, lkey, rkey);
    forall i, j | 0 <= i < |left| && 0 <= j < |right| && Eval(lib, lkey, left[i]).Ok? && Eval(lib, rkey, right[j]).Ok?
      ensures var a, b := Eval(lib, lkey, left[i]), Eval(lib, rkey, right[j]);
        (EqualKeys(lib, flipped, a.value, b.value) ==> lib.debug(a.value) == lib.debug(b.value)) <==>
            !OppositeZeros(a, b) {
      EqualFloats(lib, flipped, Eval(lib, lkey, left[i]).value, Eval(lib, rkey, right[j]).value);
    }
  }

  // ----------------------------------------------------------- integer widths

  predicate NarrowKeys(lib: Library, key: Expr, rows: seq<Row>) {
    forall i :: 0 <= i < |rows| && Eval(lib, key, rows[i]).Ok? ==>
      Eval(lib, key, rows[i]).value.Null? || Eval(lib, key, rows[i]).value.Int4?
  }

  predicate WideKeys(lib: Library, key: Expr, rows: seq<Row>) {
    forall i :: 0 <= i < |rows| && Eval(lib, key, rows[i]).Ok? ==>
      Eval(lib, key, rows[i]).value.Null? || Eval(lib, key, rows[i]).value.Int8?
  }

  /** A number of the left is also one of the right. */
  predicate NumbersMeet(lib: Library, left: seq<Row>, right: seq<Row>, lkey: Expr, rkey: Expr) {
    exists i, j :: 0 <= i < |left| && 0 <= j < |right| && SameInt(Eval(lib, lkey, left[i]), Eval(lib, rkey, right[j]))
  }

  predicate SameInt(a: Result<Value>, b: Result<Value>) {
    a.Ok? && b.Ok? && a.value.Int4? && b.value.Int8? && a.value.int4 == b.value.int8
  }

  lemma EqualWidths(lib: Library, flipped: bool, a: Value, b: Value)
    requires (a.Null? || a.Int4?) && (b.Null? || b.Int8?)
    ensures EqualKeys(lib, flipped, a, b) <==> SameInt(Ok(a), Ok(b))
  {
  }

  /** INT keys against BIGINT keys: the joins agree if and only if no two of them are equal. */
  lemma WidthJoinExact(lib: Library, jt: JoinType, flipped: bool, left: seq<Row>, right: seq<Row>, lkey: Expr,
                       rkey: Expr)
    requires LeftKey(lib, lkey, left, right) && RightKey(lib, rkey, left, right)
    requires jt.Left? ==> KeyShows(lib, rkey, right)
    requires NarrowKeys(lib, lkey, left) && WideKeys(lib, rkey, right)
    requires forall n :: lib.debug(Int4(n)) != lib.debug(Int8(n))
    ensures Hashed(lib, jt, Equality(flipped, lkey, rkey), left, right)
         == NestedLoop(lib, jt, Equality(flipped, lkey, rkey), left, right)
      <==> if Crossed(lib, Equality(flipped, lkey, rkey), left, right, lkey, rkey)
           then CrossedMeets(lib, flipped, left, right, lkey, rkey)
           else !NumbersMeet(lib, left, right, lkey, rkey)
  {
    hide Hashed, NestedLoop, Eval, EqualKeys, Crossed, CrossedMeets, LeftKey, RightKey, KeyShows, Equality;
    EqualityJoinExact(lib, jt, flipped, left, right, lkey, rkey);
    forall i, j | 0 <= i < |left| && 0 <= j < |right| && Eval(lib, lkey, left[i]).Ok? && Eval(lib, rkey, right[j]).Ok?
      ensures var a, b := Eval(lib, lkey, left[i]), Eval(lib, rkey, right[j]);
        EqualKeys(lib, flipped, a.value, b.value) <==> SameInt(a, b) {
      EqualWidths(lib, flipped, Eval(lib, lkey, left[i]).value, Eval(lib, rkey, right[j]).value);
    }
  }

  // ------------------------------------------------------ qualified columns

  lemma {:induction false} PlaceAppend(a: seq<string>, b: seq<string>, name: string)
    ensures Place(a + b, name) == if name in a then Place(a, name) else |a| + Place(b, name)
  {
    if a == [] {
      assert a + b == b;
    } else if a[0] != name {
      assert (a + b)[1..] == a[1..] + b;
      PlaceAppend(a[1..], b, name);
      assert name in a <==> name in a[1..];
    }
  }

  lemma {:induction false} PlaceFound(a: seq<string>, name: string)
    ensures name in a <==> Place(a, name) < |a|
  {
    if a != [] && a[0] != name {
      PlaceFound(a[1..], name);
      assert name in a <==> name in a[1..];
    }
  }

  /** A qualified column of the left has its value on every merged row. */
  lemma LeftColumn(lib: Library, l: Row, r: Row, table: string, name: string)
    requires |l.values| == |l.names| && table + "." + name in l.names
    ensures Eval(lib, Column(Some(table), name), l).Ok?
    ensures Eval(lib, Column(Some(table), name), Merge(l, r)) == Eval(lib, Column(Some(table), name), l)
  {
    hide Matches;
    var full := table + "." + name;
    PlaceAppend(l.names, r.names, full);
    PlaceFound(l.names, full);
    hide Place;
  }

  /** A qualified column of the right likewise, if the left has none of that name. */
  lemma RightColumn(lib: Library, l: Row, r: Row, table: string, name: string)
    requires |l.values| == |l.names| && |r.values| == |r.names|
    requires table + "." + name in r.names && table + "." + name !in l.names
    ensures Eval(lib, Column(Some(table), name), r).Ok?
    ensures Eval(lib, Column(Some(table), name), Merge(l, r)) == Eval(lib, Column(Some(table), name), r)
  {
    hide Matches;
    var full := table + "." + name;
    PlaceAppend(l.names, r.names, full);
    PlaceFound(r.names, full);
    hide Place;
  }

  // ----------------------------------------------------------- rows that are lost

  /** `a.x = b.y`, over one row each. */
  function SimpleLeft(v: Value): Row { Row([v], ["a.x"]) }
  function SimpleRight(v: Value): Row { Row([v], ["b.y"]) }
  function SimpleJoin(): Expr { Binary(Column(Some("a"), "x"), Eq, Column(Some("b"), "y")) }

  /** The two zeros are equal numbers but print differently. */
  lemma SignedZerosLost(lib: Library, jt: JoinType)
    requires lib.debug(ZERO) != lib.debug(MINUS_ZERO)
    ensures Hashed(lib, jt, SimpleJoin(), [SimpleLeft(ZERO)], [SimpleRight(MINUS_ZERO)])
         != NestedLoop(lib, jt, SimpleJoin(), [SimpleLeft(ZERO)], [SimpleRight(MINUS_ZERO)])
  {
    var l, r, x, y := SimpleLeft(ZERO), SimpleRight(MINUS_ZERO), Column(Some("a"), "x"), Column(Some("b"), "y");
    hide Hashed, NestedLoop, Eval, Merge, KeyShows, LeftKey, RightKey, CrossedMeets, SimpleLeft, SimpleRight;
    SimpleSetting(lib, l, r, x, y, ZERO, MINUS_ZERO);
    assert SimpleJoin() == Equality(false, x, y);
    assert !Crossed(lib, SimpleJoin(), [l], [r], x, y);
    assert [l][0] == l && [r][0] == r;
    FloatJoinExact(lib, jt, false, [l], [r], x, y);
  }

  /** A number is equal in both widths, but its width is printed. */
  lemma IntWidthsLost(lib: Library, jt: JoinType, n: int)
    requires lib.debug(Int4(n)) != lib.debug(Int8(n))
    ensures Hashed(lib, jt, SimpleJoin(), [SimpleLeft(Int4(n))], [SimpleRight(Int8(n))])
         != NestedLoop(lib, jt, SimpleJoin(), [SimpleLeft(Int4(n))], [SimpleRight(Int8(n))])
  {
    var l, r, x, y := SimpleLeft(Int4(n)), SimpleRight(Int8(n)), Column(Some("a"), "x"), Column(Some("b"), "y");
    hide Hashed, NestedLoop, Eval, Merge, KeyShows, LeftKey, RightKey, CrossedMeets, EqualKeys, SimpleLeft, SimpleRight;
    SimpleSetting(lib, l, r, x, y, Int4(n), Int8(n));
    assert SimpleJoin() == Equality(false, x, y);
    assert !Crossed(lib, SimpleJoin(), [l], [r], x, y);
    assert [l][0] == l && [r][0] == r;
    EqualWidths(lib, false, Int4(n), Int8(n));
    EqualityJoinExact(lib, jt, false, [l], [r], x, y);
  }

  lemma SimpleSetting(lib: Library, l: Row, r: Row, x: Expr, y: Expr, a: Value, b: Value)
    requires l == SimpleLeft(a) && r == SimpleRight(b) && x == Column(Some("a"), "x") && y == Column(Some("b"), "y")
    ensures LeftKey(lib, x, [l], [r]) && RightKey(lib, y, [l], [r]) && KeyShows(lib, y, [r])
    ensures Eval(lib, x, l) == Ok(a) && Eval(lib, y, r) == Ok(b)
  {
    hide Eval, Merge, KeyShows, SimpleLeft, SimpleRight;
    SimpleKeys(lib, l, r, a, b);
    ColumnShows(lib, Some("b"), "y", [r]);
    assert [l][0] == l && [r][0] == r;
  }

  lemma SimpleKeys(lib: Library, l: Row, r: Row, a: Value, b: Value)
    requires l == SimpleLeft(a) && r == SimpleRight(b)
    ensures Eval(lib, Column(Some("a"), "x"), l) == Ok(a) && Eval(lib, Column(Some("b"), "y"), r) == Ok(b)
    ensures Eval(lib, Column(Some("a"), "x"), Merge(l, r)) == Ok(a)
    ensures Eval(lib, Column(Some("b"), "y"), Merge(l, r)) == Ok(b)
  {
    assert "a" + "." + "x" == "a.x" && "b" + "." + "y" == "b.y";
    LeftColumn(lib, l, r, "a", "x");
    RightColumn(lib, l, r, "b", "y");
    hide Matches;
  }

  /** An employee with number `id` and manager `mgr`, under the alias of one side of a self-join. */
  function Employee(alias: string, id: int, mgr: int): Row {
    Row([Int4(id), Int4(id), Int4(mgr), Int4(mgr)], [alias + "." + "id", "id", alias + "." + "mgr", "mgr"])
  }

  /** `ON m.id = e.mgr` in `employees e JOIN employees m`. */
  function ManagerJoin(): Expr { Binary(Column(Some("m"), "id"), Eq, Column(Some("e"), "mgr")) }

  predicate LowerCase(lib: Library) {
    lib.lower("m") == "m" && lib.lower("e") == "e" && lib.lower("id") == "id" && lib.lower("mgr") == "mgr"
  }

  /** A column of one alias, asked of a row of the other, is found under its bare name. */
  lemma EmployeeColumns(lib: Library, alias: string, other: string, id: int, mgr: int)
    requires LowerCase(lib) && ((alias == "e" && other == "m") || (alias == "m" && other == "e"))
    ensures Eval(lib, Column(Some(alias), "id"), Employee(alias, id, mgr)) == Ok(Int4(id))
    ensures Eval(lib, Column(Some(alias), "mgr"), Employee(alias, id, mgr)) == Ok(Int4(mgr))
    ensures Eval(lib, Column(Some(other), "id"), Employee(alias, id, mgr)) == Ok(Int4(id))
    ensures Eval(lib, Column(Some(other), "mgr"), Employee(alias, id, mgr)) == Ok(Int4(mgr))
  {
    var row := Employee(alias, id, mgr);
    EmployeeNames(alias, other, row.names);
    hide Matches, Place;
  }

  lemma EmployeeNames(alias: string, other: string, names: seq<string>)
    requires (alias == "e" && other == "m") || (alias == "m" && other == "e")
    requires names == [alias + "." + "id", "id", alias + "." + "mgr", "mgr"]
    ensures Place(names, alias + "." + "id") == 0 && Place(names, "id") == 1
    ensures Place(names, alias + "." + "mgr") == 2 && Place(names, "mgr") == 3
    ensures Place(names, other + "." + "id") == 4 && Place(names, other + "." + "mgr") == 4
    ensures '.' in other + "." + "id" && '.' in other + "." + "mgr"
  {
    var a, o, i, m := alias + "." + "id", other + "." + "id", alias + "." + "mgr", other + "." + "mgr";
    assert a[0] == i[0] == alias[0] && o[0] == m[0] == other[0] && a[1] == i[1] == o[1] == m[1] == '.';
    assert |a| == |o| == 4 && |i| == |m| == 5 && |"id"| == 2 && |"mgr"| == 3;
    hide Place;
    PlaceIs(names, a, 0);
    PlaceIs(names, "id", 1);
    PlaceIs(names, i, 2);
    PlaceIs(names, "mgr", 3);
    PlaceIs(names, o, 4);
    PlaceIs(names, m, 4);
  }

  lemma PlaceIs(names: seq<string>, name: string, p: nat)
    requires p <= |names| && (p < |names| ==> names[p] == name) && forall k :: 0 <= k < p ==> names[k] != name
    ensures Place(names, name) == p
  {
    hide Place;
    var q := Place(names, name);
    assert forall k :: 0 <= k < q ==> names[..q][k] == names[k];
  }

  /** The sides are mistaken: the employee's own number is looked up among the managers of the managers. */
  lemma SelfJoinLost(lib: Library, jt: JoinType)
    requires LowerCase(lib) && lib.debug(Int4(1)) != lib.debug(Int4(9))
    ensures var left, right := [Employee("e", 1, 2)], [Employee("m", 2, 9)];
      && Crossed(lib, ManagerJoin(), left, right, Column(Some("e"), "mgr"), Column(Some("m"), "id"))
      && NestedLoop(lib, jt, ManagerJoin(), left, right) == Ok([Merge(left[0], right[0])])
      && Hashed(lib, jt, ManagerJoin(), left, right)
         == Ok(if jt.Left? then [Padded(left[0], right)] else [])
  {
    var l, r, lkey, rkey := Employee("e", 1, 2), Employee("m", 2, 9), Column(Some("e"), "mgr"), Column(Some("m"), "id");
    EmployeesMatch(lib, l, r, lkey, rkey);
    hide Eval, Merge, Padded, Employee, KeyText, Hashed, NestedLoop, Crossed, ChooseKeys;
    OneByOne(lib, jt, ManagerJoin(), l, r, rkey, lkey);
  }

  lemma EmployeesMatch(lib: Library, l: Row, r: Row, lkey: Expr, rkey: Expr)
    requires LowerCase(lib) && lib.debug(Int4(1)) != lib.debug(Int4(9))
    requires l == Employee("e", 1, 2) && r == Employee("m", 2, 9)
    requires lkey == Column(Some("e"), "mgr") && rkey == Column(Some("m"), "id")
    ensures Crossed(lib, ManagerJoin(), [l], [r], lkey, rkey)
    ensures ChooseKeys(lib, ManagerJoin(), [l], [r]) == Some((rkey, lkey))
    ensures True(Eval(lib, ManagerJoin(), Merge(l, r)))
    ensures KeyText(lib, Some(rkey), l) == Some(lib.debug(Int4(1)))
    ensures KeyText(lib, Some(lkey), r) == Some(lib.debug(Int4(9)))
  {
    hide Eval, Merge, Employee, EvalOp;
    EmployeeColumns(lib, "e", "m", 1, 2);
    EmployeeColumns(lib, "m", "e", 2, 9);
    EmployeesMerged(lib, l, r);
    assert ManagerJoin() == Equality(true, lkey, rkey) && ExtractKeys(ManagerJoin()) == Some((rkey, lkey));
    hide ManagerJoin, Equality, ExtractKeys;
    EqualInts(lib, 2);
    EqualityValue(lib, true, Merge(l, r), lkey, rkey, Int4(2), Int4(2));
    assert [l][0] == l && [r][0] == r;
    assert SomeRow(lib, rkey, [l]) && SomeRow(lib, lkey, [r]);
  }

  lemma EqualInts(lib: Library, n: int)
    ensures EqualKeys(lib, true, Int4(n), Int4(n))
  {
  }

  lemma EmployeesMerged(lib: Library, l: Row, r: Row)
    requires l == Employee("e", 1, 2) && r == Employee("m", 2, 9)
    ensures Eval(lib, Column(Some("e"), "mgr"), Merge(l, r)) == Eval(lib, Column(Some("e"), "mgr"), l)
    ensures Eval(lib, Column(Some("m"), "id"), Merge(l, r)) == Eval(lib, Column(Some("m"), "id"), r)
  {
    EmployeeNames("e", "m", l.names);
    hide Place, Eval;
    assert l.names[2] == "e" + "." + "mgr" && r.names[0] == "m" + "." + "id";
    LeftColumn(lib, l, r, "e", "mgr");
    if "m" + "." + "id" in l.names { PlaceFound(l.names, "m" + "." + "id"); }
    RightColumn(lib, l, r, "m", "id");
  }

  /** One row on each side that match but are filed apart. */
  lemma OneByOne(lib: Library, jt: JoinType, cond: Expr, l: Row, r: Row, lhash: Expr, rhash: Expr)
    requires True(Eval(lib, cond, Merge(l, r))) && ChooseKeys(lib, cond, [l], [r]) == Some((lhash, rhash))
    requires KeyText(lib, Some(lhash), l).Some? && KeyText(lib, Some(rhash), r).Some?
    requires KeyText(lib, Some(lhash), l) != KeyText(lib, Some(rhash), r)
    ensures NestedLoop(lib, jt, cond, [l], [r]) == Ok([Merge(l, r)])
    ensures Hashed(lib, jt, cond, [l], [r]) == Ok(if jt.Left? then [Padded(l, [r])] else [])
  {
    hide Eval, Merge, Padded, KeyText, ChooseKeys, Bucket, Partners;
    var none: seq<Row> := [];
    assert [l][..0] == none && [l][0] == l && [r][0] == r;
    OnePartner(lib, cond, l, r);
    NoBucket(lib, Some(rhash), r, KeyText(lib, Some(lhash), l).value);
    assert none + [Merge(l, r)] == [Merge(l, r)] && none + none == none && none + [Padded(l, [r])] == [Padded(l, [r])];
    assert Probed(lib, jt, cond, l, [r], Some(lhash), Some(rhash)) == Contribution(jt, l, [r], Ok(none));
    assert NestedLoop(lib, jt, cond, none, [r]) == Ok(none);
    assert ProbeLoop(lib, jt, cond, none, [r], Some(lhash), Some(rhash)) == Ok(none);
  }

  lemma OnePartner(lib: Library, cond: Expr, l: Row, r: Row)
    requires True(Eval(lib, cond, Merge(l, r)))
    ensures Partners(lib, cond, l, [r]) == Ok([Merge(l, r)]) && Partners(lib, cond, l, []) == Ok([])
  {
    hide Eval, Merge;
    var none: seq<Row> := [];
    assert [r][..0] == none && none + [Merge(l, r)] == [Merge(l, r)];
  }

  lemma NoBucket(lib: Library, key: Option<Expr>, r: Row, text: string)
    requires KeyText(lib, key, r) != Some(text)
    ensures Bucket(lib, key, [r], text) == []
  {
    hide KeyText;
    assert [r][..0] == [];
  }

  // --------------------------------------------------------------- the loops

  lemma PartnersNext(right: seq<Row>, i: nat)
    requires i < |right|
    ensures right[..i + 1][..i] == right[..i] && right[..i + 1][i] == right[i]
  {
  }

  /** An error in the condition ends the search, whatever rows come after. */
  lemma {:induction false} PartnersFail(lib: Library, cond: Expr, l: Row, right: seq<Row>, i: nat)
    requires i <= |right| && Partners(lib, cond, l, right[..i]).Err?
    ensures Partners(lib, cond, l, right) == Partners(lib, cond, l, right[..i])
    decreases |right|
  {
    hide Eval;
    if i == |right| {
      assert right[..i] == right;
    } else {
      var before := right[..|right| - 1];
      assert before[..i] == right[..i];
      PartnersFail(lib, cond, l, before, i);
    }
  }

  method FindPartners(lib: Library, cond: Expr, l: Row, right: seq<Row>) returns (r: Result<seq<Row>>)
    ensures r == Partners(lib, cond, l, right)
  {
    hide Eval;
    var found: seq<Row> := [];
    var i := 0;
    while i < |right|
      invariant 0 <= i <= |right| && Partners(lib, cond, l, right[..i]) == Ok(found)
    {
      var combined := Merge(l, right[i]);
      PartnersNext(right, i);
      var v := Eval(lib, cond, combined);
      if v.Err? {
        PartnersFail(lib, cond, l, right, i + 1);
        return Err(v.error);
      }
      if v.value == Bool(true) {
        found := found + [combined];
      } else {
        assert found + [] == found;
      }
      i := i + 1;
    }
    assert right[..i] == right;
    return Ok(found);
  }

  lemma {:induction false} NestedFail(lib: Library, jt: JoinType, cond: Expr, left: seq<Row>, right: seq<Row>, i: nat)
    requires i <= |left| && NestedLoop(lib, jt, cond, left[..i], right).Err?
    ensures NestedLoop(lib, jt, cond, left, right) == NestedLoop(lib, jt, cond, left[..i], right)
    decreases |left|
  {
    hide Partners;
    if i == |left| {
      assert left[..i] == left;
    } else {
      var before := left[..|left| - 1];
      assert before[..i] == left[..i];
      NestedFail(lib, jt, cond, before, right, i);
    }
  }

  method ExecNestedLoop(lib: Library, jt: JoinType, cond: Expr, left: seq<Row>, right: seq<Row>)
    returns (r: Result<seq<Row>>)
    ensures r == NestedLoop(lib, jt, cond, left, right)
  {
    hide Partners;
    var result: seq<Row> := [];
    var i := 0;
    while i < |left|
      invariant 0 <= i <= |left| && NestedLoop(lib, jt, cond, left[..i], right) == Ok(result)
    {
      assert left[..i + 1][..i] == left[..i];
      var found := FindPartners(lib, cond, left[i], right);
      if found.Err? {
        NestedFail(lib, jt, cond, left, right, i + 1);
        return found;
      }
      if jt.Left? && found.value == [] {
        result := result + [Padded(left[i], right)];
      } else {
        result := result + found.value;
      }
      i := i + 1;
    }
    assert left[..i] == left;
    return Ok(result);
  }

  /** The hash table of some right rows. */
  ghost predicate TableOf(lib: Library, key: Option<Expr>, rows: seq<Row>, table: map<string, seq<Row>>) {
    forall text: string {:trigger Bucket(lib, key, rows, text)} ::
      Bucket(lib, key, rows, text) == if text in table then table[text] else []
  }

  lemma TableAdds(lib: Library, key: Option<Expr>, rows: seq<Row>, r: Row, table: map<string, seq<Row>>)
    requires TableOf(lib, key, rows, table)
    ensures KeyText(lib, key, r).None? ==> TableOf(lib, key, rows + [r], table)
    ensures var text := KeyText(lib, key, r);
      text.Some? ==> TableOf(lib, key, rows + [r],
        table[text.value := (if text.value in table then table[text.value] else []) + [r]])
  {
    hide KeyText;
    forall text: string ensures Bucket(lib, key, rows + [r], text)
      == Bucket(lib, key, rows, text) + if KeyText(lib, key, r) == Some(text) then [r] else [] {
      BucketLast(lib, key, rows, r, text);
    }
    hide Bucket;
  }

  /** Files the right rows; `failures` counts those that cannot be filed. */
  method BuildTable(lib: Library, key: Option<Expr>, right: seq<Row>)
    returns (table: map<string, seq<Row>>, failures: nat)
    ensures TableOf(lib, key, right, table)
    ensures failures == |right| <==> AllFail(lib, key, right)
  {
    hide KeyText, TableOf;
    table, failures := map[], 0;
    var i := 0;
    TableEmpty(lib, key);
    assert right[..0] == [];
    while i < |right|
      invariant 0 <= i <= |right| && TableOf(lib, key, right[..i], table)
      invariant failures <= i && (failures == i <==> AllFail(lib, key, right[..i]))
    {
      assert right[..i + 1] == right[..i] + [right[i]];
      TableAdds(lib, key, right[..i], right[i], table);
      var text := KeyText(lib, key, right[i]);
      FailsNext(lib, key, right, i);
      if text.None? {
        failures := failures + 1;
      } else {
        table := table[text.value := (if text.value in table then table[text.value] else []) + [right[i]]];
      }
      i := i + 1;
    }
    assert right[..i] == right;
  }

  lemma TableEmpty(lib: Library, key: Option<Expr>)
    ensures TableOf(lib, key, [], map[])
  {
  }

  lemma FailsNext(lib: Library, key: Option<Expr>, right: seq<Row>, i: nat)
    requires i < |right|
    ensures AllFail(lib, key, right[..i + 1]) <==> AllFail(lib, key, right[..i]) && KeyText(lib, key, right[i]).None?
  {
    hide KeyText;
    assert forall j :: 0 <= j < i ==> right[..i + 1][j] == right[..i][j];
    assert right[..i + 1][i] == right[i];
  }

  lemma {:induction false} ProbeFail(lib: Library, jt: JoinType, cond: Expr, left: seq<Row>, right: seq<Row>,
                                     lkey: Option<Expr>, rkey: Option<Expr>, i: nat)
    requires i <= |left| && ProbeLoop(lib, jt, cond, left[..i], right, lkey, rkey).Err?
    ensures ProbeLoop(lib, jt, cond, left, right, lkey, rkey) == ProbeLoop(lib, jt, cond, left[..i], right, lkey, rkey)
    decreases |left|
  {
    hide Probed;
    if i == |left| {
      assert left[..i] == left;
    } else {
      var before := left[..|left| - 1];
      assert before[..i] == left[..i];
      ProbeFail(lib, jt, cond, before, right, lkey, rkey, i);
    }
  }

  /** Looks the partners of one left row up in the table. */
  method Probe(lib: Library, jt: JoinType, cond: Expr, l: Row, right: seq<Row>, table: map<string, seq<Row>>,
               lkey: Option<Expr>, rkey: Option<Expr>) returns (r: Result<seq<Row>>)
    requires TableOf(lib, rkey, right, table)
    ensures r == Probed(lib, jt, cond, l, right, lkey, rkey)
  {
    hide Bucket, Partners;
    var text := KeyText(lib, lkey, l);
    if text.None? {
      return if jt.Left? then Ok([Padded(l, right)]) else Ok([]);
    }
    assert Bucket(lib, rkey, right, text.value) == if text.value in table then table[text.value] else [];
    r := FindPartners(lib, cond, l, if text.value in table then table[text.value] else []);
    if jt.Left? && r.Ok? && r.value == [] {
      r := Ok([Padded(l, right)]);
    }
  }

  method ProbeAll(lib: Library, jt: JoinType, cond: Expr, left: seq<Row>, right: seq<Row>, table: map<string, seq<Row>>,
                  lkey: Option<Expr>, rkey: Option<Expr>) returns (r: Result<seq<Row>>)
    requires TableOf(lib, rkey, right, table)
    ensures r == ProbeLoop(lib, jt, cond, left, right, lkey, rkey)
  {
    hide Probed, TableOf;
    var result: seq<Row> := [];
    var i := 0;
    while i < |left|
      invariant 0 <= i <= |left| && ProbeLoop(lib, jt, cond, left[..i], right, lkey, rkey) == Ok(result)
    {
      assert left[..i + 1][..i] == left[..i];
      var found := Probe(lib, jt, cond, left[i], right, table, lkey, rkey);
      if found.Err? {
        ProbeFail(lib, jt, cond, left, right, lkey, rkey, i + 1);
        return found;
      }
      result := result + found.value;
      i := i + 1;
    }
    assert left[..i] == left;
    return Ok(result);
  }

  method ExecHashJoin(lib: Library, jt: JoinType, cond: Expr, left: seq<Row>, right: seq<Row>)
    returns (r: Result<seq<Row>>)
    ensures r == Hashed(lib, jt, cond, left, right)
  {
    hide ChooseKeys, NestedLoop, ProbeLoop, TableOf, AllFail;
    var keys := ChooseKeys(lib, cond, left, right);
    var table, failures := BuildTable(lib, Second(keys), right);
    if right != [] && failures == |right| {
      r := ExecNestedLoop(lib, jt, cond, left, right);
    } else {
      r := ProbeAll(lib, jt, cond, left, right, table, First(keys), Second(keys));
    }
  }
}
