/** UNION, INTERSECT and EXCEPT: which copies of which rows they keep, and how many. */
module SetOps {
  import opened Values
  import opened Queries

  /** The values of the rows, without their names. */
  function ValuesOf(rows: seq<Row>): (vs: seq<seq<Value>>)
    ensures |vs| == |rows| && forall i :: 0 <= i < |rows| ==> vs[i] == rows[i].values
  {
    seq(|rows|, i requires 0 <= i < |rows| => rows[i].values)
  }

  /** How many rows have these values.  A row with a NaN in it has the same values as no row. */
  function Count(rows: seq<Row>, x: seq<Value>): nat {
    if rows == [] then 0
    else Count(rows[..|rows| - 1], x) + if SameValues(rows[|rows| - 1].values, x) then 1 else 0
  }

  // ----------------------------------------------- what is kept, row by row

  /** Each row the first of its kind. */
  function Distinct(rows: seq<Row>): seq<Row> {
    if rows == [] then []
    else
      var before, last := rows[..|rows| - 1], rows[|rows| - 1];
      Distinct(before) + if Count(before, last.values) == 0 then [last] else []
  }

  /** Of the copies of a row on the left, as many as the right has, the first ones. */
  function Common(left: seq<Row>, right: seq<Row>): seq<Row> {
    if left == [] then []
    else
      var before, last := left[..|left| - 1], left[|left| - 1];
      Common(before, right) + if Count(before, last.values) < Count(right, last.values) then [last] else []
  }

  /** Of the copies of a row on the left, those beyond as many as the right has. */
  function Remaining(left: seq<Row>, right: seq<Row>): seq<Row> {
    if left == [] then []
    else
      var before, last := left[..|left| - 1], left[|left| - 1];
      Remaining(before, right) + if Count(before, last.values) < Count(right, last.values) then [] else [last]
  }

  /** The rows on the left that the right has, or has not. */
  function Found(left: seq<Row>, right: seq<Row>, wanted: bool): seq<Row> {
    if left == [] then []
    else
      var before, last := left[..|left| - 1], left[|left| - 1];
      Found(before, right, wanted) + if (Count(right, last.values) > 0) == wanted then [last] else []
  }

  /** Rows of the right with the names of the left. */
  function Renamed(left: seq<Row>, right: seq<Row>): (r: seq<Row>)
    ensures |r| == |right| && forall i :: 0 <= i < |r| ==> r[i].values == right[i].values
  {
    if left == [] || left[0].names == [] then right
    else seq(|right|, i requires 0 <= i < |right| => Row(right[i].values, left[0].names))
  }

  datatype SetOperation = Union | Intersect | Except

  function SetOp(op: SetOperation, all: bool, left: seq<Row>, right: seq<Row>): seq<Row> {
    match op
    case Union => if all then left + Renamed(left, right) else Distinct(left + Renamed(left, right))
    case Intersect => if all then Common(left, right) else Distinct(Found(left, right, true))
    case Except => if all then Remaining(left, right) else Distinct(Found(left, right, false))
  }

  // ---------------------------------------------------------- multiplicities

  lemma {:induction false} CountSame(rows: seq<Row>, x: seq<Value>, y: seq<Value>)
    requires SameValues(x, y)
    ensures Count(rows, x) == Count(rows, y)
  {
    hide SameValues;
    if rows != [] {
      var v := rows[|rows| - 1].values;
      CountSame(rows[..|rows| - 1], x, y);
      if SameValues(v, x) { SameTransitive(v, x, y); }
      if SameValues(v, y) { SameSymmetric(x, y); SameTransitive(v, y, x); }
    }
  }

  lemma {:induction false} CountAppend(a: seq<Row>, b: seq<Row>, x: seq<Value>)
    ensures Count(a + b, x) == Count(a, x) + Count(b, x)
  {
    if b == [] {
      assert a + b == a;
    } else {
      assert (a + b)[..|a + b| - 1] == a + b[..|b| - 1];
      CountAppend(a, b[..|b| - 1], x);
    }
  }

  lemma CountLast(a: seq<Row>, r: Row, x: seq<Value>)
    ensures Count(a + [r], x) == Count(a, x) + if SameValues(r.values, x) then 1 else 0
  {
    assert (a + [r])[..|a|] == a;
  }

  lemma {:induction false} CountRenamed(a: seq<Row>, b: seq<Row>, x: seq<Value>)
    requires |a| == |b| && forall i :: 0 <= i < |a| ==> a[i].values == b[i].values
    ensures Count(a, x) == Count(b, x)
  {
    if a != [] { CountRenamed(a[..|a| - 1], b[..|b| - 1], x); }
  }

  function Min(a: nat, b: nat): nat { if a < b then a else b }
  function Less(a: nat, b: nat): nat { if a < b then 0 else a - b }

  lemma {:induction false} CountDistinct(rows: seq<Row>, x: seq<Value>)
    ensures Count(Distinct(rows), x) == Min(1, Count(rows, x))
  {
    hide SameValues;
    if rows != [] {
      var before, last := rows[..|rows| - 1], rows[|rows| - 1];
      CountDistinct(before, x);
      CountLast(Distinct(before), last, x);
      if SameValues(last.values, x) { CountSame(before, last.values, x); }
      assert Distinct(before) + [] == Distinct(before);
    }
  }

  lemma {:induction false} CountCommon(left: seq<Row>, right: seq<Row>, x: seq<Value>)
    ensures Count(Common(left, right), x) == Min(Count(left, x), Count(right, x))
  {
    hide SameValues;
    if left != [] {
      var before, last := left[..|left| - 1], left[|left| - 1];
      CountCommon(before, right, x);
      CountLast(Common(before, right), last, x);
      if SameValues(last.values, x) { CountSame(before, last.values, x); CountSame(right, last.values, x); }
      assert Common(before, right) + [] == Common(before, right);
    }
  }

  lemma {:induction false} CountRemaining(left: seq<Row>, right: seq<Row>, x: seq<Value>)
    ensures Count(Remaining(left, right), x) == Less(Count(left, x), Count(right, x))
  {
    hide SameValues;
    if left != [] {
      var before, last := left[..|left| - 1], left[|left| - 1];
      CountRemaining(before, right, x);
      CountLast(Remaining(before, right), last, x);
      if SameValues(last.values, x) { CountSame(before, last.values, x); CountSame(right, last.values, x); }
      assert Remaining(before, right) + [] == Remaining(before, right);
    }
  }

  lemma {:induction false} CountFound(left: seq<Row>, right: seq<Row>, wanted: bool, x: seq<Value>)
    ensures Count(Found(left, right, wanted), x) == if (Count(right, x) > 0) == wanted then Count(left, x) else 0
  {
    hide SameValues;
    if left != [] {
      var before, last := left[..|left| - 1], left[|left| - 1];
      CountFound(before, right, wanted, x);
      CountLast(Found(before, right, wanted), last, x);
      if SameValues(last.values, x) { CountSame(right, last.values, x); }
      assert Found(before, right, wanted) + [] == Found(before, right, wanted);
    }
  }

  /** How often a row is to occur, from how often the two sides have it. */
  function Multiplicity(op: SetOperation, all: bool, l: nat, r: nat): nat {
    match op
    case Union => if all then l + r else Min(1, l + r)
    case Intersect => if all then Min(l, r) else Min(1, Min(l, r))
    case Except => if all then Less(l, r) else if r == 0 then Min(1, l) else 0
  }

  /** Every set operation has every row exactly as often as it should. */
  lemma Multiplicities(op: SetOperation, all: bool, left: seq<Row>, right: seq<Row>, x: seq<Value>)
    ensures Count(SetOp(op, all, left, right), x) == Multiplicity(op, all, Count(left, x), Count(right, x))
  {
    match op
    case Union =>
      var renamed := Renamed(left, right);
      CountRenamed(renamed, right, x);
      CountAppend(left, renamed, x);
      CountDistinct(left + renamed, x);
    case Intersect =>
      CountCommon(left, right, x);
      CountFound(left, right, true, x);
      CountDistinct(Found(left, right, true), x);
    case Except =>
      CountRemaining(left, right, x);
      CountFound(left, right, false, x);
      CountDistinct(Found(left, right, false), x);
  }

  // ------------------------------------------------ which copies, in which order

  /** The places of the rows that are kept, in order. */
  ghost predicate Places(rows: seq<Row>, keep: seq<bool>, kept: seq<Row>, ps: seq<nat>) {
    && |keep| == |rows| && |ps| == |kept|
    && (forall k :: 0 <= k < |ps| ==> ps[k] < |rows| && kept[k] == rows[ps[k]])
    && (forall k, m :: 0 <= k < m < |ps| ==> ps[k] < ps[m])
    && (forall i: nat {:trigger i in ps} :: i in ps <==> i < |rows| && keep[i])
  }

  /** Exactly the rows at the places where `keep` holds, in their order. */
  ghost predicate Picks(rows: seq<Row>, keep: seq<bool>, kept: seq<Row>) { exists ps :: Places(rows, keep, kept, ps) }

  lemma PicksNone()
    ensures Picks([], [], [])
  {
    assert Places([], [], [], []);
  }

  lemma PicksNext(rows: seq<Row>, keep: seq<bool>, kept: seq<Row>)
    requires |rows| == |keep| > 0 && Picks(rows[..|rows| - 1], keep[..|rows| - 1], kept)
    ensures Picks(rows, keep, kept + if keep[|rows| - 1] then [rows[|rows| - 1]] else [])
  {
    var n := |rows| - 1;
    var ps :| Places(rows[..n], keep[..n], kept, ps);
    if keep[n] {
      PlacesMore(rows, keep, kept, ps);
    } else {
      PlacesSame(rows, keep, kept, ps);
      assert kept + [] == kept;
    }
  }

  lemma PlacesMore(rows: seq<Row>, keep: seq<bool>, kept: seq<Row>, ps: seq<nat>)
    requires |rows| == |keep| > 0 && Places(rows[..|rows| - 1], keep[..|rows| - 1], kept, ps) && keep[|rows| - 1]
    ensures Places(rows, keep, kept + [rows[|rows| - 1]], ps + [|rows| - 1])
  {
    var n := |rows| - 1;
    assert forall k :: 0 <= k < |ps| ==> ps[k] in ps;
    assert n in ps + [n] && forall i: nat :: i in ps + [n] <==> i in ps || i == n;
  }

  lemma PlacesSame(rows: seq<Row>, keep: seq<bool>, kept: seq<Row>, ps: seq<nat>)
    requires |rows| == |keep| > 0 && Places(rows[..|rows| - 1], keep[..|rows| - 1], kept, ps) && !keep[|rows| - 1]
    ensures Places(rows, keep, kept, ps)
  {
  }

  /** No earlier row has the same values. */
  predicate IsFirst(rows: seq<Row>, i: nat)
    requires i < |rows|
  {
    forall j :: 0 <= j < i ==> !SameValues(rows[j].values, rows[i].values)
  }

  function Firsts(rows: seq<Row>): (r: seq<bool>)
    ensures |r| == |rows| && forall i: nat :: i < |rows| ==> r[i] == IsFirst(rows, i)
  {
    seq(|rows|, i requires 0 <= i < |rows| => IsFirst(rows, i))
  }

  lemma {:induction false} CountNone(rows: seq<Row>, x: seq<Value>)
    ensures Count(rows, x) == 0 <==> forall j :: 0 <= j < |rows| ==> !SameValues(rows[j].values, x)
  {
    hide SameValues;
    if rows != [] {
      CountNone(rows[..|rows| - 1], x);
      assert forall j :: 0 <= j < |rows| - 1 ==> rows[..|rows| - 1][j] == rows[j];
    }
  }

  lemma FirstsBefore(rows: seq<Row>, n: nat)
    requires n <= |rows|
    ensures Firsts(rows)[..n] == Firsts(rows[..n])
  {
    hide SameValues;
    forall i: nat | i < n ensures IsFirst(rows[..n], i) == IsFirst(rows, i) {
      assert forall j :: 0 <= j <= i ==> rows[..n][j] == rows[j];
    }
  }

  /** DISTINCT keeps each row that is the first of its kind. */
  lemma {:induction false} DistinctPicks(rows: seq<Row>)
    ensures Picks(rows, Firsts(rows), Distinct(rows))
  {
    hide SameValues, Picks;
    if rows == [] {
      PicksNone();
      assert Firsts(rows) == [];
    } else {
      var n := |rows| - 1;
      DistinctPicks(rows[..n]);
      FirstsBefore(rows, n);
      PicksNext(rows, Firsts(rows), Distinct(rows[..n]));
      CountNone(rows[..n], rows[n].values);
      assert forall j :: 0 <= j < n ==> rows[..n][j] == rows[j];
    }
  }

  /** The right still has a copy of row `i` when the earlier ones of the left are matched. */
  predicate Matched(left: seq<Row>, right: seq<Row>, i: nat)
    requires i < |left|
  {
    Count(left[..i], left[i].values) < Count(right, left[i].values)
  }

  function Matches(left: seq<Row>, right: seq<Row>, wanted: bool): (r: seq<bool>)
    ensures |r| == |left| && forall i: nat :: i < |left| ==> r[i] == (Matched(left, right, i) == wanted)
  {
    seq(|left|, i requires 0 <= i < |left| => Matched(left, right, i) == wanted)
  }

  lemma MatchesBefore(left: seq<Row>, right: seq<Row>, wanted: bool, n: nat)
    requires n <= |left|
    ensures Matches(left, right, wanted)[..n] == Matches(left[..n], right, wanted)
  {
    hide Count;
    forall i: nat | i < n ensures Matched(left[..n], right, i) == Matched(left, right, i) {
      assert left[..n][..i] == left[..i] && left[..n][i] == left[i];
    }
  }

  /** INTERSECT ALL keeps the first copies, as many as the right has, and EXCEPT ALL the others. */
  lemma {:induction false} CopiesPicked(left: seq<Row>, right: seq<Row>)
    ensures Picks(left, Matches(left, right, true), Common(left, right))
    ensures Picks(left, Matches(left, right, false), Remaining(left, right))
  {
    hide Count, Picks;
    if left == [] {
      PicksNone();
      assert Matches(left, right, true) == [] && Matches(left, right, false) == [];
    } else {
      var n := |left| - 1;
      CopiesPicked(left[..n], right);
      MatchesBefore(left, right, true, n);
      MatchesBefore(left, right, false, n);
      PicksNext(left, Matches(left, right, true), Common(left[..n], right));
      PicksNext(left, Matches(left, right, false), Remaining(left[..n], right));
    }
  }

  /** The right has row `i` of the left. */
  predicate Has(left: seq<Row>, right: seq<Row>, i: nat)
    requires i < |left|
  {
    exists j :: 0 <= j < |right| && SameValues(right[j].values, left[i].values)
  }

  function Holdings(left: seq<Row>, right: seq<Row>, wanted: bool): (r: seq<bool>)
    ensures |r| == |left| && forall i: nat :: i < |left| ==> r[i] == (Has(left, right, i) == wanted)
  {
    seq(|left|, i requires 0 <= i < |left| => Has(left, right, i) == wanted)
  }

  /** INTERSECT and EXCEPT look at the rows the right has, or has not. */
  lemma {:induction false} FoundPicks(left: seq<Row>, right: seq<Row>, wanted: bool)
    ensures Picks(left, Holdings(left, right, wanted), Found(left, right, wanted))
  {
    hide SameValues, Picks;
    if left == [] {
      PicksNone();
      assert Holdings(left, right, wanted) == [];
    } else {
      var n := |left| - 1;
      FoundPicks(left[..n], right, wanted);
      forall i: nat | i < n ensures Has(left[..n], right, i) == Has(left, right, i) { assert left[..n][i] == left[i]; }
      assert Holdings(left, right, wanted)[..n] == Holdings(left[..n], right, wanted);
      PicksNext(left, Holdings(left, right, wanted), Found(left[..n], right, wanted));
      CountNone(right, left[n].values);
    }
  }

  /** All these, as one: which rows the operation gives and in which order. */
  lemma OrderExact(op: SetOperation, all: bool, left: seq<Row>, right: seq<Row>)
    ensures op.Union? ==> var both := left + Renamed(left, right);
      if all then SetOp(op, all, left, right) == both else Picks(both, Firsts(both), SetOp(op, all, left, right))
    ensures !op.Union? && all ==>
      Picks(left, Matches(left, right, op.Intersect?), SetOp(op, all, left, right))
    ensures !op.Union? && !all ==> var found := Found(left, right, op.Intersect?);
      && Picks(left, Holdings(left, right, op.Intersect?), found)
      && Picks(found, Firsts(found), SetOp(op, all, left, right))
  {
    hide Picks, Distinct, Common, Remaining, Found;
    DistinctPicks(left + Renamed(left, right));
    CopiesPicked(left, right);
    FoundPicks(left, right, op.Intersect?);
    DistinctPicks(Found(left, right, op.Intersect?));
  }

  /** In a UNION the rows of the right take the names of the left, if it has a row with names. */
  lemma RenamedNames(left: seq<Row>, right: seq<Row>, i: nat)
    requires i < |right|
    ensures Renamed(left, right)[i].names == if left != [] && left[0].names != [] then left[0].names else right[i].names
  {
  }

  // ------------------------------------------------------------- the loops

  /** How often values occur in a list of them. */
  function CountIn(vs: seq<seq<Value>>, x: seq<Value>): nat {
    if vs == [] then 0 else (if SameValues(vs[0], x) then 1 else 0) + CountIn(vs[1..], x)
  }

  lemma {:induction false} CountInAppend(vs: seq<seq<Value>>, v: seq<Value>, x: seq<Value>)
    ensures CountIn(vs + [v], x) == CountIn(vs, x) + if SameValues(v, x) then 1 else 0
  {
    if vs == [] {
      assert vs + [v] == [v];
    } else {
      assert (vs + [v])[1..] == vs[1..] + [v];
      CountInAppend(vs[1..], v, x);
    }
  }

  lemma {:induction false} CountInValues(rows: seq<Row>, x: seq<Value>)
    ensures CountIn(ValuesOf(rows), x) == Count(rows, x)
  {
    if rows != [] {
      var before := rows[..|rows| - 1];
      CountInValues(before, x);
      assert ValuesOf(rows) == ValuesOf(before) + [rows[|rows| - 1].values];
      CountInAppend(ValuesOf(before), rows[|rows| - 1].values, x);
    }
  }

  /** The first place of the values in the list, or the length. */
  method Position(vs: seq<seq<Value>>, x: seq<Value>) returns (p: nat)
    ensures p <= |vs| && (p < |vs| <==> CountIn(vs, x) > 0)
    ensures p < |vs| ==> SameValues(vs[p], x)
  {
    p := 0;
    assert vs[0..] == vs;
    while p < |vs| && !SameValues(vs[p], x)
      invariant 0 <= p <= |vs| && CountIn(vs, x) == CountIn(vs[p..], x)
    {
      assert vs[p..][1..] == vs[p + 1..];
      p := p + 1;
    }
    if p < |vs| { assert vs[p..][0] == vs[p]; }
  }

  method Deduplicate(rows: seq<Row>) returns (result: seq<Row>)
    ensures result == Distinct(rows)
  {
    var seen: seq<seq<Value>> := [];
    result := [];
    var i := 0;
    while i < |rows|
      invariant 0 <= i <= |rows|
      invariant result == Distinct(rows[..i]) && seen == ValuesOf(result)
    {
      var row := rows[i];
      assert rows[..i + 1][..i] == rows[..i];
      CountInValues(result, row.values);
      CountDistinct(rows[..i], row.values);
      var p := Position(seen, row.values);
      if p == |seen| {
        seen := seen + [row.values];
        result := result + [row];
      } else {
        assert result + [] == result;
      }
      i := i + 1;
    }
    assert rows[..i] == rows;
  }

  /** What is left of the right side after some rows of the left have taken their copies. */
  ghost predicate Pool(pool: seq<seq<Value>>, left: seq<Row>, right: seq<Row>) {
    forall x: seq<Value> {:trigger CountIn(pool, x)} :: CountIn(pool, x) == Less(Count(right, x), Count(left, x))
  }

  function Without(vs: seq<seq<Value>>, p: nat): seq<seq<Value>>
    requires p < |vs|
  {
    vs[..p] + vs[p + 1..]
  }

  lemma {:induction false} CountWithout(vs: seq<seq<Value>>, p: nat, x: seq<Value>)
    requires p < |vs|
    ensures CountIn(vs, x) == CountIn(Without(vs, p), x) + if SameValues(vs[p], x) then 1 else 0
  {
    if p == 0 {
      assert Without(vs, p) == vs[1..];
    } else {
      CountWithout(vs[1..], p - 1, x);
      assert Without(vs, p)[1..] == Without(vs[1..], p - 1);
    }
  }

  lemma PoolTaken(pool: seq<seq<Value>>, left: seq<Row>, right: seq<Row>, l: Row, p: nat)
    requires Pool(pool, left, right) && p < |pool| && SameValues(pool[p], l.values)
    ensures Pool(Without(pool, p), left + [l], right)
  {
    hide SameValues;
    var rest := Without(pool, p);
    forall x: seq<Value> ensures CountIn(rest, x) == Less(Count(right, x), Count(left + [l], x)) {
      assert CountIn(pool, x) == Less(Count(right, x), Count(left, x));
      CountWithout(pool, p, x);
      CountLast(left, l, x);
      if SameValues(l.values, x) { SameTransitive(pool[p], l.values, x); }
      if SameValues(pool[p], x) { SameSymmetric(pool[p], l.values); SameTransitive(l.values, pool[p], x); }
    }
  }

  lemma PoolPassed(pool: seq<seq<Value>>, left: seq<Row>, right: seq<Row>, l: Row)
    requires Pool(pool, left, right) && CountIn(pool, l.values) == 0
    ensures Pool(pool, left + [l], right)
  {
    hide SameValues;
    forall x: seq<Value> ensures CountIn(pool, x) == Less(Count(right, x), Count(left + [l], x)) {
      assert CountIn(pool, x) == Less(Count(right, x), Count(left, x));
      CountLast(left, l, x);
      if SameValues(l.values, x) { CountSame(left, l.values, x); CountSame(right, l.values, x); }
    }
  }

  lemma PoolStart(left: seq<Row>, right: seq<Row>)
    requires left == []
    ensures Pool(ValuesOf(right), left, right)
  {
    forall x: seq<Value> ensures CountIn(ValuesOf(right), x) == Less(Count(right, x), Count(left, x)) {
      CountInValues(right, x);
    }
  }

  lemma CopiesNext(left: seq<Row>, right: seq<Row>, i: nat)
    requires i < |left|
    ensures Common(left[..i + 1], right)
         == if Matched(left, right, i) then Common(left[..i], right) + [left[i]] else Common(left[..i], right)
    ensures Remaining(left[..i + 1], right)
         == if Matched(left, right, i) then Remaining(left[..i], right) else Remaining(left[..i], right) + [left[i]]
  {
    hide Count;
    assert left[..i + 1][..i] == left[..i];
    assert Common(left[..i], right) + [] == Common(left[..i], right);
    assert Remaining(left[..i], right) + [] == Remaining(left[..i], right);
  }

  /** INTERSECT ALL and EXCEPT ALL: each left row takes one copy out of the pool of the right, if it can. */
  method TakeCopies(left: seq<Row>, right: seq<Row>) returns (taken: seq<Row>, passed: seq<Row>)
    ensures taken == Common(left, right) && passed == Remaining(left, right)
  {
    var pool := ValuesOf(right);
    taken, passed := [], [];
    var i := 0;
    PoolStart(left[..0], right);
    hide SameValues, Pool, Count, CountIn;
    while i < |left|
      invariant 0 <= i <= |left|
      invariant Pool(pool, left[..i], right)
      invariant taken == Common(left[..i], right) && passed == Remaining(left[..i], right)
    {
      hide Common, Remaining;
      var l := left[i];
      assert left[..i + 1] == left[..i] + [l];
      CopiesNext(left, right, i);
      PoolCount(pool, left[..i], right, l.values);
      var p := Position(pool, l.values);
      if p < |pool| {
        PoolTaken(pool, left[..i], right, l, p);
        pool := Without(pool, p);
        taken := taken + [l];
      } else {
        PoolPassed(pool, left[..i], right, l);
        passed := passed + [l];
      }
      i := i + 1;
    }
    assert left[..i] == left;
  }

  lemma PoolCount(pool: seq<seq<Value>>, left: seq<Row>, right: seq<Row>, x: seq<Value>)
    requires Pool(pool, left, right)
    ensures CountIn(pool, x) > 0 <==> Count(left, x) < Count(right, x)
  {
  }

  method Filter(left: seq<Row>, right: seq<Row>, wanted: bool) returns (result: seq<Row>)
    ensures result == Found(left, right, wanted)
  {
    var keys := ValuesOf(right);
    result := [];
    var i := 0;
    while i < |left|
      invariant 0 <= i <= |left| && result == Found(left[..i], right, wanted)
    {
      assert left[..i + 1][..i] == left[..i];
      CountInValues(right, left[i].values);
      var p := Position(keys, left[i].values);
      if (p < |keys|) == wanted {
        result := result + [left[i]];
      } else {
        assert result + [] == result;
      }
      i := i + 1;
    }
    assert left[..i] == left;
  }

  method Execute(op: SetOperation, all: bool, left: seq<Row>, right: seq<Row>) returns (result: seq<Row>)
    ensures result == SetOp(op, all, left, right)
    ensures forall x: seq<Value> :: Count(result, x) == Multiplicity(op, all, Count(left, x), Count(right, x))
  {
    match op {
      case Union =>
        result := left + Renamed(left, right);
        if !all { result := Deduplicate(result); }
      case Intersect =>
        if all {
          var taken, passed := TakeCopies(left, right);
          result := taken;
        } else {
          result := Filter(left, right, true);
          result := Deduplicate(result);
        }
      case Except =>
        if all {
          var taken, passed := TakeCopies(left, right);
          result := passed;
        } else {
          result := Filter(left, right, false);
          result := Deduplicate(result);
        }
    }
    forall x: seq<Value> ensures Count(result, x) == Multiplicity(op, all, Count(left, x), Count(right, x)) {
      Multiplicities(op, all, left, right, x);
    }
  }
}
