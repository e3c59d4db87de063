/** WITH RECURSIVE, evaluated frontier by frontier, with the CYCLE clause. */
module RecursiveCte {
  import opened Wrappers
  import opened Values
  import opened Queries

  const MAX_ITERATIONS: nat := 1000

  /** The recursive term as a function of the rows the CTE's name stands for, the cycle column, and value display. */
  datatype Query = Query(
    term: seq<Row> -> Result<seq<Row>>,
    cycle: Option<string>,
    display: Value -> string,
    names: seq<string>)

  /** The cycle key of a row: the column of that name, or the first. */
  function CycleKey(q: Query, row: Row): Option<string> {
    if q.cycle.None? then None
    else
      var p := Place(row.names, q.cycle.value);
      var i := if p < |row.names| then p else 0;
      if i < |row.values| then Some(q.display(row.values[i])) else None
  }

  function KeyOf(q: Query, row: Row): string {
    if CycleKey(q, row).Some? then CycleKey(q, row).value else ""
  }

  /** A produced row with the names of the base rows. */
  function Normal(q: Query, row: Row): Row {
    if q.names == [] then row else Row(row.values, q.names)
  }

  function Normals(q: Query, rows: seq<Row>): (r: seq<Row>)
    ensures |r| == |rows| && forall i :: 0 <= i < |rows| ==> r[i] == Normal(q, rows[i])
  {
    seq(|rows|, i requires 0 <= i < |rows| => Normal(q, rows[i]))
  }

  function BaseKeys(q: Query, base: seq<Row>): set<string> {
    set r | r in base && CycleKey(q, r).Some? :: CycleKey(q, r).value
  }

  function Keys(q: Query, rows: seq<Row>): set<string> { set r | r in rows :: KeyOf(q, r) }

  /** The rows whose key is new, each key once. */
  function Fresh(q: Query, rows: seq<Row>, seen: set<string>): seq<Row> {
    if rows == [] then []
    else
      var before, last := Fresh(q, rows[..|rows| - 1], seen), rows[|rows| - 1];
      before + if KeyOf(q, last) in seen + Keys(q, before) then [] else [last]
  }

  datatype State = State(all: seq<Row>, frontier: seq<Row>, seen: set<string>)

  datatype Outcome = Outcome(state: State, stopped: bool)

  function Kept(q: Query, s: State, produced: seq<Row>): seq<Row> {
    if q.cycle.Some? then Fresh(q, Normals(q, produced), s.seen) else Normals(q, produced)
  }

  function Advanced(q: Query, s: State, kept: seq<Row>): State {
    State(s.all + kept, kept, if q.cycle.Some? then s.seen + Keys(q, kept) else s.seen)
  }

  /** Up to `k` rounds; a round that keeps no row is the last. */
  function Rounds(q: Query, s: State, k: nat): Result<Outcome>
    decreases k
  {
    if k == 0 then Ok(Outcome(s, false))
    else
      var produced := q.term(s.frontier);
      if produced.Err? then Err(produced.error)
      else if produced.value == [] then Ok(Outcome(s, true))
      else
        var kept := Kept(q, s, produced.value);
        if q.cycle.Some? && kept == [] then Ok(Outcome(s, true))
        else Rounds(q, Advanced(q, s, kept), k - 1)
  }

  function Start(q: Query, base: seq<Row>): State { State(base, base, BaseKeys(q, base)) }

  // ------------------------------------------------------------ distinct keys

  lemma {:induction false} FreshKeys(q: Query, rows: seq<Row>, seen: set<string>)
    ensures seen + Keys(q, Fresh(q, rows, seen)) == seen + Keys(q, rows)
    ensures forall r :: r in Fresh(q, rows, seen) ==> r in rows && KeyOf(q, r) !in seen
    ensures DistinctKeys(q, Fresh(q, rows, seen))
  {
    hide KeyOf;
    if rows != [] {
      hide Keys, DistinctKeys;
      var init, last := rows[..|rows| - 1], rows[|rows| - 1];
      FreshKeys(q, init, seen);
      var before := Fresh(q, init, seen);
      assert rows == init + [last];
      KeysLast(q, init, last);
      if KeyOf(q, last) in seen + Keys(q, before) {
        assert before + [] == before;
      } else {
        KeysLast(q, before, last);
        DistinctLast(q, before, last);
      }
    }
  }

  predicate DistinctKeys(q: Query, rows: seq<Row>) {
    forall i, j :: 0 <= i < j < |rows| ==> KeyOf(q, rows[i]) != KeyOf(q, rows[j])
  }

  lemma KeysLast(q: Query, rows: seq<Row>, r: Row)
    ensures Keys(q, rows + [r]) == Keys(q, rows) + {KeyOf(q, r)}
  {
    hide KeyOf;
    assert (rows + [r])[|rows|] == r;
    assert forall i :: 0 <= i < |rows| ==> (rows + [r])[i] == rows[i];
    forall k | k in Keys(q, rows) ensures k in Keys(q, rows + [r]) {
      var x :| x in rows && KeyOf(q, x) == k;
      assert x in rows + [r];
    }
    assert r in rows + [r];
  }

  lemma DistinctLast(q: Query, rows: seq<Row>, r: Row)
    requires DistinctKeys(q, rows) && KeyOf(q, r) !in Keys(q, rows)
    ensures DistinctKeys(q, rows + [r])
  {
    hide KeyOf;
    assert forall i :: 0 <= i < |rows| ==> rows[i] in rows;
  }

  lemma KeysAppend(q: Query, a: seq<Row>, b: seq<Row>)
    ensures Keys(q, a + b) == Keys(q, a) + Keys(q, b)
  {
    hide KeyOf;
    forall k | k in Keys(q, a) + Keys(q, b) ensures k in Keys(q, a + b) {
      var x :| (x in a || x in b) && KeyOf(q, x) == k;
      assert x in a + b;
    }
  }

  lemma DistinctAppend(q: Query, a: seq<Row>, b: seq<Row>)
    requires DistinctKeys(q, a) && DistinctKeys(q, b) && Keys(q, a) !! Keys(q, b)
    ensures DistinctKeys(q, a + b)
  {
    hide KeyOf;
    forall i, j | 0 <= i < j < |a + b| ensures KeyOf(q, (a + b)[i]) != KeyOf(q, (a + b)[j]) {
      if i < |a| <= j {
        assert a[i] in a && b[j - |a|] in b;
        assert KeyOf(q, a[i]) in Keys(q, a) && KeyOf(q, b[j - |a|]) in Keys(q, b);
      }
    }
  }

  /** What every round keeps: the added rows have new and different keys, and all keys are remembered. */
  ghost predicate Sound(q: Query, base: seq<Row>, s: State) {
    && |base| <= |s.all| && s.all[..|base|] == base
    && DistinctKeys(q, s.all[|base|..])
    && Keys(q, s.all[|base|..]) !! BaseKeys(q, base)
    && s.seen == BaseKeys(q, base) + Keys(q, s.all[|base|..])
  }

  lemma AdvanceSound(q: Query, base: seq<Row>, s: State, produced: seq<Row>)
    requires q.cycle.Some? && Sound(q, base, s)
    ensures Sound(q, base, Advanced(q, s, Kept(q, s, produced)))
  {
    hide KeyOf, Fresh, Keys, BaseKeys, DistinctKeys;
    var kept, added := Kept(q, s, produced), s.all[|base|..];
    FreshKeys(q, Normals(q, produced), s.seen);
    NewKeys(q, s.seen, kept);
    KeysAppend(q, added, kept);
    DistinctAppend(q, added, kept);
    assert (s.all + kept)[..|base|] == base;
    assert (s.all + kept)[|base|..] == added + kept;
  }

  lemma NewKeys(q: Query, seen: set<string>, kept: seq<Row>)
    requires forall r :: r in kept ==> KeyOf(q, r) !in seen
    ensures Keys(q, kept) !! seen
  {
    hide KeyOf;
  }

  lemma StartSound(q: Query, base: seq<Row>)
    ensures Sound(q, base, Start(q, base))
  {
    assert base[..|base|] == base && base[|base|..] == [];
  }

  lemma {:induction false} RoundsSound(q: Query, base: seq<Row>, s: State, k: nat)
    requires q.cycle.Some? && Sound(q, base, s) && Rounds(q, s, k).Ok?
    ensures Sound(q, base, Rounds(q, s, k).value.state)
    decreases k
  {
    hide Kept, Sound;
    if k > 0 && q.term(s.frontier).Ok? {
      var produced := q.term(s.frontier).value;
      AdvanceSound(q, base, s, produced);
      if produced != [] && Kept(q, s, produced) != [] {
        RoundsSound(q, base, Advanced(q, s, Kept(q, s, produced)), k - 1);
      }
    }
  }

  /** With CYCLE, the rows added to the base have pairwise distinct keys, none of them a base key. */
  lemma AddedKeysDistinct(q: Query, base: seq<Row>, k: nat)
    requires q.cycle.Some? && Rounds(q, Start(q, base), k).Ok?
    ensures var all := Rounds(q, Start(q, base), k).value.state.all;
      && |base| <= |all| && all[..|base|] == base
      && DistinctKeys(q, all[|base|..]) && Keys(q, all[|base|..]) !! BaseKeys(q, base)
  {
    hide Rounds;
    StartSound(q, base);
    RoundsSound(q, base, Start(q, base), k);
  }

  // --------------------------------------------------------------- closure

  predicate Makes(q: Query, p: Row, r: Row) { q.term([p]).Ok? && r in q.term([p]).value }

  /** The rows the name may stand for: base rows, and rows made from such rows, with the names of the base. */
  ghost predicate AllGood(good: Row -> bool, rows: seq<Row>) { forall r :: r in rows ==> good(r) }

  ghost predicate Keeps(q: Query, good: Row -> bool) {
    forall p, x {:trigger Makes(q, p, x)} :: good(p) && Makes(q, p, x) ==> good(Normal(q, x))
  }

  /** What the term makes of some rows, it makes of one of them. */
  ghost predicate DistributesOver(q: Query, rows: seq<Row>) {
    q.term(rows).Ok? ==>
      forall r {:trigger r in q.term(rows).value} ::
        r in q.term(rows).value <==> exists p :: p in rows && Makes(q, p, r)
  }

  /** The term looks at its rows one by one, and takes good rows to good rows. */
  ghost predicate Distributes(q: Query, good: Row -> bool) {
    && Keeps(q, good)
    && forall rows {:trigger DistributesOver(q, rows)} :: AllGood(good, rows) ==> DistributesOver(q, rows)
  }

  ghost predicate Total(q: Query, good: Row -> bool) {
    forall rows {:trigger q.term(rows)} :: AllGood(good, rows) ==> q.term(rows).Ok?
  }

  lemma KeptGood(q: Query, good: Row -> bool, s: State)
    requires Distributes(q, good) && AllGood(good, s.frontier) && q.term(s.frontier).Ok?
    ensures AllGood(good, Kept(q, s, q.term(s.frontier).value))
  {
    hide KeyOf, Fresh, Normal, Keys, DistinctKeys;
    var produced := q.term(s.frontier).value;
    assert DistributesOver(q, s.frontier);
    FreshKeys(q, Normals(q, produced), s.seen);
    forall r | r in Normals(q, produced) ensures good(r) {
      var i :| 0 <= i < |produced| && Normals(q, produced)[i] == r;
      assert produced[i] in produced;
      var p :| p in s.frontier && Makes(q, p, produced[i]);
    }
  }

  /** A term that succeeds on all good rows never stops the rounds with an error. */
  lemma {:induction false} RoundsOk(q: Query, good: Row -> bool, s: State, k: nat)
    requires Distributes(q, good) && Total(q, good) && AllGood(good, s.frontier)
    ensures Rounds(q, s, k).Ok?
    decreases k
  {
    hide Kept, Distributes;
    if k > 0 {
      KeptGood(q, good, s);
      var kept := Kept(q, s, q.term(s.frontier).value);
      if q.term(s.frontier).value != [] && !(q.cycle.Some? && kept == []) {
        RoundsOk(q, good, Advanced(q, s, kept), k - 1);
      }
    }
  }

  /** Everything made from the rows before the frontier has its key among those seen. */
  ghost predicate Closed(q: Query, s: State, done: seq<Row>) {
    forall p, r {:trigger Makes(q, p, r)} :: p in done && Makes(q, p, r) ==> KeyOf(q, Normal(q, r)) in s.seen
  }

  ghost predicate Split(s: State, done: seq<Row>) { s.all == done + s.frontier }

  lemma FrontierClosed(q: Query, s: State, done: seq<Row>)
    requires DistributesOver(q, s.frontier) && q.term(s.frontier).Ok?
    requires q.cycle.Some? && Split(s, done) && Closed(q, s, done)
    ensures Closed(q, Advanced(q, s, Kept(q, s, q.term(s.frontier).value)), s.all)
  {
    hide KeyOf, Fresh, Normal;
    var produced := q.term(s.frontier).value;
    var next := Advanced(q, s, Kept(q, s, produced));
    FreshKeys(q, Normals(q, produced), s.seen);
    forall p, r | p in s.all && Makes(q, p, r) ensures KeyOf(q, Normal(q, r)) in next.seen {
      if p in done {
      } else {
        assert p in s.frontier;
        assert r in produced;
        InNormals(q, produced, r);
      }
    }
  }

  lemma InNormals(q: Query, rows: seq<Row>, r: Row)
    requires r in rows
    ensures Normal(q, r) in Normals(q, rows) && KeyOf(q, Normal(q, r)) in Keys(q, Normals(q, rows))
  {
    hide KeyOf, Normal;
    var i :| 0 <= i < |rows| && rows[i] == r;
    assert Normals(q, rows)[i] == Normal(q, r);
    assert Normal(q, r) in Normals(q, rows);
  }

  lemma {:induction false} RoundsClosed(q: Query, good: Row -> bool, s: State, done: seq<Row>, k: nat)
    requires Distributes(q, good) && AllGood(good, s.frontier) && Rounds(q, s, k).Ok?
    requires q.cycle.Some? && Split(s, done) && Closed(q, s, done)
    ensures Rounds(q, s, k).value.stopped ==> Closed(q, Rounds(q, s, k).value.state, Rounds(q, s, k).value.state.all)
    decreases k
  {
    hide Kept, Closed;
    if k > 0 {
      var produced := q.term(s.frontier).value;
      var kept := Kept(q, s, produced);
      assert DistributesOver(q, s.frontier);
      hide Distributes, DistributesOver;
      KeptGood(q, good, s);
      FrontierClosed(q, s, done);
      if produced == [] || kept == [] {
        NothingKept(q, s, produced);
        SeenOnly(q, Advanced(q, s, kept), s, s.all);
      } else {
        RoundsClosed(q, good, Advanced(q, s, kept), s.all, k - 1);
      }
    }
  }

  lemma NothingKept(q: Query, s: State, produced: seq<Row>)
    requires q.cycle.Some? && (produced == [] || Kept(q, s, produced) == [])
    ensures Advanced(q, s, Kept(q, s, produced)).seen == s.seen
  {
    hide KeyOf;
    assert Normals(q, []) == [];
  }

  lemma SeenOnly(q: Query, s: State, t: State, rows: seq<Row>)
    requires Closed(q, s, rows) && t.seen == s.seen
    ensures Closed(q, t, rows)
  {
    hide KeyOf;
  }

  /** A row the base leads to in some number of steps. */
  ghost predicate Reachable(q: Query, base: seq<Row>, r: Row, steps: nat)
    decreases steps
  {
    r in base || (steps > 0 && exists p, x {:trigger Makes(q, p, x)} ::
                    Makes(q, p, x) && r == Normal(q, x) && Reachable(q, base, p, steps - 1))
  }

  ghost predicate AllReachable(q: Query, base: seq<Row>, rows: seq<Row>, steps: nat) {
    forall r {:trigger r in rows} :: r in rows ==> Reachable(q, base, r, steps)
  }

  lemma {:induction false} MoreSteps(q: Query, base: seq<Row>, r: Row, steps: nat)
    requires Reachable(q, base, r, steps)
    ensures Reachable(q, base, r, steps + 1)
    decreases steps
  {
    hide Normal;
    if r !in base {
      var p, x :| Makes(q, p, x) && r == Normal(q, x) && Reachable(q, base, p, steps - 1);
      MoreSteps(q, base, p, steps - 1);
    }
  }

  lemma {:induction false} ReachableGood(q: Query, good: Row -> bool, base: seq<Row>, r: Row, steps: nat)
    requires Keeps(q, good) && AllGood(good, base) && Reachable(q, base, r, steps)
    ensures good(r)
    decreases steps
  {
    hide Normal;
    if r !in base {
      var p, x :| Makes(q, p, x) && r == Normal(q, x) && Reachable(q, base, p, steps - 1);
      ReachableGood(q, good, base, p, steps - 1);
    }
  }

  lemma KeptReachable(q: Query, base: seq<Row>, s: State, steps: nat)
    requires DistributesOver(q, s.frontier) && q.term(s.frontier).Ok? && AllReachable(q, base, s.all, steps)
    requires forall r :: r in s.frontier ==> r in s.all
    ensures AllReachable(q, base, Advanced(q, s, Kept(q, s, q.term(s.frontier).value)).all, steps + 1)
    ensures forall r :: r in Kept(q, s, q.term(s.frontier).value) ==>
        r in Advanced(q, s, Kept(q, s, q.term(s.frontier).value)).all
  {
    hide KeyOf, Normal, Reachable, Fresh;
    var produced := q.term(s.frontier).value;
    var kept := Kept(q, s, produced);
    FreshKeys(q, Normals(q, produced), s.seen);
    forall r | r in s.all + kept ensures Reachable(q, base, r, steps + 1) {
      if r in s.all {
        MoreSteps(q, base, r, steps);
      } else {
        assert r in Normals(q, produced);
        var i :| 0 <= i < |produced| && Normals(q, produced)[i] == r;
        assert produced[i] in produced;
        var p :| p in s.frontier && Makes(q, p, produced[i]);
        OneStep(q, base, p, produced[i], steps);
      }
    }
  }

  lemma OneStep(q: Query, base: seq<Row>, p: Row, x: Row, steps: nat)
    requires Makes(q, p, x) && Reachable(q, base, p, steps)
    ensures Reachable(q, base, Normal(q, x), steps + 1)
  {
    hide Normal;
  }

  lemma {:induction false} RoundsReachable(q: Query, good: Row -> bool, base: seq<Row>, s: State, k: nat, steps: nat)
    requires Distributes(q, good) && AllGood(good, s.frontier) && Rounds(q, s, k).Ok?
    requires AllReachable(q, base, s.all, steps) && forall r :: r in s.frontier ==> r in s.all
    ensures AllReachable(q, base, Rounds(q, s, k).value.state.all, steps + k)
    decreases k
  {
    hide Kept, AllReachable, Advanced;
    if k > 0 {
      var produced := q.term(s.frontier).value;
      var kept := Kept(q, s, produced);
      assert DistributesOver(q, s.frontier);
      hide Distributes, DistributesOver;
      KeptGood(q, good, s);
      KeptReachable(q, base, s, steps);
      if produced == [] || (q.cycle.Some? && kept == []) {
        LaterReachable(q, base, s.all, steps, steps + k);
      } else {
        FrontierIs(q, s, kept);
        RoundsReachable(q, good, base, Advanced(q, s, kept), k - 1, steps + 1);
      }
    }
  }

  lemma FrontierIs(q: Query, s: State, kept: seq<Row>)
    ensures Advanced(q, s, kept).frontier == kept
  {
  }

  lemma {:induction false} LaterReachable(q: Query, base: seq<Row>, rows: seq<Row>, n: nat, m: nat)
    requires AllReachable(q, base, rows, n) && n <= m
    ensures AllReachable(q, base, rows, m)
    decreases m
  {
    hide Reachable;
    if n < m {
      LaterReachable(q, base, rows, n, m - 1);
      forall r | r in rows ensures Reachable(q, base, r, m) { MoreSteps(q, base, r, m - 1); }
    }
  }

  /**
   * The rounds of a term that distributes over its rows: every result row is reached from the base, and if
   * they end before the cap every row made from a result row has its key among the result's keys.
   */
  lemma ResultIsClosure(q: Query, good: Row -> bool, base: seq<Row>, k: nat)
    requires Distributes(q, good) && AllGood(good, base) && q.cycle.Some?
    ensures Total(q, good) ==> Rounds(q, Start(q, base), k).Ok?
    ensures Rounds(q, Start(q, base), k).Ok? ==>
      var end := Rounds(q, Start(q, base), k).value;
      && AllReachable(q, base, end.state.all, k) && |base| <= |end.state.all|
      && (end.stopped ==>
            forall p, r {:trigger Makes(q, p, r)} :: p in end.state.all && Makes(q, p, r) ==>
              KeyOf(q, Normal(q, r)) in BaseKeys(q, base) + Keys(q, end.state.all[|base|..]))
  {
    hide Rounds, KeyOf, Normal, BaseKeys, Distributes, Keys, DistinctKeys;
    var s := Start(q, base);
    if Total(q, good) { RoundsOk(q, good, s, k); }
    if Rounds(q, s, k).Ok? {
      assert base == [] + base;
      RoundsClosed(q, good, s, [], k);
      StartSound(q, base);
      RoundsSound(q, base, s, k);
      forall r | r in base ensures Reachable(q, base, r, 0) { }
      RoundsReachable(q, good, base, s, k, 0);
    }
  }

  /** The keys a good row leads to depend on its key alone. */
  ghost predicate KeysDetermine(q: Query, good: Row -> bool) {
    forall p, x, p' {:trigger Makes(q, p, x), good(p')} ::
      good(p) && good(p') && Makes(q, p, x) && KeyOf(q, p') == KeyOf(q, p) ==> LeadsTo(q, p', KeyOf(q, Normal(q, x)))
  }

  ghost predicate LeadsTo(q: Query, p: Row, key: string) {
    exists x :: Makes(q, p, x) && KeyOf(q, Normal(q, x)) == key
  }

  /** Of the rows made from result rows, the keys are the result's. */
  ghost predicate KeysClosed(q: Query, all: seq<Row>) {
    forall p, x {:trigger Makes(q, p, x)} :: p in all && Makes(q, p, x) ==> KeyOf(q, Normal(q, x)) in Keys(q, all)
  }

  lemma {:induction false} ReachedKey(q: Query, good: Row -> bool, base: seq<Row>, all: seq<Row>, r: Row, steps: nat)
    requires Keeps(q, good) && AllGood(good, base) && AllGood(good, all)
    requires KeysDetermine(q, good) && KeysClosed(q, all) && (forall b :: b in base ==> b in all)
    requires Reachable(q, base, r, steps)
    ensures KeyOf(q, r) in Keys(q, all)
    decreases steps
  {
    hide KeyOf, Normal, Keeps;
    if r !in base {
      var p, x :| Makes(q, p, x) && r == Normal(q, x) && Reachable(q, base, p, steps - 1);
      ReachedKey(q, good, base, all, p, steps - 1);
      ReachableGood(q, good, base, p, steps - 1);
      var p' :| p' in all && KeyOf(q, p') == KeyOf(q, p);
      assert good(p');
      assert LeadsTo(q, p', KeyOf(q, Normal(q, x)));
      var x' :| Makes(q, p', x') && KeyOf(q, Normal(q, x')) == KeyOf(q, Normal(q, x));
      assert KeyOf(q, Normal(q, x')) in Keys(q, all);
    }
  }

  ghost predicate ReachableKey(q: Query, base: seq<Row>, key: string) {
    exists r, n: nat :: Reachable(q, base, r, n) && KeyOf(q, r) == key
  }

  lemma SeenInAll(q: Query, base: seq<Row>, all: seq<Row>, key: string)
    requires |base| <= |all| && all[..|base|] == base && key in BaseKeys(q, base) + Keys(q, all[|base|..])
    ensures key in Keys(q, all)
  {
    if key in BaseKeys(q, base) {
      var r :| r in base && CycleKey(q, r) == Some(key);
      assert r in all[..|base|] && KeyOf(q, r) == key;
    } else {
      var r :| r in all[|base|..] && KeyOf(q, r) == key;
    }
  }

  lemma ReachableAllGood(q: Query, good: Row -> bool, base: seq<Row>, all: seq<Row>, steps: nat)
    requires Keeps(q, good) && AllGood(good, base) && AllReachable(q, base, all, steps)
    ensures AllGood(good, all)
  {
    hide Reachable, Keeps;
    forall r | r in all ensures good(r) { ReachableGood(q, good, base, r, steps); }
  }

  /**
   * Where the keys a row leads to depend on its key alone, and the rounds end before the cap, the keys of
   * the result are those of all the rows that the base leads to, in any number of steps.
   */
  lemma ResultKeysAreReachable(q: Query, good: Row -> bool, base: seq<Row>, k: nat, key: string)
    requires Distributes(q, good) && AllGood(good, base) && q.cycle.Some? && KeysDetermine(q, good)
    requires Rounds(q, Start(q, base), k).Ok? && Rounds(q, Start(q, base), k).value.stopped
    ensures key in Keys(q, Rounds(q, Start(q, base), k).value.state.all) <==> ReachableKey(q, base, key)
  {
    hide Rounds, KeyOf, Normal, BaseKeys, Reachable, KeysDetermine, DistinctKeys, DistributesOver;
    var all := Rounds(q, Start(q, base), k).value.state.all;
    ResultIsClosure(q, good, base, k);
    ReachableAllGood(q, good, base, all, k);
    AddedKeysDistinct(q, base, k);
    forall p, x | p in all && Makes(q, p, x) ensures KeyOf(q, Normal(q, x)) in Keys(q, all) {
      SeenInAll(q, base, all, KeyOf(q, Normal(q, x)));
    }
    forall b | b in base ensures b in all { assert b in all[..|base|]; }
    if ReachableKey(q, base, key) {
      var r, n: nat :| Reachable(q, base, r, n) && KeyOf(q, r) == key;
      ReachedKey(q, good, base, all, r, n);
    }
    if key in Keys(q, all) {
      var r :| r in all && KeyOf(q, r) == key;
      assert Reachable(q, base, r, k);
    }
  }

  /** Every round that goes on remembers a new key. */
  lemma {:induction false} RoundsCount(q: Query, s: State, k: nat)
    requires q.cycle.Some? && Rounds(q, s, k).Ok? && !Rounds(q, s, k).value.stopped
    ensures |Rounds(q, s, k).value.state.seen| >= |s.seen| + k
    decreases k
  {
    hide Kept, Advanced;
    if k > 0 {
      var kept := Kept(q, s, q.term(s.frontier).value);
      AdvancedGrows(q, s, q.term(s.frontier).value);
      RoundsCount(q, Advanced(q, s, kept), k - 1);
    }
  }

  lemma AdvancedGrows(q: Query, s: State, produced: seq<Row>)
    requires q.cycle.Some? && Kept(q, s, produced) != []
    ensures |Advanced(q, s, Kept(q, s, produced)).seen| >= |s.seen| + 1
  {
    hide KeyOf, Fresh, Keys;
    FreshKeys(q, Normals(q, produced), s.seen);
    KeptGrows(q, s.seen, Kept(q, s, produced));
  }

  lemma SubsetSize(a: set<string>, b: set<string>)
    requires forall x :: x in a ==> x in b
    ensures |a| <= |b|
  {
    assert b == a + (b - a);
  }

  lemma KeptGrows(q: Query, seen: set<string>, kept: seq<Row>)
    requires kept != [] && forall r :: r in kept ==> KeyOf(q, r) !in seen
    ensures |seen + Keys(q, kept)| >= |seen| + 1
  {
    hide KeyOf;
    assert kept[0] in kept;
    var key, more := KeyOf(q, kept[0]), seen + Keys(q, kept);
    assert more == (seen + {key}) + (more - (seen + {key}));
  }

  /** With fewer keys to reach than rounds allowed, the rounds end before the cap. */
  lemma FewKeysStop(q: Query, good: Row -> bool, base: seq<Row>, k: nat, keys: set<string>)
    requires Distributes(q, good) && AllGood(good, base) && q.cycle.Some?
    requires forall key {:trigger ReachableKey(q, base, key)} :: ReachableKey(q, base, key) ==> key in keys
    requires |keys| < |BaseKeys(q, base)| + k
    ensures Total(q, good) ==> Rounds(q, Start(q, base), k).Ok?
    ensures Rounds(q, Start(q, base), k).Ok? ==> Rounds(q, Start(q, base), k).value.stopped
  {
    hide Rounds, KeyOf, Normal, Reachable, DistinctKeys, Distributes, Total;
    ResultIsClosure(q, good, base, k);
    if Rounds(q, Start(q, base), k).Ok? && !Rounds(q, Start(q, base), k).value.stopped {
      var end := Rounds(q, Start(q, base), k).value;
      RoundsCount(q, Start(q, base), k);
      StartSound(q, base);
      RoundsSound(q, base, Start(q, base), k);
      forall key | key in end.state.seen ensures key in keys {
        SeenInAll(q, base, end.state.all, key);
        var r :| r in end.state.all && KeyOf(q, r) == key;
        assert Reachable(q, base, r, k);
        assert ReachableKey(q, base, key);
      }
      SubsetSize(end.state.seen, keys);
    }
  }

  // ------------------------------------------------------------ without CYCLE

  /** Everything made from the rows before the frontier is there. */
  ghost predicate RowsClosed(q: Query, s: State, done: seq<Row>) {
    forall p, x {:trigger Makes(q, p, x)} :: p in done && Makes(q, p, x) ==> Normal(q, x) in s.all
  }

  /** The rows are those that the base leads to in so many steps. */
  ghost predicate Exactly(q: Query, base: seq<Row>, rows: seq<Row>, steps: nat) {
    forall r {:trigger Reachable(q, base, r, steps)} {:trigger r in rows} :: r in rows <==> Reachable(q, base, r, steps)
  }

  lemma PlainRound(q: Query, base: seq<Row>, s: State, done: seq<Row>, steps: nat)
    requires DistributesOver(q, s.frontier) && q.term(s.frontier).Ok? && q.cycle.None?
    requires Split(s, done) && RowsClosed(q, s, done) && Exactly(q, base, s.all, steps)
    ensures var next := Advanced(q, s, Kept(q, s, q.term(s.frontier).value));
      && Split(next, s.all) && RowsClosed(q, next, s.all) && Exactly(q, base, next.all, steps + 1)
  {
    hide Normal;
    var produced := q.term(s.frontier).value;
    var next := Advanced(q, s, Kept(q, s, produced));
    forall p, x | p in s.all && Makes(q, p, x) ensures Normal(q, x) in next.all {
      if p !in done {
        assert p in s.frontier && x in produced;
        InNormals(q, produced, x);
      }
    }
    KeptReachable(q, base, s, steps);
    forall r | Reachable(q, base, r, steps + 1) ensures r in next.all {
      if r in base {
        assert Reachable(q, base, r, steps);
      } else {
        var p, x :| Makes(q, p, x) && r == Normal(q, x) && Reachable(q, base, p, steps);
        assert p in s.all;
      }
    }
  }

  /** Where nothing new is made, more steps lead nowhere else. */
  lemma {:induction false} SameLater(q: Query, base: seq<Row>, rows: seq<Row>, n: nat, m: nat)
    requires Exactly(q, base, rows, n) && Exactly(q, base, rows, n + 1) && n <= m
    ensures Exactly(q, base, rows, m)
    decreases m
  {
    hide Normal;
    if n < m {
      SameLater(q, base, rows, n, m - 1);
      forall r ensures r in rows <==> Reachable(q, base, r, m) {
        if r in rows { MoreSteps(q, base, r, m - 1); }
        if Reachable(q, base, r, m) && r !in base {
          var p, x :| Makes(q, p, x) && r == Normal(q, x) && Reachable(q, base, p, m - 1);
          assert p in rows && Reachable(q, base, p, n);
          OneStep(q, base, p, x, n);
          assert Reachable(q, base, r, n + 1);
        } else if r in base {
          assert Reachable(q, base, r, n);
        }
      }
    }
  }

  lemma {:induction false} PlainRounds(q: Query, good: Row -> bool, base: seq<Row>, s: State, done: seq<Row>, k: nat,
                                       steps: nat)
    requires Distributes(q, good) && AllGood(good, s.frontier) && q.cycle.None? && Rounds(q, s, k).Ok?
    requires Split(s, done) && RowsClosed(q, s, done) && Exactly(q, base, s.all, steps)
    ensures Exactly(q, base, Rounds(q, s, k).value.state.all, steps + k)
    ensures Rounds(q, s, k).value.stopped ==> Exactly(q, base, Rounds(q, s, k).value.state.all, steps + k + 1)
    decreases k
  {
    hide Kept, Exactly, RowsClosed, Split;
    if k > 0 {
      var produced := q.term(s.frontier).value;
      var kept := Kept(q, s, produced);
      assert DistributesOver(q, s.frontier);
      hide Distributes, DistributesOver;
      KeptGood(q, good, s);
      PlainRound(q, base, s, done, steps);
      if produced == [] {
        KeptNothing(q, s);
        assert s.all + kept == s.all;
        SameLater(q, base, s.all, steps, steps + k);
        SameLater(q, base, s.all, steps, steps + k + 1);
      } else {
        PlainRounds(q, good, base, Advanced(q, s, kept), s.all, k - 1, steps + 1);
      }
    }
  }

  lemma KeptNothing(q: Query, s: State)
    requires q.cycle.None?
    ensures Kept(q, s, []) == []
  {
  }

  /** Whatever so many steps lead to is among the rows. */
  ghost predicate AtMost(q: Query, base: seq<Row>, rows: seq<Row>, steps: nat) {
    forall r {:trigger Reachable(q, base, r, steps)} :: Reachable(q, base, r, steps) ==> r in rows
  }

  /**
   * Without CYCLE the result of so many rounds holds exactly the rows that the base leads to in so many
   * steps. It has all the rows the base ever leads to if and only if one step more leads to no other row, as
   * when the rounds end before the cap.
   */
  lemma PlainResultExact(q: Query, good: Row -> bool, base: seq<Row>, k: nat)
    requires Distributes(q, good) && AllGood(good, base) && q.cycle.None? && Rounds(q, Start(q, base), k).Ok?
    ensures var end := Rounds(q, Start(q, base), k).value;
      && Exactly(q, base, end.state.all, k)
      && ((forall n: nat :: AtMost(q, base, end.state.all, n)) <==> AtMost(q, base, end.state.all, k + 1))
      && (end.stopped ==> AtMost(q, base, end.state.all, k + 1))
  {
    hide Rounds, Normal, Distributes;
    var s, all := Start(q, base), Rounds(q, Start(q, base), k).value.state.all;
    assert base == [] + base;
    PlainRounds(q, good, base, s, [], k, 0);
    if AtMost(q, base, all, k + 1) {
      LaterReachable(q, base, all, k, k + 1);
      forall n: nat ensures AtMost(q, base, all, n) {
        if n <= k {
          forall r | Reachable(q, base, r, n) ensures r in all { LaterReachable(q, base, [r], n, k); assert r in [r]; }
        } else {
          SameLater(q, base, all, k, n);
        }
      }
    }
  }

  // --------------------------------------------------------------- the loop

  lemma FreshNone(q: Query, seen: set<string>)
    ensures Fresh(q, [], seen) == [] && Keys(q, []) == {}
  {
  }

  lemma FreshNext(q: Query, rows: seq<Row>, seen: set<string>, i: nat)
    requires i < |rows|
    ensures var before := Fresh(q, rows[..i], seen);
      Fresh(q, rows[..i + 1], seen)
      == if KeyOf(q, rows[i]) in seen + Keys(q, before) then before else before + [rows[i]]
  {
    hide KeyOf, Keys;
    var before := Fresh(q, rows[..i], seen);
    assert rows[..i + 1][..i] == rows[..i] && before + [] == before;
  }

  method FilterFresh(q: Query, rows: seq<Row>, seen: set<string>) returns (kept: seq<Row>, now: set<string>)
    ensures kept == Fresh(q, rows, seen) && now == seen + Keys(q, kept)
  {
    hide KeyOf, Fresh, Keys;
    kept, now := [], seen;
    FreshNone(q, seen);
    var i := 0;
    while i < |rows|
      invariant 0 <= i <= |rows| && kept == Fresh(q, rows[..i], seen) && now == seen + Keys(q, kept)
    {
      FreshNext(q, rows, seen, i);
      KeysLast(q, kept, rows[i]);
      var key := KeyOf(q, rows[i]);
      if key !in now {
        now := now + {key};
        kept := kept + [rows[i]];
      }
      i := i + 1;
    }
    assert rows[..i] == rows;
  }

  /** The base rows with the names of the CTE's signature. */
  function Aliased(base: seq<Row>, aliases: seq<string>): (r: seq<Row>)
    ensures |r| == |base| && forall i :: 0 <= i < |base| ==> r[i].values == base[i].values
  {
    if aliases == [] then base
    else seq(|base|, i requires 0 <= i < |base| =>
           if |base[i].names| == |aliases| then Row(base[i].values, aliases) else base[i])
  }

  /** A row with as many columns as the signature takes its names, any other keeps its own. */
  lemma AliasedNames(base: seq<Row>, aliases: seq<string>, i: nat)
    requires i < |base|
    ensures Aliased(base, aliases)[i].names
         == if aliases != [] && |base[i].names| == |aliases| then aliases else base[i].names
  {
  }

  /** The key is shown by the first column of the name in the CYCLE clause; without one, by the first column. */
  lemma CycleColumn(q: Query, row: Row, p: nat)
    requires q.cycle.Some? && |row.values| == |row.names| && p < |row.names|
    ensures row.names[p] == q.cycle.value && q.cycle.value !in row.names[..p] ==>
      CycleKey(q, row) == Some(q.display(row.values[p]))
    ensures q.cycle.value !in row.names ==> CycleKey(q, row) == Some(q.display(row.values[0]))
  {
    var c := Place(row.names, q.cycle.value);
    hide Place;
    assert forall k :: 0 <= k < c ==> row.names[..c][k] == row.names[k];
    assert forall k :: 0 <= k < p ==> row.names[..p][k] == row.names[k];
  }

  /** The query over the renamed base rows, whose names are those of the first. */
  function Named(q: Query, base: seq<Row>): Query {
    Query(q.term, q.cycle, q.display, if base == [] then [] else base[0].names)
  }

  /** An empty base is the whole result; otherwise the rounds up to the cap. */
  function Evaluated(q: Query, rows: seq<Row>, aliases: seq<string>): Result<Outcome> {
    var base := Aliased(rows, aliases);
    if base == [] then Ok(Outcome(State([], [], {}), true))
    else Rounds(Named(q, base), Start(Named(q, base), base), MAX_ITERATIONS)
  }

  method Execute(q: Query, rows: seq<Row>, aliases: seq<string>) returns (r: Result<seq<Row>>, stopped: bool)
    ensures r.Ok? <==> Evaluated(q, rows, aliases).Ok?
    ensures r.Ok? ==> Evaluated(q, rows, aliases).value.state.all == r.value
    ensures r.Ok? ==> Evaluated(q, rows, aliases).value.stopped == stopped
  {
    var base := Aliased(rows, aliases);
    if base == [] {
      return Ok([]), true;
    }
    r, stopped := Iterate(Named(q, base), base);
  }

  method Iterate(q: Query, base: seq<Row>) returns (r: Result<seq<Row>>, stopped: bool)
    ensures var o := Rounds(q, Start(q, base), MAX_ITERATIONS);
      && (r.Ok? <==> o.Ok?)
      && (r.Ok? ==> o.value.state.all == r.value && o.value.stopped == stopped)
  {
    hide Fresh, Keys, BaseKeys;
    var all, frontier, seen := base, base, BaseKeys(q, base);
    var k := MAX_ITERATIONS;
    while k > 0
      invariant 0 <= k
      invariant Rounds(q, Start(q, base), MAX_ITERATIONS) == Rounds(q, State(all, frontier, seen), k)
    {
      var produced := q.term(frontier);
      if produced.Err? {
        return Err(produced.error), false;
      }
      if produced.value == [] {
        return Ok(all), true;
      }
      var kept := Normals(q, produced.value);
      if q.cycle.Some? {
        kept, seen := FilterFresh(q, kept, seen);
        if kept == [] {
          return Ok(all), true;
        }
      }
      frontier := kept;
      all := all + kept;
      k := k - 1;
    }
    return Ok(all), false;
  }
}
