/** RANK, DENSE_RANK and NTILE over one sorted partition. */
module Windows {
  import opened Arithmetic
  import opened Values
  import opened Queries

  /** The ORDER BY values of a row. */
  type Keys = seq<Value>

  // ------------------------------------------------------- what is computed

  /** Where the run of equal keys around place `i` begins, comparing with the run's first key. */
  function RunStart(ks: seq<Keys>, i: nat): (f: nat)
    requires i < |ks|
    ensures f <= i
  {
    if i == 0 then 0
    else if SameValues(ks[i], ks[RunStart(ks, i - 1)]) then RunStart(ks, i - 1)
    else i
  }

  function RankAt(ks: seq<Keys>, i: nat): nat
    requires i < |ks|
  {
    RunStart(ks, i) + 1
  }

  function DenseAt(ks: seq<Keys>, i: nat): nat
    requires i < |ks|
  {
    if i == 0 then 1 else DenseAt(ks, i - 1) + if RunStart(ks, i) == i then 1 else 0
  }

  function NtileAt(total: nat, buckets: nat, i: nat): nat
    requires total > 0
  {
    i * buckets / total + 1
  }

  // ------------------------------------------------------ what is meant

  /** How many of the first `n` keys come strictly before `x`. */
  function CountBelow(below: (Keys, Keys) -> bool, ks: seq<Keys>, x: Keys, n: nat): nat
    requires n <= |ks|
  {
    if n == 0 then 0 else CountBelow(below, ks, x, n - 1) + if below(ks[n - 1], x) then 1 else 0
  }

  predicate FirstOfKind(ks: seq<Keys>, j: nat)
    requires j < |ks|
  {
    forall i :: 0 <= i < j ==> !SameValues(ks[i], ks[j])
  }

  /** How many different keys among the first `n` come strictly before `x`. */
  function DistinctBelow(below: (Keys, Keys) -> bool, ks: seq<Keys>, x: Keys, n: nat): nat
    requires n <= |ks|
  {
    if n == 0 then 0
    else DistinctBelow(below, ks, x, n - 1) + if below(ks[n - 1], x) && FirstOfKind(ks, n - 1) then 1 else 0
  }

  /** Keys in a total order: one comes before the other or they are the same, and the order is transitive. */
  ghost predicate TotallyOrdered(below: (Keys, Keys) -> bool, ks: seq<Keys>) {
    && (forall i, j {:trigger SameValues(ks[i], ks[j])} :: 0 <= i < |ks| && 0 <= j < |ks| ==>
          (SameValues(ks[i], ks[j]) <==> !below(ks[i], ks[j]) && !below(ks[j], ks[i])))
    && (forall i, j, k {:trigger below(ks[i], ks[j]), below(ks[j], ks[k])} ::
          0 <= i < |ks| && 0 <= j < |ks| && 0 <= k < |ks| && below(ks[i], ks[j]) && below(ks[j], ks[k]) ==>
              below(ks[i], ks[k]))
    && (forall i, j {:trigger below(ks[i], ks[j])} :: 0 <= i < |ks| && 0 <= j < |ks| ==>
          !(below(ks[i], ks[j]) && below(ks[j], ks[i])))
  }

  ghost predicate Sorted(below: (Keys, Keys) -> bool, ks: seq<Keys>) {
    forall i, j {:trigger below(ks[j], ks[i])} :: 0 <= i < j < |ks| ==> !below(ks[j], ks[i])
  }

  // -------------------------------------------------------------- runs

  lemma {:induction false} InRun(ks: seq<Keys>, i: nat, j: nat)
    requires i < |ks| && RunStart(ks, i) <= j <= i
    requires forall m :: 0 <= m < |ks| ==> SameValues(ks[m], ks[m])
    ensures SameValues(ks[j], ks[RunStart(ks, i)]) && RunStart(ks, j) == RunStart(ks, i)
    decreases i
  {
    hide SameValues;
    if j < i {
      InRun(ks, i - 1, j);
    } else {
      RunStartSelf(ks, i);
    }
  }

  lemma {:induction false} RunStartSelf(ks: seq<Keys>, i: nat)
    requires i < |ks|
    requires forall m :: 0 <= m < |ks| ==> SameValues(ks[m], ks[m])
    ensures SameValues(ks[i], ks[RunStart(ks, i)]) && RunStart(ks, RunStart(ks, i)) == RunStart(ks, i)
    decreases i
  {
    hide SameValues;
    if i > 0 { RunStartSelf(ks, i - 1); }
  }

  /** The first key of a run comes after the run before it. */
  lemma RunsAscend(below: (Keys, Keys) -> bool, ks: seq<Keys>, f: nat)
    requires TotallyOrdered(below, ks) && Sorted(below, ks) && 0 < f < |ks| && RunStart(ks, f) == f
    ensures below(ks[RunStart(ks, f - 1)], ks[f])
  {
    hide SameValues;
    var g := RunStart(ks, f - 1);
    assert !SameValues(ks[f], ks[g]);
    assert !below(ks[f], ks[g]);
  }

  /** Being the same as a key, one stands to the others as it does. */
  lemma SameStands(below: (Keys, Keys) -> bool, ks: seq<Keys>, i: nat, j: nat, k: nat)
    requires TotallyOrdered(below, ks) && i < |ks| && j < |ks| && k < |ks| && SameValues(ks[i], ks[j])
    ensures below(ks[j], ks[k]) ==> below(ks[i], ks[k])
    ensures below(ks[k], ks[j]) ==> below(ks[k], ks[i])
  {
    SameSymmetric(ks[i], ks[j]);
    if SameValues(ks[i], ks[k]) { SameTransitive(ks[j], ks[i], ks[k]); }
    if SameValues(ks[k], ks[i]) {
      SameSymmetric(ks[k], ks[i]);
      SameTransitive(ks[j], ks[i], ks[k]);
      SameSymmetric(ks[j], ks[k]);
    }
    hide SameValues;
    assert SameValues(ks[j], ks[k]) <==> !below(ks[j], ks[k]) && !below(ks[k], ks[j]);
    assert SameValues(ks[i], ks[k]) <==> !below(ks[i], ks[k]) && !below(ks[k], ks[i]);
    assert SameValues(ks[i], ks[j]) <==> !below(ks[i], ks[j]) && !below(ks[j], ks[i]);
  }

  lemma Reflexive(below: (Keys, Keys) -> bool, ks: seq<Keys>)
    requires TotallyOrdered(below, ks)
    ensures forall m :: 0 <= m < |ks| ==> SameValues(ks[m], ks[m])
  {
    hide SameValues;
    forall m | 0 <= m < |ks| ensures SameValues(ks[m], ks[m]) {
      assert SameValues(ks[m], ks[m]) <==> !below(ks[m], ks[m]) && !below(ks[m], ks[m]);
    }
  }

  /** All keys before a run are strictly before its first key. */
  lemma {:induction false} BeforeRun(below: (Keys, Keys) -> bool, ks: seq<Keys>, f: nat, j: nat)
    requires TotallyOrdered(below, ks) && Sorted(below, ks) && j < f < |ks| && RunStart(ks, f) == f
    ensures below(ks[j], ks[f])
    decreases f
  {
    hide SameValues;
    Reflexive(below, ks);
    RunsAscend(below, ks, f);
    var g := RunStart(ks, f - 1);
    RunStartSelf(ks, f - 1);
    if g <= j {
      InRun(ks, f - 1, j);
      SameStands(below, ks, j, g, f);
    } else {
      BeforeRun(below, ks, g, j);
      Transits(below, ks, j, g, f);
    }
  }

  lemma Transits(below: (Keys, Keys) -> bool, ks: seq<Keys>, i: nat, j: nat, k: nat)
    requires TotallyOrdered(below, ks) && i < |ks| && j < |ks| && k < |ks|
    requires below(ks[i], ks[j]) && below(ks[j], ks[k])
    ensures below(ks[i], ks[k])
  {
    hide SameValues;
  }

  /** A key is strictly before the key at `i` exactly when its place is before the run of `i`. */
  lemma BelowIsBeforeRun(below: (Keys, Keys) -> bool, ks: seq<Keys>, i: nat, j: nat)
    requires TotallyOrdered(below, ks) && Sorted(below, ks) && i < |ks| && j < |ks|
    ensures below(ks[j], ks[i]) <==> j < RunStart(ks, i)
  {
    hide SameValues;
    Reflexive(below, ks);
    var f := RunStart(ks, i);
    RunStartSelf(ks, i);
    if j < f {
      BeforeRun(below, ks, f, j);
      SameStands(below, ks, i, f, j);
    } else if j <= i {
      InRun(ks, i, j);
      SameInRun(ks, i, j);
      assert SameValues(ks[j], ks[i]) <==> !below(ks[j], ks[i]) && !below(ks[i], ks[j]);
    }
  }

  lemma SameInRun(ks: seq<Keys>, i: nat, j: nat)
    requires i < |ks| && j < |ks|
    requires SameValues(ks[j], ks[RunStart(ks, i)]) && SameValues(ks[i], ks[RunStart(ks, i)])
    ensures SameValues(ks[j], ks[i])
  {
    SameSymmetric(ks[i], ks[RunStart(ks, i)]);
    SameTransitive(ks[j], ks[RunStart(ks, i)], ks[i]);
  }

  lemma {:induction false} CountBefore(below: (Keys, Keys) -> bool, ks: seq<Keys>, i: nat, n: nat)
    requires TotallyOrdered(below, ks) && Sorted(below, ks) && i < |ks| && n <= |ks|
    ensures CountBelow(below, ks, ks[i], n) == if n <= RunStart(ks, i) then n else RunStart(ks, i)
  {
    hide SameValues, TotallyOrdered, Sorted, RunStart;
    if n > 0 {
      CountBefore(below, ks, i, n - 1);
      BelowIsBeforeRun(below, ks, i, n - 1);
    }
  }

  /** RANK is one more than the number of rows with a strictly earlier key. */
  lemma RankMeaning(below: (Keys, Keys) -> bool, ks: seq<Keys>, i: nat)
    requires TotallyOrdered(below, ks) && Sorted(below, ks) && i < |ks|
    ensures RankAt(ks, i) == 1 + CountBelow(below, ks, ks[i], |ks|)
  {
    hide SameValues, TotallyOrdered, Sorted;
    CountBefore(below, ks, i, |ks|);
  }

  lemma NotSame(below: (Keys, Keys) -> bool, ks: seq<Keys>, i: nat, j: nat)
    requires TotallyOrdered(below, ks) && i < |ks| && j < |ks| && below(ks[i], ks[j])
    ensures !SameValues(ks[i], ks[j])
  {
    hide SameValues;
  }

  /** The first of their kind are the starts of runs. */
  lemma FirstIsStart(below: (Keys, Keys) -> bool, ks: seq<Keys>, j: nat)
    requires TotallyOrdered(below, ks) && Sorted(below, ks) && j < |ks|
    ensures FirstOfKind(ks, j) <==> RunStart(ks, j) == j
  {
    hide SameValues;
    Reflexive(below, ks);
    RunStartSelf(ks, j);
    if RunStart(ks, j) == j {
      forall i | 0 <= i < j ensures !SameValues(ks[i], ks[j]) {
        BeforeRun(below, ks, j, i);
        NotSame(below, ks, i, j);
      }
    } else {
      StartSame(ks, j);
    }
  }

  lemma StartSame(ks: seq<Keys>, j: nat)
    requires j < |ks| && RunStart(ks, j) < j && SameValues(ks[j], ks[RunStart(ks, j)])
    ensures !FirstOfKind(ks, j)
  {
    SameSymmetric(ks[j], ks[RunStart(ks, j)]);
  }

  lemma {:induction false} DistinctBefore(below: (Keys, Keys) -> bool, ks: seq<Keys>, i: nat, n: nat)
    requires TotallyOrdered(below, ks) && Sorted(below, ks) && i < |ks| && n <= |ks|
    ensures DistinctBelow(below, ks, ks[i], n) ==
      if n == 0 || RunStart(ks, i) == 0 then 0
      else DenseAt(ks, (if n <= RunStart(ks, i) then n else RunStart(ks, i)) - 1)
  {
    hide SameValues, TotallyOrdered, Sorted, RunStart, FirstOfKind;
    if n > 0 {
      DistinctBefore(below, ks, i, n - 1);
      BelowIsBeforeRun(below, ks, i, n - 1);
      FirstIsStart(below, ks, n - 1);
      if n == 1 { ZeroStarts(ks); }
    }
  }

  lemma ZeroStarts(ks: seq<Keys>)
    requires |ks| > 0
    ensures RunStart(ks, 0) == 0 && DenseAt(ks, 0) == 1
  {
  }

  lemma {:induction false} DenseInRun(ks: seq<Keys>, i: nat)
    requires i < |ks|
    requires forall m :: 0 <= m < |ks| ==> SameValues(ks[m], ks[m])
    ensures DenseAt(ks, i) == DenseAt(ks, RunStart(ks, i))
    decreases i
  {
    hide SameValues;
    if RunStart(ks, i) < i {
      DenseInRun(ks, i - 1);
    }
  }

  /** DENSE_RANK is one more than the number of different strictly earlier keys. */
  lemma DenseMeaning(below: (Keys, Keys) -> bool, ks: seq<Keys>, i: nat)
    requires TotallyOrdered(below, ks) && Sorted(below, ks) && i < |ks|
    ensures DenseAt(ks, i) == 1 + DistinctBelow(below, ks, ks[i], |ks|)
  {
    hide SameValues, TotallyOrdered, Sorted, DistinctBelow, RunStart;
    Reflexive(below, ks);
    DistinctBefore(below, ks, i, |ks|);
    DenseInRun(ks, i);
    RunStartSelf(ks, i);
    DenseStep(ks, RunStart(ks, i));
  }

  lemma DenseStep(ks: seq<Keys>, f: nat)
    requires f < |ks| && RunStart(ks, f) == f
    ensures DenseAt(ks, f) == 1 + if f == 0 then 0 else DenseAt(ks, f - 1)
  {
    hide SameValues;
  }

  // ---------------------------------------------------------------- NTILE

  /** How many of the first `n` rows are in bucket `b` (from 0). */
  function BucketSize(total: nat, buckets: nat, b: nat, n: nat): nat
    requires total > 0
  {
    if n == 0 then 0
    else BucketSize(total, buckets, b, n - 1) + if NtileAt(total, buckets, n - 1) == b + 1 then 1 else 0
  }

  /** A row is in bucket `b` exactly when its place is between two rounded quotients. */
  lemma BucketBounds(total: nat, buckets: nat, b: nat, i: nat)
    requires total > 0 && buckets > 0
    ensures NtileAt(total, buckets, i) == b + 1 <==>
        CeilDiv(b * total, buckets) <= i < CeilDiv((b + 1) * total, buckets)
  {
    hide CeilDiv;
    var x := i * buckets;
    DivParts(x, total);
    Distribute(b, 1, total);
    CeilMeans(i, b * total, buckets);
    CeilMeans(i, (b + 1) * total, buckets);
    var q := x / total;
    if q < b { MulStep(total, q, b); }
    if b < q { MulStep(total, b, q); }
  }

  lemma {:induction false} BucketCount(total: nat, buckets: nat, b: nat, n: nat, lo: nat, hi: nat)
    requires total > 0 && buckets > 0 && lo <= hi
    requires lo == CeilDiv(b * total, buckets) && hi == CeilDiv((b + 1) * total, buckets)
    ensures BucketSize(total, buckets, b, n) == if n <= lo then 0 else if n <= hi then n - lo else hi - lo
  {
    hide CeilDiv, NtileAt;
    if n > 0 {
      BucketCount(total, buckets, b, n - 1, lo, hi);
      BucketBounds(total, buckets, b, n - 1);
    }
  }

  /** Every bucket has the quotient of rows, or one more. */
  lemma BucketSizes(total: nat, buckets: nat, b: nat)
    requires total > 0 && b < buckets
    ensures total / buckets <= BucketSize(total, buckets, b, total) <= total / buckets + 1
  {
    hide CeilDiv, BucketSize;
    var lo, hi := CeilDiv(b * total, buckets), CeilDiv((b + 1) * total, buckets);
    Distribute(b, 1, total);
    CeilStep(b * total, total, buckets);
    WithinTotal(total, buckets, b);
    BucketCount(total, buckets, b, total, lo, hi);
  }

  lemma WithinTotal(total: nat, buckets: nat, b: nat)
    requires total > 0 && b < buckets
    ensures CeilDiv((b + 1) * total, buckets) <= total
  {
    hide CeilDiv;
    CeilMeans(total, (b + 1) * total, buckets);
    if b + 1 < buckets { MulStep(total, b + 1, buckets); }
    assert buckets * total == total * buckets;
  }

  lemma NtileOrder(total: nat, buckets: nat, i: nat, j: nat)
    requires buckets > 0 && i <= j < total
    ensures 1 <= NtileAt(total, buckets, i) <= NtileAt(total, buckets, j) <= buckets
  {
    var x, y := i * buckets, j * buckets;
    if i < j { MulStep(buckets, i, j); }
    MulStep(buckets, j, total);
    Quotients(x, y, total, buckets);
    TileIs(total, buckets, i, x);
    TileIs(total, buckets, j, y);
    hide NtileAt;
  }

  lemma TileIs(total: nat, buckets: nat, i: nat, x: nat)
    requires total > 0 && x == i * buckets
    ensures NtileAt(total, buckets, i) == x / total + 1
  {
  }

  /** NTILE numbers the buckets 1 to k in order, with sizes that differ by at most one. */
  lemma NtileFair(total: nat, buckets: nat, b: nat, c: nat, i: nat, j: nat)
    requires b < buckets && c < buckets && i <= j < total
    ensures 1 <= NtileAt(total, buckets, i) <= NtileAt(total, buckets, j) <= buckets
    ensures BucketSize(total, buckets, b, total) <= BucketSize(total, buckets, c, total) + 1
  {
    hide BucketSize, NtileAt;
    BucketSizes(total, buckets, b);
    BucketSizes(total, buckets, c);
    NtileOrder(total, buckets, i, j);
  }

  lemma Quotients(x: nat, y: nat, total: nat, buckets: nat)
    requires total > 0 && x <= y < total * buckets
    ensures x / total <= y / total < buckets
  {
    DivParts(x, total);
    DivParts(y, total);
    var p, q := x / total, y / total;
    if q < p { MulStep(total, q, p); }
    assert buckets * total == total * buckets;
    if buckets < q { MulStep(total, buckets, q); }
  }

  // ------------------------------------------------------------- the loops

  /** The keys of the partition's rows in their sorted order. */
  function InOrder(keys: seq<Keys>, sorted: seq<nat>): (ks: seq<Keys>)
    requires forall p :: 0 <= p < |sorted| ==> sorted[p] < |keys|
    ensures |ks| == |sorted| && forall p :: 0 <= p < |sorted| ==> ks[p] == keys[sorted[p]]
  {
    seq(|sorted|, p requires 0 <= p < |sorted| => keys[sorted[p]])
  }

  /** Different rows of the table, in the order of the window. */
  predicate Partition(sorted: seq<nat>, rows: nat) {
    && (forall p :: 0 <= p < |sorted| ==> sorted[p] < rows)
    && forall p, q :: 0 <= p < q < |sorted| ==> sorted[p] != sorted[q]
  }

  /** The first `n` rows of the partition have their values, and rows outside it are untouched. */
  ghost predicate Filled(before: seq<int>, now: seq<int>, sorted: seq<nat>, values: seq<int>, n: nat) {
    && |now| == |before|
    && (forall p :: 0 <= p < n && p < |sorted| && p < |values| && sorted[p] < |now| ==> now[sorted[p]] == values[p])
    && (forall r :: 0 <= r < |now| && r !in sorted ==> now[r] == before[r])
  }

  method Store(window: array<int>, sorted: seq<nat>, i: nat, value: int, ghost before: seq<int>, ghost values: seq<int>)
    requires Partition(sorted, window.Length) && i < |sorted| == |values| && values[i] == value
    requires Filled(before, window[..], sorted, values, i)
    modifies window
    ensures Filled(before, window[..], sorted, values, i + 1)
  {
    window[sorted[i]] := value;
  }

  function Ranks(ks: seq<Keys>): (r: seq<int>)
    ensures |r| == |ks| && forall p :: 0 <= p < |ks| ==> r[p] == RankAt(ks, p)
  {
    seq(|ks|, p requires 0 <= p < |ks| => RankAt(ks, p))
  }

  function DenseRanks(ks: seq<Keys>): (r: seq<int>)
    ensures |r| == |ks| && forall p :: 0 <= p < |ks| ==> r[p] == DenseAt(ks, p)
  {
    seq(|ks|, p requires 0 <= p < |ks| => DenseAt(ks, p))
  }

  lemma FilledStart(before: seq<int>, sorted: seq<nat>, values: seq<int>)
    ensures Filled(before, before, sorted, values, 0)
  {
  }

  /** One step of both ranks, from the place before. */
  lemma RanksNext(ks: seq<Keys>, i: nat)
    requires i < |ks|
    ensures i == 0 ==> RunStart(ks, 0) == 0 && RankAt(ks, 0) == 1 && DenseAt(ks, 0) == 1
    ensures i > 0 && SameValues(ks[i], ks[RunStart(ks, i - 1)]) ==>
      && RunStart(ks, i) == RunStart(ks, i - 1) && RankAt(ks, i) == RankAt(ks, i - 1)
      && DenseAt(ks, i) == DenseAt(ks, i - 1)
    ensures i > 0 && !SameValues(ks[i], ks[RunStart(ks, i - 1)]) ==>
      RunStart(ks, i) == i && RankAt(ks, i) == i + 1 && DenseAt(ks, i) == DenseAt(ks, i - 1) + 1
  {
    hide SameValues;
  }

  method Rank(keys: seq<Keys>, sorted: seq<nat>, window: array<int>)
    requires |keys| == window.Length && Partition(sorted, |keys|)
    modifies window
    ensures Filled(old(window[..]), window[..], sorted, Ranks(InOrder(keys, sorted)), |sorted|)
  {
    hide SameValues, Filled, RunStart, RankAt;
    ghost var ks, before := InOrder(keys, sorted), window[..];
    ghost var values := Ranks(ks);
    FilledStart(before, sorted, values);
    var rank, next, prev := 1, 1, [];
    var i := 0;
    while i < |sorted|
      invariant 0 <= i <= |sorted| && next == i + 1
      invariant i > 0 ==> rank == RankAt(ks, i - 1) && prev == ks[RunStart(ks, i - 1)]
      invariant Filled(before, window[..], sorted, values, i)
    {
      hide SameValues, Filled, Ranks, InOrder, RunStart, RankAt;
      RanksNext(ks, i);
      var current := keys[sorted[i]];
      if i == 0 || !SameValues(current, prev) {
        rank, prev := next, current;
      }
      Store(window, sorted, i, rank, before, values);
      next := next + 1;
      i := i + 1;
    }
  }

  method DenseRank(keys: seq<Keys>, sorted: seq<nat>, window: array<int>)
    requires |keys| == window.Length && Partition(sorted, |keys|)
    modifies window
    ensures Filled(old(window[..]), window[..], sorted, DenseRanks(InOrder(keys, sorted)), |sorted|)
  {
    hide SameValues, Filled, RunStart, DenseAt;
    ghost var ks, before := InOrder(keys, sorted), window[..];
    ghost var values := DenseRanks(ks);
    FilledStart(before, sorted, values);
    var rank, prev := 1, [];
    var i := 0;
    while i < |sorted|
      invariant 0 <= i <= |sorted|
      invariant i > 0 ==> rank == DenseAt(ks, i - 1) && prev == ks[RunStart(ks, i - 1)]
      invariant i == 0 ==> rank == 1
      invariant Filled(before, window[..], sorted, values, i)
    {
      hide SameValues, Filled, DenseRanks, InOrder, RunStart, DenseAt;
      RanksNext(ks, i);
      var current := keys[sorted[i]];
      if i == 0 || !SameValues(current, prev) {
        rank, prev := if i == 0 then rank else rank + 1, current;
      }
      assert rank == DenseAt(ks, i) && prev == ks[RunStart(ks, i)];
      Store(window, sorted, i, rank, before, values);
      i := i + 1;
    }
  }

  function Tiles(total: nat, buckets: nat): (r: seq<int>)
    ensures |r| == total && forall p :: 0 <= p < total ==> r[p] == NtileAt(total, buckets, p)
  {
    seq(total, p requires 0 <= p < total => NtileAt(total, buckets, p))
  }

  /** Fewer than one bucket counts as one. */
  method Ntile(asked: int, sorted: seq<nat>, window: array<int>)
    requires Partition(sorted, window.Length)
    modifies window
    ensures Filled(old(window[..]), window[..], sorted, Tiles(|sorted|, if asked < 1 then 1 else asked), |sorted|)
  {
    hide Filled;
    var buckets: nat := if asked < 1 then 1 else asked;
    ghost var before := window[..];
    FilledStart(before, sorted, Tiles(|sorted|, buckets));
    var i := 0;
    while i < |sorted|
      invariant 0 <= i <= |sorted|
      invariant Filled(before, window[..], sorted, Tiles(|sorted|, buckets), i)
    {
      Store(window, sorted, i, NtileAt(|sorted|, buckets, i), before, Tiles(|sorted|, buckets));
      i := i + 1;
    }
  }
}
