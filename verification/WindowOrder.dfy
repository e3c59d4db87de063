/** The order by which a window sorts its partition, and what ranks mean in it. */
module WindowOrder {
  import opened Bytes
  import opened Values
  import opened Floats
  import opened Queries
  import opened Windows

  /** NULLs come first; values without an order among them count as equal. */
  function ValueOrder(lib: Library, a: Value, b: Value): Ordering {
    var c := Compare(lib, a, b);
    if c.Some? then c.value else Equal
  }

  function Reverse(o: Ordering): Ordering {
    match o case Less => Greater case Equal => Equal case Greater => Less
  }

  /** The first column that differs decides, the other way round where the order is descending. */
  function KeysOrder(lib: Library, ascending: seq<bool>, a: Keys, b: Keys): Ordering
    decreases |ascending|
  {
    if ascending == [] || a == [] || b == [] then Equal
    else
      var o := ValueOrder(lib, a[0], b[0]);
      if o == Equal then KeysOrder(lib, ascending[1..], a[1..], b[1..])
      else if ascending[0] then o else Reverse(o)
  }

  function SortsBefore(lib: Library, ascending: seq<bool>): (Keys, Keys) -> bool {
    (a: Keys, b: Keys) => KeysOrder(lib, ascending, a, b) == Less
  }

  // ------------------------------------------------------------ one column

  /** NULL, or a value of a type that is ordered by what it stores. */
  predicate Sortable(v: Value) {
    v.Null? || Plain(v) || (v.Float8? && !IsNaN(v.bits))
  }

  /** Two values that one column can hold. */
  predicate Alike(a: Value, b: Value) {
    Sortable(a) && Sortable(b) && (a.Null? || b.Null? || SameType(a, b))
  }

  lemma BytesTotal(a: Key, b: Key)
    ensures BytesOrder(b, a) == Reverse(BytesOrder(a, b))
  {
    LtOrder();
  }

  lemma BytesTransitive(a: Key, b: Key, c: Key)
    requires BytesOrder(a, b) == BytesOrder(b, c) == Less
    ensures BytesOrder(a, c) == Less
  {
    LtOrder();
  }

  /** Turning the comparison round reverses it, and equal means the same. */
  lemma ValueTotal(lib: Library, a: Value, b: Value)
    requires Alike(a, b)
    ensures ValueOrder(lib, b, a) == Reverse(ValueOrder(lib, a, b))
    ensures ValueOrder(lib, a, b) == Equal <==> Same(a, b)
  {
    hide IsNaN, Number, Bytes.Lt;
    match (a, b)
    case (Text(x), Text(y)) => BytesTotal(x, y);
    case (Bytea(x), Bytea(y)) => BytesTotal(x, y);
    case (Uuid(x), Uuid(y)) => BytesTotal(x, y);
    case _ =>
  }

  lemma ValueTransitive(lib: Library, a: Value, b: Value, c: Value)
    requires Alike(a, b) && Alike(b, c) && Alike(a, c)
    requires ValueOrder(lib, a, b) == ValueOrder(lib, b, c) == Less
    ensures ValueOrder(lib, a, c) == Less
  {
    hide IsNaN, Number, Bytes.Lt;
    match (a, b, c)
    case (Text(x), Text(y), Text(z)) => BytesTransitive(x, y, z);
    case (Bytea(x), Bytea(y), Bytea(z)) => BytesTransitive(x, y, z);
    case (Uuid(x), Uuid(y), Uuid(z)) => BytesTransitive(x, y, z);
    case _ =>
  }

  /** Of two values that are the same, one stands to others as the other does. */
  lemma ValueCongruent(lib: Library, a: Value, b: Value, c: Value)
    requires Alike(a, b) && Alike(b, c) && Alike(a, c) && Same(a, b)
    ensures ValueOrder(lib, a, c) == ValueOrder(lib, b, c) && ValueOrder(lib, c, a) == ValueOrder(lib, c, b)
  {
    hide IsNaN, Number, Bytes.Lt;
  }

  // ----------------------------------------------------------- all columns

  ghost predicate AlikeKeys(a: Keys, b: Keys) {
    |a| == |b| && forall c :: 0 <= c < |a| ==> Alike(a[c], b[c])
  }

  lemma SameSplit(a: Keys, b: Keys)
    requires |a| == |b| > 0
    ensures SameValues(a, b) <==> Same(a[0], b[0]) && SameValues(a[1..], b[1..])
  {
    hide Same;
    if Same(a[0], b[0]) && SameValues(a[1..], b[1..]) {
      forall i | 0 <= i < |a| ensures Same(a[i], b[i]) {
        assert i > 0 ==> a[i] == a[1..][i - 1] && b[i] == b[1..][i - 1];
      }
    }
    if SameValues(a, b) {
      forall i | 0 <= i < |a[1..]| ensures Same(a[1..][i], b[1..][i]) {
        assert Same(a[i + 1], b[i + 1]);
      }
    }
  }

  lemma AlikeTail(a: Keys, b: Keys)
    requires AlikeKeys(a, b) && a != []
    ensures Alike(a[0], b[0]) && AlikeKeys(a[1..], b[1..])
  {
    hide Alike;
  }

  lemma {:induction false} KeysTotal(lib: Library, ascending: seq<bool>, a: Keys, b: Keys)
    requires AlikeKeys(a, b) && |ascending| == |a|
    ensures KeysOrder(lib, ascending, b, a) == Reverse(KeysOrder(lib, ascending, a, b))
    ensures KeysOrder(lib, ascending, a, b) == Equal <==> SameValues(a, b)
    decreases |ascending|
  {
    if a != [] {
      AlikeTail(a, b);
      ValueTotal(lib, a[0], b[0]);
      SameSplit(a, b);
      hide Alike, ValueOrder, SameValues, Same, AlikeKeys;
      KeysTotal(lib, ascending[1..], a[1..], b[1..]);
    }
  }

  lemma {:induction false} KeysTransitive(lib: Library, ascending: seq<bool>, a: Keys, b: Keys, c: Keys)
    requires AlikeKeys(a, b) && AlikeKeys(b, c) && AlikeKeys(a, c) && |ascending| == |a|
    requires KeysOrder(lib, ascending, a, b) == KeysOrder(lib, ascending, b, c) == Less
    ensures KeysOrder(lib, ascending, a, c) == Less
    decreases |ascending|
  {
    hide Alike, ValueOrder, AlikeKeys, Same;
    AlikeTail(a, b);
    AlikeTail(b, c);
    AlikeTail(a, c);
    ColumnTransitive(lib, a[0], b[0], c[0]);
    if ValueOrder(lib, a[0], b[0]) == ValueOrder(lib, b[0], c[0]) == Equal {
      KeysTransitive(lib, ascending[1..], a[1..], b[1..], c[1..]);
    }
  }

  /** How the first column of three keys stands. */
  lemma ColumnTransitive(lib: Library, a: Value, b: Value, c: Value)
    requires Alike(a, b) && Alike(b, c) && Alike(a, c)
    ensures ValueOrder(lib, a, b) == Equal ==> ValueOrder(lib, a, c) == ValueOrder(lib, b, c)
    ensures ValueOrder(lib, b, c) == Equal ==> ValueOrder(lib, a, c) == ValueOrder(lib, a, b)
    ensures ValueOrder(lib, a, b) == ValueOrder(lib, b, c) ==> ValueOrder(lib, a, c) == ValueOrder(lib, a, b)
  {
    ValueTotal(lib, a, b);
    ValueTotal(lib, b, c);
    ValueTotal(lib, a, c);
    hide ValueOrder;
    if ValueOrder(lib, a, b) == Equal { ValueCongruent(lib, a, b, c); }
    else if ValueOrder(lib, b, c) == Equal { ValueCongruent(lib, b, c, a); }
    else if ValueOrder(lib, a, b) == ValueOrder(lib, b, c) == Less { ValueTransitive(lib, a, b, c); }
    else if ValueOrder(lib, a, b) == ValueOrder(lib, b, c) == Greater { ValueTransitive(lib, c, b, a); }
  }

  // ------------------------------------------------------------- partitions

  /** Every key has one value for each column of the ORDER BY, and each column holds one type or NULL. */
  ghost predicate OneTypePerColumn(ks: seq<Keys>, columns: nat) {
    forall i, j {:trigger AlikeKeys(ks[i], ks[j])} ::
      0 <= i < |ks| && 0 <= j < |ks| ==> |ks[i]| == columns && AlikeKeys(ks[i], ks[j])
  }

  /** On keys of one type per column the order of the sort is total, and its ties are the equal keys. */
  lemma SortIsTotal(lib: Library, ascending: seq<bool>, ks: seq<Keys>)
    requires OneTypePerColumn(ks, |ascending|)
    ensures TotallyOrdered(SortsBefore(lib, ascending), ks)
  {
    hide AlikeKeys, SameValues, KeysOrder;
    forall i, j | 0 <= i < |ks| && 0 <= j < |ks|
      ensures KeysOrder(lib, ascending, ks[j], ks[i]) == Reverse(KeysOrder(lib, ascending, ks[i], ks[j]))
      ensures KeysOrder(lib, ascending, ks[i], ks[j]) == Equal <==> SameValues(ks[i], ks[j])
    {
      assert AlikeKeys(ks[i], ks[j]);
      KeysTotal(lib, ascending, ks[i], ks[j]);
    }
    forall i, j, k | 0 <= i < |ks| && 0 <= j < |ks| && 0 <= k < |ks|
                     && KeysOrder(lib, ascending, ks[i], ks[j]) == Less
                     && KeysOrder(lib, ascending, ks[j], ks[k]) == Less
      ensures KeysOrder(lib, ascending, ks[i], ks[k]) == Less
    {
      assert AlikeKeys(ks[i], ks[j]) && AlikeKeys(ks[j], ks[k]) && AlikeKeys(ks[i], ks[k]);
      KeysTransitive(lib, ascending, ks[i], ks[j], ks[k]);
    }
  }

  /** Over a partition in the order of its sort, RANK and DENSE_RANK count the rows and keys that sort before. */
  lemma RanksOfSorted(lib: Library, ascending: seq<bool>, ks: seq<Keys>, i: nat)
    requires OneTypePerColumn(ks, |ascending|) && Windows.Sorted(SortsBefore(lib, ascending), ks) && i < |ks|
    ensures RankAt(ks, i) == 1 + CountBelow(SortsBefore(lib, ascending), ks, ks[i], |ks|)
    ensures DenseAt(ks, i) == 1 + DistinctBelow(SortsBefore(lib, ascending), ks, ks[i], |ks|)
  {
    hide TotallyOrdered, OneTypePerColumn, Windows.Sorted, SortsBefore, CountBelow, DistinctBelow, RankAt, DenseAt;
    SortIsTotal(lib, ascending, ks);
    RankMeaning(SortsBefore(lib, ascending), ks, i);
    DenseMeaning(SortsBefore(lib, ascending), ks, i);
  }

  // ------------------------------------------------------------------- NaNs

  /** Two values that one column can hold, NaN included. */
  predicate Kindred(a: Value, b: Value) {
    && (a.Null? || Plain(a) || a.Float8?) && (b.Null? || Plain(b) || b.Float8?)
    && (a.Null? || b.Null? || SameType(a, b))
  }

  predicate NotNaN(v: Value) { v.Float8? ==> !IsNaN(v.bits) }

  ghost predicate TypedColumns(ks: seq<Keys>, columns: nat) {
    && (forall i :: 0 <= i < |ks| ==> |ks[i]| == columns)
    && forall i, j, c {:trigger ks[i][c], ks[j][c]} ::
         0 <= i < |ks| && 0 <= j < |ks| && 0 <= c < columns && |ks[i]| == |ks[j]| == columns ==>
           Kindred(ks[i][c], ks[j][c])
  }

  ghost predicate NoNaN(ks: seq<Keys>) {
    forall i, c :: 0 <= i < |ks| && 0 <= c < |ks[i]| ==> NotNaN(ks[i][c])
  }

  lemma ValueTies(lib: Library, v: Value)
    requires Kindred(v, v)
    ensures ValueOrder(lib, v, v) == Equal && (Same(v, v) <==> NotNaN(v))
  {
    hide IsNaN, Number;
    match v
    case Text(x) => LtIrreflexive(x);
    case Bytea(x) => LtIrreflexive(x);
    case Uuid(x) => LtIrreflexive(x);
    case _ =>
  }

  lemma {:induction false} KeysTie(lib: Library, ascending: seq<bool>, k: Keys)
    requires |k| == |ascending| && forall c :: 0 <= c < |k| ==> Kindred(k[c], k[c])
    ensures KeysOrder(lib, ascending, k, k) == Equal
    decreases |ascending|
  {
    hide Kindred, ValueOrder;
    if k != [] {
      ValueTies(lib, k[0]);
      KeysTie(lib, ascending[1..], k[1..]);
    }
  }

  /** With one type per column the order of the sort is total if and only if no key has a NaN. */
  lemma SortTotalExact(lib: Library, ascending: seq<bool>, ks: seq<Keys>)
    requires TypedColumns(ks, |ascending|)
    ensures TotallyOrdered(SortsBefore(lib, ascending), ks) <==> NoNaN(ks)
  {
    hide KeysOrder, Kindred, IsNaN, Number;
    if NoNaN(ks) {
      forall i, j | 0 <= i < |ks| && 0 <= j < |ks| ensures AlikeKeys(ks[i], ks[j]) {
        forall c | 0 <= c < |ks[i]| ensures Alike(ks[i][c], ks[j][c]) { KindredAlike(ks[i][c], ks[j][c]); }
      }
      hide AlikeKeys, TotallyOrdered;
      SortIsTotal(lib, ascending, ks);
    } else {
      var i, c :| 0 <= i < |ks| && 0 <= c < |ks[i]| && !NotNaN(ks[i][c]);
      assert forall d :: 0 <= d < |ks[i]| ==> Kindred(ks[i][d], ks[i][d]);
      KeysTie(lib, ascending, ks[i]);
      ValueTies(lib, ks[i][c]);
      assert !SameValues(ks[i], ks[i]);
    }
  }

  lemma KindredAlike(a: Value, b: Value)
    requires Kindred(a, b) && NotNaN(a) && NotNaN(b)
    ensures Alike(a, b)
  {
    hide IsNaN;
  }

  /** Two rows with a NaN: neither sorts before the other, but they are given ranks 1 and 2. */
  lemma NaNsRankApart(lib: Library, nan: nat, ascending: bool)
    requires IsNaN(nan)
    ensures var ks: seq<Keys> := [[Float8(nan)], [Float8(nan)]];
      && Windows.Sorted(SortsBefore(lib, [ascending]), ks)
      && RankAt(ks, 0) == 1 && RankAt(ks, 1) == 2
      && CountBelow(SortsBefore(lib, [ascending]), ks, ks[1], |ks|) == 0
  {
    hide IsNaN, Number;
    var k: Keys := [Float8(nan)];
    var ks: seq<Keys> := [k, k];
    KeysTie(lib, [ascending], k);
    assert !Same(k[0], k[0]);
    assert RunStart(ks, 0) == 0 && !SameValues(ks[1], ks[0]);
    hide KeysOrder;
    var below := SortsBefore(lib, [ascending]);
    assert CountBelow(below, ks, k, 1) == 0;
  }
}
