/** Root-to-leaf paths, ranges of entries, and how many pages a tree needs. */
module BTreePaths {
  import opened Bytes
  import opened BTreeNodes
  import opened BTreeCodec
  import opened Wrappers
  import opened BTreeRows
  import opened BTreeEntries
  import opened BTreeGrowth

  // ---------------------------------------------------------------- paths

  /** Step `d` of a path from the root: the slot that holds `key` in the row `d` below the top. */
  ghost predicate PathAt(rows: seq<Row>, key: Key, path: seq<nat>, pos: seq<nat>, d: nat) {
    && d < |path| && d < |pos| && d < |rows|
    && Locates(rows[|rows| - 1 - d], pos[d], key)
    && path[d] == rows[|rows| - 1 - d][pos[d]].page
  }

  ghost predicate PathOk(rows: seq<Row>, key: Key, path: seq<nat>, pos: seq<nat>) {
    && |path| == |pos| <= |rows|
    && forall d {:trigger PathAt(rows, key, path, pos, d)} :: 0 <= d < |path| ==> PathAt(rows, key, path, pos, d)
  }

  lemma PathExtend(rows: seq<Row>, key: Key, path: seq<nat>, pos: seq<nat>, page: nat, j: nat)
    requires PathOk(rows, key, path, pos) && |path| < |rows|
    requires Locates(rows[|rows| - 1 - |path|], j, key) && page == rows[|rows| - 1 - |path|][j].page
    ensures PathOk(rows, key, path + [page], pos + [j])
  {
    var path', pos' := path + [page], pos + [j];
    forall d | 0 <= d < |path'| ensures PathAt(rows, key, path', pos', d) {
      assert d < |path| ==> PathAt(rows, key, path, pos, d);
    }
  }

  lemma PathStart(rows: seq<Row>, key: Key, page: nat, j: nat)
    requires rows != [] && Locates(rows[|rows| - 1], j, key) && rows[|rows| - 1][j].page == page
    ensures PathOk(rows, key, [page], [j])
  {
    assert PathAt(rows, key, [page], [j], 0);
  }

  /** A full path ends in the leaf whose slot holds the key. */
  lemma PathEnd(rows: seq<Row>, key: Key, path: seq<nat>, pos: seq<nat>)
    requires rows != [] && |path| == |rows| && PathOk(rows, key, path, pos)
    ensures Locates(rows[0], pos[|rows| - 1], key) && path[|rows| - 1] == rows[0][pos[|rows| - 1]].page
  {
    assert PathAt(rows, key, path, pos, |rows| - 1);
  }

  /** The first `n` steps of a path, those above the rows being changed. */
  ghost predicate PathAbove(rows: seq<Row>, key: Key, path: seq<nat>, pos: seq<nat>, n: nat) {
    forall d {:trigger PathAt(rows, key, path, pos, d)} :: 0 <= d < n ==> PathAt(rows, key, path, pos, d)
  }

  /** A new slot in a row leaves the steps above that row as they were. */
  lemma PathAboveKept(rows: seq<Row>, key: Key, path: seq<nat>, pos: seq<nat>, n: nat, m: nat, row: Row)
    requires PathAbove(rows, key, path, pos, n) && m < |rows| && m + n < |rows|
    ensures PathAbove(rows[m := row], key, path, pos, n)
  {
    var rows': seq<Row> := rows[m := row];
    forall d | 0 <= d < n ensures PathAt(rows', key, path, pos, d) {
      assert PathAt(rows, key, path, pos, d);
    }
  }

  /** The root's slot holds every key. */
  lemma RootLocates(heap: Heap, rows: seq<Row>, root: nat, key: Key)
    requires Rooted(rows, root, |rows|, 0)
    ensures Locates(rows[|rows| - 1], 0, key) && rows[|rows| - 1][0].page == root
  {
    LtOrder();
  }

  /** The node of a slot above row 0 has children. */
  lemma InnerSlot(heap: Heap, rows: seq<Row>, limit: nat, m: nat, j: nat)
    requires Kinds(heap, rows) && Writable(heap, limit) && 0 < m < |rows| && j < |rows[m]|
    ensures rows[m][j].page in heap && heap[rows[m][j].page].Internal?
    ensures heap[rows[m][j].page].seps != [] && WellKeyed(heap[rows[m][j].page])
  {
    assert KindAt(heap, rows, m, j) && PageOk(heap, rows[m][j].page, limit);
  }

  /** From a slot of row `m` the child position of a key leads to its slot in row `m - 1`. */
  lemma DescendRows(heap: Heap, rows: seq<Row>, limit: nat, m: nat, j: nat, key: Key, es: seq<InternalEntry>)
    requires Kinds(heap, rows) && Writable(heap, limit) && Linked(heap, rows, |rows|, 0)
    requires 0 < m < |rows| && Locates(rows[m], j, key) && es != []
    requires rows[m][j].page in heap && heap[rows[m][j].page].Internal? && heap[rows[m][j].page].seps == es
    ensures Locates(rows[m - 1], Offset(heap, rows[m], j) + ChildPosition(es, key), key)
    ensures rows[m - 1][Offset(heap, rows[m], j) + ChildPosition(es, key)].page == es[ChildPosition(es, key)].child
  {
    RowParents(heap, rows, limit, m);
    LinkedBelow(heap, rows, m);
    Descend(heap, rows[m], j, key);
  }

  lemma LinkedBelow(heap: Heap, rows: seq<Row>, m: nat)
    requires Linked(heap, rows, |rows|, 0) && 0 < m < |rows|
    ensures Expand(heap, rows[m]) == rows[m - 1]
  {
    var l := m - 1;
    assert LinkedAt(heap, rows, l, |rows|, 0);
  }

  /** The empty key is found by always taking the first child. */
  lemma LeftmostChild(es: seq<InternalEntry>)
    requires es != [] && es[0].key == [] && forall i :: 0 < i < |es| ==> es[i].key != []
    ensures ChildPosition(es, []) == 0
  {
    ChildPositionMeaning(es, []);
    LtOrder();
    var c := ChildPosition(es, []);
    assert Le(es[c].key, []) ==> es[c].key == [];
  }

  // ---------------------------------------------------------------- ranges

  predicate InRange(k: Key, start: Option<Key>, end: Option<Key>) {
    (start.Some? ==> !Lt(k, start.value)) && (end.Some? ==> !Lt(end.value, k))
  }

  /** The entries within the inclusive bounds, in order. */
  function Range(es: seq<LeafEntry>, start: Option<Key>, end: Option<Key>): seq<LeafEntry> {
    if es == [] then []
    else (if InRange(es[0].key, start, end) then [es[0]] else []) + Range(es[1..], start, end)
  }

  lemma {:induction false} RangeAppend(a: seq<LeafEntry>, b: seq<LeafEntry>, start: Option<Key>, end: Option<Key>)
    ensures Range(a + b, start, end) == Range(a, start, end) + Range(b, start, end)
  {
    if a == [] {
      assert a + b == b;
    } else {
      assert (a + b)[1..] == a[1..] + b;
      RangeAppend(a[1..], b, start, end);
    }
  }

  lemma {:induction false} RangeEmpty(es: seq<LeafEntry>, start: Option<Key>, end: Option<Key>)
    requires forall i :: 0 <= i < |es| ==> !InRange(es[i].key, start, end)
    ensures Range(es, start, end) == []
  {
    if es != [] { RangeEmpty(es[1..], start, end); }
  }

  /** A range of a sorted sequence is sorted and holds exactly the entries within the bounds. */
  lemma {:induction false} RangeMeaning(es: seq<LeafEntry>, start: Option<Key>, end: Option<Key>)
    requires Sorted(Keys(es))
    ensures Sorted(Keys(Range(es, start, end)))
    ensures forall e :: e in Range(es, start, end) <==> e in es && InRange(e.key, start, end)
  {
    if es != [] {
      assert Keys(es[1..]) == Keys(es)[1..];
      RangeMeaning(es[1..], start, end);
      SortedBelow(es, 0);
      assert es == [es[0]] + es[1..];
      var rest := Range(es[1..], start, end);
      RangeCons(es[0], es[1..], rest);
      assert [] + rest == rest;
    }
  }

  /** The same in terms of the map. */
  lemma {:induction false} RangeMap(es: seq<LeafEntry>, start: Option<Key>, end: Option<Key>, k: Key)
    requires Sorted(Keys(es))
    ensures k in ToMap(Range(es, start, end)) <==> k in ToMap(es) && InRange(k, start, end)
    ensures k in ToMap(Range(es, start, end)) ==> ToMap(Range(es, start, end))[k] == ToMap(es)[k]
  {
    hide Lt, InRange;
    if es != [] {
      SortedBelow(es, 0);
      NotBelow(es[1..], es[0].key);
      assert Keys(es[1..]) == Keys(es)[1..];
      hide Keys, Sorted, ToMap;
      RangeMap(es[1..], start, end, k);
      var rest := Range(es[1..], start, end);
      assert Range(es, start, end) == if InRange(es[0].key, start, end) then [es[0]] + rest else rest;
      ToMapCons(es[0], rest);
      ToMapCons(es[0], es[1..]);
      assert [es[0]] + es[1..] == es;
    }
  }

  lemma ToMapCons(e: LeafEntry, es: seq<LeafEntry>)
    ensures ToMap([e] + es) == ToMap(es)[e.key := e.tid]
  {
    assert ([e] + es)[1..] == es;
  }

  lemma RangeCons(e: LeafEntry, es: seq<LeafEntry>, rest: seq<LeafEntry>)
    requires Above(es, e.key) && Sorted(Keys(rest)) && forall x :: x in rest ==> x in es
    ensures Sorted(Keys([e] + rest)) && ([e] + rest)[1..] == rest
  {
    var r := [e] + rest;
    assert r[1..] == rest;
    forall i, j | 0 <= i < j < |r| ensures Lt(r[i].key, r[j].key) {
      if i == 0 { assert r[j] in rest; } else { assert Lt(Keys(rest)[i - 1], Keys(rest)[j - 1]); }
    }
  }

  /** Leaves before the one that holds the lower bound contribute nothing. */
  lemma RangeStart(heap: Heap, row: Row, j: nat, start: Option<Key>, end: Option<Key>)
    requires LeavesOk(heap, row) && RowSorted(row) && j < |row|
    requires if start.Some? then Locates(row, j, start.value) else j == 0
    ensures Range(Entries(heap, row[..j]), start, end) == []
  {
    if start.Some? {
      PrefixBelow(heap, row, j, start.value);
    }
    RangeEmpty(Entries(heap, row[..j]), start, end);
  }

  /** One more leaf of the chain adds the part of it that is in range. */
  lemma RangeLeaf(heap: Heap, row: Row, i: nat, start: Option<Key>, end: Option<Key>)
    requires i < |row|
    ensures Range(Entries(heap, row[..i + 1]), start, end)
         == Range(Entries(heap, row[..i]), start, end) + Range(EntriesAt(heap, row[i]), start, end)
  {
    assert row[..i + 1] == row[..i] + [row[i]];
    EntriesAppend(heap, row[..i], [row[i]]);
    EntriesOne(heap, row[i]);
    RangeAppend(Entries(heap, row[..i]), EntriesAt(heap, row[i]), start, end);
  }

  /** Once a leaf has an entry past the upper bound, no later leaf contributes. */
  lemma RangeDone(heap: Heap, row: Row, i: nat, at: nat, start: Option<Key>, end: Option<Key>)
    requires LeavesOk(heap, row) && RowSorted(row) && i < |row| && at < |EntriesAt(heap, row[i])|
    requires end.Some? && Lt(end.value, EntriesAt(heap, row[i])[at].key)
    ensures Range(Entries(heap, row), start, end) == Range(Entries(heap, row[..i + 1]), start, end)
  {
    var k := EntriesAt(heap, row[i])[at].key;
    assert LeafOk(heap, row, i);
    SuffixAbove(heap, row, i + 1, k);
    var rest := Entries(heap, row[i + 1..]);
    LtOrder();
    RangeEmpty(rest, start, end);
    Cut(row, i + 1);
    EntriesAppend(heap, row[..i + 1], row[i + 1..]);
    RangeAppend(Entries(heap, row[..i + 1]), rest, start, end);
  }

  /** In a sorted leaf nothing after an entry past the upper bound is in range. */
  lemma RangeCutOff(es: seq<LeafEntry>, at: nat, start: Option<Key>, end: Option<Key>)
    requires Sorted(Keys(es)) && at < |es| && end.Some? && Lt(end.value, es[at].key)
    ensures Range(es, start, end) == Range(es[..at], start, end)
  {
    SortedBelow(es, at);
    LtOrder();
    Around(es, at);
    RangeEmpty([es[at]] + es[at + 1..], start, end);
    assert es[..at] + [es[at]] + es[at + 1..] == es[..at] + ([es[at]] + es[at + 1..]);
    RangeAppend(es[..at], [es[at]] + es[at + 1..], start, end);
  }

  lemma RangeSnoc(es: seq<LeafEntry>, i: nat, start: Option<Key>, end: Option<Key>)
    requires i < |es|
    ensures Range(es[..i + 1], start, end)
         == Range(es[..i], start, end) + (if InRange(es[i].key, start, end) then [es[i]] else [])
  {
    assert es[..i + 1] == es[..i] + [es[i]];
    RangeAppend(es[..i], [es[i]], start, end);
    assert [es[i]][1..] == [];
  }

  // ---------------------------------------------------------------- page counts

  function Total(rows: seq<Row>): nat {
    if rows == [] then 0 else |rows[0]| + Total(rows[1..])
  }

  ghost function PagesOf(rows: seq<Row>): set<nat> {
    if rows == [] then {} else (set s | s in rows[0] :: s.page) + PagesOf(rows[1..])
  }

  lemma {:induction false} RowPages(row: Row)
    ensures |set s | s in row :: s.page| <= |row|
  {
    if row != [] {
      RowPages(row[1..]);
      assert row == [row[0]] + row[1..];
      assert (set s | s in row :: s.page) == {row[0].page} + (set s | s in row[1..] :: s.page);
    } else {
      assert (set s | s in row :: s.page) == {};
    }
  }

  lemma {:induction false} PagesAtMostTotal(rows: seq<Row>)
    ensures |PagesOf(rows)| <= Total(rows)
  {
    if rows != [] {
      PagesAtMostTotal(rows[1..]);
      RowPages(rows[0]);
      UnionSize((set s | s in rows[0] :: s.page), PagesOf(rows[1..]));
    }
  }

  lemma UnionSize(a: set<nat>, b: set<nat>)
    ensures |a + b| <= |a| + |b|
  {
    assert a + b == a + (b - a);
    assert |b - a| <= |b| by { assert b - a <= b; SubsetSize(b - a, b); }
  }

  lemma {:induction false} SubsetSize(a: set<nat>, b: set<nat>)
    requires a <= b
    ensures |a| <= |b|
    decreases a
  {
    if a != {} {
      var x :| x in a;
      SubsetSize(a - {x}, b - {x});
    }
  }

  lemma {:induction false} PlacedPages(rows: seq<Row>, p: nat)
    requires Placed(rows, p)
    ensures p in PagesOf(rows)
  {
    var m, i :| 0 <= m < |rows| && 0 <= i < |rows[m]| && rows[m][i].page == p;
    if m == 0 {
      assert rows[0][i] in rows[0];
    } else {
      assert rows[1..][m - 1][i].page == p;
      PlacedPages(rows[1..], p);
    }
  }

  /** The pages 1 to n - 1. */
  ghost function PagesBelow(n: nat): (ps: set<nat>)
    ensures forall p :: p in ps <==> 1 <= p < n
    ensures |ps| == if n == 0 then 0 else n - 1
  {
    if n <= 1 then {} else PagesBelow(n - 1) + {n - 1}
  }

  lemma {:induction false} ExpandDoubles(heap: Heap, row: Row)
    requires forall i :: 0 <= i < |row| ==> |ChildrenAt(heap, row[i])| >= 2
    ensures |Expand(heap, row)| >= 2 * |row|
  {
    if row != [] { ExpandDoubles(heap, row[1..]); }
  }

  lemma RowDoubles(heap: Heap, rows: seq<Row>, limit: nat, m: nat)
    requires Kinds(heap, rows) && Writable(heap, limit) && Linked(heap, rows, |rows|, 0) && m + 1 < |rows|
    ensures |rows[m]| >= 2 * |rows[m + 1]|
  {
    var up := m + 1;
    forall i | 0 <= i < |rows[up]| ensures |ChildrenAt(heap, rows[up][i])| >= 2 {
      assert KindAt(heap, rows, up, i) && PageOk(heap, rows[up][i].page, limit);
    }
    ExpandDoubles(heap, rows[up]);
    assert LinkedAt(heap, rows, m, |rows|, 0);
  }

  /** Each row is at most half of the row below, so a tree has fewer than twice as many pages as leaves. */
  lemma {:induction false} TotalFrom(heap: Heap, rows: seq<Row>, limit: nat, m: nat)
    requires Kinds(heap, rows) && Writable(heap, limit)
    requires Linked(heap, rows, |rows|, 0) && AllSorted(rows) && m < |rows|
    requires |rows[|rows| - 1]| == 1
    ensures |rows| - m <= Total(rows[m..]) <= 2 * |rows[m]| - 1
    decreases |rows| - m
  {
    assert SortedAt(rows, m);
    assert rows[m..][1..] == rows[m + 1..];
    if m + 1 < |rows| {
      RowDoubles(heap, rows, limit, m);
      TotalFrom(heap, rows, limit, m + 1);
    }
  }

  /** A tree with `n` leaves has at most 2n - 1 pages and levels. */
  lemma PageBound(heap: Heap, rows: seq<Row>, meta: Meta, limit: nat)
    requires WellFormed(heap, rows, meta, limit)
    ensures meta.nextPage <= 2 * |rows[0]| && meta.height <= 2 * |rows[0]| - 1
  {
    TotalFrom(heap, rows, limit, 0);
    assert rows[0..] == rows;
    var used := PagesBelow(meta.nextPage);
    forall p | p in used ensures p in PagesOf(rows) {
      assert UsedAt(heap, rows, meta.nextPage, p);
      PlacedPages(rows, p);
    }
    SubsetSize(used, PagesOf(rows));
    PagesAtMostTotal(rows);
  }
}
