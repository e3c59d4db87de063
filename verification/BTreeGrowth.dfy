/** How insertion with its cascade of splits keeps the shape of the tree. */
module BTreeGrowth {
  import opened Bytes
  import opened BTreeNodes
  import opened BTreeCodec
  import opened BTreeRows

  // ---------------------------------------------------------------- sequences

  lemma InsertAtMiddle<T>(e: seq<T>, e': seq<T>, a: seq<T>, c: seq<T>, b: seq<T>, i: nat, x: T)
    requires i <= |c| && e == a + c + b && e' == a + InsertAt(c, i, x) + b
    ensures |a| + i <= |e| && e' == InsertAt(e, |a| + i, x)
  {
  }

  lemma RemoveInserted<T>(s: seq<T>, p: nat, x: T)
    requires p <= |s|
    ensures RemoveAt(InsertAt(s, p, x), p) == s
  {
  }

  lemma InsertRemoved<T>(s: seq<T>, p: nat)
    requires p < |s|
    ensures InsertAt(RemoveAt(s, p), p, s[p]) == s
  {
  }

  lemma {:induction false} LowerBoundIs(ks: seq<Key>, k: Key, p: nat)
    requires p <= |ks| && (forall i :: 0 <= i < p ==> Lt(ks[i], k)) && (p < |ks| ==> !Lt(ks[p], k))
    ensures LowerBound(ks, k) == p
  {
    var q := LowerBound(ks, k);
  }

  // ---------------------------------------------------------------- one parent

  /** A key's slot in the row below is the child its parent slot points it to. */
  lemma ChildIndex(heap: Heap, row: Row, p: nat, j: nat, key: Key)
    requires Parents(heap, row) && RowSorted(Expand(heap, row))
    requires Locates(row, p, key) && Locates(Expand(heap, row), j, key)
    ensures j == Offset(heap, row, p) + ChildPosition(heap[row[p].page].seps, key)
  {
    Descend(heap, row, p, key);
    LocatesUnique(Expand(heap, row), j, Offset(heap, row, p) + ChildPosition(heap[row[p].page].seps, key), key);
  }

  /** Separator `i` is the least key of child `i`, so it compares with a new slot as the slots do. */
  lemma SeparatorBelow(heap: Heap, row: Row, p: nat, i: nat, at: nat, x: Slot)
    requires Parents(heap, row) && p < |row| && 0 < i < |heap[row[p].page].seps|
    requires at <= |Expand(heap, row)| && RowSorted(InsertAt(Expand(heap, row), at, x))
    ensures Offset(heap, row, p) + i < at ==> Lt(heap[row[p].page].seps[i].key, x.lo)
    ensures Offset(heap, row, p) + i >= at ==> Lt(x.lo, heap[row[p].page].seps[i].key)
  {
    var e := Expand(heap, row);
    var here := Offset(heap, row, p) + i;
    ChildSlot(heap, row, p, i);
    InsertOrder(e, at, x, here);
  }

  lemma InsertOrder(e: Row, at: nat, x: Slot, here: nat)
    requires here < |e| && at <= |e| && RowSorted(InsertAt(e, at, x))
    ensures here < at ==> Lt(e[here].lo, x.lo)
    ensures here >= at ==> Lt(x.lo, e[here].lo)
  {
    var r := InsertAt(e, at, x);
    assert r[at] == x;
    if here < at { assert r[here] == e[here]; } else { assert r[here + 1] == e[here]; }
  }

  /** A slot that sorts right after child `c` has its key sorted right after separator `c`. */
  lemma PromotedPosition(heap: Heap, row: Row, p: nat, c: nat, x: Slot)
    requires Parents(heap, row) && p < |row| && c < |heap[row[p].page].seps|
    requires Offset(heap, row, p) + c + 1 <= |Expand(heap, row)|
    requires RowSorted(InsertAt(Expand(heap, row), Offset(heap, row, p) + c + 1, x))
    ensures InternalPosition(heap[row[p].page].seps, x.lo) == c + 1
  {
    hide Expand, Offset, RowSorted, InsertAt, Lt;
    var es, at := heap[row[p].page].seps, Offset(heap, row, p) + c + 1;
    InsertOrder(Expand(heap, row), at, x, 0);
    var rest := SepKeys(es[1..]);
    forall i | 0 <= i < c ensures Lt(rest[i], x.lo) {
      SeparatorBelow(heap, row, p, i + 1, at, x);
    }
    if c < |rest| {
      SeparatorBelow(heap, row, p, c + 1, at, x);
      LtOrder();
    }
    LowerBoundIs(rest, x.lo, c);
  }

  lemma ChildrenInsert(es: seq<InternalEntry>, lo: Key, i: nat, k: Key, q: nat)
    requires 0 < i <= |es|
    ensures Children(InsertAt(es, i, InternalEntry(k, q)), lo) == InsertAt(Children(es, lo), i, Slot(q, k))
  {
  }

  /** The two halves of a split list together the children of the node that was split. */
  lemma ChildrenSplit(n: Node, lo: Key)
    requires n.Internal? && |n.seps| >= 2
    ensures Children(InternalLeftHalf(n).seps, lo) + Children(InternalRightHalf(n).seps, n.seps[|n.seps| / 2].key)
         == Children(n.seps, lo)
  {
  }

  /** Changing one slot of a row changes only that slot's children. */
  lemma ExpandReplace(heap: Heap, heap': Heap, row: Row, p: nat)
    requires p < |row|
    requires forall i :: 0 <= i < |row| && i != p ==> ChildrenAt(heap, row[i]) == ChildrenAt(heap', row[i])
    ensures Expand(heap', row) == Expand(heap, row[..p]) + ChildrenAt(heap', row[p]) + Expand(heap, row[p + 1..])
  {
    ExpandAround(heap', row, p);
    ExpandFrame(heap, heap', row[..p]);
    ExpandFrame(heap, heap', row[p + 1..]);
  }

  lemma AbsorbedChildren(heap: Heap, heap': Heap, s: Slot, c: nat, x: Slot)
    requires s.page in heap && s.page in heap' && heap[s.page].Internal? && heap'[s.page].Internal?
    requires c < |heap[s.page].seps|
    requires heap'[s.page].seps == InsertAt(heap[s.page].seps, c + 1, InternalEntry(x.lo, x.page))
    ensures c + 1 <= |ChildrenAt(heap, s)| && ChildrenAt(heap', s) == InsertAt(ChildrenAt(heap, s), c + 1, x)
  {
    ChildrenInsert(heap[s.page].seps, s.lo, c + 1, x.lo, x.page);
  }

  /** Handing a slot to its parent inserts it into the expansion of the parent's row. */
  lemma ExpandAbsorb(heap: Heap, heap': Heap, row: Row, p: nat, c: nat, x: Slot)
    requires p < |row| && Parents(heap, row) && row[p].page in heap' && heap'[row[p].page].Internal?
    requires forall i :: 0 <= i < |row| && i != p ==> ChildrenAt(heap, row[i]) == ChildrenAt(heap', row[i])
    requires c < |heap[row[p].page].seps|
    requires heap'[row[p].page].seps == InsertAt(heap[row[p].page].seps, c + 1, InternalEntry(x.lo, x.page))
    ensures Offset(heap, row, p) + c + 1 <= |Expand(heap, row)|
    ensures Expand(heap', row) == InsertAt(Expand(heap, row), Offset(heap, row, p) + c + 1, x)
  {
    hide Expand, ChildrenAt, InsertAt;
    ExpandAround(heap, row, p);
    ExpandReplace(heap, heap', row, p);
    AbsorbedChildren(heap, heap', row[p], c, x);
    InsertAtMiddle(Expand(heap, row), Expand(heap', row),
                   Expand(heap, row[..p]), ChildrenAt(heap, row[p]), Expand(heap, row[p + 1..]), c + 1, x);
  }

  /** Splitting a slot in two leaves the expansion of its row unchanged. */
  lemma ExpandSplit(heap: Heap, heap': Heap, row: Row, p: nat, n: Node, q: nat)
    requires p < |row| && n.Internal? && |n.seps| >= 2
    requires heap == heap[row[p].page := n]
    requires q in heap' && row[p].page in heap'
    requires heap'[row[p].page] == InternalLeftHalf(n) && heap'[q] == InternalRightHalf(n)
    requires forall i :: 0 <= i < |row| && i != p ==> ChildrenAt(heap, row[i]) == ChildrenAt(heap', row[i])
    ensures Expand(heap', InsertAt(row, p + 1, Slot(q, n.seps[|n.seps| / 2].key))) == Expand(heap, row)
  {
    var x := Slot(q, n.seps[|n.seps| / 2].key);
    var row' := InsertAt(row, p + 1, x);
    var a, b := Expand(heap, row[..p]), Expand(heap, row[p + 1..]);
    var l, r := ChildrenAt(heap', row[p]), ChildrenAt(heap', x);
    assert Expand(heap, row) == a + (l + r) + b by {
      ExpandAround(heap, row, p);
      ChildrenSplit(n, row[p].lo);
    }
    assert Expand(heap', row'[..p]) == a by {
      assert row'[..p] == row[..p];
      ExpandFrame(heap, heap', row[..p]);
    }
    assert Expand(heap', row'[p + 1..]) == r + b by {
      assert row'[p + 1..] == [x] + row[p + 1..];
      ExpandAppend(heap', [x], row[p + 1..]);
      ExpandOne(heap', x);
      ExpandFrame(heap, heap', row[p + 1..]);
    }
    assert Expand(heap', row') == a + l + (r + b) by { ExpandAround(heap', row', p); }
    Reassociate(a, l, r, b);
  }

  lemma Reassociate<T>(a: seq<T>, l: seq<T>, r: seq<T>, b: seq<T>)
    ensures a + l + (r + b) == a + (l + r) + b
  {
  }

  // ---------------------------------------------------------------- carrying a split up

  /** A slot is pending at `level`, to the right of the slot that held `key`. */
  ghost predicate Carrying(heap: Heap, rows: seq<Row>, root: nat, next: nat, limit: nat, level: nat, hole: nat,
                           key: Key) {
    && Shape(heap, rows, root, next, limit, level, hole)
    && level < |rows| && 1 <= hole < |rows[level]|
    && Locates(RemoveAt(rows[level], hole), hole - 1, key)
  }

  lemma SortedRemove(row: Row, hole: nat)
    requires RowSorted(row) && 1 <= hole < |row|
    ensures RowSorted(RemoveAt(row, hole))
  {
    var r := RemoveAt(row, hole);
    assert forall i :: 0 <= i < |r| ==> r[i] == row[if i < hole then i else i + 1];
  }

  lemma SortedInsert(row: Row, p: nat, x: Slot)
    requires RowSorted(row) && 1 <= p <= |row|
    requires Lt(row[p - 1].lo, x.lo) && (p < |row| ==> Lt(x.lo, row[p].lo))
    ensures RowSorted(InsertAt(row, p, x))
  {
    var r := InsertAt(row, p, x);
    LtOrder();
    assert forall i :: 0 <= i < |r| ==> r[i] == if i < p then row[i] else if i == p then x else row[i - 1];
  }

  lemma RowParents(heap: Heap, rows: seq<Row>, limit: nat, m: nat)
    requires Kinds(heap, rows) && Writable(heap, limit) && 0 < m < |rows|
    ensures Parents(heap, rows[m])
  {
    forall i | 0 <= i < |rows[m]|
      ensures rows[m][i].page in heap && heap[rows[m][i].page].Internal? && WellKeyed(heap[rows[m][i].page])
    {
      assert KindAt(heap, rows, m, i);
      assert PageOk(heap, rows[m][i].page, limit);
    }
  }

  /** Everything but page `p` is as before. */
  ghost predicate Agree(heap: Heap, heap': Heap, p: nat) {
    forall q :: q in heap && q != p ==> q in heap' && heap'[q] == heap[q]
  }

  lemma RowFrame(heap: Heap, heap': Heap, row: Row, p: nat)
    requires Agree(heap, heap', p) && forall i :: 0 <= i < |row| ==> row[i].page in heap && row[i].page != p
    ensures Expand(heap, row) == Expand(heap', row)
  {
    ExpandFrame(heap, heap', row);
  }

  /** Slot `hole` of `lower` is unknown to its parents in `row`; its left neighbour held `key`. */
  ghost predicate Handover(heap: Heap, row: Row, lower: Row, hole: nat, key: Key, p: nat) {
    && Parents(heap, row) && RowSorted(lower) && 1 <= hole < |lower|
    && Expand(heap, row) == RemoveAt(lower, hole)
    && Locates(RemoveAt(lower, hole), hole - 1, key) && Locates(row, p, key)
    && forall i :: 0 <= i < |row| && i != p ==> row[i].page != row[p].page
  }

  /** Where the pending slot goes in its parent. */
  lemma ParentPosition(heap: Heap, row: Row, lower: Row, hole: nat, key: Key, p: nat)
    requires Handover(heap, row, lower, hole, key, p)
    ensures var es := heap[row[p].page].seps;
            && hole == Offset(heap, row, p) + ChildPosition(es, key) + 1
            && InternalPosition(es, lower[hole].lo) == ChildPosition(es, key) + 1
            && lower[hole].lo != []
  {
    SortedRemove(lower, hole);
    ChildIndex(heap, row, p, hole - 1, key);
    InsertRemoved(lower, hole);
    PromotedPosition(heap, row, p, ChildPosition(heap[row[p].page].seps, key), lower[hole]);
    LtOrder();
    assert Lt(lower[0].lo, lower[hole].lo);
  }

  /** The heap after the parent has taken the pending slot, before any split of the parent. */
  function Absorbed(heap: Heap, parent: nat, x: Slot): Heap
    requires parent in heap && heap[parent].Internal?
  {
    heap[parent := Enlarged(heap[parent], x)]
  }

  lemma AbsorbExpands(heap: Heap, row: Row, lower: Row, hole: nat, key: Key, p: nat)
    requires Handover(heap, row, lower, hole, key, p)
    ensures Expand(Absorbed(heap, row[p].page, lower[hole]), row) == lower
  {
    ParentPosition(heap, row, lower, hole, key, p);
    var c := ChildPosition(heap[row[p].page].seps, key);
    ExpandAbsorb(heap, Absorbed(heap, row[p].page, lower[hole]), row, p, c, lower[hole]);
    InsertRemoved(lower, hole);
  }

  /** The two halves of the parent, after it has taken the pending slot, at pages `parent` and `q`. */
  function Halved(heap: Heap, parent: nat, x: Slot, q: nat): Heap
    requires parent in heap && heap[parent].Internal?
    requires parent in Absorbed(heap, parent, x) && Absorbed(heap, parent, x)[parent].Internal?
  {
    var n := Absorbed(heap, parent, x)[parent];
    heap[parent := InternalLeftHalf(n)][q := InternalRightHalf(n)]
  }

  /** The slot that the right half takes in its own row. */
  function PromotedSlot(n: Node, q: nat): Slot
    requires n.Internal? && n.seps != []
  {
    Slot(q, n.seps[|n.seps| / 2].key)
  }

  lemma HalvedExpands(heap: Heap, row: Row, lower: Row, hole: nat, key: Key, p: nat, q: nat)
    requires Handover(heap, row, lower, hole, key, p) && q !in heap
    requires |Absorbed(heap, row[p].page, lower[hole])[row[p].page].seps| >= 2
    ensures var n := Absorbed(heap, row[p].page, lower[hole])[row[p].page];
            Expand(Halved(heap, row[p].page, lower[hole], q), InsertAt(row, p + 1, PromotedSlot(n, q))) == lower
  {
    hide Expand, RowSorted, InternalLeftHalf, InternalRightHalf;
    AbsorbExpands(heap, row, lower, hole, key, p);
    var heap1 := Absorbed(heap, row[p].page, lower[hole]);
    ExpandSplit(heap1, Halved(heap, row[p].page, lower[hole], q), row, p, heap1[row[p].page], q);
  }

  /** The promoted separator lies strictly between the split slot and its right neighbour. */
  lemma PromotedSorted(heap: Heap, row: Row, p: nat, q: nat)
    requires Parents(heap, row) && RowSorted(row) && RowSorted(Expand(heap, row)) && p < |row|
    requires |heap[row[p].page].seps| >= 2
    ensures RowSorted(InsertAt(row, p + 1, PromotedSlot(heap[row[p].page], q)))
  {
    var n := heap[row[p].page];
    PromotedBounds(heap, row, p);
    SortedInsert(row, p + 1, PromotedSlot(n, q));
  }

  lemma PromotedBounds(heap: Heap, row: Row, p: nat)
    requires Parents(heap, row) && RowSorted(Expand(heap, row)) && p < |row|
    requires |heap[row[p].page].seps| >= 2
    ensures var n := heap[row[p].page];
            var k := n.seps[|n.seps| / 2].key;
            Lt(row[p].lo, k) && (p + 1 < |row| ==> Lt(k, row[p + 1].lo))
  {
    var mid := |heap[row[p].page].seps| / 2;
    ChildSlot(heap, row, p, 0);
    ChildSlot(heap, row, p, mid);
    NextChildSlot(heap, row, p);
  }

  // ---------------------------------------------------------------- the parts of the invariant

  /** A row without page `p` is linked as before; a slot may meanwhile have been added below it. */
  lemma LinkedFrame(heap: Heap, heap': Heap, upper: Row, lower: Row, p: nat)
    requires Agree(heap, heap', p) && forall i :: 0 <= i < |upper| ==> upper[i].page in heap && upper[i].page != p
    requires Expand(heap, upper) == lower
    ensures Expand(heap', upper) == lower
  {
    RowFrame(heap, heap', upper, p);
  }

  /** Page `p` of row `m` is in no other row. */
  lemma ElsewhereInRow(heap: Heap, rows: seq<Row>, m: nat, p: nat, l: nat)
    requires Kinds(heap, rows) && Distinct(rows) && m < |rows| && p < |rows[m]| && l < |rows| && l != m
    ensures forall i :: 0 <= i < |rows[l]| ==> rows[l][i].page in heap && rows[l][i].page != rows[m][p].page
  {
    forall i | 0 <= i < |rows[l]| ensures rows[l][i].page in heap && rows[l][i].page != rows[m][p].page {
      assert KindAt(heap, rows, l, i);
      assert DistinctAt(rows, m, p, l, i);
    }
  }

  lemma AbsorbLinked(heap: Heap, heap': Heap, rows: seq<Row>, level: nat, hole: nat, p: nat)
    requires Kinds(heap, rows) && Distinct(rows) && Linked(heap, rows, level, hole)
    requires level + 1 < |rows| && p < |rows[level + 1]| && Agree(heap, heap', rows[level + 1][p].page)
    requires Expand(heap', rows[level + 1]) == rows[level]
    ensures Linked(heap', rows, |rows|, 0)
  {
    forall m | 0 <= m < |rows| - 1 ensures LinkedAt(heap', rows, m, |rows|, 0) {
      if m != level {
        assert LinkedAt(heap, rows, m, level, hole);
        ElsewhereInRow(heap, rows, level + 1, p, m + 1);
        LinkedFrame(heap, heap', rows[m + 1], rows[m], rows[level + 1][p].page);
      }
    }
  }

  lemma SplitLinked(heap: Heap, heap': Heap, rows: seq<Row>, level: nat, hole: nat, p: nat, x: Slot)
    requires Kinds(heap, rows) && Distinct(rows) && Linked(heap, rows, level, hole)
    requires level + 1 < |rows| && p < |rows[level + 1]| && Agree(heap, heap', rows[level + 1][p].page)
    requires Expand(heap', InsertAt(rows[level + 1], p + 1, x)) == rows[level]
    ensures Linked(heap', rows[level + 1 := InsertAt(rows[level + 1], p + 1, x)], level + 1, p + 1)
  {
    var rows': seq<Row> := rows[level + 1 := InsertAt(rows[level + 1], p + 1, x)];
    RemoveInserted(rows[level + 1], p + 1, x);
    var up, at := level + 1, p + 1;
    forall m | 0 <= m < |rows| - 1 ensures LinkedAt(heap', rows', m, up, at) {
      if m != level {
        assert LinkedAt(heap, rows, m, level, hole);
        ElsewhereInRow(heap, rows, level + 1, p, m + 1);
        LinkedFrame(heap, heap', rows[m + 1], rows[m], rows[level + 1][p].page);
      }
    }
  }

  /** Where slot `i` of row `l` was before slot `p` of row `m` was added. */
  function Before(l: nat, i: nat, m: nat, p: nat): nat
  {
    if l == m && i > p then i - 1 else i
  }

  lemma BeforeSlot(rows: seq<Row>, m: nat, p: nat, x: Slot, l: nat, i: nat)
    requires m < |rows| && p <= |rows[m]| && l < |rows|
    requires i < |rows[m := InsertAt(rows[m], p, x)][l]| && !(l == m && i == p)
    ensures Before(l, i, m, p) < |rows[l]| && rows[m := InsertAt(rows[m], p, x)][l][i] == rows[l][Before(l, i, m, p)]
  {
  }

  lemma SplitDistinct(heap: Heap, rows: seq<Row>, m: nat, p: nat, x: Slot)
    requires Distinct(rows) && Kinds(heap, rows) && x.page !in heap && m < |rows| && p <= |rows[m]|
    ensures Distinct(rows[m := InsertAt(rows[m], p, x)])
  {
    var rows': seq<Row> := rows[m := InsertAt(rows[m], p, x)];
    forall l: nat, i: nat, l': nat, i': nat ensures DistinctAt(rows', l, i, l', i') {
      if l < |rows| && i < |rows'[l]| && l' < |rows| && i' < |rows'[l']| {
        if !(l == m && i == p) { BeforeSlot(rows, m, p, x, l, i); assert KindAt(heap, rows, l, Before(l, i, m, p)); }
        if !(l' == m && i' == p) {
          BeforeSlot(rows, m, p, x, l', i');
          assert KindAt(heap, rows, l', Before(l', i', m, p));
        }
        assert DistinctAt(rows, l, Before(l, i, m, p), l', Before(l', i', m, p));
      }
    }
  }

  lemma SplitKinds(heap: Heap, heap': Heap, rows: seq<Row>, m: nat, p: nat, x: Slot)
    requires Kinds(heap, rows) && m < |rows| && p <= |rows[m]|
    requires forall q :: q in heap ==> q in heap' && heap'[q].Leaf? == heap[q].Leaf?
    requires x.page in heap' && (heap'[x.page].Leaf? <==> m == 0)
    ensures Kinds(heap', rows[m := InsertAt(rows[m], p, x)])
  {
    var rows': seq<Row> := rows[m := InsertAt(rows[m], p, x)];
    forall l: nat, i: nat ensures KindAt(heap', rows', l, i) {
      if l < |rows| && i < |rows'[l]| && !(l == m && i == p) {
        BeforeSlot(rows, m, p, x, l, i);
        assert KindAt(heap, rows, l, Before(l, i, m, p));
      }
    }
  }

  lemma SplitSorted(rows: seq<Row>, m: nat, row: Row)
    requires AllSorted(rows) && m < |rows| && RowSorted(row)
    ensures AllSorted(rows[m := row])
  {
    var rows': seq<Row> := rows[m := row];
    forall l: nat ensures SortedAt(rows', l) {
      assert SortedAt(rows, l);
    }
  }

  lemma SplitPlaced(rows: seq<Row>, m: nat, p: nat, x: Slot, q: nat)
    requires m < |rows| && p <= |rows[m]| && (q == x.page || Placed(rows, q))
    ensures Placed(rows[m := InsertAt(rows[m], p, x)], q)
  {
    var rows': seq<Row> := rows[m := InsertAt(rows[m], p, x)];
    if q == x.page {
      assert rows'[m][p].page == q;
    } else {
      var l, i :| 0 <= l < |rows| && 0 <= i < |rows[l]| && rows[l][i].page == q;
      assert rows'[l][if l == m && i >= p then i + 1 else i] == rows[l][i];
    }
  }

  lemma SplitPages(heap: Heap, heap': Heap, rows: seq<Row>, next: nat, m: nat, p: nat, x: Slot)
    requires PagesUsed(heap, rows, next) && m < |rows| && p <= |rows[m]| && x.page == next >= 1
    requires heap'.Keys == heap.Keys + {next}
    ensures PagesUsed(heap', rows[m := InsertAt(rows[m], p, x)], next + 1)
  {
    var rows', next' := rows[m := InsertAt(rows[m], p, x)], next + 1;
    forall q: nat ensures UsedAt(heap', rows', next', q) {
      assert UsedAt(heap, rows, next, q);
      if q in heap' { SplitPlaced(rows, m, p, x, q); }
    }
  }

  /** Internal nodes do not affect what is said about the leaves. */
  lemma LeavesFrame(heap: Heap, heap': Heap, row: Row)
    requires Chained(heap, row) && LeavesOk(heap, row)
    requires forall i :: 0 <= i < |row| ==>
      row[i].page in heap && row[i].page in heap' && heap'[row[i].page] == heap[row[i].page]
    ensures Chained(heap', row) && LeavesOk(heap', row) && Entries(heap', row) == Entries(heap, row)
  {
    EntriesFrame(heap, heap', row);
    forall j | 0 <= j < |row| ensures LeafOk(heap', row, j) {
      assert LeafOk(heap, row, j);
    }
    forall j | 0 <= j < |row| ensures ChainedAt(heap', row, j) {
      assert ChainedAt(heap, row, j);
    }
  }

  // ---------------------------------------------------------------- one step up

  lemma CarryingHandover(heap: Heap, rows: seq<Row>, root: nat, next: nat, limit: nat, level: nat, hole: nat, key: Key,
                         p: nat)
    requires Carrying(heap, rows, root, next, limit, level, hole, key)
    requires level + 1 < |rows| && Locates(rows[level + 1], p, key)
    ensures Handover(heap, rows[level + 1], rows[level], hole, key, p)
  {
    RowParents(heap, rows, limit, level + 1);
    assert LinkedAt(heap, rows, level, level, hole);
    assert SortedAt(rows, level);
    var up := level + 1;
    forall i | 0 <= i < |rows[up]| && i != p ensures rows[up][i].page != rows[up][p].page {
      assert DistinctAt(rows, up, i, up, p);
    }
  }

  /** The parent with one more separator can be written, or both of its halves can. */
  lemma ParentWritable(n: Node, x: Slot, limit: nat)
    requires n.Internal? && Fits(n, limit) && Encodable(n) && |n.seps| >= 2
    requires x.lo != [] && |x.lo| <= limit <= MAX_KEY && U32(x.page)
    ensures var n' := Enlarged(n, x);
            && EncodedSize(n') <= PAGE_SIZE && |n'.seps| >= 3
            && (!IsFull(n') ==> Fits(n', limit) && Encodable(n'))
            && (IsFull(n') ==>
                  && Fits(InternalLeftHalf(n'), limit) && Encodable(InternalLeftHalf(n'))
                  && |InternalLeftHalf(n').seps| >= 2
                  && Fits(InternalRightHalf(n'), limit) && Encodable(InternalRightHalf(n'))
                  && |InternalRightHalf(n').seps| >= 2)
  {
    InternalInsertFits(n, InternalEntry(x.lo, x.page), limit);
    EnlargedChildren(n, x);
  }

  lemma EnlargedChildren(n: Node, x: Slot)
    requires n.Internal? && |n.seps| >= 2 && U32(x.page) && forall i :: 0 <= i < |n.seps| ==> U32(n.seps[i].child)
    ensures var n' := Enlarged(n, x);
            && (forall i :: 0 <= i < |n'.seps| ==> U32(n'.seps[i].child))
            && (forall i :: 0 <= i < |InternalLeftHalf(n').seps| ==> U32(InternalLeftHalf(n').seps[i].child))
            && (forall i :: 0 <= i < |InternalRightHalf(n').seps| ==> U32(InternalRightHalf(n').seps[i].child))
  {
  }

  /** Pages other than those that changed keep their part of the invariant. */
  lemma WritableUpdate(heap: Heap, heap': Heap, limit: nat, p: nat, q: nat)
    requires Writable(heap, limit) && PageOk(heap', p, limit) && PageOk(heap', q, limit)
    requires forall r :: r in heap' && r != p && r != q ==> r in heap && heap'[r] == heap[r]
    ensures Writable(heap', limit)
  {
    forall r: nat ensures PageOk(heap', r, limit) {
      assert PageOk(heap, r, limit);
    }
  }

  lemma HalvesWritable(heap: Heap, p: nat, n: Node, q: nat, limit: nat)
    requires Writable(heap, limit) && n.Internal? && |n.seps| >= 2
    requires Fits(InternalLeftHalf(n), limit) && Encodable(InternalLeftHalf(n)) && |InternalLeftHalf(n).seps| >= 2
    requires Fits(InternalRightHalf(n), limit) && Encodable(InternalRightHalf(n)) && |InternalRightHalf(n).seps| >= 2
    ensures Writable(heap[p := InternalLeftHalf(n)][q := InternalRightHalf(n)], limit)
  {
    WritableUpdate(heap, heap[p := InternalLeftHalf(n)][q := InternalRightHalf(n)], limit, p, q);
  }

  lemma KindsUpdate(heap: Heap, heap': Heap, rows: seq<Row>)
    requires Kinds(heap, rows) && forall q :: q in heap ==> q in heap' && heap'[q].Leaf? == heap[q].Leaf?
    ensures Kinds(heap', rows)
  {
    forall l: nat, i: nat ensures KindAt(heap', rows, l, i) {
      assert KindAt(heap, rows, l, i);
    }
  }

  lemma PagesUpdate(heap: Heap, heap': Heap, rows: seq<Row>, next: nat)
    requires PagesUsed(heap, rows, next) && heap'.Keys == heap.Keys
    ensures PagesUsed(heap', rows, next)
  {
    forall q: nat ensures UsedAt(heap', rows, next, q) {
      assert UsedAt(heap, rows, next, q);
    }
  }

  /** Leaves are not affected by a change to pages of higher rows or to a new page. */
  lemma InnerFrame(heap: Heap, heap': Heap, rows: seq<Row>, m: nat, p: nat)
    requires Kinds(heap, rows) && Distinct(rows) && 0 < m < |rows| && p < |rows[m]|
    requires Agree(heap, heap', rows[m][p].page)
    requires Chained(heap, rows[0]) && LeavesOk(heap, rows[0])
    ensures Chained(heap', rows[0]) && LeavesOk(heap', rows[0]) && Entries(heap', rows[0]) == Entries(heap, rows[0])
  {
    ElsewhereInRow(heap, rows, m, p, 0);
    LeavesFrame(heap, heap', rows[0]);
  }

  /** The parent of the pending slot, with the slot added. */
  function Enlarged(n: Node, x: Slot): Node
    requires n.Internal?
  {
    Internal(n.right, n.left, InsertInternalEntry(n.seps, InternalEntry(x.lo, x.page)))
  }

  /** What is known of the parent of the pending slot. */
  lemma ParentOfHole(heap: Heap, rows: seq<Row>, root: nat, next: nat, limit: nat, level: nat, hole: nat, key: Key,
                     p: nat)
    requires Carrying(heap, rows, root, next, limit, level, hole, key) && limit <= MAX_KEY
    requires level + 1 < |rows| && Locates(rows[level + 1], p, key)
    requires |rows[level][hole].lo| <= limit && U32(rows[level][hole].page)
    ensures var page := rows[level + 1][p].page;
            && page in heap && heap[page].Internal?
            && Handover(heap, rows[level + 1], rows[level], hole, key, p)
            && Fits(heap[page], limit) && Encodable(heap[page]) && |heap[page].seps| >= 2
            && rows[level][hole].lo != []
  {
    CarryingHandover(heap, rows, root, next, limit, level, hole, key, p);
    ParentPosition(heap, rows[level + 1], rows[level], hole, key, p);
    assert PageOk(heap, rows[level + 1][p].page, limit);
  }

  /** A parent with room takes the pending slot and the tree is whole again. */
  lemma AbsorbStep(heap: Heap, rows: seq<Row>, root: nat, next: nat, limit: nat, level: nat, hole: nat, key: Key,
                   p: nat)
    requires Carrying(heap, rows, root, next, limit, level, hole, key) && limit <= MAX_KEY
    requires level + 1 < |rows| && Locates(rows[level + 1], p, key)
    requires |rows[level][hole].lo| <= limit && U32(rows[level][hole].page)
    requires rows[level + 1][p].page in heap && heap[rows[level + 1][p].page].Internal?
    requires var n' := Enlarged(heap[rows[level + 1][p].page], rows[level][hole]);
             EncodedSize(n') <= PAGE_SIZE && !IsFull(n')
    ensures var heap' := heap[rows[level + 1][p].page := Enlarged(heap[rows[level + 1][p].page], rows[level][hole])];
            Shape(heap', rows, root, next, limit, |rows|, 0) && Entries(heap', rows[0]) == Entries(heap, rows[0])
  {
    var page, x := rows[level + 1][p].page, rows[level][hole];
    var heap' := heap[page := Enlarged(heap[page], x)];
    ParentOfHole(heap, rows, root, next, limit, level, hole, key, p);
    ParentWritable(heap[page], x, limit);
    AbsorbExpands(heap, rows[level + 1], rows[level], hole, key, p);
    assert heap' == Absorbed(heap, page, x);
    AbsorbLinked(heap, heap', rows, level, hole, p);
    WritableUpdate(heap, heap', limit, page, page);
    KindsUpdate(heap, heap', rows);
    PagesUpdate(heap, heap', rows, next);
    InnerFrame(heap, heap', rows, level + 1, p);
  }

  /** A full parent is split; the slot of its right half is now pending one row up. */
  lemma SplitStep(heap: Heap, heap': Heap, rows: seq<Row>, root: nat, next: nat, limit: nat, level: nat, hole: nat,
                  key: Key, p: nat, n: Node)
    requires Carrying(heap, rows, root, next, limit, level, hole, key) && limit <= MAX_KEY
    requires level + 1 < |rows| && Locates(rows[level + 1], p, key)
    requires |rows[level][hole].lo| <= limit && U32(rows[level][hole].page)
    requires rows[level + 1][p].page in heap && heap[rows[level + 1][p].page].Internal?
    requires n == Enlarged(heap[rows[level + 1][p].page], rows[level][hole]) && EncodedSize(n) <= PAGE_SIZE && IsFull(n)
    requires heap' == heap[rows[level + 1][p].page := InternalLeftHalf(n)][next := InternalRightHalf(n)]
    ensures |PromotedSlot(n, next).lo| <= limit
    ensures var rows' := rows[level + 1 := InsertAt(rows[level + 1], p + 1, PromotedSlot(n, next))];
            && Carrying(heap', rows', root, next + 1, limit, level + 1, p + 1, key)
            && Entries(heap', rows'[0]) == Entries(heap, rows[0])
  {
    var page := rows[level + 1][p].page;
    SplitParent(heap, heap', rows, root, next, limit, level, hole, key, p, n);
    SplitPagesOk(heap, heap', rows, next, page, n);
    RaiseHole(heap, heap', rows, root, next, limit, level, hole, key, p, PromotedSlot(n, next));
  }

  lemma SplitPagesOk(heap: Heap, heap': Heap, rows: seq<Row>, next: nat, page: nat, n: Node)
    requires PagesUsed(heap, rows, next) && page in heap && n.Internal? && n.seps != []
    requires heap' == heap[page := InternalLeftHalf(n)][next := InternalRightHalf(n)]
    ensures next >= 1 && page != next && heap'.Keys == heap.Keys + {next} && Agree(heap, heap', page)
    ensures heap'[next].Internal? && heap'[page].Internal?
  {
    assert UsedAt(heap, rows, next, next) && UsedAt(heap, rows, next, page);
  }

  /** The halves of the parent expand to the row below, sort with their neighbours and can be written. */
  lemma SplitParent(heap: Heap, heap': Heap, rows: seq<Row>, root: nat, next: nat, limit: nat, level: nat, hole: nat,
                    key: Key, p: nat, n: Node)
    requires Carrying(heap, rows, root, next, limit, level, hole, key) && limit <= MAX_KEY
    requires level + 1 < |rows| && Locates(rows[level + 1], p, key)
    requires |rows[level][hole].lo| <= limit && U32(rows[level][hole].page)
    requires rows[level + 1][p].page in heap && heap[rows[level + 1][p].page].Internal?
    requires n == Enlarged(heap[rows[level + 1][p].page], rows[level][hole]) && EncodedSize(n) <= PAGE_SIZE && IsFull(n)
    requires heap' == heap[rows[level + 1][p].page := InternalLeftHalf(n)][next := InternalRightHalf(n)]
    ensures Writable(heap', limit) && |PromotedSlot(n, next).lo| <= limit
    ensures var row' := InsertAt(rows[level + 1], p + 1, PromotedSlot(n, next));
            Expand(heap', row') == rows[level] && RowSorted(row')
  {
    var page, x := rows[level + 1][p].page, rows[level][hole];
    ParentOfHole(heap, rows, root, next, limit, level, hole, key, p);
    ParentWritable(heap[page], x, limit);
    assert UsedAt(heap, rows, next, next) && SortedAt(rows, level + 1);
    SplitStepRow(heap, rows[level + 1], rows[level], hole, key, p, next);
    HalvesWritable(heap, page, n, next, limit);
  }

  /** The hole moves from row `level` to the next row. */
  lemma RaiseHole(heap: Heap, heap': Heap, rows: seq<Row>, root: nat, next: nat, limit: nat, level: nat, hole: nat,
                  key: Key, p: nat, x: Slot)
    requires Carrying(heap, rows, root, next, limit, level, hole, key)
    requires level + 1 < |rows| && Locates(rows[level + 1], p, key)
    requires Agree(heap, heap', rows[level + 1][p].page) && Writable(heap', limit)
    requires x.page == next >= 1 && heap'.Keys == heap.Keys + {next} && heap'[next].Internal?
    requires rows[level + 1][p].page in heap && heap[rows[level + 1][p].page].Internal?
    requires heap'[rows[level + 1][p].page].Internal?
    requires Expand(heap', InsertAt(rows[level + 1], p + 1, x)) == rows[level]
    requires RowSorted(InsertAt(rows[level + 1], p + 1, x))
    ensures var rows' := rows[level + 1 := InsertAt(rows[level + 1], p + 1, x)];
            && Carrying(heap', rows', root, next + 1, limit, level + 1, p + 1, key)
            && Entries(heap', rows'[0]) == Entries(heap, rows[0])
  {
    SplitLinked(heap, heap', rows, level, hole, p, x);
    AddSlot(heap, heap', rows, next, level + 1, p + 1, x);
    InnerFrame(heap, heap', rows, level + 1, p);
    RemoveInserted(rows[level + 1], p + 1, x);
  }

  lemma AbsorbParents(heap: Heap, row: Row, lower: Row, hole: nat, key: Key, p: nat)
    requires Handover(heap, row, lower, hole, key, p)
    ensures Parents(Absorbed(heap, row[p].page, lower[hole]), row)
  {
    ParentPosition(heap, row, lower, hole, key, p);
    var n := heap[row[p].page];
    assert WellKeyed(Enlarged(n, lower[hole]));
  }

  lemma SplitStepRow(heap: Heap, row: Row, lower: Row, hole: nat, key: Key, p: nat, q: nat)
    requires Handover(heap, row, lower, hole, key, p) && RowSorted(row) && q !in heap
    requires |Enlarged(heap[row[p].page], lower[hole]).seps| >= 2
    ensures var n' := Enlarged(heap[row[p].page], lower[hole]);
            var heap' := heap[row[p].page := InternalLeftHalf(n')][q := InternalRightHalf(n')];
            && Expand(heap', InsertAt(row, p + 1, PromotedSlot(n', q))) == lower
            && RowSorted(InsertAt(row, p + 1, PromotedSlot(n', q)))
  {
    HalvedExpands(heap, row, lower, hole, key, p, q);
    AbsorbExpands(heap, row, lower, hole, key, p);
    AbsorbParents(heap, row, lower, hole, key, p);
    PromotedSorted(Absorbed(heap, row[p].page, lower[hole]), row, p, q);
  }

  /** A new page, put into a sorted row, keeps the parts of the invariant about pages and rows. */
  lemma AddSlot(heap: Heap, heap': Heap, rows: seq<Row>, next: nat, m: nat, p: nat, x: Slot)
    requires Kinds(heap, rows) && Distinct(rows) && AllSorted(rows) && PagesUsed(heap, rows, next)
    requires m < |rows| && p <= |rows[m]| && RowSorted(InsertAt(rows[m], p, x)) && x.page == next >= 1
    requires heap'.Keys == heap.Keys + {next} && (heap'[next].Leaf? <==> m == 0)
    requires forall q :: q in heap ==> heap'[q].Leaf? == heap[q].Leaf?
    ensures var rows' := rows[m := InsertAt(rows[m], p, x)];
            Kinds(heap', rows') && Distinct(rows') && AllSorted(rows') && PagesUsed(heap', rows', next + 1)
  {
    assert UsedAt(heap, rows, next, next);
    SplitKinds(heap, heap', rows, m, p, x);
    SplitDistinct(heap, rows, m, p, x);
    SplitSorted(rows, m, InsertAt(rows[m], p, x));
    SplitPages(heap, heap', rows, next, m, p, x);
  }
}
