/** Changes to the row of leaves: replacing one leaf, and splitting one in two. */
module BTreeLeaves {
  import opened Bytes
  import opened BTreeNodes
  import opened BTreeCodec
  import opened BTreeRows
  import opened BTreeGrowth
  import opened BTreeEntries

  // ---------------------------------------------------------------- entries

  lemma EntriesReplace(heap: Heap, heap': Heap, row: Row, j: nat)
    requires j < |row|
    requires forall i :: 0 <= i < |row| && i != j ==> EntriesAt(heap, row[i]) == EntriesAt(heap', row[i])
    ensures Entries(heap', row) == Entries(heap, row[..j]) + EntriesAt(heap', row[j]) + Entries(heap, row[j + 1..])
  {
    EntriesAround(heap', row, j);
    EntriesFrame(heap, heap', row[..j]);
    EntriesFrame(heap, heap', row[j + 1..]);
  }

  /** The insertion position among all entries is the one inside the right leaf, shifted. */
  lemma LowerBoundMiddle(a: seq<LeafEntry>, c: seq<LeafEntry>, b: seq<LeafEntry>, k: Key)
    requires Below(a, k) && Above(b, k)
    ensures LowerBound(Keys(a + c + b), k) == |a| + LowerBound(Keys(c), k)
  {
    var p := LowerBound(Keys(c), k);
    var all := Keys(a + c + b);
    forall i | 0 <= i < |a| + p ensures Lt(all[i], k) {
      if i >= |a| { assert all[i] == Keys(c)[i - |a|]; }
    }
    if |a| + p < |all| {
      LtOrder();
      if p < |c| { assert all[|a| + p] == Keys(c)[p]; } else { assert all[|a| + p] == b[0].key; }
    }
    LowerBoundIs(all, k, |a| + p);
  }

  /** Inserting into the leaf whose slot holds the key is inserting into the whole sequence. */
  lemma EntriesInsert(heap: Heap, heap': Heap, row: Row, j: nat, e: LeafEntry)
    requires LeavesOk(heap, row) && RowSorted(row) && Locates(row, j, e.key)
    requires forall i :: 0 <= i < |row| && i != j ==> EntriesAt(heap, row[i]) == EntriesAt(heap', row[i])
    requires EntriesAt(heap', row[j]) == InsertLeafEntry(EntriesAt(heap, row[j]), e)
    ensures Entries(heap', row) == InsertLeafEntry(Entries(heap, row), e)
  {
    hide Entries, EntriesAt, LowerBound, InsertAt, Lt, RowSorted;
    var a, c, b := Entries(heap, row[..j]), EntriesAt(heap, row[j]), Entries(heap, row[j + 1..]);
    PrefixBelow(heap, row, j, e.key);
    SuffixAbove(heap, row, j + 1, e.key);
    EntriesAround(heap, row, j);
    EntriesReplace(heap, heap', row, j);
    LowerBoundMiddle(a, c, b, e.key);
    InsertAtMiddle(Entries(heap, row), Entries(heap', row), a, c, b, LowerBound(Keys(c), e.key), e);
  }

  lemma RemoveMiddle<T>(a: seq<T>, c: seq<T>, b: seq<T>, i: nat)
    requires i < |c|
    ensures a + RemoveAt(c, i) + b == RemoveAt(a + c + b, |a| + i)
    ensures (a + c + b)[|a| + i] == c[i]
  {
  }

  /** Position of entry `i` of leaf `j` among all entries. */
  function EntryIndex(heap: Heap, row: Row, j: nat, i: nat): nat
    requires j < |row|
  {
    |Entries(heap, row[..j])| + i
  }

  lemma EntriesRemove(heap: Heap, heap': Heap, row: Row, j: nat, i: nat)
    requires j < |row| && i < |EntriesAt(heap, row[j])|
    requires forall l :: 0 <= l < |row| && l != j ==> EntriesAt(heap, row[l]) == EntriesAt(heap', row[l])
    requires EntriesAt(heap', row[j]) == RemoveAt(EntriesAt(heap, row[j]), i)
    ensures EntryIndex(heap, row, j, i) < |Entries(heap, row)|
    ensures Entries(heap, row)[EntryIndex(heap, row, j, i)] == EntriesAt(heap, row[j])[i]
    ensures Entries(heap', row) == RemoveAt(Entries(heap, row), EntryIndex(heap, row, j, i))
  {
    EntriesAround(heap, row, j);
    EntriesReplace(heap, heap', row, j);
    RemoveMiddle(Entries(heap, row[..j]), EntriesAt(heap, row[j]), Entries(heap, row[j + 1..]), i);
  }

  // ---------------------------------------------------------------- one leaf replaced

  /** `n` can stand in slot `j` of the row of leaves. */
  ghost predicate Replacement(heap: Heap, row: Row, j: nat, n: Node, limit: nat) {
    && j < |row| && row[j].page in heap
    && n.Leaf? && n.right == heap[row[j].page].right && n.left == heap[row[j].page].left
    && Sorted(Keys(n.entries)) && (forall i :: 0 <= i < |n.entries| ==> InSlot(row, j, n.entries[i].key))
    && Fits(n, limit) && Encodable(n)
  }

  lemma LeafDistinct(heap: Heap, rows: seq<Row>, j: nat)
    requires Kinds(heap, rows) && Distinct(rows) && rows != [] && j < |rows[0]|
    ensures forall i :: 0 <= i < |rows[0]| ==>
              rows[0][i].page in heap && heap[rows[0][i].page].Leaf? && (i != j ==> rows[0][i].page != rows[0][j].page)
  {
    forall i | 0 <= i < |rows[0]|
      ensures rows[0][i].page in heap && heap[rows[0][i].page].Leaf? && (i != j ==> rows[0][i].page != rows[0][j].page)
    {
      assert KindAt(heap, rows, 0, i);
      assert DistinctAt(rows, 0, i, 0, j);
    }
  }

  lemma ReplaceLinked(heap: Heap, heap': Heap, rows: seq<Row>, j: nat)
    requires Kinds(heap, rows) && Distinct(rows) && Linked(heap, rows, |rows|, 0) && rows != [] && j < |rows[0]|
    requires Agree(heap, heap', rows[0][j].page)
    ensures Linked(heap', rows, |rows|, 0)
  {
    forall m | 0 <= m < |rows| - 1 ensures LinkedAt(heap', rows, m, |rows|, 0) {
      assert LinkedAt(heap, rows, m, |rows|, 0);
      ElsewhereInRow(heap, rows, 0, j, m + 1);
      LinkedFrame(heap, heap', rows[m + 1], rows[m], rows[0][j].page);
    }
  }

  lemma ReplaceLeaves(heap: Heap, row: Row, j: nat, n: Node, limit: nat)
    requires Replacement(heap, row, j, n, limit) && Chained(heap, row) && LeavesOk(heap, row)
    requires forall i :: 0 <= i < |row| && i != j ==> row[i].page != row[j].page
    ensures Chained(heap[row[j].page := n], row) && LeavesOk(heap[row[j].page := n], row)
  {
    var heap': Heap := heap[row[j].page := n];
    forall i | 0 <= i < |row| ensures ChainedAt(heap', row, i) {
      assert ChainedAt(heap, row, i);
    }
    forall i | 0 <= i < |row| ensures LeafOk(heap', row, i) {
      assert LeafOk(heap, row, i);
    }
  }

  /** Changing the entries of one leaf within its slot keeps the tree whole. */
  lemma LeafReplace(heap: Heap, rows: seq<Row>, root: nat, next: nat, limit: nat, j: nat, n: Node)
    requires Shape(heap, rows, root, next, limit, |rows|, 0) && Replacement(heap, rows[0], j, n, limit)
    ensures Shape(heap[rows[0][j].page := n], rows, root, next, limit, |rows|, 0)
  {
    var heap': Heap := heap[rows[0][j].page := n];
    LeafDistinct(heap, rows, j);
    ReplaceLinked(heap, heap', rows, j);
    ReplaceLeaves(heap, rows[0], j, n, limit);
    WritableUpdate(heap, heap', limit, rows[0][j].page, rows[0][j].page);
    KindsUpdate(heap, heap', rows);
    PagesUpdate(heap, heap', rows, next);
  }

  // ---------------------------------------------------------------- insertion into a leaf

  lemma InsertSorted(es: seq<LeafEntry>, e: LeafEntry)
    requires Sorted(Keys(es)) && e.key !in ToMap(es)
    ensures Sorted(Keys(InsertLeafEntry(es, e)))
    ensures forall i :: 0 <= i < |InsertLeafEntry(es, e)| ==>
      InsertLeafEntry(es, e)[i] == e || InsertLeafEntry(es, e)[i] in es
  {
    LtOrder();
    ToMapKeys(es, e.key);
    var ks, p := Keys(es), LowerBound(Keys(es), e.key);
    var r := InsertLeafEntry(es, e);
    assert forall i :: p <= i < |es| ==> Lt(e.key, ks[i]) by {
      if p < |es| { assert es[p].key == ks[p] != e.key; }
    }
    forall i, l | 0 <= i < l < |r| ensures Lt(r[i].key, r[l].key) {
      if i < p { assert r[i].key == ks[i]; } else if i > p { assert r[i].key == ks[i - 1]; }
      if l < p { assert r[l].key == ks[l]; } else if l > p { assert r[l].key == ks[l - 1]; }
    }
  }

  /** What a leaf becomes when it takes an entry. */
  function Grown(n: Node, e: LeafEntry): Node
    requires n.Leaf?
  {
    Leaf(n.right, n.left, InsertLeafEntry(n.entries, e))
  }

  predicate EntryOk(e: LeafEntry, limit: nat) {
    |e.key| <= limit && U32(e.tid.page) && U16(e.tid.slot)
  }

  /** A grown leaf is sorted, within its slot and storable. */
  lemma GrownOk(heap: Heap, row: Row, j: nat, e: LeafEntry, limit: nat)
    requires Locates(row, j, e.key) && row[j].page in heap && heap[row[j].page].Leaf? && LeafOk(heap, row, j)
    requires PageOk(heap, row[j].page, limit) && EntryOk(e, limit)
    requires limit <= MAX_KEY && e.key !in ToMap(heap[row[j].page].entries)
    ensures var n' := Grown(heap[row[j].page], e);
            && Sorted(Keys(n'.entries)) && (forall i :: 0 <= i < |n'.entries| ==> InSlot(row, j, n'.entries[i].key))
            && EncodedSize(n') <= PAGE_SIZE && Encodable(n') && KeysWithin(n', limit)
  {
    hide LowerBound, ToMap, Lt, LeafBytes;
    var n := heap[row[j].page];
    InsertSorted(n.entries, e);
    LeafInsertFits(n, e, limit);
  }

  /** A leaf with room takes the entry. */
  lemma LeafPut(heap: Heap, rows: seq<Row>, root: nat, next: nat, limit: nat, j: nat, e: LeafEntry)
    requires Shape(heap, rows, root, next, limit, |rows|, 0) && limit <= MAX_KEY && EntryOk(e, limit)
    requires Locates(rows[0], j, e.key) && rows[0][j].page in heap && heap[rows[0][j].page].Leaf?
    requires e.key !in ToMap(heap[rows[0][j].page].entries)
    requires EncodedSize(Grown(heap[rows[0][j].page], e)) <= PAGE_SIZE && !IsFull(Grown(heap[rows[0][j].page], e))
    ensures var heap' := heap[rows[0][j].page := Grown(heap[rows[0][j].page], e)];
            && Shape(heap', rows, root, next, limit, |rows|, 0)
            && Entries(heap', rows[0]) == InsertLeafEntry(Entries(heap, rows[0]), e)
  {
    var page := rows[0][j].page;
    var n' := Grown(heap[page], e);
    assert PageOk(heap, page, limit) && LeafOk(heap, rows[0], j) && SortedAt(rows, 0);
    GrownOk(heap, rows[0], j, e, limit);
    LeafInsertFits(heap[page], e, limit);
    LeafReplace(heap, rows, root, next, limit, j, n');
    LeafDistinct(heap, rows, j);
    EntriesInsert(heap, heap[page := n'], rows[0], j, e);
  }

  /** Taking entry `i` out of leaf `j`. */
  lemma LeafTake(heap: Heap, rows: seq<Row>, root: nat, next: nat, limit: nat, j: nat, i: nat)
    requires Shape(heap, rows, root, next, limit, |rows|, 0) && j < |rows[0]|
    requires rows[0][j].page in heap && heap[rows[0][j].page].Leaf? && i < |heap[rows[0][j].page].entries|
    ensures var n := heap[rows[0][j].page];
            var heap' := heap[rows[0][j].page := Leaf(n.right, n.left, RemoveAt(n.entries, i))];
            var at := EntryIndex(heap, rows[0], j, i);
            && Shape(heap', rows, root, next, limit, |rows|, 0)
            && at < |Entries(heap, rows[0])| && Entries(heap, rows[0])[at] == n.entries[i]
            && Entries(heap', rows[0]) == RemoveAt(Entries(heap, rows[0]), at)
  {
    var page := rows[0][j].page;
    var n := heap[page];
    var n' := Leaf(n.right, n.left, RemoveAt(n.entries, i));
    assert PageOk(heap, page, limit) && LeafOk(heap, rows[0], j) && ChainedAt(heap, rows[0], j);
    ShrunkOk(heap, rows[0], j, i, limit);
    LeafReplace(heap, rows, root, next, limit, j, n');
    LeafDistinct(heap, rows, j);
    EntriesRemove(heap, heap[page := n'], rows[0], j, i);
  }

  lemma ShrunkOk(heap: Heap, row: Row, j: nat, i: nat, limit: nat)
    requires j < |row| && row[j].page in heap && heap[row[j].page].Leaf? && LeafOk(heap, row, j)
    requires PageOk(heap, row[j].page, limit) && i < |heap[row[j].page].entries|
    ensures var n := heap[row[j].page];
            Replacement(heap, row, j, Leaf(n.right, n.left, RemoveAt(n.entries, i)), limit)
  {
    hide Lt, LeafBytes;
    var n := heap[row[j].page];
    var es := RemoveAt(n.entries, i);
    RemovedSorted(n.entries, i);
    LeafBytesInsert(es, i, n.entries[i]);
    InsertRemoved(n.entries, i);
  }

  lemma RemovedSorted(es: seq<LeafEntry>, i: nat)
    requires i < |es| && Sorted(Keys(es))
    ensures Sorted(Keys(RemoveAt(es, i)))
    ensures forall l :: 0 <= l < |es| - 1 ==> RemoveAt(es, i)[l] == es[if l < i then l else l + 1]
  {
    hide Lt;
    var rest := RemoveAt(es, i);
    assert forall l :: 0 <= l < |rest| ==> rest[l] == es[if l < i then l else l + 1];
    forall a, b | 0 <= a < b < |rest| ensures Lt(rest[a].key, rest[b].key) {
      assert Lt(Keys(es)[if a < i then a else a + 1], Keys(es)[if b < i then b else b + 1]);
    }
  }

  // ---------------------------------------------------------------- splitting a leaf

  function LeftPart(n: Node, q: nat): Node
    requires n.Leaf?
  {
    Leaf(q, n.left, LeafLeftHalf(n).entries)
  }

  function RightPart(n: Node, page: nat): Node
    requires n.Leaf?
  {
    Leaf(n.right, page, LeafRightHalf(n).entries)
  }

  /** The pages after leaf `n` at `page` is split with its right half at `q`, siblings relinked. */
  function Relinked(heap: Heap, page: nat, n: Node, q: nat): Heap
    requires n.Leaf?
  {
    var heap1 := if n.right != 0 && n.right in heap then heap[n.right := WithLeft(heap[n.right], q)] else heap;
    heap1[page := LeftPart(n, q)][q := RightPart(n, page)]
  }

  function RightSlot(n: Node, q: nat): Slot
    requires n.Leaf? && n.entries != []
  {
    Slot(q, n.entries[|n.entries| / 2].key)
  }

  /** What the split leaves at each page of the old row. */
  ghost predicate SplitAt(heap: Heap, heap': Heap, row: Row, j: nat, n: Node, q: nat) {
    && j < |row| && n.Leaf? && q in heap' && heap'[q] == RightPart(n, row[j].page)
    && forall i {:trigger row[i].page} :: 0 <= i < |row| ==>
         && row[i].page in heap && heap[row[i].page].Leaf? && row[i].page in heap'
         && heap'[row[i].page] == (if i == j then LeftPart(n, q)
                                   else if i == j + 1 then WithLeft(heap[row[i].page], q)
                                   else heap[row[i].page])
  }

  lemma RelinkedPages(heap: Heap, rows: seq<Row>, j: nat, n: Node, q: nat)
    requires Kinds(heap, rows) && Distinct(rows) && rows != [] && j < |rows[0]|
    requires Chained(heap, rows[0]) && 0 !in heap && q !in heap
    requires n.Leaf? && rows[0][j].page in heap && n.right == heap[rows[0][j].page].right
    ensures n.right != 0 ==> n.right in heap
    ensures SplitAt(heap, Relinked(heap, rows[0][j].page, n, q), rows[0], j, n, q)
  {
    LeafDistinct(heap, rows, j);
    assert ChainedAt(heap, rows[0], j);
    if j + 1 < |rows[0]| { LeafDistinct(heap, rows, j + 1); }
  }

  lemma SplitChained(heap: Heap, heap': Heap, row: Row, j: nat, n: Node, q: nat, x: Slot)
    requires SplitAt(heap, heap', row, j, n, q) && Chained(heap, row) && x.page == q
    requires n.right == heap[row[j].page].right && n.left == heap[row[j].page].left
    ensures Chained(heap', InsertAt(row, j + 1, x))
  {
    var row' := InsertAt(row, j + 1, x);
    assert ChainedAt(heap, row, j);
    forall i | 0 <= i < |row'| ensures ChainedAt(heap', row', i) {
      if i <= j {
        assert row'[i] == row[i] && ChainedAt(heap, row, i);
      } else if i == j + 1 {
        assert j + 1 < |row| ==> row'[j + 2] == row[j + 1];
        assert row'[j] == row[j];
      } else {
        assert row'[i] == row[i - 1] && ChainedAt(heap, row, i - 1);
        assert i + 1 < |row'| ==> row'[i + 1] == row[i];
        assert i > j + 2 ==> row'[i - 1] == row[i - 2];
      }
    }
  }

  /** The halves of a sorted leaf lie on either side of the median key, inside the old slot. */
  lemma HalvesInSlots(row: Row, j: nat, n: Node, q: nat)
    requires j < |row| && n.Leaf? && |n.entries| >= 2 && Sorted(Keys(n.entries))
    requires forall i :: 0 <= i < |n.entries| ==> InSlot(row, j, n.entries[i].key)
    ensures var x := RightSlot(n, q);
            && Lt(row[j].lo, x.lo) && (j + 1 < |row| ==> Lt(x.lo, row[j + 1].lo))
            && (forall i :: 0 <= i < |n.entries| / 2 ==> Lt(n.entries[i].key, x.lo))
            && (forall i :: |n.entries| / 2 <= i < |n.entries| ==> Le(x.lo, n.entries[i].key))
  {
    LtOrder();
    var mid := |n.entries| / 2;
    var ks := Keys(n.entries);
    assert Lt(ks[0], ks[mid]) && InSlot(row, j, n.entries[0].key);
    forall i | 0 <= i < mid ensures Lt(n.entries[i].key, ks[mid]) { assert Lt(ks[i], ks[mid]); }
    forall i | mid <= i < |ks| ensures Le(ks[mid], n.entries[i].key) { assert i > mid ==> Lt(ks[mid], ks[i]); }
  }

  lemma HalvesSorted(es: seq<LeafEntry>, mid: nat)
    requires Sorted(Keys(es)) && mid <= |es|
    ensures Sorted(Keys(es[..mid])) && Sorted(Keys(es[mid..]))
  {
    assert Keys(es[..mid]) == Keys(es)[..mid];
    assert Keys(es[mid..]) == Keys(es)[mid..];
  }

  lemma SplitLeavesOk(heap: Heap, heap': Heap, row: Row, j: nat, n: Node, q: nat)
    requires SplitAt(heap, heap', row, j, n, q) && LeavesOk(heap, row)
    requires |n.entries| >= 2 && Sorted(Keys(n.entries))
    requires forall i :: 0 <= i < |n.entries| ==> InSlot(row, j, n.entries[i].key)
    ensures LeavesOk(heap', InsertAt(row, j + 1, RightSlot(n, q)))
  {
    var x := RightSlot(n, q);
    var row' := InsertAt(row, j + 1, x);
    HalvesInSlots(row, j, n, q);
    HalvesSorted(n.entries, |n.entries| / 2);
    forall i | 0 <= i < |row'| ensures LeafOk(heap', row', i) {
      if i < j {
        OtherLeafOk(heap, heap', row, row', i, i);
      } else if i > j + 1 {
        OtherLeafOk(heap, heap', row, row', i - 1, i);
      } else if i == j {
        assert EntriesAt(heap', row'[j]) == n.entries[..|n.entries| / 2] && row'[j + 1] == x;
      } else {
        assert EntriesAt(heap', row'[i]) == n.entries[|n.entries| / 2..];
        assert j + 1 < |row| ==> row'[j + 2] == row[j + 1];
      }
    }
  }

  lemma OtherLeafOk(heap: Heap, heap': Heap, row: Row, row': Row, i: nat, i': nat)
    requires i < |row| && i' < |row'| && LeavesOk(heap, row) && row'[i'] == row[i]
    requires EntriesAt(heap', row[i]) == EntriesAt(heap, row[i])
    requires (i + 1 < |row| <==> i' + 1 < |row'|) && (i + 1 < |row| ==> row[i + 1].lo == row'[i' + 1].lo)
    ensures LeafOk(heap', row', i')
  {
    assert LeafOk(heap, row, i);
  }

  /** The two halves hold what the grown leaf held, in the same place. */
  lemma SplitEntries(heap: Heap, heap': Heap, row: Row, j: nat, n: Node, q: nat, e: LeafEntry)
    requires SplitAt(heap, heap', row, j, n, q) && n.Leaf? && n.entries != []
    requires heap[row[j].page].Leaf? && n == Grown(heap[row[j].page], e)
    requires LeavesOk(heap, row) && RowSorted(row) && Locates(row, j, e.key)
    requires forall i :: 0 <= i < |row| && i != j ==> row[i].page != row[j].page
    ensures Entries(heap', InsertAt(row, j + 1, RightSlot(n, q))) == InsertLeafEntry(Entries(heap, row), e)
  {
    var x, mid := RightSlot(n, q), |n.entries| / 2;
    var heap1: Heap := heap[row[j].page := n];
    EntriesInsert(heap, heap1, row, j, e);
    EntriesAround(heap1, row, j);
    SplitEntriesRow(heap1, heap', row, j, n, x, mid);
  }

  lemma SplitEntriesRow(heap: Heap, heap': Heap, row: Row, j: nat, n: Node, x: Slot, mid: nat)
    requires j < |row| && n.Leaf? && EntriesAt(heap, row[j]) == n.entries && mid <= |n.entries|
    requires EntriesAt(heap', row[j]) == n.entries[..mid] && EntriesAt(heap', x) == n.entries[mid..]
    requires forall i :: 0 <= i < |row| && i != j ==> EntriesAt(heap, row[i]) == EntriesAt(heap', row[i])
    ensures Entries(heap', InsertAt(row, j + 1, x)) == Entries(heap, row)
  {
    var row' := InsertAt(row, j + 1, x);
    var a, b := Entries(heap, row[..j]), Entries(heap, row[j + 1..]);
    EntriesAround(heap, row, j);
    InsertedSlices(row, j, x);
    EntriesFrame(heap, heap', row[..j]);
    EntriesFrame(heap, heap', row[j + 1..]);
    EntriesAround(heap', row', j);
    EntriesAppend(heap', [x], row[j + 1..]);
    EntriesOne(heap', x);
    Reassociate(a, n.entries[..mid], n.entries[mid..], b);
    Cut(n.entries, mid);
  }

  lemma InsertedSlices(row: Row, j: nat, x: Slot)
    requires j < |row|
    ensures var row' := InsertAt(row, j + 1, x);
            row'[..j] == row[..j] && row'[j] == row[j] && row'[j + 1..] == [x] + row[j + 1..]
  {
  }

  lemma SplitLeafLinked(heap: Heap, heap': Heap, rows: seq<Row>, j: nat, x: Slot)
    requires Kinds(heap, rows) && Linked(heap, rows, |rows|, 0) && rows != [] && j < |rows[0]|
    requires forall p :: p in heap && heap[p].Internal? ==> p in heap' && heap'[p] == heap[p]
    ensures Linked(heap', rows[0 := InsertAt(rows[0], j + 1, x)], 0, j + 1)
  {
    hide Expand, ChildrenAt, Kinds;
    var rows': seq<Row> := rows[0 := InsertAt(rows[0], j + 1, x)];
    RemoveInserted(rows[0], j + 1, x);
    var at := j + 1;
    forall m | 0 <= m < |rows| - 1 ensures LinkedAt(heap', rows', m, 0, at) {
      assert LinkedAt(heap, rows, m, |rows|, 0);
      var up := m + 1;
      UpperSame(heap, heap', rows, up);
    }
  }

  /** Rows of internal nodes expand as before when no internal node has changed. */
  lemma UpperSame(heap: Heap, heap': Heap, rows: seq<Row>, up: nat)
    requires Kinds(heap, rows) && 0 < up < |rows|
    requires forall p :: p in heap && heap[p].Internal? ==> p in heap' && heap'[p] == heap[p]
    ensures Expand(heap', rows[up]) == Expand(heap, rows[up])
  {
    hide Expand;
    forall i | 0 <= i < |rows[up]| ensures ChildrenAt(heap, rows[up][i]) == ChildrenAt(heap', rows[up][i]) {
      assert KindAt(heap, rows, up, i);
    }
    ExpandFrame(heap, heap', rows[up]);
  }

  lemma RelinkedKinds(heap: Heap, page: nat, n: Node, q: nat)
    requires n.Leaf? && page in heap && heap[page].Leaf? && q !in heap
    requires n.right != 0 ==> n.right in heap && heap[n.right].Leaf?
    ensures var heap' := Relinked(heap, page, n, q);
            && heap'.Keys == heap.Keys + {q} && heap'[q].Leaf?
            && (forall p :: p in heap ==> heap'[p].Leaf? == heap[p].Leaf?)
            && (forall p :: p in heap && heap[p].Internal? ==> heap'[p] == heap[p])
  {
  }

  /** A leaf half is storable wherever its siblings are. */
  lemma PartsOk(n: Node, page: nat, q: nat, limit: nat)
    requires n.Leaf? && Encodable(n) && KeysWithin(n, limit) && U32(page) && U32(q)
    requires Fits(LeafLeftHalf(n), limit) && Fits(LeafRightHalf(n), limit)
    ensures Fits(LeftPart(n, q), limit) && Encodable(LeftPart(n, q))
    ensures Fits(RightPart(n, page), limit) && Encodable(RightPart(n, page))
  {
  }

  lemma RelinkedWritable(heap: Heap, page: nat, n: Node, q: nat, limit: nat)
    requires Writable(heap, limit) && n.Leaf? && U32(q) && (n.right != 0 ==> n.right in heap && heap[n.right].Leaf?)
    requires Fits(LeftPart(n, q), limit) && Encodable(LeftPart(n, q))
    requires Fits(RightPart(n, page), limit) && Encodable(RightPart(n, page))
    ensures Writable(Relinked(heap, page, n, q), limit)
  {
    var heap' := Relinked(heap, page, n, q);
    forall p: nat ensures PageOk(heap', p, limit) {
      assert PageOk(heap, p, limit);
    }
  }

  /** The right sibling of a leaf is a leaf. */
  lemma RightIsLeaf(heap: Heap, rows: seq<Row>, j: nat)
    requires Kinds(heap, rows) && rows != [] && j < |rows[0]| && Chained(heap, rows[0]) && rows[0][j].page in heap
    ensures var r := heap[rows[0][j].page].right; r != 0 ==> r in heap && heap[r].Leaf?
  {
    assert ChainedAt(heap, rows[0], j);
    if j + 1 < |rows[0]| {
      var i := j + 1;
      assert KindAt(heap, rows, 0, i);
    }
  }

  /** A full leaf is split; the slot of its right half is now pending in row 0. */
  lemma LeafSplit(heap: Heap, heap': Heap, rows: seq<Row>, rows': seq<Row>, root: nat, next: nat, limit: nat, j: nat,
                  e: LeafEntry, n: Node)
    requires Shape(heap, rows, root, next, limit, |rows|, 0)
    requires limit <= MAX_KEY && EntryOk(e, limit) && U32(next) && next >= 1
    requires Locates(rows[0], j, e.key) && rows[0][j].page in heap && heap[rows[0][j].page].Leaf?
    requires e.key !in ToMap(heap[rows[0][j].page].entries)
    requires n == Grown(heap[rows[0][j].page], e) && EncodedSize(n) <= PAGE_SIZE && IsFull(n)
    requires heap' == Relinked(heap, rows[0][j].page, n, next)
    requires rows' == rows[0 := InsertAt(rows[0], j + 1, RightSlot(n, next))]
    ensures Carrying(heap', rows', root, next + 1, limit, 0, j + 1, e.key) && |RightSlot(n, next).lo| <= limit
    ensures Entries(heap', rows'[0]) == InsertLeafEntry(Entries(heap, rows[0]), e)
  {
    FullLeaf(heap, rows, root, next, limit, j, e);
    LeafSplitPages(heap, heap', rows, root, next, limit, j, n);
    LeafSplitHole(heap, heap', rows, root, next, limit, j, n, e);
  }

  lemma LeafSplitPages(heap: Heap, heap': Heap, rows: seq<Row>, root: nat, next: nat, limit: nat, j: nat, n: Node)
    requires Shape(heap, rows, root, next, limit, |rows|, 0) && j < |rows[0]| && U32(next)
    requires rows[0][j].page in heap && heap[rows[0][j].page].Leaf? && n.Leaf? && n.right == heap[rows[0][j].page].right
    requires n.right != 0 ==> n.right in heap && heap[n.right].Leaf?
    requires Fits(LeftPart(n, next), limit) && Encodable(LeftPart(n, next))
    requires Fits(RightPart(n, rows[0][j].page), limit) && Encodable(RightPart(n, rows[0][j].page))
    requires heap' == Relinked(heap, rows[0][j].page, n, next)
    ensures SplitAt(heap, heap', rows[0], j, n, next) && Writable(heap', limit)
    ensures heap'.Keys == heap.Keys + {next} && heap'[next].Leaf?
    ensures forall p :: p in heap ==> heap'[p].Leaf? == heap[p].Leaf?
    ensures forall p :: p in heap && heap[p].Internal? ==> heap'[p] == heap[p]
  {
    var page := rows[0][j].page;
    assert UsedAt(heap, rows, next, next) && UsedAt(heap, rows, next, 0);
    RelinkedPages(heap, rows, j, n, next);
    RelinkedKinds(heap, page, n, next);
    RelinkedWritable(heap, page, n, next, limit);
  }

  /** What is known of a leaf that has just become full. */
  lemma FullLeaf(heap: Heap, rows: seq<Row>, root: nat, next: nat, limit: nat, j: nat, e: LeafEntry)
    requires Shape(heap, rows, root, next, limit, |rows|, 0) && limit <= MAX_KEY && EntryOk(e, limit) && U32(next)
    requires Locates(rows[0], j, e.key) && rows[0][j].page in heap && heap[rows[0][j].page].Leaf?
    requires e.key !in ToMap(heap[rows[0][j].page].entries)
    requires EncodedSize(Grown(heap[rows[0][j].page], e)) <= PAGE_SIZE && IsFull(Grown(heap[rows[0][j].page], e))
    ensures var page := rows[0][j].page;
            var n := Grown(heap[page], e);
            && |n.entries| >= 2 && KeysWithin(n, limit) && (n.right != 0 ==> n.right in heap && heap[n.right].Leaf?)
            && Sorted(Keys(n.entries)) && (forall i :: 0 <= i < |n.entries| ==> InSlot(rows[0], j, n.entries[i].key))
            && Fits(LeftPart(n, next), limit) && Encodable(LeftPart(n, next))
            && Fits(RightPart(n, page), limit) && Encodable(RightPart(n, page))
  {
    var page := rows[0][j].page;
    assert PageOk(heap, page, limit) && LeafOk(heap, rows[0], j) && UsedAt(heap, rows, next, page);
    GrownOk(heap, rows[0], j, e, limit);
    LeafInsertFits(heap[page], e, limit);
    RightIsLeaf(heap, rows, j);
    PartsOk(Grown(heap[page], e), page, next, limit);
  }

  lemma LeafSplitHole(heap: Heap, heap': Heap, rows: seq<Row>, root: nat, next: nat, limit: nat, j: nat, n: Node,
                      e: LeafEntry)
    requires Shape(heap, rows, root, next, limit, |rows|, 0) && Locates(rows[0], j, e.key) && next >= 1
    requires SplitAt(heap, heap', rows[0], j, n, next) && Writable(heap', limit)
    requires heap[rows[0][j].page].Leaf? && n == Grown(heap[rows[0][j].page], e) && |n.entries| >= 2
    requires Sorted(Keys(n.entries)) && forall i :: 0 <= i < |n.entries| ==> InSlot(rows[0], j, n.entries[i].key)
    requires heap'.Keys == heap.Keys + {next} && heap'[next].Leaf?
    requires forall p :: p in heap ==> heap'[p].Leaf? == heap[p].Leaf?
    requires forall p :: p in heap && heap[p].Internal? ==> heap'[p] == heap[p]
    ensures var x := RightSlot(n, next);
            var rows' := rows[0 := InsertAt(rows[0], j + 1, x)];
            && Carrying(heap', rows', root, next + 1, limit, 0, j + 1, e.key)
            && Entries(heap', rows'[0]) == InsertLeafEntry(Entries(heap, rows[0]), e)
  {
    var x := RightSlot(n, next);
    assert SortedAt(rows, 0);
    SplitLeafRow(heap, heap', rows, j, n, next, e);
    SplitLeafLinked(heap, heap', rows, j, x);
    AddSlot(heap, heap', rows, next, 0, j + 1, x);
    RemoveInserted(rows[0], j + 1, x);
  }

  lemma SplitLeafRow(heap: Heap, heap': Heap, rows: seq<Row>, j: nat, n: Node, q: nat, e: LeafEntry)
    requires Kinds(heap, rows) && Distinct(rows) && rows != [] && SplitAt(heap, heap', rows[0], j, n, q)
    requires Chained(heap, rows[0]) && LeavesOk(heap, rows[0]) && RowSorted(rows[0]) && Locates(rows[0], j, e.key)
    requires heap[rows[0][j].page].Leaf? && n == Grown(heap[rows[0][j].page], e) && |n.entries| >= 2
    requires Sorted(Keys(n.entries)) && forall i :: 0 <= i < |n.entries| ==> InSlot(rows[0], j, n.entries[i].key)
    ensures var row' := InsertAt(rows[0], j + 1, RightSlot(n, q));
            && RowSorted(row') && Chained(heap', row') && LeavesOk(heap', row')
            && Entries(heap', row') == InsertLeafEntry(Entries(heap, rows[0]), e)
  {
    HalvesInSlots(rows[0], j, n, q);
    SortedInsert(rows[0], j + 1, RightSlot(n, q));
    SplitChained(heap, heap', rows[0], j, n, q, RightSlot(n, q));
    SplitLeavesOk(heap, heap', rows[0], j, n, q);
    LeafDistinct(heap, rows, j);
    SplitEntries(heap, heap', rows[0], j, n, q, e);
  }

  // ---------------------------------------------------------------- a new root

  function NewRoot(root: nat, x: Slot): Node {
    Internal(0, 0, [InternalEntry([], root), InternalEntry(x.lo, x.page)])
  }

  lemma NewRootOk(root: nat, x: Slot, limit: nat)
    requires x.lo != [] && |x.lo| <= limit <= MAX_KEY && U32(root) && U32(x.page)
    ensures Fits(NewRoot(root, x), limit) && Encodable(NewRoot(root, x))
  {
    var es := NewRoot(root, x).seps;
    var e := InternalEntry(x.lo, x.page);
    assert es[1..] == [e];
    assert SepBytes([e]) == 6 + |x.lo| + SepBytes([e][1..]);
  }

  lemma RootRowParts(heap: Heap, heap': Heap, rows: seq<Row>, next: nat, n: Node)
    requires Kinds(heap, rows) && Distinct(rows) && AllSorted(rows)
    requires PagesUsed(heap, rows, next) && rows != [] && next >= 1
    requires n.Internal? && heap' == heap[next := n]
    ensures var rows' := rows + [[Slot(next, [])]];
            Kinds(heap', rows') && Distinct(rows') && AllSorted(rows') && PagesUsed(heap', rows', next + 1)
  {
    var rows', next': nat := rows + [[Slot(next, [])]], next + 1;
    assert UsedAt(heap, rows, next, next);
    forall m: nat, i: nat ensures KindAt(heap', rows', m, i) { assert KindAt(heap, rows, m, i); }
    forall m: nat, i: nat, m': nat, i': nat ensures DistinctAt(rows', m, i, m', i') {
      assert DistinctAt(rows, m, i, m', i') && KindAt(heap, rows, m, i) && KindAt(heap, rows, m', i');
    }
    forall m: nat ensures SortedAt(rows', m) { assert SortedAt(rows, m); }
    forall p: nat ensures UsedAt(heap', rows', next', p) {
      assert UsedAt(heap, rows, next, p);
      if p in heap' { RootPlaced(rows, p, next); }
    }
  }

  lemma RootPlaced(rows: seq<Row>, p: nat, next: nat)
    requires p == next || Placed(rows, p)
    ensures Placed(rows + [[Slot(next, [])]], p)
  {
    var rows': seq<Row> := rows + [[Slot(next, [])]];
    if p == next {
      assert rows'[|rows|][0].page == p;
    } else {
      var m, i :| 0 <= m < |rows| && 0 <= i < |rows[m]| && rows[m][i].page == p;
      assert rows'[m][i].page == p;
    }
  }

  lemma RootLinked(heap: Heap, heap': Heap, rows: seq<Row>, root: nat, next: nat, x: Slot)
    requires Kinds(heap, rows) && rows != [] && next !in heap && heap' == heap[next := NewRoot(root, x)]
    requires Linked(heap, rows, |rows| - 1, 1) && rows[|rows| - 1] == [Slot(root, []), x]
    ensures Linked(heap', rows + [[Slot(next, [])]], |rows| + 1, 0)
  {
    var rows': seq<Row> := rows + [[Slot(next, [])]];
    var top, none := |rows| - 1, |rows| + 1;
    forall m | 0 <= m < |rows'| - 1 ensures LinkedAt(heap', rows', m, none, 0) {
      if m == top {
        ExpandOne(heap', Slot(next, []));
        assert ChildrenAt(heap', Slot(next, [])) == rows[top];
      } else {
        assert LinkedAt(heap, rows, m, top, 1);
        var up := m + 1;
        forall i | 0 <= i < |rows[up]| ensures rows[up][i].page in heap && rows[up][i].page != next {
          assert KindAt(heap, rows, up, i);
        }
        LinkedFrame(heap, heap', rows[up], rows[m], next);
      }
    }
  }

  /** A slot pending in the top row becomes the second child of a new root. */
  lemma RootStep(heap: Heap, rows: seq<Row>, root: nat, next: nat, limit: nat, hole: nat, key: Key)
    requires rows != [] && Carrying(heap, rows, root, next, limit, |rows| - 1, hole, key)
    requires limit <= MAX_KEY && next >= 1
    requires var x := rows[|rows| - 1][hole]; |x.lo| <= limit && U32(x.page)
    requires U32(root)
    ensures var x := rows[|rows| - 1][hole];
            var heap', rows' := heap[next := NewRoot(root, x)], rows + [[Slot(next, [])]];
            && rows[|rows| - 1] == [Slot(root, []), x]
            && Shape(heap', rows', next, next + 1, limit, |rows'|, 0)
            && Entries(heap', rows'[0]) == Entries(heap, rows[0])
  {
    var top := |rows| - 1;
    var x := rows[top][hole];
    InsertRemoved(rows[top], hole);
    assert rows[top] == [Slot(root, []), x];
    LtOrder();
    assert SortedAt(rows, top) && Lt(rows[top][0].lo, rows[top][1].lo);
    var heap': Heap := heap[next := NewRoot(root, x)];
    NewRootOk(root, x, limit);
    assert UsedAt(heap, rows, next, next);
    RootRowParts(heap, heap', rows, next, NewRoot(root, x));
    RootLinked(heap, heap', rows, root, next, x);
    WritableUpdate(heap, heap', limit, next, next);
    RootLeaves(heap, heap', rows, next);
  }

  lemma RootLeaves(heap: Heap, heap': Heap, rows: seq<Row>, next: nat)
    requires Kinds(heap, rows) && rows != [] && next !in heap && Agree(heap, heap', next)
    requires Chained(heap, rows[0]) && LeavesOk(heap, rows[0])
    ensures Chained(heap', rows[0]) && LeavesOk(heap', rows[0]) && Entries(heap', rows[0]) == Entries(heap, rows[0])
  {
    forall i | 0 <= i < |rows[0]| ensures rows[0][i].page in heap && rows[0][i].page != next {
      assert KindAt(heap, rows, 0, i);
    }
    LeavesFrame(heap, heap', rows[0]);
  }
}
