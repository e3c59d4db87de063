/**
 * The shape of a whole B+ tree.
 *
 * The pages of each level, read from left to right, form a row of slots (page, least key). Row 0
 * holds the leaves, the last row only the root, and reading off the children of one row gives the
 * row below it. While a split is being carried up, one row holds a slot its parents do not know
 * yet: the `hole` of row `level`. `level == |rows|` means that nothing is pending.
 */
module BTreeRows {
  import opened Bytes
  import opened BTreeNodes
  import opened BTreeCodec

  type Heap = map<nat, Node>

  datatype Slot = Slot(page: nat, lo: Key)

  type Row = seq<Slot>

  // ---------------------------------------------------------------- reading rows

  /** The children of an internal node whose own least key is `lo`. */
  function Children(es: seq<InternalEntry>, lo: Key): Row {
    seq(|es|, i requires 0 <= i < |es| => Slot(es[i].child, if i == 0 then lo else es[i].key))
  }

  function ChildrenAt(heap: Heap, s: Slot): Row {
    if s.page in heap && heap[s.page].Internal? then Children(heap[s.page].seps, s.lo) else []
  }

  function Expand(heap: Heap, row: Row): Row {
    if row == [] then [] else ChildrenAt(heap, row[0]) + Expand(heap, row[1..])
  }

  function EntriesAt(heap: Heap, s: Slot): seq<LeafEntry> {
    if s.page in heap && heap[s.page].Leaf? then heap[s.page].entries else []
  }

  /** All entries of a row of leaves, from left to right. */
  function Entries(heap: Heap, row: Row): seq<LeafEntry> {
    if row == [] then [] else EntriesAt(heap, row[0]) + Entries(heap, row[1..])
  }

  lemma {:induction false} ExpandAppend(heap: Heap, a: Row, b: Row)
    ensures Expand(heap, a + b) == Expand(heap, a) + Expand(heap, b)
  {
    if a == [] { assert a + b == b; }
    else { assert (a + b)[1..] == a[1..] + b; ExpandAppend(heap, a[1..], b); }
  }

  lemma {:induction false} EntriesAppend(heap: Heap, a: Row, b: Row)
    ensures Entries(heap, a + b) == Entries(heap, a) + Entries(heap, b)
  {
    if a == [] { assert a + b == b; }
    else { assert (a + b)[1..] == a[1..] + b; EntriesAppend(heap, a[1..], b); }
  }

  lemma {:induction false} ExpandFrame(heap: Heap, heap': Heap, row: Row)
    requires forall i :: 0 <= i < |row| ==> ChildrenAt(heap, row[i]) == ChildrenAt(heap', row[i])
    ensures Expand(heap, row) == Expand(heap', row)
  {
    if row != [] { ExpandFrame(heap, heap', row[1..]); }
  }

  lemma {:induction false} EntriesFrame(heap: Heap, heap': Heap, row: Row)
    requires forall i :: 0 <= i < |row| ==> EntriesAt(heap, row[i]) == EntriesAt(heap', row[i])
    ensures Entries(heap, row) == Entries(heap', row)
  {
    if row != [] { EntriesFrame(heap, heap', row[1..]); }
  }

  lemma ExpandOne(heap: Heap, s: Slot)
    ensures Expand(heap, [s]) == ChildrenAt(heap, s)
  {
    assert [s][1..] == [];
  }

  lemma EntriesOne(heap: Heap, s: Slot)
    ensures Entries(heap, [s]) == EntriesAt(heap, s)
  {
    assert [s][1..] == [];
  }

  /** A row read as what is left of slot `j`, slot `j`, and what is right of it. */
  lemma ExpandAround(heap: Heap, row: Row, j: nat)
    requires j < |row|
    ensures Expand(heap, row) == Expand(heap, row[..j]) + ChildrenAt(heap, row[j]) + Expand(heap, row[j + 1..])
  {
    Around(row, j);
    ExpandAppend(heap, row[..j] + [row[j]], row[j + 1..]);
    ExpandAppend(heap, row[..j], [row[j]]);
    ExpandOne(heap, row[j]);
  }

  lemma EntriesAround(heap: Heap, row: Row, j: nat)
    requires j < |row|
    ensures Entries(heap, row) == Entries(heap, row[..j]) + EntriesAt(heap, row[j]) + Entries(heap, row[j + 1..])
  {
    Around(row, j);
    EntriesAppend(heap, row[..j] + [row[j]], row[j + 1..]);
    EntriesAppend(heap, row[..j], [row[j]]);
    EntriesOne(heap, row[j]);
  }

  /** Index in the row below of the first child of slot `j`. */
  function Offset(heap: Heap, row: Row, j: nat): nat
    requires j <= |row|
  {
    |Expand(heap, row[..j])|
  }

  // ---------------------------------------------------------------- the invariant

  predicate RowSorted(row: Row) {
    && row != [] && row[0].lo == []
    && forall i, j :: 0 <= i < j < |row| ==> Lt(row[i].lo, row[j].lo)
  }

  // Each part of the invariant is a forall over a predicate about one place, so that a proof
  // brings in the places it talks about by naming them.

  ghost predicate SortedAt(rows: seq<Row>, m: nat) {
    m < |rows| ==> RowSorted(rows[m])
  }

  ghost predicate AllSorted(rows: seq<Row>) {
    forall m: nat {:trigger SortedAt(rows, m)} :: SortedAt(rows, m)
  }

  ghost predicate KindAt(heap: Heap, rows: seq<Row>, m: nat, i: nat) {
    m < |rows| && i < |rows[m]| ==> rows[m][i].page in heap && (heap[rows[m][i].page].Leaf? <==> m == 0)
  }

  /** The leaves are exactly the nodes of row 0. */
  ghost predicate Kinds(heap: Heap, rows: seq<Row>) {
    forall m: nat, i: nat {:trigger KindAt(heap, rows, m, i)} :: KindAt(heap, rows, m, i)
  }

  ghost predicate DistinctAt(rows: seq<Row>, m: nat, i: nat, m': nat, i': nat) {
    m < |rows| && i < |rows[m]| && m' < |rows| && i' < |rows[m']| && rows[m][i].page == rows[m'][i'].page ==>
      m == m' && i == i'
  }

  /** No page occurs twice. */
  ghost predicate Distinct(rows: seq<Row>) {
    forall m: nat, i: nat, m': nat, i': nat {:trigger DistinctAt(rows, m, i, m', i')} :: DistinctAt(rows, m, i, m', i')
  }

  function Settled(rows: seq<Row>, m: nat, level: nat, hole: nat): Row
    requires m < |rows| && (m == level ==> hole < |rows[m]|)
  {
    if m == level then RemoveAt(rows[m], hole) else rows[m]
  }

  ghost predicate LinkedAt(heap: Heap, rows: seq<Row>, m: nat, level: nat, hole: nat) {
    && m + 1 < |rows|
    && (m == level ==> hole < |rows[m]|)
    && Expand(heap, rows[m + 1]) == Settled(rows, m, level, hole)
  }

  /** Each row is what its parents say, except for the slot still to be handed up. */
  ghost predicate Linked(heap: Heap, rows: seq<Row>, level: nat, hole: nat) {
    forall m {:trigger LinkedAt(heap, rows, m, level, hole)} :: 0 <= m < |rows| - 1 ==>
      LinkedAt(heap, rows, m, level, hole)
  }

  predicate Rooted(rows: seq<Row>, root: nat, level: nat, hole: nat) {
    && rows != []
    && (level < |rows| ==> hole < |rows[level]|)
    && Settled(rows, |rows| - 1, level, hole) == [Slot(root, [])]
  }

  predicate ChainedAt(heap: Heap, row: Row, i: nat)
    requires i < |row|
  {
    && row[i].page in heap
    && heap[row[i].page].right == (if i + 1 < |row| then row[i + 1].page else 0)
    && heap[row[i].page].left == (if i > 0 then row[i - 1].page else 0)
  }

  /** The sibling links of a row of leaves, in both directions. */
  predicate Chained(heap: Heap, row: Row) {
    forall i {:trigger ChainedAt(heap, row, i)} :: 0 <= i < |row| ==> ChainedAt(heap, row, i)
  }

  /** The keys of slot `j` lie between its least key and that of its right neighbour. */
  predicate InSlot(row: Row, j: nat, k: Key)
    requires j < |row|
  {
    Le(row[j].lo, k) && (j + 1 < |row| ==> Lt(k, row[j + 1].lo))
  }

  predicate LeafOk(heap: Heap, row: Row, j: nat)
    requires j < |row|
  {
    var es := EntriesAt(heap, row[j]);
    Sorted(Keys(es)) && forall i :: 0 <= i < |es| ==> InSlot(row, j, es[i].key)
  }

  predicate LeavesOk(heap: Heap, row: Row) {
    forall j {:trigger LeafOk(heap, row, j)} :: 0 <= j < |row| ==> LeafOk(heap, row, j)
  }

  /** The page can be written as it is, and an internal node has at least two children. */
  predicate PageOk(heap: Heap, p: nat, limit: nat) {
    p in heap ==> Fits(heap[p], limit) && Encodable(heap[p]) && (heap[p].Internal? ==> |heap[p].seps| >= 2)
  }

  ghost predicate Writable(heap: Heap, limit: nat) {
    forall p: nat {:trigger PageOk(heap, p, limit)} :: PageOk(heap, p, limit)
  }

  ghost predicate Placed(rows: seq<Row>, p: nat) {
    exists m, i :: 0 <= m < |rows| && 0 <= i < |rows[m]| && rows[m][i].page == p
  }

  ghost predicate UsedAt(heap: Heap, rows: seq<Row>, next: nat, p: nat) {
    (p in heap <==> 1 <= p < next) && (p in heap ==> Placed(rows, p))
  }

  /** Exactly the pages from 1 to `next` - 1 are in use, each in some row, and page 0 is none of them. */
  ghost predicate PagesUsed(heap: Heap, rows: seq<Row>, next: nat) {
    forall p: nat {:trigger UsedAt(heap, rows, next, p)} :: UsedAt(heap, rows, next, p)
  }

  ghost predicate Shape(heap: Heap, rows: seq<Row>, root: nat, next: nat, limit: nat, level: nat, hole: nat) {
    && Kinds(heap, rows) && Distinct(rows) && AllSorted(rows)
    && Linked(heap, rows, level, hole) && Rooted(rows, root, level, hole)
    && Chained(heap, rows[0]) && LeavesOk(heap, rows[0])
    && Writable(heap, limit) && PagesUsed(heap, rows, next)
  }

  /** The tree invariant: nothing pending, and the meta record describes the tree. */
  ghost predicate WellFormed(heap: Heap, rows: seq<Row>, meta: Meta, limit: nat) {
    && Shape(heap, rows, meta.root, meta.nextPage, limit, |rows|, 0)
    && meta.height == |rows|
    && meta.entries == |Entries(heap, rows[0])|
  }

  // ---------------------------------------------------------------- descent

  /** `k` belongs to slot `j` of this row. */
  predicate Locates(row: Row, j: nat, k: Key) {
    j < |row| && InSlot(row, j, k)
  }

  /** At most one slot of a sorted row can hold a key. */
  lemma LocatesUnique(row: Row, i: nat, j: nat, k: Key)
    requires RowSorted(row) && Locates(row, i, k) && Locates(row, j, k)
    ensures i == j
  {
    LtOrder();
  }

  /** Child `i` of slot `j` sits in the row below at `Offset` + `i`. */
  lemma ChildSlot(heap: Heap, row: Row, j: nat, i: nat)
    requires j < |row| && i < |ChildrenAt(heap, row[j])|
    ensures var at := Offset(heap, row, j) + i;
            at < |Expand(heap, row)| && Expand(heap, row)[at] == ChildrenAt(heap, row[j])[i]
  {
    ExpandAround(heap, row, j);
  }

  /** All slots of a row are internal nodes whose only empty separator is the leftmost. */
  predicate Parents(heap: Heap, row: Row) {
    forall i :: 0 <= i < |row| ==>
      row[i].page in heap && heap[row[i].page].Internal? && WellKeyed(heap[row[i].page])
  }

  /** After the last child of slot `j` comes the first child of the next slot, with its least key. */
  lemma NextChildSlot(heap: Heap, row: Row, j: nat)
    requires j < |row| && Parents(heap, row)
    ensures var at := Offset(heap, row, j) + |heap[row[j].page].seps|;
            && (j + 1 == |row| ==> at == |Expand(heap, row)|)
            && (j + 1 < |row| ==> at < |Expand(heap, row)| && Expand(heap, row)[at].lo == row[j + 1].lo)
  {
    ExpandAround(heap, row, j);
    if j + 1 < |row| {
      FirstChild(heap, row[j + 1..]);
    }
  }

  lemma FirstChild(heap: Heap, row: Row)
    requires row != [] && Parents(heap, row)
    ensures Expand(heap, row) != [] && Expand(heap, row)[0].lo == row[0].lo
  {
    var c := ChildrenAt(heap, row[0]);
    assert c != [] && c[0].lo == row[0].lo;
  }

  /** The child position is the last separator at most the key. */
  lemma ChildPositionMeaning(es: seq<InternalEntry>, k: Key)
    requires es != [] && es[0].key == []
    ensures var c := ChildPosition(es, k);
            Le(es[c].key, k) && (c + 1 < |es| ==> Lt(k, es[c + 1].key))
  {
    LtOrder();
    assert Le(SepKeys(es)[0], k);
    var c := ChildPosition(es, k);
    assert UpperBound(SepKeys(es), k) == c + 1;
    assert Le(SepKeys(es)[c], k);
    if c + 1 < |es| { assert !Le(SepKeys(es)[c + 1], k); }
  }

  /** The child at position `c` holds the key if it does so with respect to its next sibling. */
  lemma DescendInner(heap: Heap, row: Row, j: nat, c: nat, k: Key)
    requires Parents(heap, row) && Locates(row, j, k) && c + 1 < |heap[row[j].page].seps|
    requires Le(heap[row[j].page].seps[c].key, k) && Lt(k, heap[row[j].page].seps[c + 1].key)
    ensures Locates(Expand(heap, row), Offset(heap, row, j) + c, k)
    ensures Expand(heap, row)[Offset(heap, row, j) + c].page == heap[row[j].page].seps[c].child
  {
    ChildSlot(heap, row, j, c);
    ChildSlot(heap, row, j, c + 1);
  }

  /** The last child takes every key from its separator up to the next slot. */
  lemma DescendLast(heap: Heap, row: Row, j: nat, c: nat, k: Key)
    requires Parents(heap, row) && Locates(row, j, k) && c + 1 == |heap[row[j].page].seps|
    requires Le(heap[row[j].page].seps[c].key, k)
    ensures Locates(Expand(heap, row), Offset(heap, row, j) + c, k)
    ensures Expand(heap, row)[Offset(heap, row, j) + c].page == heap[row[j].page].seps[c].child
  {
    ChildSlot(heap, row, j, c);
    NextChildSlot(heap, row, j);
  }

  /** Following the child position of a key leads to the slot below that holds the key. */
  lemma Descend(heap: Heap, row: Row, j: nat, k: Key)
    requires Parents(heap, row) && Locates(row, j, k)
    ensures var es := heap[row[j].page].seps;
            var i := Offset(heap, row, j) + ChildPosition(es, k);
            Locates(Expand(heap, row), i, k) && Expand(heap, row)[i].page == es[ChildPosition(es, k)].child
  {
    var es := heap[row[j].page].seps;
    var c := ChildPosition(es, k);
    ChildPositionMeaning(es, k);
    if c + 1 < |es| {
      DescendInner(heap, row, j, c, k);
    } else {
      DescendLast(heap, row, j, c, k);
    }
  }
}
