/** The steps of insert and delete on a whole tree value. */
module BTreeSteps {
  import opened Bytes
  import opened BTreeNodes
  import opened BTreeCodec
  import opened Wrappers
  import opened BTreeRows
  import opened BTreeEntries
  import opened BTreeGrowth
  import opened BTreeLeaves

  /** The nodes by page, their rows, the root page, the next free page and the longest key allowed. */
  datatype Tree = Tree(heap: Heap, rows: seq<Row>, root: nat, next: nat, limit: nat)

  ghost predicate Whole(t: Tree) {
    t.limit <= MAX_KEY && Shape(t.heap, t.rows, t.root, t.next, t.limit, |t.rows|, 0)
  }

  /** A split is being carried up: slot `x` of row `level` is not yet known to its parents. */
  ghost predicate Pending(t: Tree, level: nat, hole: nat, key: Key, x: Slot) {
    && t.limit <= MAX_KEY && Carrying(t.heap, t.rows, t.root, t.next, t.limit, level, hole, key)
    && t.rows[level][hole] == x && |x.lo| <= t.limit && U32(x.page)
  }

  function Leaves(t: Tree): Row {
    if t.rows == [] then [] else t.rows[0]
  }

  /** All entries, from left to right. */
  function AllEntries(t: Tree): seq<LeafEntry> {
    Entries(t.heap, Leaves(t))
  }

  ghost predicate AtLeaf(t: Tree, j: nat, key: Key, page: nat) {
    Locates(Leaves(t), j, key) && Leaves(t)[j].page == page && page in t.heap && t.heap[page].Leaf?
  }

  ghost predicate AtParent(t: Tree, level: nat, p: nat, key: Key, page: nat) {
    level + 1 < |t.rows| && Locates(t.rows[level + 1], p, key) && t.rows[level + 1][p].page == page
  }

  function WithPage(t: Tree, p: nat, n: Node): Tree {
    Tree(t.heap[p := n], t.rows, t.root, t.next, t.limit)
  }

  function WithSlot(rows: seq<Row>, m: nat, p: nat, x: Slot): seq<Row> {
    if m < |rows| && p <= |rows[m]| then rows[m := InsertAt(rows[m], p, x)] else rows
  }

  /** The tree after full leaf `n`, in slot `j`, has been split. */
  function LeafSplitTree(t: Tree, page: nat, n: Node, j: nat): Tree
    requires n.Leaf? && n.entries != []
  {
    var rows := WithSlot(t.rows, 0, j + 1, RightSlot(n, t.next));
    Tree(Relinked(t.heap, page, n, t.next), rows, t.root, t.next + 1, t.limit)
  }

  /** The tree after full internal node `n`, in slot `p` of row `m`, has been split. */
  function ParentSplitTree(t: Tree, page: nat, n: Node, m: nat, p: nat): Tree
    requires n.Internal? && n.seps != []
  {
    Tree(t.heap[page := InternalLeftHalf(n)][t.next := InternalRightHalf(n)],
         WithSlot(t.rows, m, p + 1, PromotedSlot(n, t.next)), t.root, t.next + 1, t.limit)
  }

  function RootTree(t: Tree, x: Slot): Tree {
    Tree(t.heap[t.next := NewRoot(t.root, x)], t.rows + [[Slot(t.next, [])]], t.next, t.next + 1, t.limit)
  }

  /** The grown leaf fits its page; without a split it just replaces the old leaf. */
  lemma PutStep(t: Tree, j: nat, e: LeafEntry, page: nat, n: Node)
    requires Whole(t) && AtLeaf(t, j, e.key, page) && EntryOk(e, t.limit) && e.key !in ToMap(t.heap[page].entries)
    requires n == Grown(t.heap[page], e)
    ensures EncodedSize(n) <= PAGE_SIZE
    ensures !IsFull(n) ==> Whole(WithPage(t, page, n))
    ensures !IsFull(n) ==> AllEntries(WithPage(t, page, n)) == InsertLeafEntry(AllEntries(t), e)
  {
    assert PageOk(t.heap, page, t.limit);
    LeafInsertFits(t.heap[page], e, t.limit);
    if !IsFull(n) {
      LeafPut(t.heap, t.rows, t.root, t.next, t.limit, j, e);
    }
  }

  /** Both halves of a full leaf can be written, and its right sibling is a leaf. */
  lemma FullLeafStep(t: Tree, j: nat, e: LeafEntry, page: nat, n: Node)
    requires Whole(t) && AtLeaf(t, j, e.key, page) && EntryOk(e, t.limit) && e.key !in ToMap(t.heap[page].entries)
    requires n == Grown(t.heap[page], e) && EncodedSize(n) <= PAGE_SIZE && IsFull(n) && U32(t.next)
    ensures n.entries != [] && Encodable(LeftPart(n, t.next)) && Encodable(RightPart(n, page))
    ensures n.right != 0 ==> n.right in t.heap && t.heap[n.right].Leaf?
  {
    FullLeaf(t.heap, t.rows, t.root, t.next, t.limit, j, e);
  }

  /** A full leaf is split, and its right half is pending in row 0. */
  lemma SplitLeafStep(t: Tree, j: nat, e: LeafEntry, page: nat, n: Node, t': Tree)
    requires Whole(t) && AtLeaf(t, j, e.key, page) && EntryOk(e, t.limit) && e.key !in ToMap(t.heap[page].entries)
    requires n == Grown(t.heap[page], e) && EncodedSize(n) <= PAGE_SIZE && IsFull(n) && U32(t.next) && t.next >= 1
    requires t' == LeafSplitTree(t, page, n, j)
    ensures Pending(t', 0, j + 1, e.key, RightSlot(n, t.next))
    ensures AllEntries(t') == InsertLeafEntry(AllEntries(t), e) && |Leaves(t')| == |Leaves(t)| + 1
  {
    hide Entries, EncodedSize, Relinked, InsertLeafEntry, Distinct, AllSorted, Linked, Writable;
    LeafSplit(t.heap, t'.heap, t.rows, t'.rows, t.root, t.next, t.limit, j, e, n);
  }

  /** The parent with the pending slot added fits its page. */
  lemma ParentStep(t: Tree, level: nat, hole: nat, key: Key, x: Slot, p: nat, page: nat)
    requires Pending(t, level, hole, key, x) && AtParent(t, level, p, key, page)
    ensures page in t.heap && t.heap[page].Internal? && EncodedSize(Enlarged(t.heap[page], x)) <= PAGE_SIZE
  {
    ParentOfHole(t.heap, t.rows, t.root, t.next, t.limit, level, hole, key, p);
    ParentWritable(t.heap[page], x, t.limit);
  }

  /** With room in the parent the tree is whole again. */
  lemma AbsorbTree(t: Tree, level: nat, hole: nat, key: Key, x: Slot, p: nat, page: nat, n: Node)
    requires Pending(t, level, hole, key, x) && AtParent(t, level, p, key, page)
    requires page in t.heap && t.heap[page].Internal? && n == Enlarged(t.heap[page], x)
    requires EncodedSize(n) <= PAGE_SIZE && !IsFull(n)
    ensures Whole(WithPage(t, page, n)) && AllEntries(WithPage(t, page, n)) == AllEntries(t)
  {
    AbsorbStep(t.heap, t.rows, t.root, t.next, t.limit, level, hole, key, p);
  }

  /** A full parent is split, and its right half is pending one row up. */
  lemma SplitParentTree(t: Tree, level: nat, hole: nat, key: Key, x: Slot, p: nat, page: nat, n: Node, t': Tree)
    requires Pending(t, level, hole, key, x) && AtParent(t, level, p, key, page) && U32(t.next)
    requires page in t.heap && t.heap[page].Internal?
    requires n == Enlarged(t.heap[page], x) && EncodedSize(n) <= PAGE_SIZE && IsFull(n)
    requires t' == ParentSplitTree(t, page, n, level + 1, p)
    ensures t.next >= 1 && page != t.next && n.seps != []
    ensures Pending(t', level + 1, p + 1, key, PromotedSlot(n, t.next))
    ensures AllEntries(t') == AllEntries(t) && Leaves(t') == Leaves(t)
  {
    SplitStep(t.heap, t'.heap, t.rows, t.root, t.next, t.limit, level, hole, key, p, n);
    SplitPagesOk(t.heap, t'.heap, t.rows, t.next, page, n);
  }

  /** A slot pending in the top row gets a new root above it. */
  lemma RootTreeStep(t: Tree, hole: nat, key: Key, x: Slot)
    requires t.rows != [] && Pending(t, |t.rows| - 1, hole, key, x) && U32(t.root) && t.next >= 1
    ensures Whole(RootTree(t, x)) && AllEntries(RootTree(t, x)) == AllEntries(t) && Leaves(RootTree(t, x)) == Leaves(t)
  {
    RootStep(t.heap, t.rows, t.root, t.next, t.limit, hole, key);
  }

  /** Entry `i` is taken out of leaf `j`. */
  lemma TakeStep(t: Tree, j: nat, key: Key, page: nat, i: nat, n: Node)
    requires Whole(t) && AtLeaf(t, j, key, page) && i < |t.heap[page].entries|
    requires n == Leaf(t.heap[page].right, t.heap[page].left, RemoveAt(t.heap[page].entries, i))
    ensures var t', at := WithPage(t, page, n), EntryIndex(t.heap, Leaves(t), j, i);
            && Whole(t') && at < |AllEntries(t)| && AllEntries(t)[at] == t.heap[page].entries[i]
            && AllEntries(t') == RemoveAt(AllEntries(t), at)
            && ToMap(AllEntries(t')) == ToMap(AllEntries(t)) - {t.heap[page].entries[i].key}
  {
    LeafTake(t.heap, t.rows, t.root, t.next, t.limit, j, i);
    AllSortedEntries(t);
    ToMapRemove(AllEntries(t), EntryIndex(t.heap, Leaves(t), j, i));
  }

  lemma AllSortedEntries(t: Tree)
    requires Whole(t)
    ensures Sorted(Keys(AllEntries(t)))
  {
    assert SortedAt(t.rows, 0);
    EntriesSorted(t.heap, t.rows[0], 0);
    assert t.rows[0][0..] == t.rows[0];
  }

  /** Whether a leaf has the key decides whether the map has it. */
  lemma FoundInLeaf(t: Tree, j: nat, key: Key, page: nat, found: Option<nat>)
    requires Whole(t) && AtLeaf(t, j, key, page)
    requires var es := t.heap[page].entries;
             && (found.Some? ==> found.value < |es| && es[found.value].key == key)
             && (found.None? && Sorted(Keys(es)) ==> forall i :: 0 <= i < |es| ==> es[i].key != key)
    ensures found.Some? <==> key in ToMap(AllEntries(t))
    ensures found.Some? <==> key in ToMap(t.heap[page].entries)
    ensures found.Some? ==> ToMap(AllEntries(t))[key] == t.heap[page].entries[found.value].tid
  {
    var es := t.heap[page].entries;
    assert SortedAt(t.rows, 0) && LeafOk(t.heap, t.rows[0], j);
    LookupInLeaf(t.heap, t.rows[0], j, key);
    ToMapKeys(es, key);
    if found.Some? { ToMapAt(es, found.value); }
  }

  /** Inserting a new key into the sequence adds it to the map. */
  lemma InsertedMap(t: Tree, e: LeafEntry)
    requires Whole(t) && e.key !in ToMap(AllEntries(t))
    ensures ToMap(InsertLeafEntry(AllEntries(t), e)) == ToMap(AllEntries(t))[e.key := e.tid]
  {
    var es := AllEntries(t);
    AllSortedEntries(t);
    InsertPosition(es, e.key);
    ToMapInsert(es, LowerBound(Keys(es), e.key), e);
  }

  lemma InsertPosition(es: seq<LeafEntry>, k: Key)
    requires Sorted(Keys(es)) && k !in ToMap(es)
    ensures var p := LowerBound(Keys(es), k); Below(es[..p], k) && Above(es[p..], k)
  {
    var ks, p := Keys(es), LowerBound(Keys(es), k);
    LtOrder();
    ToMapKeys(es, k);
    forall i | 0 <= i < p ensures Lt(es[i].key, k) { assert Lt(ks[i], k); }
    if p < |es| {
      assert es[p].key == ks[p] != k;
      forall i | p <= i < |es| ensures Lt(k, es[i].key) { assert i > p ==> Lt(ks[p], ks[i]); }
    }
  }
}
