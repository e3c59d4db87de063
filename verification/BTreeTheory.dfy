/**
 * What the row invariant means for a reader who knows B+ trees: the recursive definition of a well
 * formed subtree, the in-order list of leaves, and every page reached once.
 */
module BTreeTheory {
  import opened Bytes
  import opened BTreeNodes
  import opened Wrappers
  import opened BTreeRows
  import opened BTreeGrowth
  import opened BTreePaths
  import opened BTreeSteps

  // ---------------------------------------------------------------- subtrees

  predicate Inside(k: Key, lo: Key, hi: Option<Key>) {
    Le(lo, k) && (hi.Some? ==> Lt(k, hi.value))
  }

  /** Least key of child `i`. */
  function ChildLo(es: seq<InternalEntry>, lo: Key, i: nat): Key
    requires i < |es|
  {
    if i == 0 then lo else es[i].key
  }

  function ChildHi(es: seq<InternalEntry>, hi: Option<Key>, i: nat): Option<Key>
    requires i < |es|
  {
    if i + 1 < |es| then Some(es[i + 1].key) else hi
  }

  /**
   * Page `p` is the root of a B+ subtree `level` levels above the leaves whose keys lie in
   * [lo, hi): separators strictly increase within the interval, only the leftmost is empty, and
   * every child is a subtree between its separators.
   */
  ghost predicate Subtree(heap: Heap, p: nat, level: nat, lo: Key, hi: Option<Key>)
    decreases level
  {
    && p in heap
    && if level == 0 then
         && heap[p].Leaf? && Sorted(Keys(heap[p].entries))
         && forall i :: 0 <= i < |heap[p].entries| ==> Inside(heap[p].entries[i].key, lo, hi)
       else
         && heap[p].Internal? && |heap[p].seps| >= 2 && WellKeyed(heap[p]) && Sorted(SepKeys(heap[p].seps))
         && (forall i :: 0 < i < |heap[p].seps| ==> Inside(heap[p].seps[i].key, lo, hi))
         && (forall i :: 0 <= i < |heap[p].seps| ==>
               Subtree(heap, heap[p].seps[i].child, level - 1,
                       ChildLo(heap[p].seps, lo, i), ChildHi(heap[p].seps, hi, i)))
  }

  function SlotHi(row: Row, j: nat): Option<Key> {
    if j + 1 < |row| then Some(row[j + 1].lo) else None
  }

  /** Child `i` of slot `j`, in its place in the row below, has the bounds its separators say. */
  lemma ChildBounds(heap: Heap, row: Row, e: Row, j: nat, i: nat, at: nat, es: seq<InternalEntry>)
    requires Parents(heap, row) && j < |row| && es == heap[row[j].page].seps && i < |es|
    requires e == Expand(heap, row) && at == Offset(heap, row, j) + i
    ensures at < |e| && e[at].page == es[i].child && e[at].lo == ChildLo(es, row[j].lo, i)
    ensures SlotHi(e, at) == ChildHi(es, SlotHi(row, j), i)
  {
    ChildSlot(heap, row, j, i);
    if i + 1 < |es| {
      InnerChildHi(heap, row, j, i);
    } else {
      LastChildHi(heap, row, j, i);
    }
  }

  lemma InnerChildHi(heap: Heap, row: Row, j: nat, i: nat)
    requires Parents(heap, row) && j < |row| && i + 1 < |heap[row[j].page].seps|
    ensures SlotHi(Expand(heap, row), Offset(heap, row, j) + i) == Some(heap[row[j].page].seps[i + 1].key)
  {
    ChildSlot(heap, row, j, i + 1);
  }

  lemma LastChildHi(heap: Heap, row: Row, j: nat, i: nat)
    requires Parents(heap, row) && j < |row| && i + 1 == |heap[row[j].page].seps|
    ensures SlotHi(Expand(heap, row), Offset(heap, row, j) + i) == SlotHi(row, j)
  {
    NextChildSlot(heap, row, j);
  }

  /** The separators of a node strictly increase inside the interval of its slot. */
  lemma SeparatorsInside(heap: Heap, row: Row, j: nat, i: nat)
    requires Parents(heap, row) && RowSorted(Expand(heap, row)) && j < |row| && 0 < i < |heap[row[j].page].seps|
    ensures Lt(row[j].lo, heap[row[j].page].seps[i].key)
    ensures Inside(heap[row[j].page].seps[i].key, row[j].lo, SlotHi(row, j))
  {
    LtOrder();
    ChildSlot(heap, row, j, 0);
    ChildSlot(heap, row, j, i);
    NextChildSlot(heap, row, j);
  }

  lemma SeparatorsSorted(heap: Heap, row: Row, j: nat)
    requires Parents(heap, row) && RowSorted(Expand(heap, row)) && j < |row|
    ensures Sorted(SepKeys(heap[row[j].page].seps))
  {
    var es := heap[row[j].page].seps;
    LtOrder();
    forall a, b | 0 <= a < b < |es| ensures Lt(es[a].key, es[b].key) {
      if a > 0 {
        ChildSlot(heap, row, j, a);
        ChildSlot(heap, row, j, b);
      }
    }
  }

  /** Every slot of every row is the root of a subtree over its interval. */
  lemma {:induction false} SubtreeAt(t: Tree, m: nat, j: nat)
    requires Whole(t) && m < |t.rows| && j < |t.rows[m]|
    ensures Subtree(t.heap, t.rows[m][j].page, m, t.rows[m][j].lo, SlotHi(t.rows[m], j))
    decreases m, 1
  {
    var p := t.rows[m][j].page;
    assert KindAt(t.heap, t.rows, m, j) && PageOk(t.heap, p, t.limit);
    if m == 0 {
      assert LeafOk(t.heap, t.rows[0], j);
      LeafSubtree(t.heap, t.rows[0], j);
    } else {
      InnerSubtree(t, m, j);
    }
  }

  lemma LeafSubtree(heap: Heap, row: Row, j: nat)
    requires j < |row| && row[j].page in heap && heap[row[j].page].Leaf? && LeafOk(heap, row, j)
    ensures Subtree(heap, row[j].page, 0, row[j].lo, SlotHi(row, j))
  {
    forall i | 0 <= i < |heap[row[j].page].entries|
      ensures Inside(heap[row[j].page].entries[i].key, row[j].lo, SlotHi(row, j))
    {
      assert InSlot(row, j, heap[row[j].page].entries[i].key);
    }
  }

  lemma InnerNode(heap: Heap, row: Row, j: nat)
    requires Parents(heap, row) && RowSorted(Expand(heap, row)) && j < |row|
    ensures Sorted(SepKeys(heap[row[j].page].seps))
    ensures forall i :: 0 < i < |heap[row[j].page].seps| ==>
      Inside(heap[row[j].page].seps[i].key, row[j].lo, SlotHi(row, j))
  {
    SeparatorsSorted(heap, row, j);
    forall i | 0 < i < |heap[row[j].page].seps|
      ensures Inside(heap[row[j].page].seps[i].key, row[j].lo, SlotHi(row, j))
    {
      SeparatorsInside(heap, row, j, i);
    }
  }

  lemma {:induction false} InnerSubtree(t: Tree, m: nat, j: nat)
    requires Whole(t) && 0 < m < |t.rows| && j < |t.rows[m]|
    requires PageOk(t.heap, t.rows[m][j].page, t.limit)
    ensures Subtree(t.heap, t.rows[m][j].page, m, t.rows[m][j].lo, SlotHi(t.rows[m], j))
    decreases m, 0
  {
    var row, below := t.rows[m], m - 1;
    RowParents(t.heap, t.rows, t.limit, m);
    LinkedBelow(t.heap, t.rows, m);
    assert SortedAt(t.rows, below);
    InnerNode(t.heap, row, j);
    var es := t.heap[row[j].page].seps;
    forall i | 0 <= i < |es|
      ensures Subtree(t.heap, es[i].child, m - 1, ChildLo(es, row[j].lo, i), ChildHi(es, SlotHi(row, j), i))
    {
      ChildSubtree(t, m, j, i, es);
    }
  }

  lemma {:induction false} ChildSubtree(t: Tree, m: nat, j: nat, i: nat, es: seq<InternalEntry>)
    requires Whole(t) && 0 < m < |t.rows| && j < |t.rows[m]|
    requires Parents(t.heap, t.rows[m]) && Expand(t.heap, t.rows[m]) == t.rows[m - 1]
    requires es == t.heap[t.rows[m][j].page].seps && i < |es|
    ensures Subtree(t.heap, es[i].child, m - 1, ChildLo(es, t.rows[m][j].lo, i), ChildHi(es, SlotHi(t.rows[m], j), i))
    decreases m - 1, 2
  {
    var at := Offset(t.heap, t.rows[m], j) + i;
    ChildBounds(t.heap, t.rows[m], t.rows[m - 1], j, i, at, es);
    SubtreeAt(t, m - 1, at);
  }

  // ---------------------------------------------------------------- in-order leaves

  /** The leaf pages below page `p`, from left to right. */
  function InOrder(heap: Heap, p: nat, level: nat): seq<nat>
    decreases level, 1, 0
  {
    if level == 0 then [p]
    else if p in heap && heap[p].Internal? then InOrderAll(heap, heap[p].seps, level - 1) else []
  }

  function InOrderAll(heap: Heap, es: seq<InternalEntry>, level: nat): seq<nat>
    decreases level, 2, |es|
  {
    if es == [] then [] else InOrder(heap, es[0].child, level) + InOrderAll(heap, es[1..], level)
  }

  function InOrderRow(heap: Heap, row: Row, level: nat): seq<nat> {
    if row == [] then [] else InOrder(heap, row[0].page, level) + InOrderRow(heap, row[1..], level)
  }

  lemma {:induction false} InOrderRowAppend(heap: Heap, a: Row, b: Row, level: nat)
    ensures InOrderRow(heap, a + b, level) == InOrderRow(heap, a, level) + InOrderRow(heap, b, level)
  {
    if a == [] { assert a + b == b; }
    else { assert (a + b)[1..] == a[1..] + b; InOrderRowAppend(heap, a[1..], b, level); }
  }

  lemma {:induction false} InOrderChildren(heap: Heap, es: seq<InternalEntry>, lo: Key, level: nat)
    ensures InOrderAll(heap, es, level) == InOrderRow(heap, Children(es, lo), level)
  {
    if es != [] {
      var c := Children(es, lo);
      assert forall i :: 0 < i < |c| ==> c[i].page == es[i].child;
      var d := Children(es[1..], lo);
      InOrderChildren(heap, es[1..], lo, level);
      InOrderPages(heap, c[1..], d, level);
    }
  }

  lemma {:induction false} InOrderPages(heap: Heap, a: Row, b: Row, level: nat)
    requires |a| == |b| && forall i :: 0 <= i < |a| ==> a[i].page == b[i].page
    ensures InOrderRow(heap, a, level) == InOrderRow(heap, b, level)
  {
    if a != [] { InOrderPages(heap, a[1..], b[1..], level); }
  }

  /** Reading a row in order is reading the row of its children in order. */
  lemma {:induction false} InOrderExpand(heap: Heap, row: Row, level: nat)
    requires Parents(heap, row)
    ensures InOrderRow(heap, row, level + 1) == InOrderRow(heap, Expand(heap, row), level)
  {
    if row != [] {
      InOrderChildren(heap, heap[row[0].page].seps, row[0].lo, level);
      InOrderRowAppend(heap, ChildrenAt(heap, row[0]), Expand(heap, row[1..]), level);
      InOrderExpand(heap, row[1..], level);
    }
  }

  function Pages(row: Row): seq<nat> {
    seq(|row|, i requires 0 <= i < |row| => row[i].page)
  }

  lemma {:induction false} InOrderLeaves(heap: Heap, row: Row)
    ensures InOrderRow(heap, row, 0) == Pages(row)
  {
    if row != [] {
      InOrderLeaves(heap, row[1..]);
      assert Pages(row) == [row[0].page] + Pages(row[1..]);
    }
  }

  lemma {:induction false} InOrderRows(t: Tree, m: nat)
    requires Whole(t) && m < |t.rows|
    ensures InOrderRow(t.heap, t.rows[m], m) == Pages(t.rows[0])
  {
    if m == 0 {
      InOrderLeaves(t.heap, t.rows[0]);
    } else {
      RowParents(t.heap, t.rows, t.limit, m);
      LinkedBelow(t.heap, t.rows, m);
      InOrderExpand(t.heap, t.rows[m], m - 1);
      InOrderRows(t, m - 1);
    }
  }

  ghost predicate Neighbours(heap: Heap, leaves: seq<nat>, i: nat)
    requires i < |leaves|
  {
    && leaves[i] in heap
    && heap[leaves[i]].right == (if i + 1 < |leaves| then leaves[i + 1] else 0)
    && heap[leaves[i]].left == (if i > 0 then leaves[i - 1] else 0)
  }

  /** The sibling links of each leaf are its neighbours in the list, 0 at the ends. */
  ghost predicate LinkedBothWays(heap: Heap, leaves: seq<nat>) {
    forall i {:trigger Neighbours(heap, leaves, i)} :: 0 <= i < |leaves| ==> Neighbours(heap, leaves, i)
  }

  // ---------------------------------------------------------------- each page once

  function ChildPages(heap: Heap, p: nat): seq<nat> {
    if p in heap && heap[p].Internal?
    then seq(|heap[p].seps|, i requires 0 <= i < |heap[p].seps| => heap[p].seps[i].child) else []
  }

  function Below(heap: Heap, ps: seq<nat>): seq<nat> {
    if ps == [] then [] else ChildPages(heap, ps[0]) + Below(heap, ps[1..])
  }

  /** The pages reached from `ps` going down `level` levels, each as often as it is reached. */
  ghost function Reached(heap: Heap, ps: seq<nat>, level: nat): multiset<nat>
    decreases level
  {
    multiset(ps) + if level == 0 then multiset{} else Reached(heap, Below(heap, ps), level - 1)
  }

  lemma {:induction false} BelowRow(heap: Heap, row: Row)
    ensures Below(heap, Pages(row)) == Pages(Expand(heap, row))
  {
    if row != [] {
      assert Pages(row)[0] == row[0].page && Pages(row)[1..] == Pages(row[1..]);
      assert Pages(ChildrenAt(heap, row[0])) == ChildPages(heap, row[0].page);
      BelowRow(heap, row[1..]);
      var a, b := ChildrenAt(heap, row[0]), Expand(heap, row[1..]);
      assert Pages(a + b) == Pages(a) + Pages(b);
    }
  }

  /** The pages of rows 0 to `m`, with repetitions. */
  ghost function RowPagesUpTo(rows: seq<Row>, m: nat): multiset<nat>
    requires m < |rows|
  {
    multiset(Pages(rows[m])) + if m == 0 then multiset{} else RowPagesUpTo(rows, m - 1)
  }

  lemma {:induction false} ReachedRows(t: Tree, m: nat)
    requires Whole(t) && m < |t.rows|
    ensures Reached(t.heap, Pages(t.rows[m]), m) == RowPagesUpTo(t.rows, m)
  {
    hide Whole, Below, Pages;
    if m > 0 {
      RowBelow(t, m);
      ReachedRows(t, m - 1);
    }
  }

  lemma RowBelow(t: Tree, m: nat)
    requires Whole(t) && 0 < m < |t.rows|
    ensures Below(t.heap, Pages(t.rows[m])) == Pages(t.rows[m - 1])
  {
    LinkedBelow(t.heap, t.rows, m);
    BelowRow(t.heap, t.rows[m]);
  }

  lemma {:induction false} CountDistinct(s: seq<nat>, p: nat)
    requires forall i, j :: 0 <= i < j < |s| ==> s[i] != s[j]
    ensures multiset(s)[p] == if p in s then 1 else 0
  {
    if s != [] {
      CountDistinct(s[1..], p);
      assert s == [s[0]] + s[1..];
    }
  }

  ghost predicate PlacedUpTo(rows: seq<Row>, m: nat, p: nat) {
    exists r, i :: 0 <= r <= m && r < |rows| && 0 <= i < |rows[r]| && rows[r][i].page == p
  }

  lemma {:induction false} CountRows(rows: seq<Row>, m: nat, p: nat)
    requires Distinct(rows) && m < |rows|
    ensures RowPagesUpTo(rows, m)[p] == if PlacedUpTo(rows, m, p) then 1 else 0
  {
    var ps := Pages(rows[m]);
    forall i, j | 0 <= i < j < |ps| ensures ps[i] != ps[j] { assert DistinctAt(rows, m, i, m, j); }
    CountDistinct(ps, p);
    if m > 0 {
      CountRows(rows, m - 1, p);
    }
    if p in ps {
      var i :| 0 <= i < |ps| && ps[i] == p;
      assert rows[m][i].page == p;
      forall r: nat, j: nat | r < m && j < |rows[r]| ensures rows[r][j].page != p {
        assert DistinctAt(rows, m, i, r, j);
      }
    } else {
      assert forall i :: 0 <= i < |rows[m]| ==> rows[m][i].page == ps[i];
    }
  }

  lemma EachOnce(t: Tree, p: nat)
    requires Whole(t)
    ensures Reached(t.heap, [t.root], |t.rows| - 1)[p] == if 1 <= p < t.next then 1 else 0
  {
    var top := |t.rows| - 1;
    assert Pages(t.rows[top]) == [t.root];
    ReachedRows(t, top);
    CountRows(t.rows, top, p);
    assert UsedAt(t.heap, t.rows, t.next, p);
    if PlacedUpTo(t.rows, top, p) {
      var r, i :| 0 <= r <= top && 0 <= i < |t.rows[r]| && t.rows[r][i].page == p;
      assert KindAt(t.heap, t.rows, r, i);
    } else {
      assert !Placed(t.rows, p);
    }
  }

  /**
   * In a whole tree the root is a B+ tree over all keys with every leaf at the same depth, the pages
   * reached from it are 1 to `next` - 1, each exactly once, and the sibling chain is the in-order list
   * of leaves.
   */
  lemma WholeMeaning(t: Tree)
    requires Whole(t)
    ensures Subtree(t.heap, t.root, |t.rows| - 1, [], None)
    ensures InOrder(t.heap, t.root, |t.rows| - 1) == Pages(t.rows[0]) && LinkedBothWays(t.heap, Pages(t.rows[0]))
    ensures forall p: nat :: p in t.heap <==> 1 <= p < t.next
    ensures Reached(t.heap, [t.root], |t.rows| - 1) == multiset(PagesBelow(t.next))
  {
    var top := |t.rows| - 1;
    SubtreeAt(t, top, 0);
    InOrderRows(t, top);
    assert t.rows[top] == [Slot(t.root, [])];
    InOrderOne(t.heap, Slot(t.root, []), top);
    ChainMeaning(t);
    forall p: nat ensures p in t.heap <==> 1 <= p < t.next {
      assert UsedAt(t.heap, t.rows, t.next, p);
    }
    forall p: nat ensures Reached(t.heap, [t.root], top)[p] == multiset(PagesBelow(t.next))[p] {
      EachOnce(t, p);
    }
  }

  lemma InOrderOne(heap: Heap, s: Slot, level: nat)
    ensures InOrderRow(heap, [s], level) == InOrder(heap, s.page, level)
  {
    assert [s][1..] == [];
  }

  lemma ChainMeaning(t: Tree)
    requires Whole(t)
    ensures LinkedBothWays(t.heap, Pages(t.rows[0]))
  {
    var leaves := Pages(t.rows[0]);
    forall i | 0 <= i < |leaves| ensures Neighbours(t.heap, leaves, i) {
      assert ChainedAt(t.heap, t.rows[0], i);
    }
  }
}
