/**
 * Insert and delete as functions of the pages alone: the descent follows the children stored in the
 * nodes, and a split is handed up along the path. The result is the new file, or nothing when a node
 * with its new entry no longer fits its page. Where a path leads to no node of the right kind, the file is
 * left as it is.
 */
module BTreeFiles {
  import opened Bytes
  import opened BTreeNodes
  import opened BTreeCodec
  import opened Wrappers
  import opened BTreeRows
  import opened BTreeEntries
  import opened BTreeGrowth
  import opened BTreeLeaves
  import opened BTreePaths
  import opened BTreeSteps

  /** The nodes by page, and what the meta page says of them. */
  datatype File = File(heap: Heap, root: nat, height: nat, next: nat)

  function FileOf(t: Tree): File {
    File(t.heap, t.root, |t.rows|, t.next)
  }

  /** A new file: an empty leaf as root. */
  function FreshFile(): File {
    File(map[1 := Leaf(0, 0, [])], 1, 1, 2)
  }

  /** The pages from `page` down to the leaf for `key`. */
  function PathTo(heap: Heap, page: nat, key: Key, height: nat): (path: seq<nat>)
    ensures path != []
    decreases height
  {
    if height <= 1 || page !in heap || heap[page].Leaf? || heap[page].seps == [] then [page]
    else [page] + PathTo(heap, heap[page].seps[ChildPosition(heap[page].seps, key)].child, key, height - 1)
  }

  function PathOf(f: File, key: Key): (path: seq<nat>)
    ensures path != []
  {
    PathTo(f.heap, f.root, key, f.height)
  }

  predicate HasKey(es: seq<LeafEntry>, key: Key) {
    var p := LowerBound(Keys(es), key);
    p < |es| && es[p].key == key
  }

  /** Hands slot `x` to the last page of `path`; a node that becomes full is split in turn. */
  function Raised(f: File, path: seq<nat>, x: Slot): Option<File>
    decreases |path|
  {
    if path == [] then Some(File(f.heap[f.next := NewRoot(f.root, x)], f.next, f.height + 1, f.next + 1))
    else
      var page := path[|path| - 1];
      if page !in f.heap || f.heap[page].Leaf? || f.heap[page].seps == [] then Some(f)
      else
        var n := Enlarged(f.heap[page], x);
        if EncodedSize(n) > PAGE_SIZE then None
        else if !IsFull(n) then Some(File(f.heap[page := n], f.root, f.height, f.next))
        else
          var halved := f.heap[page := InternalLeftHalf(n)][f.next := InternalRightHalf(n)];
          Raised(File(halved, f.root, f.height, f.next + 1), path[..|path| - 1], PromotedSlot(n, f.next))
  }

  /** The leaf at the end of `path` takes a new entry, and is split if that makes it full. */
  function PutNew(f: File, path: seq<nat>, e: LeafEntry): Option<File>
    requires path != [] && path[|path| - 1] in f.heap && f.heap[path[|path| - 1]].Leaf?
  {
    var page := path[|path| - 1];
    var n := Grown(f.heap[page], e);
    if EncodedSize(n) > PAGE_SIZE then None
    else if !IsFull(n) then Some(File(f.heap[page := n], f.root, f.height, f.next))
    else
      var split := File(Relinked(f.heap, page, n, f.next), f.root, f.height, f.next + 1);
      Raised(split, path[..|path| - 1], RightSlot(n, f.next))
  }

  function PutInto(f: File, path: seq<nat>, e: LeafEntry): Option<File>
    requires path != []
  {
    var page := path[|path| - 1];
    if page !in f.heap || f.heap[page].Internal? || HasKey(f.heap[page].entries, e.key) then Some(f)
    else PutNew(f, path, e)
  }

  function Inserted(f: File, e: LeafEntry): Option<File> {
    PutInto(f, PathOf(f, e.key), e)
  }

  /** The leaf at `page` without the key. */
  function TakenFrom(f: File, page: nat, key: Key): File {
    if page !in f.heap || f.heap[page].Internal? || !HasKey(f.heap[page].entries, key) then f
    else
      var n := f.heap[page];
      var rest := RemoveAt(n.entries, LowerBound(Keys(n.entries), key));
      File(f.heap[page := Leaf(n.right, n.left, rest)], f.root, f.height, f.next)
  }

  function Removed(f: File, key: Key): File {
    TakenFrom(f, PathOf(f, key)[|PathOf(f, key)| - 1], key)
  }

  // ---------------------------------------------------------------- runs

  datatype Op =
    | Put(key: Key, tid: Tid)
    | Drop(key: Key)
    | Get(key: Key)
    | Scan(start: Option<Key>, end: Option<Key>)
    | Size

  predicate OpOk(op: Op, limit: nat) {
    op.Put? ==> EntryOk(LeafEntry(op.key, op.tid), limit)
  }

  function Applied(f: File, op: Op): Option<File> {
    match op
    case Put(k, t) => Inserted(f, LeafEntry(k, t))
    case Drop(k) => Some(Removed(f, k))
    case _ => Some(f)
  }

  /** The file after the operations, unless one of them overflows a page. */
  function FileAfter(f: File, ops: seq<Op>): Option<File> {
    if ops == [] then Some(f)
    else
      var before := FileAfter(f, ops[..|ops| - 1]);
      if before.None? then None else Applied(before.value, ops[|ops| - 1])
  }

  // ---------------------------------------------------------------- whole trees stay whole

  lemma HasKeyMeaning(es: seq<LeafEntry>, key: Key)
    requires Sorted(Keys(es))
    ensures HasKey(es, key) <==> key in ToMap(es)
    ensures forall i :: 0 <= i < |es| && es[i].key == key ==> i == LowerBound(Keys(es), key)
  {
    var ks, p := Keys(es), LowerBound(Keys(es), key);
    LtOrder();
    ToMapKeys(es, key);
    forall i | 0 <= i < |es| && es[i].key == key ensures i == p {
      assert ks[i] == key;
      if p < i {
        assert false;
      }
    }
  }

  /** One step of the descent leads to the slot below that holds the key. */
  lemma StepBelow(t: Tree, key: Key, level: nat, j: nat) returns (j': nat)
    requires Whole(t) && 0 < level < |t.rows| && Locates(t.rows[level], j, key)
    ensures Locates(t.rows[level - 1], j', key)
    ensures var page, child := t.rows[level][j].page, t.rows[level - 1][j'].page;
            PathTo(t.heap, page, key, level + 1) == [page] + PathTo(t.heap, child, key, level)
  {
    InnerSlot(t.heap, t.rows, t.limit, level, j);
    var es := t.heap[t.rows[level][j].page].seps;
    DescendRows(t.heap, t.rows, t.limit, level, j, key, es);
    j' := Offset(t.heap, t.rows[level], j) + ChildPosition(es, key);
  }

  /** The path by children is the path by slots. */
  lemma {:induction false} PathBelow(t: Tree, key: Key, level: nat, j: nat) returns (pos: seq<nat>)
    requires Whole(t) && level < |t.rows| && Locates(t.rows[level], j, key)
    ensures var path := PathTo(t.heap, t.rows[level][j].page, key, level + 1);
            |path| == |pos| == level + 1 && PathOk(t.rows[..level + 1], key, path, pos)
  {
    hide Whole, PathOk, InSlot, ChildPosition;
    if level == 0 {
      pos := [j];
      PathStart(t.rows[..1], key, t.rows[0][j].page, j);
    } else {
      var j' := StepBelow(t, key, level, j);
      var below := PathBelow(t, key, level - 1, j');
      pos := [j] + below;
      assert t.rows[..level + 1][..level] == t.rows[..level] && pos[1..] == below;
      PathPrepend(t.rows[..level + 1], key, PathTo(t.heap, t.rows[level][j].page, key, level + 1), pos);
    }
  }

  lemma PathPrepend(rows: seq<Row>, key: Key, path: seq<nat>, pos: seq<nat>)
    requires |path| == |pos| == |rows| > 1
    requires PathOk(rows[..|rows| - 1], key, path[1..], pos[1..])
    requires Locates(rows[|rows| - 1], pos[0], key) && path[0] == rows[|rows| - 1][pos[0]].page
    ensures PathOk(rows, key, path, pos)
  {
    forall d | 0 <= d < |path| ensures PathAt(rows, key, path, pos, d) {
      if d > 0 {
        var c := d - 1;
        assert PathAt(rows[..|rows| - 1], key, path[1..], pos[1..], c);
      }
    }
  }

  lemma PathOfWhole(t: Tree, key: Key) returns (pos: seq<nat>)
    requires Whole(t)
    ensures var path := PathOf(FileOf(t), key);
            |path| == |t.rows| && PathOk(t.rows, key, path, pos)
  {
    RootLocates(t.heap, t.rows, t.root, key);
    pos := PathBelow(t, key, |t.rows| - 1, 0);
    assert t.rows[..|t.rows|] == t.rows;
  }

  /** Handing up a pending slot makes the tree whole again, and no page overflows. */
  lemma {:induction false} RaisedWhole(t: Tree, path: seq<nat>, pos: seq<nat>, idx: nat, hole: nat, key: Key, x: Slot)
    returns (t': Tree)
    requires idx < |path| == |t.rows| && Pending(t, |path| - 1 - idx, hole, key, x)
    requires PathAbove(t.rows, key, path, pos, idx)
    requires t.next + idx < 0x1_0000_0000 && U32(t.root)
    ensures Raised(FileOf(t), path[..idx], x) == Some(FileOf(t')) && Whole(t') && t'.limit == t.limit
    ensures AllEntries(t') == AllEntries(t) && Leaves(t') == Leaves(t)
    decreases idx
  {
    hide Whole, Pending, EncodedSize, InsertAt, InSlot, Entries, InternalLeftHalf, InternalRightHalf;
    if idx == 0 {
      assert path[..idx] == [];
      PendingNext(t, hole, key, x);
      RootTreeStep(t, hole, key, x);
      t' := RootTree(t, x);
    } else {
      var level, page := |path| - 1 - idx, path[idx - 1];
      assert PathAt(t.rows, key, path, pos, idx - 1) && path[..idx][..idx - 1] == path[..idx - 1];
      ParentStep(t, level, hole, key, x, pos[idx - 1], page);
      ParentChildren(t, level, pos[idx - 1], hole, key, x);
      var n := Enlarged(t.heap[page], x);
      if !IsFull(n) {
        AbsorbTree(t, level, hole, key, x, pos[idx - 1], page, n);
        t' := WithPage(t, page, n);
      } else {
        var t1 := ParentSplitTree(t, page, n, level + 1, pos[idx - 1]);
        SplitParentTree(t, level, hole, key, x, pos[idx - 1], page, n, t1);
        PathAboveKept(t.rows, key, path, pos, idx - 1, level + 1, t1.rows[level + 1]);
        t' := RaisedWhole(t1, path, pos, idx - 1, pos[idx - 1] + 1, key, PromotedSlot(n, t.next));
      }
    }
  }

  lemma PendingNext(t: Tree, hole: nat, key: Key, x: Slot)
    requires t.rows != [] && Pending(t, |t.rows| - 1, hole, key, x)
    ensures t.next >= 1
  {
    assert KindAt(t.heap, t.rows, |t.rows| - 1, hole);
    assert UsedAt(t.heap, t.rows, t.next, x.page);
  }

  lemma ParentChildren(t: Tree, level: nat, p: nat, hole: nat, key: Key, x: Slot)
    requires Pending(t, level, hole, key, x) && level + 1 < |t.rows| && p < |t.rows[level + 1]|
    ensures var page := t.rows[level + 1][p].page;
            page in t.heap && t.heap[page].Internal? && t.heap[page].seps != []
  {
    InnerSlot(t.heap, t.rows, t.limit, level + 1, p);
  }

  /** After a leaf split the steps of the path above the leaves are as before. */
  lemma AboveLeaves(rows: seq<Row>, rows': seq<Row>, key: Key, path: seq<nat>, pos: seq<nat>)
    requires rows != [] && |rows'| == |rows| == |path| && PathOk(rows, key, path, pos) && rows'[1..] == rows[1..]
    ensures PathAbove(rows', key, path, pos, |path| - 1)
  {
    forall d | 0 <= d < |path| - 1 ensures PathAt(rows', key, path, pos, d) {
      assert PathAt(rows, key, path, pos, d);
      var m := |rows| - 1 - d;
      assert rows'[m] == rows'[1..][m - 1] == rows[1..][m - 1] == rows[m];
    }
  }

  lemma RootUsed(t: Tree)
    requires Whole(t)
    ensures 1 <= t.root < t.next
  {
    assert KindAt(t.heap, t.rows, |t.rows| - 1, 0) && UsedAt(t.heap, t.rows, t.next, t.root);
  }

  /** The path of a key ends in the leaf whose slot holds it. */
  lemma PathLeaf(t: Tree, key: Key, path: seq<nat>, pos: seq<nat>) returns (j: nat)
    requires Whole(t) && |path| == |t.rows| && PathOk(t.rows, key, path, pos)
    ensures path != [] && AtLeaf(t, j, key, path[|path| - 1])
    ensures Sorted(Keys(t.heap[path[|path| - 1]].entries))
  {
    PathEnd(t.rows, key, path, pos);
    j := pos[|t.rows| - 1];
    assert KindAt(t.heap, t.rows, 0, j) && LeafOk(t.heap, t.rows[0], j);
  }

  lemma SplitWhole(t: Tree, path: seq<nat>, pos: seq<nat>, j: nat, e: LeafEntry, n: Node) returns (t': Tree)
    requires Whole(t) && EntryOk(e, t.limit) && t.next + |t.rows| < 0x1_0000_0000
    requires path != [] && |path| == |t.rows| && PathOk(t.rows, e.key, path, pos)
    requires AtLeaf(t, j, e.key, path[|path| - 1])
    requires e.key !in ToMap(t.heap[path[|path| - 1]].entries) && n == Grown(t.heap[path[|path| - 1]], e)
    requires EncodedSize(n) <= PAGE_SIZE && IsFull(n)
    ensures Raised(File(Relinked(t.heap, path[|path| - 1], n, t.next), t.root, |t.rows|, t.next + 1),
                   path[..|path| - 1], RightSlot(n, t.next)) == Some(FileOf(t'))
    ensures Whole(t') && t'.limit == t.limit
    ensures AllEntries(t') == InsertLeafEntry(AllEntries(t), e) && |Leaves(t')| == |Leaves(t)| + 1
  {
    hide Whole, Pending, Raised, Relinked, EncodedSize, PathOk, LeafSplitTree, FileOf, RightSlot, AllEntries, AtLeaf;
    RootUsed(t);
    var t1 := LeafSplitTree(t, path[|path| - 1], n, j);
    SplitFile(t, path[|path| - 1], n, j);
    SplitLeafStep(t, j, e, path[|path| - 1], n, t1);
    AboveLeaves(t.rows, t1.rows, e.key, path, pos);
    t' := RaisedWhole(t1, path, pos, |path| - 1, j + 1, e.key, RightSlot(n, t.next));
  }

  lemma SplitFile(t: Tree, page: nat, n: Node, j: nat)
    requires n.Leaf? && n.entries != [] && t.rows != []
    ensures var t1 := LeafSplitTree(t, page, n, j);
            && FileOf(t1) == File(Relinked(t.heap, page, n, t.next), t.root, |t.rows|, t.next + 1)
            && t1.rows[1..] == t.rows[1..] && |t1.rows| == |t.rows| && t1.root == t.root && t1.limit == t.limit
            && t1.next == t.next + 1
  {
  }

  /** Inserting never overflows a page of a whole tree, and leaves it whole. */
  lemma InsertedWhole(t: Tree, e: LeafEntry) returns (t': Tree)
    requires Whole(t) && EntryOk(e, t.limit) && t.next + |t.rows| < 0x1_0000_0000
    ensures Inserted(FileOf(t), e) == Some(FileOf(t')) && Whole(t') && t'.limit == t.limit
    ensures ToMap(AllEntries(t')) == Next(ToMap(AllEntries(t)), Put(e.key, e.tid))
    ensures |Leaves(t')| <= |Leaves(t)| + 1 && |AllEntries(t')| <= |AllEntries(t)| + 1
  {
    hide Whole, PathOk, AtLeaf, HasKey, LowerBound, EncodedSize, InsertAt, Raised, PathOf, AllEntries, Relinked;
    var path := PathOf(FileOf(t), e.key);
    var pos, j := LeafOf(t, e.key, path);
    var page := path[|path| - 1];
    if !HasKey(t.heap[page].entries, e.key) {
      var n := Grown(t.heap[page], e);
      PutStep(t, j, e, page, n);
      InsertedMap(t, e);
      if !IsFull(n) {
        t' := WithPage(t, page, n);
      } else {
        t' := SplitWhole(t, path, pos, j, e, n);
      }
    } else {
      t' := t;
    }
  }

  /** The leaf for a key is where the key is, if it is anywhere. */
  lemma LeafOf(t: Tree, key: Key, path: seq<nat>) returns (pos: seq<nat>, j: nat)
    requires Whole(t) && path == PathOf(FileOf(t), key)
    ensures |path| == |t.rows| && PathOk(t.rows, key, path, pos) && AtLeaf(t, j, key, path[|path| - 1])
    ensures var es := t.heap[path[|path| - 1]].entries;
            && Sorted(Keys(es)) && (HasKey(es, key) <==> key in ToMap(es))
            && (HasKey(es, key) <==> key in ToMap(AllEntries(t)))
  {
    pos := PathOfWhole(t, key);
    j := PathLeaf(t, key, path, pos);
    HasKeyMeaning(t.heap[path[|path| - 1]].entries, key);
    LeafDecides(t, j, key, path[|path| - 1]);
  }

  /** Whether its leaf has the key decides whether the tree has it. */
  lemma LeafDecides(t: Tree, j: nat, key: Key, page: nat)
    requires Whole(t) && AtLeaf(t, j, key, page)
    ensures key in ToMap(t.heap[page].entries) <==> key in ToMap(AllEntries(t))
  {
    assert SortedAt(t.rows, 0) && LeafOk(t.heap, t.rows[0], j);
    LookupInLeaf(t.heap, t.rows[0], j, key);
  }

  /** Deleting leaves a whole tree whole. */
  lemma RemovedWhole(t: Tree, key: Key) returns (t': Tree)
    requires Whole(t)
    ensures Removed(FileOf(t), key) == FileOf(t') && Whole(t') && t'.limit == t.limit && t'.rows == t.rows
    ensures ToMap(AllEntries(t')) == ToMap(AllEntries(t)) - {key} && |AllEntries(t')| <= |AllEntries(t)|
  {
    var path := PathOf(FileOf(t), key);
    var pos, j := LeafOf(t, key, path);
    var page := path[|path| - 1];
    var n := t.heap[page];
    var i := LowerBound(Keys(n.entries), key);
    if HasKey(n.entries, key) {
      t' := WithPage(t, page, Leaf(n.right, n.left, RemoveAt(n.entries, i)));
      hide Whole, PathOk, AtLeaf, LowerBound, AllEntries, ToMap;
      TakeStep(t, j, key, page, i, t'.heap[page]);
    } else {
      t' := t;
      assert ToMap(AllEntries(t)) - {key} == ToMap(AllEntries(t));
    }
  }

  /** There is only one path for a key. */
  lemma PathUnique(t: Tree, key: Key, path: seq<nat>, pos: seq<nat>)
    requires Whole(t) && |path| == |t.rows| && PathOk(t.rows, key, path, pos)
    ensures path == PathOf(FileOf(t), key)
  {
    var pos' := PathOfWhole(t, key);
    var path' := PathOf(FileOf(t), key);
    hide PathOf;
    forall d | 0 <= d < |path| ensures path[d] == path'[d] {
      assert PathAt(t.rows, key, path, pos, d) && PathAt(t.rows, key, path', pos', d);
      assert SortedAt(t.rows, |t.rows| - 1 - d);
      LocatesUnique(t.rows[|t.rows| - 1 - d], pos[d], pos'[d], key);
    }
  }

  // ---------------------------------------------------------------- runs from a new file

  function FreshTree(limit: nat): Tree {
    Tree(map[1 := Leaf(0, 0, [])], [[Slot(1, [])]], 1, 2, limit)
  }

  lemma FreshTreeOk(limit: nat)
    requires limit <= MAX_KEY
    ensures Whole(FreshTree(limit)) && AllEntries(FreshTree(limit)) == [] && FileOf(FreshTree(limit)) == FreshFile()
  {
    var t := FreshTree(limit);
    EntriesOne(t.heap, Slot(1, []));
    forall p: nat ensures UsedAt(t.heap, t.rows, 2, p) {
      if p == 1 { assert t.rows[0][0].page == p; }
    }
  }

  /** What each operation does to the map. */
  function Next(m: map<Key, Tid>, op: Op): map<Key, Tid> {
    match op
    case Put(k, t) => if k in m then m else m[k := t]
    case Drop(k) => m - {k}
    case _ => m
  }

  /** The map after the first operations of a run. */
  function After(ops: seq<Op>): map<Key, Tid> {
    if ops == [] then map[] else Next(After(ops[..|ops| - 1]), ops[|ops| - 1])
  }

  /** The operations of a run, few enough that page numbers stay within 32 bits. */
  ghost predicate RunOk(ops: seq<Op>, limit: nat) {
    |ops| < 0x3FFF_FFFF && forall i :: 0 <= i < |ops| ==> OpOk(ops[i], limit)
  }

  /** A whole tree that file `f` stores after `n` operations, and whose map is `m`. */
  ghost predicate Holds(t: Tree, f: File, m: map<Key, Tid>, n: nat, limit: nat) {
    && FileOf(t) == f && Whole(t) && t.limit == limit && ToMap(AllEntries(t)) == m
    && |Leaves(t)| <= n + 1 && |AllEntries(t)| <= n
  }

  /** So many operations have left room for the page numbers of one more. */
  lemma RoomAfter(t: Tree)
    requires Whole(t) && |Leaves(t)| <= 0x3FFF_FFFF
    ensures t.next + |t.rows| + 1 < 0x1_0000_0000
  {
    PageBound(t.heap, t.rows, Meta(t.root, |t.rows|, |AllEntries(t)|, t.next), t.limit);
  }

  lemma AppliedHolds(t: Tree, f: File, m: map<Key, Tid>, n: nat, limit: nat, op: Op) returns (t': Tree)
    requires Holds(t, f, m, n, limit) && n < 0x3FFF_FFFF && OpOk(op, limit)
    ensures Applied(f, op).Some? && Holds(t', Applied(f, op).value, Next(m, op), n + 1, limit)
  {
    hide Whole, AllEntries, Leaves, Inserted, Removed;
    match op
    case Put(k, tid) =>
      RoomAfter(t);
      t' := InsertedWhole(t, LeafEntry(k, tid));
    case Drop(k) =>
      t' := RemovedWhole(t, k);
      assert Leaves(t') == Leaves(t) by { SameLeaves(t, t'); }
    case _ =>
      t' := t;
  }

  lemma SameLeaves(t: Tree, t': Tree)
    requires t.rows == t'.rows
    ensures Leaves(t) == Leaves(t')
  {
  }

  /** With keys of at most 252 bytes no run overflows a page, and the file stores a tree that holds the map. */
  lemma {:induction false} RunHolds(ops: seq<Op>, limit: nat) returns (t: Tree)
    requires limit <= MAX_KEY && RunOk(ops, limit)
    ensures var after := FileAfter(FreshFile(), ops);
            after.Some? && Holds(t, after.value, After(ops), |ops|, limit)
  {
    if ops == [] {
      t := FreshTree(limit);
      FreshTreeOk(limit);
    } else {
      var init := ops[..|ops| - 1];
      var t0 := RunHolds(init, limit);
      hide Holds, Applied, Next;
      t := AppliedHolds(t0, FileAfter(FreshFile(), init).value, After(init), |init|, limit, ops[|ops| - 1]);
    }
  }

  // ---------------------------------------------------------------- from a path that was found

  lemma InsertedThere(t: Tree, e: LeafEntry, path: seq<nat>, pos: seq<nat>)
    requires Whole(t) && |path| == |t.rows| && PathOk(t.rows, e.key, path, pos)
    ensures path != [] && Inserted(FileOf(t), e) == PutInto(FileOf(t), path, e)
    ensures e.key in ToMap(AllEntries(t)) ==> PutInto(FileOf(t), path, e) == Some(FileOf(t))
    ensures path[|path| - 1] in t.heap && t.heap[path[|path| - 1]].Leaf?
    ensures e.key !in ToMap(AllEntries(t)) ==> PutInto(FileOf(t), path, e) == PutNew(FileOf(t), path, e)
  {
    PathUnique(t, e.key, path, pos);
    var pos', j := LeafOf(t, e.key, path);
  }

  lemma PutSplits(t: Tree, path: seq<nat>, j: nat, e: LeafEntry, n: Node)
    requires path != [] && t.rows != [] && path[|path| - 1] in t.heap && t.heap[path[|path| - 1]].Leaf?
    requires n == Grown(t.heap[path[|path| - 1]], e) && EncodedSize(n) <= PAGE_SIZE && IsFull(n)
    ensures PutNew(FileOf(t), path, e)
         == Raised(FileOf(LeafSplitTree(t, path[|path| - 1], n, j)), path[..|path| - 1], RightSlot(n, t.next))
  {
    hide Raised, Relinked, EncodedSize;
    SplitFile(t, path[|path| - 1], n, j);
  }

  lemma RemovedThere(t: Tree, key: Key, path: seq<nat>, pos: seq<nat>, i: nat)
    requires Whole(t) && |path| == |t.rows| && PathOk(t.rows, key, path, pos)
    ensures path != [] && path[|path| - 1] in t.heap && t.heap[path[|path| - 1]].Leaf?
    ensures key !in ToMap(AllEntries(t)) ==> Removed(FileOf(t), key) == FileOf(t)
    ensures var n := t.heap[path[|path| - 1]];
            i < |n.entries| && n.entries[i].key == key ==>
              Removed(FileOf(t), key)
              == FileOf(WithPage(t, path[|path| - 1], Leaf(n.right, n.left, RemoveAt(n.entries, i))))
  {
    PathUnique(t, key, path, pos);
    var pos', j := LeafOf(t, key, path);
    HasKeyMeaning(t.heap[path[|path| - 1]].entries, key);
  }
}
