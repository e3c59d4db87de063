/** The paged B+ tree: an index file of numbered pages, read and written one node at a time. */
module BTreeIndex {
  import opened Bytes
  import opened BTreeNodes
  import opened BTreeCodec
  import opened Wrappers
  import opened BTreeRows
  import opened BTreeEntries
  import opened BTreeGrowth
  import opened BTreeLeaves
  import opened BTreePaths
  import opened BTreeSteps
  import opened BTreeFiles
  import opened BTreeNodeObject

  /** The meta record describes the tree. */
  ghost predicate Describes(m: Meta, t: Tree) {
    m == Meta(t.root, |t.rows|, |AllEntries(t)|, t.next) && MetaEncodable(m)
  }

  class BTree {
    /** The file: page 0 holds the meta record, every other page a node. */
    var pages: seq<Key>

    /** The tree that the pages store. */
    ghost var tree: Tree

    ghost predicate StoredAt(p: nat)
      reads this
    {
      p in tree.heap ==> 1 <= p < |pages| && DecodeNode(pages[p]) == Ok(tree.heap[p])
    }

    /** Every node of the tree is what its page decodes to. */
    ghost predicate Stored()
      reads this
    {
      pages != [] && forall p: nat {:trigger StoredAt(p)} :: StoredAt(p)
    }

    ghost predicate Valid()
      reads this
    {
      Stored() && Whole(tree) && DecodeMeta(pages[0]).Ok? && Describes(DecodeMeta(pages[0]).value, tree)
    }

    /** The finite map that the tree implements. */
    ghost function Map(): map<Key, Tid>
      reads this
    {
      ToMap(AllEntries(tree))
    }

    // -------------------------------------------------------------- pages

    /** Page 0 says of the tree in the other pages where it starts, how high it is and how many entries it has. */
    method ReadMeta() returns (m: Meta)
      requires Valid()
      ensures Describes(m, tree) && m.root == tree.root && m.height == |tree.rows| && m.nextPage == tree.next
      ensures m.entries == |Map()|
    {
      m := DecodeMeta(pages[0]).value;
      AllSortedEntries(tree);
      ToMapSize(AllEntries(tree));
    }

    method WriteMeta(m: Meta)
      requires Stored() && MetaEncodable(m)
      modifies this`pages
      ensures Stored() && DecodeMeta(pages[0]) == Ok(m)
    {
      MetaRoundTrip(m, Zeros(PAGE_SIZE - 32));
      pages := pages[0 := EncodeMeta(m) + Zeros(PAGE_SIZE - 32)];
      forall p: nat ensures StoredAt(p) {
        assert old(StoredAt(p));
      }
    }

    method ReadNode(p: nat) returns (n: BTreeNode)
      requires Stored() && p in tree.heap
      ensures fresh(n) && n.View() == tree.heap[p]
    {
      assert StoredAt(p);
      var r := BTreeNode.Decode(pages[p]);
      n := r.value;
    }

    method WriteNode(p: nat, n: BTreeNode)
      requires Stored() && 1 <= p < |pages| && Encodable(n.View())
      modifies this
      ensures Stored() && tree == WithPage(old(tree), p, n.View())
      ensures |pages| == |old(pages)| && pages[0] == old(pages)[0]
    {
      var r := n.Encode();
      NodeRoundTrip(n.View());
      pages := pages[p := r.value];
      tree := WithPage(tree, p, n.View());
      forall q: nat ensures StoredAt(q) {
        assert old(StoredAt(q));
      }
    }

    /** Extends the file with zero pages until page `q` exists. */
    method Allocate(q: nat)
      requires Stored()
      modifies this`pages
      ensures Stored() && q < |pages| && old(pages) <= pages
    {
      while |pages| <= q
        invariant Stored() && old(pages) <= pages
        decreases q - |pages|
      {
        label Before:
        pages := pages + [Zeros(PAGE_SIZE)];
        forall p: nat ensures StoredAt(p) {
          assert old@Before(StoredAt(p));
        }
      }
    }

    /** A new file: the meta page and an empty leaf as root. */
    constructor (keyLimit: nat)
      requires keyLimit <= MAX_KEY
      ensures Valid() && tree.limit == keyLimit && AllEntries(tree) == [] && |Leaves(tree)| == 1
      ensures FileOf(tree) == FreshFile()
    {
      var m := Meta(1, 1, 0, 2);
      var leaf := new BTreeNode(true, 0, 0, [], []);
      var image := leaf.Encode();
      pages := [EncodeMeta(m) + Zeros(PAGE_SIZE - 32), image.value];
      tree := FreshTree(keyLimit);
      new;
      MetaRoundTrip(m, Zeros(PAGE_SIZE - 32));
      NodeRoundTrip(Leaf(0, 0, []));
      forall p: nat ensures StoredAt(p) {}
      FreshTreeOk(keyLimit);
    }

    // -------------------------------------------------------------- descent

    /** The child page to follow for a key. */
    static function FindChild(es: seq<InternalEntry>, key: Key): nat
      requires es != []
    {
      es[ChildPosition(es, key)].child
    }

    /** Slot `j` of row `level`, with page `current`, holds `key`. */
    ghost predicate Reached(current: nat, key: Key, level: nat, j: nat)
      reads this
    {
      level < |tree.rows| && Locates(tree.rows[level], j, key) && tree.rows[level][j].page == current
    }

    /** Reads the node of a slot that holds `key`; for an internal node, also the child to follow. */
    method Visit(current: nat, key: Key, ghost level: nat, ghost j: nat)
      returns (node: BTreeNode, next: nat, ghost j': nat)
      requires Valid() && Reached(current, key, level, j)
      ensures current in tree.heap && fresh(node) && node.View() == tree.heap[current] && (node.isLeaf <==> level == 0)
      ensures level > 0 ==> Reached(next, key, level - 1, j')
      ensures level > 0 ==> node.internalEntries != [] && next == FindChild(node.internalEntries, key)
    {
      assert KindAt(tree.heap, tree.rows, level, j);
      node := ReadNode(current);
      next, j' := 0, 0;
      if !node.isLeaf {
        InnerSlot(tree.heap, tree.rows, tree.limit, level, j);
        DescendRows(tree.heap, tree.rows, tree.limit, level, j, key, node.internalEntries);
        next := FindChild(node.internalEntries, key);
        j' := Offset(tree.heap, tree.rows[level], j) + ChildPosition(node.internalEntries, key);
      }
    }

    /** Pages from the root to the leaf whose slot holds `key`. */
    method FindLeafPath(root: nat, key: Key) returns (path: seq<nat>, ghost pos: seq<nat>)
      requires Valid() && root == tree.root
      ensures |path| == |tree.rows| && PathOk(tree.rows, key, path, pos)
    {
      var current := root;
      RootLocates(tree.heap, tree.rows, root, key);
      ghost var level: nat, j: nat := |tree.rows| - 1, 0;
      path, pos := [current], [j];
      PathStart(tree.rows, key, current, 0);
      while true
        invariant Reached(current, key, level, j)
        invariant |path| == |tree.rows| - level && PathOk(tree.rows, key, path, pos)
        decreases level
      {
        var node, next, j' := Visit(current, key, level, j);
        if node.isLeaf {
          break;
        }
        current, j, level := next, j', level - 1;
        PathExtend(tree.rows, key, path, pos, current, j);
        path, pos := path + [current], pos + [j];
      }
    }

    /** The leaf for a key, and where the key is in it. */
    method FindInLeaf(root: nat, key: Key)
      returns (path: seq<nat>, leaf: BTreeNode, found: Option<nat>, ghost pos: seq<nat>, ghost j: nat)
      requires Valid() && root == tree.root
      ensures path != [] && |path| == |tree.rows| && PathOk(tree.rows, key, path, pos) && j == pos[|path| - 1]
      ensures AtLeaf(tree, j, key, path[|path| - 1]) && fresh(leaf) && leaf.View() == tree.heap[path[|path| - 1]]
      ensures found.Some? <==> key in Map()
      ensures found.Some? <==> key in ToMap(leaf.leafEntries)
      ensures found.Some? ==> found.value < |leaf.leafEntries| && leaf.leafEntries[found.value].key == key
    {
      path, pos := FindLeafPath(root, key);
      PathEnd(tree.rows, key, path, pos);
      j := pos[|path| - 1];
      assert KindAt(tree.heap, tree.rows, 0, j);
      leaf := ReadNode(path[|path| - 1]);
      found := leaf.FindKey(key);
      FoundInLeaf(tree, j, key, path[|path| - 1], found);
    }

    // -------------------------------------------------------------- search and delete

    method Search(key: Key) returns (r: Result<Tid>)
      requires Valid()
      ensures r == if key in Map() then Ok(Map()[key]) else Err(KeyNotFound)
    {
      var m := ReadMeta();
      var current := m.root;
      RootLocates(tree.heap, tree.rows, m.root, key);
      ghost var level: nat, j: nat := |tree.rows| - 1, 0;
      while true
        invariant Reached(current, key, level, j)
        decreases level
      {
        var node, next, j' := Visit(current, key, level, j);
        if node.isLeaf {
          var found := node.FindKey(key);
          FoundInLeaf(tree, j, key, current, found);
          return if found.Some? then Ok(node.leafEntries[found.value].tid) else Err(KeyNotFound);
        }
        current, j, level := next, j', level - 1;
      }
    }

    method Delete(key: Key) returns (r: Result<()>)
      requires Valid()
      modifies this
      ensures Valid() && tree.limit == old(tree.limit) && tree.rows == old(tree.rows)
      ensures r == if key in old(Map()) then Ok(()) else Err(KeyNotFound)
      ensures Map() == old(Map()) - {key} && |AllEntries(tree)| <= |AllEntries(old(tree))|
      ensures r.Err? ==> pages == old(pages) && tree == old(tree)
      ensures FileOf(tree) == Removed(FileOf(old(tree)), key)
    {
      var m := ReadMeta();
      var path, leaf, found, pos, j := FindInLeaf(m.root, key);
      hide Whole, AtLeaf, LowerBound, PathOk, Removed;
      RemovedThere(tree, key, path, pos, if found.Some? then found.value else 0);
      if found.None? {
        return Err(KeyNotFound);
      }
      TakeOut(m, path[|path| - 1], leaf, found.value, j, key);
      return Ok(());
    }

    /** Writes a leaf back without its entry `i`, and counts one entry less. */
    method TakeOut(m: Meta, page: nat, leaf: BTreeNode, i: nat, ghost j: nat, ghost key: Key)
      requires Valid() && Describes(m, tree) && AtLeaf(tree, j, key, page) && leaf.View() == tree.heap[page]
      requires i < |leaf.leafEntries| && leaf.leafEntries[i].key == key
      modifies this, leaf
      ensures Valid() && Map() == old(Map()) - {key} && |AllEntries(tree)| <= |AllEntries(old(tree))|
      ensures var n := old(leaf.View());
        tree == WithPage(old(tree), page, Leaf(n.right, n.left, RemoveAt(n.entries, i)))
    {
      hide InSlot, AllEntries;
      leaf.leafEntries := leaf.leafEntries[..i] + leaf.leafEntries[i + 1..];
      TakeStep(tree, j, key, page, i, leaf.View());
      hide Whole;
      assert StoredAt(page);
      WriteBack(page, leaf);
      WriteMeta(Meta(m.root, m.height, if m.entries == 0 then 0 else m.entries - 1, m.nextPage));
    }

    /** Writes back a node at its own page. */
    method WriteBack(p: nat, n: BTreeNode)
      requires Stored() && p in tree.heap && Whole(WithPage(tree, p, n.View()))
      modifies this
      ensures Stored() && tree == WithPage(old(tree), p, n.View()) && pages[0] == old(pages)[0]
    {
      ghost var t := WithPage(tree, p, n.View());
      assert PageOk(t.heap, p, t.limit) && StoredAt(p);
      WriteNode(p, n);
    }

    /** The number of entries, as the meta record has it. */
    method NumEntries() returns (n: nat)
      requires Valid()
      ensures n == |Map()|
    {
      var m := ReadMeta();
      n := m.entries;
    }

    // -------------------------------------------------------------- insert

    /** Points the old right sibling, if there is one, back at the new leaf. */
    method Relink(sibling: nat, q: nat)
      requires Stored() && U32(q) && Writable(tree.heap, tree.limit)
      requires sibling != 0 ==> sibling in tree.heap && tree.heap[sibling].Leaf?
      modifies this
      ensures Stored() && pages[0] == old(pages)[0] && |pages| == |old(pages)|
      ensures tree == if sibling == 0 then old(tree)
                      else WithPage(old(tree), sibling, WithLeft(old(tree).heap[sibling], q))
    {
      if sibling != 0 {
        var oldRight := ReadNode(sibling);
        assert PageOk(tree.heap, sibling, tree.limit) && StoredAt(sibling);
        oldRight.leftSibling := q;
        WriteNode(sibling, oldRight);
      }
    }

    /** Splits a leaf in place, writes both halves and relinks the siblings around them. */
    method WriteLeafHalves(leafPage: nat, leaf: BTreeNode, q: nat) returns (median: Key)
      requires Stored() && leafPage in tree.heap && leaf.isLeaf && leaf.leafEntries != []
      requires U32(q) && q >= 1 && Writable(tree.heap, tree.limit)
      requires leaf.rightSibling != 0 ==> leaf.rightSibling in tree.heap && tree.heap[leaf.rightSibling].Leaf?
      requires Encodable(LeftPart(leaf.View(), q)) && Encodable(RightPart(leaf.View(), leafPage))
      modifies this, leaf
      ensures Stored() && pages[0] == old(pages)[0]
      ensures tree.heap == Relinked(old(tree).heap, leafPage, old(leaf.View()), q)
      ensures Slot(q, median) == RightSlot(old(leaf.View()), q)
    {
      assert StoredAt(leafPage);
      var right;
      right, median := leaf.SplitLeaf();
      Allocate(q);
      right.leftSibling := leafPage;
      right.rightSibling := leaf.rightSibling;
      leaf.rightSibling := q;
      Relink(right.rightSibling, q);
      WriteNode(leafPage, leaf);
      WriteNode(q, right);
    }

    /** Splits the leaf that has just become full; the slot of its right half is then pending. */
    method SplitLeafPage(leafPage: nat, leaf: BTreeNode, q: nat, ghost j: nat, ghost e: LeafEntry) returns (k: Key)
      requires Stored() && Whole(tree) && AtLeaf(tree, j, e.key, leafPage) && EntryOk(e, tree.limit)
      requires q == tree.next && U32(q) && q >= 1
      requires e.key !in ToMap(tree.heap[leafPage].entries) && leaf.View() == Grown(tree.heap[leafPage], e)
      requires EncodedSize(leaf.View()) <= PAGE_SIZE && IsFull(leaf.View())
      modifies this, leaf
      ensures Stored() && pages[0] == old(pages)[0] && Pending(tree, 0, j + 1, e.key, Slot(q, k))
      ensures AllEntries(tree) == InsertLeafEntry(AllEntries(old(tree)), e) && |Leaves(tree)| == |Leaves(old(tree))| + 1
      ensures old(leaf.View()).entries != [] && Slot(q, k) == RightSlot(old(leaf.View()), q)
      ensures tree == LeafSplitTree(old(tree), leafPage, old(leaf.View()), j)
    {
      FullLeafStep(tree, j, e, leafPage, leaf.View());
      ghost var t := LeafSplitTree(tree, leafPage, leaf.View(), j);
      SplitLeafStep(tree, j, e, leafPage, leaf.View(), t);
      k := WriteLeafHalves(leafPage, leaf, q);
      StoredSame(t);
      tree := t;
    }

    /** What is stored depends on the nodes only. */
    lemma StoredSame(t: Tree)
      requires Stored() && t.heap == tree.heap
      ensures forall p: nat :: p in t.heap ==> 1 <= p < |pages| && DecodeNode(pages[p]) == Ok(t.heap[p])
    {
      forall p: nat | p in t.heap ensures 1 <= p < |pages| && DecodeNode(pages[p]) == Ok(t.heap[p]) {
        assert StoredAt(p);
      }
    }

    /** Splits an internal node in place and writes both halves. */
    method WriteParentHalves(p: nat, parent: BTreeNode, q: nat) returns (k: Key)
      requires Stored() && p in tree.heap && q >= 1 && p != q && !parent.isLeaf && parent.internalEntries != []
      requires Encodable(InternalLeftHalf(parent.View())) && Encodable(InternalRightHalf(parent.View()))
      modifies this, parent
      ensures Stored() && pages[0] == old(pages)[0]
      ensures var n := old(parent.View());
              tree.heap == old(tree).heap[p := InternalLeftHalf(n)][q := InternalRightHalf(n)]
      ensures Slot(q, k) == PromotedSlot(old(parent.View()), q)
    {
      assert StoredAt(p);
      var right, child;
      right, k, child := parent.SplitInternal();
      Allocate(q);
      WriteNode(p, parent);
      WriteNode(q, right);
    }

    /** Adds the pending slot to its parent; a parent that becomes full is split in turn. */
    method StepUp(parentPage: nat, k: Key, q: nat, next: nat, ghost level: nat, ghost hole: nat, ghost p: nat,
                  ghost key: Key, ghost path: seq<nat>)
      returns (split: bool, k': Key)
      requires Stored() && Pending(tree, level, hole, key, Slot(q, k)) && AtParent(tree, level, p, key, parentPage)
      requires next == tree.next && U32(next) && path != [] && path[|path| - 1] == parentPage
      modifies this
      ensures Stored() && pages[0] == old(pages)[0] && tree.root == old(tree).root && tree.limit == old(tree).limit
      ensures AllEntries(tree) == AllEntries(old(tree)) && Leaves(tree) == Leaves(old(tree))
      ensures !split ==> Whole(tree) && tree.rows == old(tree).rows && tree.next == next
      ensures split ==> && Pending(tree, level + 1, p + 1, key, Slot(next, k')) && tree.next == next + 1
                        && tree.rows == WithSlot(old(tree).rows, level + 1, p + 1, Slot(next, k'))
      ensures Raised(FileOf(old(tree)), path, Slot(q, k))
           == if split then Raised(FileOf(tree), path[..|path| - 1], Slot(next, k')) else Some(FileOf(tree))
    {
      hide Pending, Whole, AllEntries, InSlot, EncodedSize, InternalLeftHalf, InternalRightHalf;
      ParentStep(tree, level, hole, key, Slot(q, k), p, parentPage);
      ParentChildren(tree, level, p, hole, key, Slot(q, k));
      var parent := ReadNode(parentPage);
      parent.InsertInternal(InternalEntry(k, q));
      split := parent.Full();
      if !split {
        AbsorbTree(tree, level, hole, key, Slot(q, k), p, parentPage, parent.View());
        WriteBack(parentPage, parent);
        k' := k;
      } else {
        k' := SplitUp(parentPage, parent, next, Slot(q, k), level, hole, p, key);
      }
    }

    method SplitUp(parentPage: nat, parent: BTreeNode, next: nat, ghost x: Slot, ghost level: nat, ghost hole: nat,
                   ghost p: nat, ghost key: Key)
      returns (k: Key)
      requires Stored() && Pending(tree, level, hole, key, x)
      requires AtParent(tree, level, p, key, parentPage) && next == tree.next && U32(next)
      requires parentPage in tree.heap && tree.heap[parentPage].Internal?
      requires parent.View() == Enlarged(tree.heap[parentPage], x)
      requires EncodedSize(parent.View()) <= PAGE_SIZE && IsFull(parent.View())
      modifies this, parent
      ensures Stored() && pages[0] == old(pages)[0] && tree.root == old(tree).root && tree.limit == old(tree).limit
      ensures AllEntries(tree) == AllEntries(old(tree)) && Leaves(tree) == Leaves(old(tree))
      ensures Pending(tree, level + 1, p + 1, key, Slot(next, k)) && tree.next == next + 1
      ensures tree.rows == WithSlot(old(tree).rows, level + 1, p + 1, Slot(next, k))
      ensures old(parent.View()).seps != [] && Slot(next, k) == PromotedSlot(old(parent.View()), next)
      ensures tree.heap == ParentSplitTree(old(tree), parentPage, old(parent.View()), level + 1, p).heap
    {
      ghost var t := ParentSplitTree(tree, parentPage, parent.View(), level + 1, p);
      SplitParentTree(tree, level, hole, key, x, p, parentPage, parent.View(), t);
      assert PageOk(t.heap, parentPage, t.limit) && PageOk(t.heap, next, t.limit);
      k := WriteParentHalves(parentPage, parent, next);
      StoredSame(t);
      tree := t;
    }

    /** A split of the root gets a new root above it. */
    method GrowRoot(root: nat, k: Key, q: nat, next: nat, ghost hole: nat, ghost key: Key)
      requires Stored() && tree.rows != [] && Pending(tree, |tree.rows| - 1, hole, key, Slot(q, k))
      requires root == tree.root && next == tree.next && U32(root) && next >= 1
      modifies this
      ensures Stored() && pages[0] == old(pages)[0] && Whole(tree) && tree == RootTree(old(tree), Slot(q, k))
      ensures AllEntries(tree) == AllEntries(old(tree)) && Leaves(tree) == Leaves(old(tree))
    {
      ghost var t := RootTree(tree, Slot(q, k));
      RootTreeStep(tree, hole, key, Slot(q, k));
      Allocate(next);
      var node := new BTreeNode(false, 0, 0, [InternalEntry([], root), InternalEntry(k, q)], []);
      assert PageOk(t.heap, next, t.limit);
      WriteNode(next, node);
      StoredSame(t);
      tree := t;
    }

    /** Hands the pending slot up along the path until a parent has room; says whether none had. */
    method Propagate(path: seq<nat>, k0: Key, q0: nat, next0: nat, ghost pos: seq<nat>, ghost hole0: nat,
                     ghost key: Key)
      returns (split: bool, k: Key, q: nat, next: nat, ghost hole: nat)
      requires Stored() && Pending(tree, 0, hole0, key, Slot(q0, k0)) && next0 == tree.next
      requires path != [] && |path| == |tree.rows|
      requires PathAbove(tree.rows, key, path, pos, |path| - 1) && next0 + |path| < 0x1_0000_0000
      modifies this
      ensures Stored() && pages[0] == old(pages)[0] && tree.root == old(tree).root && tree.limit == old(tree).limit
      ensures AllEntries(tree) == AllEntries(old(tree)) && Leaves(tree) == Leaves(old(tree)) && |tree.rows| == |path|
      ensures next == tree.next <= next0 + |path| - 1
      ensures if split then Pending(tree, |tree.rows| - 1, hole, key, Slot(q, k)) else Whole(tree)
      ensures Raised(FileOf(old(tree)), path[..|path| - 1], Slot(q0, k0))
           == if split then Raised(FileOf(tree), [], Slot(q, k)) else Some(FileOf(tree))
    {
      hide Whole, AllEntries, Leaves, Pending, Raised;
      split, k, q, next, hole := true, k0, q0, next0, hole0;
      var idx := |path| - 1;
      while split && idx > 0
        invariant 0 <= idx < |path| == |tree.rows| && next == tree.next && next + idx <= next0 + |path| - 1
        invariant Stored() && pages[0] == old(pages)[0] && tree.root == old(tree).root && tree.limit == old(tree).limit
        invariant AllEntries(tree) == AllEntries(old(tree)) && Leaves(tree) == Leaves(old(tree))
        invariant split ==> Pending(tree, |path| - 1 - idx, hole, key, Slot(q, k))
        invariant split ==> PathAbove(tree.rows, key, path, pos, idx)
        invariant !split ==> Whole(tree)
        invariant Raised(FileOf(old(tree)), path[..|path| - 1], Slot(q0, k0))
               == if split then Raised(FileOf(tree), path[..idx], Slot(q, k)) else Some(FileOf(tree))
        decreases idx
      {
        hide Whole, AllEntries, Leaves, Pending, Raised;
        ghost var level := |path| - 1 - idx;
        idx := idx - 1;
        assert PathAt(tree.rows, key, path, pos, idx);
        ghost var rows := tree.rows;
        var k';
        assert path[..idx + 1][..idx] == path[..idx];
        split, k' := StepUp(path[idx], k, q, next, level, hole, pos[idx], key, path[..idx + 1]);
        if split {
          PathAboveKept(rows, key, path, pos, idx, level + 1, tree.rows[level + 1]);
          assert tree.rows == rows[level + 1 := tree.rows[level + 1]];
          k, q, next, hole := k', next, next + 1, pos[idx] + 1;
        }
      }
    }

    /** Page numbers and the entry count still fit their stored widths after one more insertion. */
    ghost predicate Room()
      reads this
    {
      tree.next + |tree.rows| + 1 < 0x1_0000_0000 && |AllEntries(tree)| + 1 < 0x1_0000_0000_0000_0000
    }

    method Insert(key: Key, tid: Tid) returns (r: Result<()>)
      requires Valid() && Room() && EntryOk(LeafEntry(key, tid), tree.limit)
      modifies this
      ensures Valid() && tree.limit == old(tree.limit)
      ensures r == if key in old(Map()) then Err(DuplicateKey) else Ok(())
      ensures r.Err? ==> pages == old(pages) && tree == old(tree)
      ensures r.Ok? ==> Map() == old(Map())[key := tid]
      ensures Inserted(FileOf(old(tree)), LeafEntry(key, tid)) == Some(FileOf(tree))
      ensures |Leaves(tree)| <= |Leaves(old(tree))| + 1 && |AllEntries(tree)| <= |AllEntries(old(tree))| + 1
    {
      var m := ReadMeta();
      var path, leaf, found, pos, j := FindInLeaf(m.root, key);
      hide AtLeaf, LowerBound, PathOk, Inserted, PutInto, Raised, Whole, AllEntries, EncodedSize;
      InsertedThere(tree, LeafEntry(key, tid), path, pos);
      if found.Some? {
        return Err(DuplicateKey);
      }
      var leafPage := path[|path| - 1];
      ghost var e := LeafEntry(key, tid);
      PutStep(tree, j, e, leafPage, Grown(tree.heap[leafPage], e));
      InsertedMap(tree, e);
      leaf.InsertLeaf(LeafEntry(key, tid));
      var full := leaf.Full();
      if !full {
        PutBack(m, leafPage, leaf, e);
      } else {
        PutApart(m, path, leaf, pos, j, e);
      }
      return Ok(());
    }

    /** Writes a leaf that became full as two, and counts one entry more. */
    method PutApart(m: Meta, path: seq<nat>, leaf: BTreeNode, ghost pos: seq<nat>, ghost j: nat, ghost e: LeafEntry)
      requires Valid() && Room() && Describes(m, tree) && EntryOk(e, tree.limit)
      requires path != [] && |path| == |tree.rows| && PathOk(tree.rows, e.key, path, pos)
      requires AtLeaf(tree, j, e.key, path[|path| - 1]) && e.key !in ToMap(tree.heap[path[|path| - 1]].entries)
      requires leaf.View() == Grown(tree.heap[path[|path| - 1]], e)
      requires EncodedSize(leaf.View()) <= PAGE_SIZE && IsFull(leaf.View())
      modifies this, leaf
      ensures Valid() && tree.limit == old(tree).limit
      ensures AllEntries(tree) == InsertLeafEntry(AllEntries(old(tree)), e)
      ensures |Leaves(tree)| == |Leaves(old(tree))| + 1
      ensures PutNew(FileOf(old(tree)), path, e) == Some(FileOf(tree))
    {
      hide Whole, AllEntries, InSlot, EncodedSize, Raised, PutNew, PathOk, FileOf;
      var root, height, next := SplitAndRaise(m.root, m.nextPage, path, leaf, pos, j, e);
      WriteMeta(Meta(root, height, m.entries + 1, next));
    }

    /** Writes a leaf back with its new entry, and counts one entry more. */
    method PutBack(m: Meta, page: nat, leaf: BTreeNode, ghost e: LeafEntry)
      requires Valid() && Room() && Describes(m, tree) && page in tree.heap && Whole(WithPage(tree, page, leaf.View()))
      requires AllEntries(WithPage(tree, page, leaf.View())) == InsertLeafEntry(AllEntries(tree), e)
      modifies this
      ensures Valid() && tree == WithPage(old(tree), page, leaf.View())
    {
      hide Whole, AllEntries;
      WriteBack(page, leaf);
      WriteMeta(Meta(m.root, m.height, m.entries + 1, m.nextPage));
    }

    /** Splits the full leaf at the end of the path and hands the split up. */
    method SplitAndRaise(root0: nat, q: nat, path: seq<nat>, leaf: BTreeNode, ghost pos: seq<nat>, ghost j: nat,
                         ghost e: LeafEntry)
      returns (root: nat, height: nat, next: nat)
      requires Stored() && Whole(tree) && EntryOk(e, tree.limit) && root0 == tree.root && U32(root0) && q == tree.next
      requires path != [] && |path| == |tree.rows|
      requires PathOk(tree.rows, e.key, path, pos) && q + |path| + 1 < 0x1_0000_0000
      requires AtLeaf(tree, j, e.key, path[|path| - 1]) && e.key !in ToMap(tree.heap[path[|path| - 1]].entries)
      requires leaf.View() == Grown(tree.heap[path[|path| - 1]], e)
      requires EncodedSize(leaf.View()) <= PAGE_SIZE && IsFull(leaf.View())
      modifies this, leaf
      ensures Stored() && Whole(tree) && tree.limit == old(tree).limit
      ensures AllEntries(tree) == InsertLeafEntry(AllEntries(old(tree)), e) && |Leaves(tree)| == |Leaves(old(tree))| + 1
      ensures root == tree.root && height == |tree.rows| && next == tree.next && U32(root) && U32(height) && U32(next)
      ensures PutNew(FileOf(old(tree)), path, e) == Some(FileOf(tree))
    {
      hide Pending, Whole, AllEntries, InSlot, EncodedSize, Raised, PutNew, PathOk, LeafSplitTree, FileOf;
      NextPositive(tree);
      ghost var rows := tree.rows;
      PutSplits(tree, path, j, e, leaf.View());
      SplitFile(tree, path[|path| - 1], leaf.View(), j);
      var k := SplitLeafPage(path[|path| - 1], leaf, q, j, e);
      AboveLeaves(rows, tree.rows, e.key, path, pos);
      root, height, next := Raise(root0, path, k, q, q + 1, pos, j + 1, e.key);
    }

    /** Carries a pending leaf split up the path, to a new root if it comes to that. */
    method Raise(root0: nat, path: seq<nat>, k0: Key, q0: nat, next0: nat, ghost pos: seq<nat>, ghost hole0: nat,
                 ghost key: Key)
      returns (root: nat, height: nat, next: nat)
      requires Stored() && Pending(tree, 0, hole0, key, Slot(q0, k0))
      requires next0 == tree.next && root0 == tree.root && U32(root0) && next0 >= 1
      requires path != [] && |path| == |tree.rows|
      requires PathAbove(tree.rows, key, path, pos, |path| - 1) && next0 + |path| < 0x1_0000_0000
      modifies this
      ensures Stored() && pages[0] == old(pages)[0] && Whole(tree) && tree.limit == old(tree).limit
      ensures AllEntries(tree) == AllEntries(old(tree)) && Leaves(tree) == Leaves(old(tree))
      ensures root == tree.root && height == |tree.rows| <= |path| + 1 && next == tree.next <= next0 + |path|
      ensures U32(root) && Raised(FileOf(old(tree)), path[..|path| - 1], Slot(q0, k0)) == Some(FileOf(tree))
    {
      var split, k, q, n, hole := Propagate(path, k0, q0, next0, pos, hole0, key);
      root, height, next := root0, |path|, n;
      if split {
        PendingNext(tree, hole, key, Slot(q, k));
        GrowRoot(root0, k, q, n, hole, key);
        root, height, next := n, |path| + 1, n + 1;
      }
    }

    static lemma NextPositive(t: Tree)
      requires Whole(t)
      ensures t.next >= 1
    {
      assert KindAt(t.heap, t.rows, 0, 0) && SortedAt(t.rows, 0);
      assert UsedAt(t.heap, t.rows, t.next, t.rows[0][0].page);
    }

    // -------------------------------------------------------------- range scan

    /** The leaf a scan starts from: the one for the lower bound, or the leftmost. */
    method FirstLeaf(root: nat, start: Option<Key>) returns (current: nat, ghost j: nat)
      requires Valid() && root == tree.root
      ensures Reached(current, if start.Some? then start.value else [], 0, j)
    {
      ghost var key := if start.Some? then start.value else [];
      current, j := root, 0;
      RootLocates(tree.heap, tree.rows, root, key);
      ghost var level: nat := |tree.rows| - 1;
      while true
        invariant Reached(current, key, level, j)
        decreases level
      {
        var node, next, j' := Visit(current, if start.Some? then start.value else [], level, j);
        if node.isLeaf {
          break;
        }
        if start.None? {
          InnerSlot(tree.heap, tree.rows, tree.limit, level, j);
          LeftmostChild(node.internalEntries);
          next := node.internalEntries[0].child;
        }
        current, j, level := next, j', level - 1;
      }
    }

    /** The part of one leaf that is in range, and whether the upper bound was passed. */
    static method ScanLeaf(es: seq<LeafEntry>, start: Option<Key>, end: Option<Key>)
      returns (out: seq<LeafEntry>, done: bool, ghost at: nat)
      requires Sorted(Keys(es))
      ensures out == Range(es, start, end)
      ensures done ==> at < |es| && end.Some? && Lt(end.value, es[at].key)
    {
      out, done, at := [], false, 0;
      for i := 0 to |es|
        invariant out == Range(es[..i], start, end)
      {
        RangeSnoc(es, i, start, end);
        if start.Some? && Lt(es[i].key, start.value) {
          continue;
        }
        if end.Some? && Lt(end.value, es[i].key) {
          RangeCutOff(es, i, start, end);
          at := i;
          return out, true, at;
        }
        out := out + [es[i]];
      }
      assert es[..|es|] == es;
    }

    /** All entries with start <= key <= end, following the right siblings. */
    method RangeScan(start: Option<Key>, end: Option<Key>) returns (results: seq<LeafEntry>)
      requires Valid()
      ensures results == Range(AllEntries(tree), start, end)
    {
      hide Range, Entries, InRange;
      var m := ReadMeta();
      ghost var row := Leaves(tree);
      var current, j := FirstLeaf(m.root, start);
      ScanStart(tree, j, start, end);
      results := [];
      ghost var i := j;
      while current != 0
        invariant i <= |row| && current == (if i < |row| then row[i].page else 0)
        invariant results == Range(Entries(tree.heap, row[..i]), start, end)
        decreases |row| - i
      {
        hide Range, Entries, InRange;
        ScanPage(tree, i);
        var node := ReadNode(current);
        var part, done, at := ScanLeaf(node.leafEntries, start, end);
        RangeLeaf(tree.heap, row, i, start, end);
        results := results + part;
        if done {
          RangeDone(tree.heap, row, i, at, start, end);
          return;
        }
        current, i := node.rightSibling, i + 1;
      }
      PagesPositive(tree, i);
      assert row[..|row|] == row;
    }

    static lemma ScanStart(t: Tree, j: nat, start: Option<Key>, end: Option<Key>)
      requires Whole(t) && Locates(Leaves(t), j, if start.Some? then start.value else [])
      ensures Range(Entries(t.heap, Leaves(t)[..j]), start, end) == []
      ensures LeavesOk(t.heap, Leaves(t)) && RowSorted(Leaves(t))
    {
      assert SortedAt(t.rows, 0);
      if start.None? {
        LtOrder();
        LocatesUnique(Leaves(t), 0, j, []);
      }
      RangeStart(t.heap, Leaves(t), j, start, end);
    }

    /** The leaf in slot `i`, its order and its right neighbour. */
    static lemma ScanPage(t: Tree, i: nat)
      requires Whole(t) && i < |Leaves(t)|
      ensures var p := Leaves(t)[i].page;
              && p in t.heap && t.heap[p].Leaf? && Sorted(Keys(t.heap[p].entries))
              && EntriesAt(t.heap, Leaves(t)[i]) == t.heap[p].entries
              && t.heap[p].right == (if i + 1 < |Leaves(t)| then Leaves(t)[i + 1].page else 0)
    {
      assert KindAt(t.heap, t.rows, 0, i) && LeafOk(t.heap, t.rows[0], i) && ChainedAt(t.heap, t.rows[0], i);
    }

    static lemma PagesPositive(t: Tree, i: nat)
      requires Whole(t)
      ensures i < |Leaves(t)| ==> Leaves(t)[i].page != 0
    {
      if i < |Leaves(t)| {
        assert KindAt(t.heap, t.rows, 0, i);
        assert UsedAt(t.heap, t.rows, t.next, t.rows[0][i].page);
      }
    }
  }
}
