/** What runs do to one leaf: filling it key by key, splitting it with the last one, emptying it again. */
module BTreeFilling {
  import opened Bytes
  import opened BTreeNodes
  import opened Wrappers
  import opened BTreeRows
  import opened BTreeLeaves
  import opened BTreeFiles

  lemma {:induction false} FileAfterAppend(f: File, a: seq<Op>, b: seq<Op>)
    ensures var mid := FileAfter(f, a);
            FileAfter(f, a + b) == if mid.None? then None else FileAfter(mid.value, b)
  {
    if b == [] {
      assert a + b == a;
    } else {
      var last := |b| - 1;
      assert (a + b)[..|a + b| - 1] == a + b[..last] && (a + b)[|a + b| - 1] == b[last];
      FileAfterAppend(f, a, b[..last]);
    }
  }

  /** The operation after the first `k`. */
  lemma FileAfterNext(f: File, ops: seq<Op>, k: nat)
    requires k < |ops|
    ensures var before := FileAfter(f, ops[..k]);
            FileAfter(f, ops[..k + 1]) == if before.None? then None else Applied(before.value, ops[k])
  {
    assert ops[..k + 1][..k] == ops[..k] && ops[..k + 1][k] == ops[k];
  }

  function Puts(es: seq<LeafEntry>): seq<Op> {
    seq(|es|, i requires 0 <= i < |es| => Put(es[i].key, es[i].tid))
  }

  function Drops(es: seq<LeafEntry>): seq<Op> {
    seq(|es|, i requires 0 <= i < |es| => Drop(es[i].key))
  }

  /** The file with other entries in the leaf at `page`. */
  function WithEntries(f: File, page: nat, es: seq<LeafEntry>): File
    requires page in f.heap && f.heap[page].Leaf?
  {
    File(f.heap[page := Leaf(f.heap[page].right, f.heap[page].left, es)], f.root, f.height, f.next)
  }

  /** What a leaf holds does not change where the paths go. */
  lemma {:induction false} PathFrame(heap: Heap, page: nat, n: Node, start: nat, key: Key, height: nat)
    requires page in heap && heap[page].Leaf? && n.Leaf?
    ensures PathTo(heap[page := n], start, key, height) == PathTo(heap, start, key, height)
    decreases height
  {
    if height > 1 && start in heap && heap[start].Internal? && heap[start].seps != [] {
      PathFrame(heap, page, n, heap[start].seps[ChildPosition(heap[start].seps, key)].child, key, height - 1);
    }
  }

  /** The keys of `es`, in ascending order, all belong to the leaf at the end of `path`. */
  ghost predicate AllLead(f: File, path: seq<nat>, es: seq<LeafEntry>) {
    && path != [] && path[|path| - 1] in f.heap && f.heap[path[|path| - 1]].Leaf?
    && Sorted(Keys(es)) && forall i {:trigger es[i]} :: 0 <= i < |es| ==> PathOf(f, es[i].key) == path
  }

  lemma LastPosition(es: seq<LeafEntry>, k: nat)
    requires Sorted(Keys(es)) && k < |es|
    ensures LowerBound(Keys(es[..k]), es[k].key) == k && !HasKey(es[..k], es[k].key)
    ensures InsertLeafEntry(es[..k], es[k]) == es[..k + 1]
  {
    var ks := Keys(es[..k]);
    forall i | 0 <= i < k ensures Lt(ks[i], es[k].key) {
      assert ks[i] == Keys(es)[i] && es[k].key == Keys(es)[k];
    }
  }

  lemma FirstPosition(es: seq<LeafEntry>, k: nat)
    requires Sorted(Keys(es)) && k < |es|
    ensures LowerBound(Keys(es[k..]), es[k].key) == 0 && HasKey(es[k..], es[k].key)
    ensures RemoveAt(es[k..], 0) == es[k + 1..]
  {
    LtIrreflexive(es[k].key);
    assert Keys(es[k..])[0] == es[k].key;
  }

  lemma PrefixBytes(es: seq<LeafEntry>, k: nat)
    requires k <= |es|
    ensures LeafBytes(es[..k]) <= LeafBytes(es)
  {
    LeafBytesCut(es, k);
  }

  /** Keys that leave room for 300 bytes are added one after the other. */
  lemma {:induction false} Filling(f: File, path: seq<nat>, es: seq<LeafEntry>, k: nat)
    requires AllLead(f, path, es) && f.heap[path[|path| - 1]].entries == [] && k <= |es|
    requires NODE_HEADER_SIZE + LeafBytes(es[..k]) + FULL_THRESHOLD <= PAGE_SIZE
    ensures FileAfter(f, Puts(es)[..k]) == Some(WithEntries(f, path[|path| - 1], es[..k]))
  {
    hide FileAfter, Puts, PathOf, Sorted, WithEntries, LeafBytes;
    var page := path[|path| - 1];
    if k == 0 {
      assert Puts(es)[..0] == [] && es[..0] == [];
      Untouched(f, page, es[..0]);
    } else {
      assert es[..k][..k - 1] == es[..k - 1];
      PrefixBytes(es[..k], k - 1);
      Filling(f, path, es, k - 1);
      PutsAt(es, k - 1);
      FileAfterNext(f, Puts(es), k - 1);
      PutOne(f, path, es, k - 1);
    }
  }

  lemma Untouched(f: File, page: nat, es: seq<LeafEntry>)
    requires page in f.heap && f.heap[page].Leaf? && f.heap[page].entries == es
    ensures FileAfter(f, []) == Some(WithEntries(f, page, es))
  {
    assert f.heap[page := f.heap[page]] == f.heap;
  }

  lemma PutsAt(es: seq<LeafEntry>, i: nat)
    requires i < |es|
    ensures |Puts(es)| == |Drops(es)| == |es|
    ensures Puts(es)[i] == Put(es[i].key, es[i].tid) && Drops(es)[i] == Drop(es[i].key)
  {
  }

  lemma PutOne(f: File, path: seq<nat>, es: seq<LeafEntry>, i: nat)
    requires AllLead(f, path, es) && i < |es| && NODE_HEADER_SIZE + LeafBytes(es[..i + 1]) + FULL_THRESHOLD <= PAGE_SIZE
    ensures Inserted(WithEntries(f, path[|path| - 1], es[..i]), es[i])
         == Some(WithEntries(f, path[|path| - 1], es[..i + 1]))
  {
    var page := path[|path| - 1];
    var g := WithEntries(f, page, es[..i]);
    PathFrame(f.heap, page, g.heap[page], f.root, es[i].key, f.height);
    LastPosition(es, i);
    hide LeafBytes, LowerBound, PathTo, HasKey, Raised;
    assert g.heap[page := Leaf(g.heap[page].right, g.heap[page].left, es[..i + 1])]
        == WithEntries(f, page, es[..i + 1]).heap;
  }

  /** What the split of a leaf without a right sibling leaves in the file. */
  function SplitLast(f: File, page: nat, es: seq<LeafEntry>): File
    requires page in f.heap && f.heap[page].Leaf?
  {
    var m := |es| / 2;
    File(f.heap[page := Leaf(f.next, f.heap[page].left, es[..m])][f.next := Leaf(0, page, es[m..])],
         f.root, f.height, f.next + 1)
  }

  /** The last of the keys makes the leaf full, and the middle one goes up. */
  lemma FillingSplits(f: File, path: seq<nat>, es: seq<LeafEntry>)
    requires AllLead(f, path, es) && f.heap[path[|path| - 1]].entries == [] && es != []
    requires f.heap[path[|path| - 1]].right == 0
    requires NODE_HEADER_SIZE + LeafBytes(es[..|es| - 1]) + FULL_THRESHOLD <= PAGE_SIZE
    requires PAGE_SIZE < NODE_HEADER_SIZE + LeafBytes(es) + FULL_THRESHOLD <= PAGE_SIZE + FULL_THRESHOLD
    ensures FileAfter(f, Puts(es))
         == Raised(SplitLast(f, path[|path| - 1], es), path[..|path| - 1], Slot(f.next, es[|es| / 2].key))
  {
    hide FileAfter, Puts, PathOf, Sorted, WithEntries, LeafBytes, SplitLast, Raised, Inserted;
    var i := |es| - 1;
    Filling(f, path, es, i);
    PutsAt(es, i);
    FileAfterNext(f, Puts(es), i);
    assert Puts(es)[..i + 1] == Puts(es);
    LastPut(f, path, es);
  }

  lemma {:induction false} LastPut(f: File, path: seq<nat>, es: seq<LeafEntry>)
    requires AllLead(f, path, es) && es != [] && f.heap[path[|path| - 1]].right == 0
    requires PAGE_SIZE < NODE_HEADER_SIZE + LeafBytes(es) + FULL_THRESHOLD <= PAGE_SIZE + FULL_THRESHOLD
    ensures Inserted(WithEntries(f, path[|path| - 1], es[..|es| - 1]), es[|es| - 1])
         == Raised(SplitLast(f, path[|path| - 1], es), path[..|path| - 1], Slot(f.next, es[|es| / 2].key))
  {
    var page, i := path[|path| - 1], |es| - 1;
    var g := WithEntries(f, page, es[..i]);
    PathFrame(f.heap, page, g.heap[page], f.root, es[i].key, f.height);
    LastPosition(es, i);
    assert es[..i + 1] == es;
    hide LeafBytes, LowerBound, PathTo, HasKey, Raised;
    var n := Grown(g.heap[page], es[i]);
    assert n == Leaf(0, f.heap[page].left, es);
    assert Relinked(g.heap, page, n, g.next) == SplitLast(f, page, es).heap;
  }

  /** The leaf is emptied again, from its first key on. */
  lemma {:induction false} Emptying(f: File, path: seq<nat>, es: seq<LeafEntry>, k: nat)
    requires AllLead(f, path, es) && f.heap[path[|path| - 1]].entries == es && k <= |es|
    ensures FileAfter(f, Drops(es)[..k]) == Some(WithEntries(f, path[|path| - 1], es[k..]))
  {
    hide FileAfter, Drops, PathOf, Sorted, WithEntries;
    var page := path[|path| - 1];
    if k == 0 {
      assert Drops(es)[..0] == [] && es[0..] == es;
      Untouched(f, page, es[0..]);
    } else {
      Emptying(f, path, es, k - 1);
      PutsAt(es, k - 1);
      FileAfterNext(f, Drops(es), k - 1);
      DropOne(f, path, es, k - 1);
    }
  }

  lemma DropOne(f: File, path: seq<nat>, es: seq<LeafEntry>, i: nat)
    requires AllLead(f, path, es) && i < |es|
    ensures Removed(WithEntries(f, path[|path| - 1], es[i..]), es[i].key)
         == WithEntries(f, path[|path| - 1], es[i + 1..])
  {
    var page := path[|path| - 1];
    var g := WithEntries(f, page, es[i..]);
    PathFrame(f.heap, page, g.heap[page], f.root, es[i].key, f.height);
    FirstPosition(es, i);
    hide LowerBound, PathTo, HasKey;
    assert g.heap[page := Leaf(g.heap[page].right, g.heap[page].left, es[i + 1..])]
        == WithEntries(f, page, es[i + 1..]).heap;
  }
}
