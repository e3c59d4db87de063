/** Sorted entry sequences as finite maps, and the entries of a row of leaves. */
module BTreeEntries {
  import opened Bytes
  import opened BTreeNodes
  import opened BTreeRows

  /** The finite map that a sequence of entries stands for. */
  function ToMap(es: seq<LeafEntry>): map<Key, Tid> {
    if es == [] then map[] else ToMap(es[1..])[es[0].key := es[0].tid]
  }

  predicate Below(es: seq<LeafEntry>, k: Key) {
    forall i :: 0 <= i < |es| ==> Lt(es[i].key, k)
  }

  predicate Above(es: seq<LeafEntry>, k: Key) {
    forall i :: 0 <= i < |es| ==> Lt(k, es[i].key)
  }

  lemma {:induction false} ToMapAppend(a: seq<LeafEntry>, b: seq<LeafEntry>)
    ensures ToMap(a + b) == ToMap(b) + ToMap(a)
  {
    if a == [] {
      assert a + b == b;
    } else {
      assert (a + b)[1..] == a[1..] + b;
      ToMapAppend(a[1..], b);
    }
  }

  lemma {:induction false} ToMapKeys(es: seq<LeafEntry>, k: Key)
    ensures k in ToMap(es) <==> exists i :: 0 <= i < |es| && es[i].key == k
  {
    if es != [] {
      ToMapKeys(es[1..], k);
      assert forall i :: 1 <= i < |es| ==> es[i] == es[1..][i - 1];
      if exists i :: 0 <= i < |es[1..]| && es[1..][i].key == k {
        var i :| 0 <= i < |es[1..]| && es[1..][i].key == k;
        assert es[i + 1].key == k;
      }
    }
  }

  lemma ToMapOne(e: LeafEntry)
    ensures ToMap([e]) == map[e.key := e.tid]
  {
    assert ToMap([e][1..]) == map[];
  }

  lemma NotBelow(es: seq<LeafEntry>, k: Key)
    requires Below(es, k) || Above(es, k)
    ensures k !in ToMap(es)
  {
    ToMapKeys(es, k);
    LtOrder();
  }

  /** A key between two runs of entries is looked up in neither of them. */
  lemma ToMapMiddle(a: seq<LeafEntry>, c: seq<LeafEntry>, b: seq<LeafEntry>, k: Key)
    requires Below(a, k) && Above(b, k)
    ensures k in ToMap(a + c + b) <==> k in ToMap(c)
    ensures k in ToMap(c) ==> ToMap(a + c + b)[k] == ToMap(c)[k]
  {
    ToMapAppend(a + c, b);
    ToMapAppend(a, c);
    NotBelow(a, k);
    NotBelow(b, k);
  }

  lemma SortedBelow(es: seq<LeafEntry>, i: nat)
    requires Sorted(Keys(es)) && i < |es|
    ensures Below(es[..i], es[i].key) && Above(es[i + 1..], es[i].key)
  {
    var ks := Keys(es);
    forall j | 0 <= j < |es[..i]| ensures Lt(es[..i][j].key, es[i].key) {
      assert Lt(ks[j], ks[i]);
    }
    var after := es[i + 1..];
    forall j | 0 <= j < |after| ensures Lt(es[i].key, after[j].key) {
      assert Lt(ks[i], ks[i + 1 + j]);
    }
  }

  lemma ToMapThree(a: seq<LeafEntry>, e: LeafEntry, b: seq<LeafEntry>)
    requires Below(a, e.key) && Above(b, e.key)
    ensures ToMap(a + [e] + b) == (ToMap(b) + ToMap(a))[e.key := e.tid]
    ensures e.key !in ToMap(b) + ToMap(a)
  {
    ToMapAppend(a + [e], b);
    ToMapAppend(a, [e]);
    ToMapOne(e);
    NotBelow(a, e.key);
    NotBelow(b, e.key);
  }

  /** In a sorted sequence each entry is what the map says of its key. */
  lemma ToMapAt(es: seq<LeafEntry>, i: nat)
    requires Sorted(Keys(es)) && i < |es|
    ensures es[i].key in ToMap(es) && ToMap(es)[es[i].key] == es[i].tid
  {
    SortedBelow(es, i);
    ToMapThree(es[..i], es[i], es[i + 1..]);
    Around(es, i);
  }

  lemma ToMapInsert(es: seq<LeafEntry>, p: nat, e: LeafEntry)
    requires p <= |es| && Below(es[..p], e.key) && Above(es[p..], e.key)
    ensures ToMap(InsertAt(es, p, e)) == ToMap(es)[e.key := e.tid]
    ensures e.key !in ToMap(es)
  {
    ToMapThree(es[..p], e, es[p..]);
    ToMapAppend(es[..p], es[p..]);
    Cut(es, p);
  }

  lemma ToMapRemove(es: seq<LeafEntry>, p: nat)
    requires Sorted(Keys(es)) && p < |es|
    ensures ToMap(RemoveAt(es, p)) == ToMap(es) - {es[p].key}
  {
    SortedBelow(es, p);
    Around(es, p);
    ToMapWithout(es[..p], es[p], es[p + 1..]);
  }

  lemma ToMapWithout(a: seq<LeafEntry>, e: LeafEntry, b: seq<LeafEntry>)
    requires Below(a, e.key) && Above(b, e.key)
    ensures ToMap(a + b) == ToMap(a + [e] + b) - {e.key}
  {
    ToMapThree(a, e, b);
    ToMapAppend(a, b);
    DropNew(ToMap(b) + ToMap(a), e.key, e.tid);
  }

  lemma DropNew(m: map<Key, Tid>, k: Key, t: Tid)
    requires k !in m
    ensures m[k := t] - {k} == m
  {
  }

  /** A sorted sequence has as many entries as its map. */
  lemma {:induction false} ToMapSize(es: seq<LeafEntry>)
    requires Sorted(Keys(es))
    ensures |ToMap(es)| == |es|
  {
    if es != [] {
      SortedBelow(es, 0);
      NotBelow(es[1..], es[0].key);
      assert Keys(es[1..]) == Keys(es)[1..];
      ToMapSize(es[1..]);
    }
  }

  /** Two sorted sequences with the same map are the same sequence. */
  lemma {:induction false} ToMapInjective(a: seq<LeafEntry>, b: seq<LeafEntry>)
    requires Sorted(Keys(a)) && Sorted(Keys(b)) && ToMap(a) == ToMap(b)
    ensures a == b
  {
    ToMapSize(a);
    ToMapSize(b);
    if a != [] {
      FirstKeys(a, b);
      FirstKeys(b, a);
      LtOrder();
      assert a[0].key == b[0].key;
      ToMapAt(a, 0);
      ToMapAt(b, 0);
      ToMapRemove(a, 0);
      ToMapRemove(b, 0);
      assert RemoveAt(a, 0) == a[1..] && RemoveAt(b, 0) == b[1..];
      assert Keys(a[1..]) == Keys(a)[1..] && Keys(b[1..]) == Keys(b)[1..];
      ToMapInjective(a[1..], b[1..]);
    }
  }

  lemma FirstKeys(a: seq<LeafEntry>, b: seq<LeafEntry>)
    requires Sorted(Keys(a)) && Sorted(Keys(b)) && ToMap(a) == ToMap(b) && a != [] && b != []
    ensures Le(a[0].key, b[0].key)
  {
    ToMapAt(b, 0);
    ToMapKeys(a, b[0].key);
    var i :| 0 <= i < |a| && a[i].key == b[0].key;
    assert i > 0 ==> Lt(Keys(a)[0], Keys(a)[i]);
  }

  // ---------------------------------------------------------------- rows of leaves

  /** Everything left of the slot of `k` is smaller. */
  lemma {:induction false} PrefixBelow(heap: Heap, row: Row, n: nat, k: Key)
    requires LeavesOk(heap, row) && RowSorted(row) && n < |row| && Le(row[n].lo, k)
    ensures Below(Entries(heap, row[..n]), k)
  {
    if n > 0 {
      LtOrder();
      assert row[..n] == row[..n - 1] + [row[n - 1]];
      EntriesAppend(heap, row[..n - 1], [row[n - 1]]);
      EntriesOne(heap, row[n - 1]);
      PrefixBelow(heap, row, n - 1, k);
      assert LeafOk(heap, row, n - 1);
    }
  }

  /** Everything from a slot that starts above `k` on is larger. */
  lemma {:induction false} SuffixAbove(heap: Heap, row: Row, n: nat, k: Key)
    requires LeavesOk(heap, row) && RowSorted(row) && n <= |row| && (n < |row| ==> Lt(k, row[n].lo))
    ensures Above(Entries(heap, row[n..]), k)
    decreases |row| - n
  {
    if n < |row| {
      LtOrder();
      assert row[n..] == [row[n]] + row[n + 1..];
      EntriesAppend(heap, [row[n]], row[n + 1..]);
      EntriesOne(heap, row[n]);
      SuffixAbove(heap, row, n + 1, k);
      assert LeafOk(heap, row, n);
    }
  }

  lemma SortedJoin(a: seq<LeafEntry>, b: seq<LeafEntry>, k: Key)
    requires Sorted(Keys(a)) && Sorted(Keys(b)) && Below(a, k) && forall i :: 0 <= i < |b| ==> Le(k, b[i].key)
    ensures Sorted(Keys(a + b))
  {
    LtOrder();
    var ks := Keys(a + b);
    forall i, j | 0 <= i < j < |ks| ensures Lt(ks[i], ks[j]) {
      if j < |a| {
        assert Lt(Keys(a)[i], Keys(a)[j]);
      } else if i >= |a| {
        assert Lt(Keys(b)[i - |a|], Keys(b)[j - |a|]);
      }
    }
  }

  /** The entries of all leaves, read from left to right, are sorted. */
  lemma {:induction false} EntriesSorted(heap: Heap, row: Row, n: nat)
    requires LeavesOk(heap, row) && RowSorted(row) && n <= |row|
    ensures Sorted(Keys(Entries(heap, row[n..])))
    ensures n < |row| ==> forall i :: 0 <= i < |Entries(heap, row[n..])| ==>
              Le(row[n].lo, Entries(heap, row[n..])[i].key)
    decreases |row| - n
  {
    if n < |row| {
      LtOrder();
      assert row[n..] == [row[n]] + row[n + 1..];
      EntriesAppend(heap, [row[n]], row[n + 1..]);
      EntriesOne(heap, row[n]);
      EntriesSorted(heap, row, n + 1);
      assert LeafOk(heap, row, n);
      if n + 1 < |row| {
        SortedJoin(EntriesAt(heap, row[n]), Entries(heap, row[n + 1..]), row[n + 1].lo);
      } else {
        assert Entries(heap, row[n..]) == EntriesAt(heap, row[n]);
      }
    }
  }

  /** A key is in the tree exactly when it is in the leaf whose slot holds it. */
  lemma LookupInLeaf(heap: Heap, row: Row, j: nat, k: Key)
    requires LeavesOk(heap, row) && RowSorted(row) && Locates(row, j, k)
    ensures var m, c := ToMap(Entries(heap, row)), ToMap(EntriesAt(heap, row[j]));
            (k in m <==> k in c) && (k in c ==> m[k] == c[k])
  {
    EntriesAround(heap, row, j);
    PrefixBelow(heap, row, j, k);
    SuffixAbove(heap, row, j + 1, k);
    ToMapMiddle(Entries(heap, row[..j]), EntriesAt(heap, row[j]), Entries(heap, row[j + 1..]), k);
  }
}
