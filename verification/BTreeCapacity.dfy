/**
 * The exact key lengths for which splitting by entry count keeps every node inside its page.
 *
 * Fullness is measured in bytes but a split halves the number of entries, so one half may keep
 * almost all of the bytes. Keys of at most 252 bytes never overflow a page; keys of at most 232
 * bytes also leave the 300 spare bytes of the threshold in every node. Both bounds are exact: one
 * byte more, and a run of insertions and deletions from a new file is given that breaks the promise.
 */
module BTreeCapacity {
  import opened Bytes
  import opened BTreeNodes
  import opened BTreeCodec
  import opened Wrappers
  import opened BTreeRows
  import opened BTreeGrowth
  import opened BTreeLeaves
  import opened BTreeSteps
  import opened BTreeFiles
  import opened BTreeFilling

  /** Every page keeps the 300 bytes of the threshold free. */
  ghost predicate Spare(f: File) {
    forall p :: p in f.heap ==> EncodedSize(f.heap[p]) + FULL_THRESHOLD <= PAGE_SIZE
  }

  /** No run with keys of at most `limit` bytes overflows a page. */
  ghost predicate SafeLimit(limit: nat) {
    forall ops {:trigger RunOk(ops, limit)} :: RunOk(ops, limit) ==> FileAfter(FreshFile(), ops).Some?
  }

  /** Every file that a run with keys of at most `limit` bytes leaves has 300 bytes free in every page. */
  ghost predicate SpareLimit(limit: nat) {
    forall ops {:trigger RunOk(ops, limit)} ::
      RunOk(ops, limit) && FileAfter(FreshFile(), ops).Some? ==> Spare(FileAfter(FreshFile(), ops).value)
  }

  /** Every page of a tree whose keys have at most 232 bytes keeps 300 bytes free. */
  lemma SpareBytes(t: Tree, p: nat)
    requires Whole(t) && t.limit <= ROOMY_KEY && p in t.heap
    ensures EncodedSize(t.heap[p]) + FULL_THRESHOLD <= PAGE_SIZE
  {
    assert PageOk(t.heap, p, t.limit);
  }

  // ---------------------------------------------------------------- the keys of the two runs

  /**
   * A root with `shorts` separators of one byte, one of `odd` bytes, and `longs` of `len` bytes. Each is
   * promoted from a leaf with `above` keys of `len` bytes over it.
   */
  datatype Plan = Plan(shorts: nat, odd: nat, longs: nat, len: nat, above: nat)

  const PLAN_253 := Plan(31, 141, 29, 253, 15)
  const PLAN_233 := Plan(33, 222, 31, 233, 16)

  predicate IsPlan(p: Plan) {
    p == PLAN_253 || p == PLAN_233
  }

  /** How many separators the root takes before it becomes full. */
  function Steps(p: Plan): nat {
    p.shorts + 1 + p.longs
  }

  function SepLen(p: Plan, i: nat): nat {
    if i < p.shorts then 1 else if i == p.shorts then p.odd else p.len
  }

  /** A key of `len` bytes that starts with `first`. */
  function LongKey(first: byte, len: nat): (k: Key)
    requires len > 0
    ensures |k| == len && k[0] == first
  {
    [first] + Zeros(len - 1)
  }

  /** Separator `i`, ordered by its first byte. */
  function SepKey(p: Plan, i: nat): (k: Key)
    requires IsPlan(p) && i < 100
    ensures |k| == SepLen(p, i) && k[0] == i + 1
  {
    LongKey(i + 1, SepLen(p, i))
  }

  /** A key of full length between separators `a - 1` and `a`, ordered by `b`. */
  function FillKey(p: Plan, a: nat, b: nat): (k: Key)
    requires IsPlan(p) && a <= 100 && b <= 100
    ensures |k| == p.len && k[0] == a && k[1] == b
  {
    [a, b] + Zeros(p.len - 2)
  }

  function Entry(k: Key): LeafEntry {
    LeafEntry(k, Tid(0, 0))
  }

  function Under(p: Plan, i: nat): nat {
    if SepLen(p, i) == 1 then p.above + 1 else p.above
  }

  /** The keys that fill a leaf so that separator `i` is in the middle. */
  function Fill(p: Plan, i: nat): (es: seq<LeafEntry>)
    requires IsPlan(p) && i < 100
    ensures |es| == Under(p, i) + 1 + p.above && |es| / 2 == Under(p, i) && es[Under(p, i)] == Entry(SepKey(p, i))
  {
    seq(Under(p, i), j requires 0 <= j < Under(p, i) => Entry(FillKey(p, i, j + 1)))
    + [Entry(SepKey(p, i))]
    + seq(p.above, j requires 0 <= j < p.above => Entry(FillKey(p, i + 1, j + 1)))
  }

  lemma FillAt(p: Plan, i: nat, j: nat)
    requires IsPlan(p) && i < 100 && j < |Fill(p, i)|
    ensures var k, u := Fill(p, i)[j].key, Under(p, i);
            k == if j < u then FillKey(p, i, j + 1) else if j == u then SepKey(p, i) else FillKey(p, i + 1, j - u)
    ensures Fill(p, i)[j].tid == Tid(0, 0)
  {
  }

  lemma FirstByteDecides(a: Key, b: Key)
    requires a != [] && b != [] && a[0] < b[0]
    ensures Lt(a, b) && !Lt(b, a)
  {
  }

  lemma SecondByteDecides(a: Key, b: Key)
    requires a != [] && |b| > 1 && a[0] == b[0] && (|a| == 1 || a[1] < b[1])
    ensures Lt(a, b) && !Lt(b, a)
  {
    assert b[1..][0] == b[1];
    assert |a| > 1 ==> a[1..][0] == a[1];
  }

  /** A separator is below the keys that follow it. */
  lemma SepBelow(p: Plan, i: nat, b: nat)
    requires IsPlan(p) && i < 100 && 1 <= b <= 100
    ensures Lt(SepKey(p, i), FillKey(p, i + 1, b)) && !Lt(FillKey(p, i + 1, b), SepKey(p, i))
  {
    SecondByteDecides(SepKey(p, i), FillKey(p, i + 1, b));
  }

  lemma FillSorted(p: Plan, i: nat)
    requires IsPlan(p) && i < 100
    ensures Sorted(Keys(Fill(p, i)))
  {
    var es, u := Fill(p, i), Under(p, i);
    hide Fill, FillKey, SepKey, Lt;
    forall j, k | 0 <= j < k < |es| ensures Lt(es[j].key, es[k].key) {
      FillAt(p, i, j);
      FillAt(p, i, k);
      if j < u <= k {
        FirstByteDecides(es[j].key, es[k].key);
      } else if j == u {
        SepBelow(p, i, k - u);
      } else {
        SecondByteDecides(es[j].key, es[k].key);
      }
    }
  }

  /** The key is at or over every separator before `i`. */
  ghost predicate Beyond(p: Plan, key: Key, i: nat)
    requires IsPlan(p) && i <= 100
  {
    forall j :: 0 <= j < i ==> !Lt(key, SepKey(p, j))
  }

  /** The keys that fill the last leaf are over all the separators before. */
  lemma FillBeyond(p: Plan, i: nat, j: nat)
    requires IsPlan(p) && i < 100 && j < |Fill(p, i)|
    ensures Beyond(p, Fill(p, i)[j].key, i)
    ensures j >= Under(p, i) ==> Beyond(p, Fill(p, i)[j].key, i + 1)
  {
    FillAt(p, i, j);
    var key, u := Fill(p, i)[j].key, Under(p, i);
    hide Fill, FillKey, SepKey, Lt;
    LtOrder();
    forall c: nat | c < i ensures !Lt(key, SepKey(p, c)) {
      if j >= u || c + 1 < i {
        FirstByteDecides(SepKey(p, c), key);
      } else {
        SepBelow(p, c, j + 1);
      }
    }
    if j > u {
      SepBelow(p, i, j - u);
    }
  }

  // ---------------------------------------------------------------- their bytes

  lemma {:induction false} LeafBytesUniform(es: seq<LeafEntry>, len: nat)
    requires forall i :: 0 <= i < |es| ==> |es[i].key| == len
    ensures LeafBytes(es) == (8 + len) * |es|
  {
    if es != [] { LeafBytesUniform(es[1..], len); }
  }

  lemma FillBytes(p: Plan, i: nat)
    requires IsPlan(p) && i < 100
    ensures LeafBytes(Fill(p, i)) == (8 + p.len) * Under(p, i) + 8 + SepLen(p, i) + (8 + p.len) * p.above
    ensures LeafBytes(Fill(p, i)[..|Fill(p, i)| - 1]) == LeafBytes(Fill(p, i)) - 8 - p.len
  {
    var es, u, last := Fill(p, i), Under(p, i), |Fill(p, i)| - 1;
    hide Fill, LeafBytes, FillKey, SepKey;
    forall j | 0 <= j < |es| ensures |es[j].key| == if j == u then SepLen(p, i) else p.len { FillAt(p, i, j); }
    ThreeParts(es, u, p.len);
    LeafBytesUniform([es[last]], p.len);
    LeafBytesCut(es, last);
    assert es[last..] == [es[last]];
  }

  lemma ThreeParts(es: seq<LeafEntry>, u: nat, len: nat)
    requires u < |es| && forall j :: 0 <= j < |es| && j != u ==> |es[j].key| == len
    ensures LeafBytes(es) == (8 + len) * u + 8 + |es[u].key| + (8 + len) * (|es| - 1 - u)
  {
    hide LeafBytes;
    LeafBytesUniform(es[..u], len);
    LeafBytesUniform([es[u]], |es[u].key|);
    LeafBytesUniform(es[u + 1..], len);
    LeafBytesAppend(es[..u] + [es[u]], es[u + 1..]);
    LeafBytesAppend(es[..u], [es[u]]);
    assert es == es[..u] + [es[u]] + es[u + 1..];
  }

  /** Only the last of the keys makes the leaf full. */
  lemma FillFull(p: Plan, i: nat)
    requires IsPlan(p) && i < 100
    ensures NODE_HEADER_SIZE + LeafBytes(Fill(p, i)[..|Fill(p, i)| - 1]) + FULL_THRESHOLD <= PAGE_SIZE
    ensures PAGE_SIZE < NODE_HEADER_SIZE + LeafBytes(Fill(p, i)) + FULL_THRESHOLD <= PAGE_SIZE + FULL_THRESHOLD
  {
    FillBytes(p, i);
    hide Fill, LeafBytes;
    if p == PLAN_253 { assert (8 + p.len) * p.above == 3915; } else { assert (8 + p.len) * p.above == 3856; }
  }

  /** The bytes of the first `i` separators. */
  function RootBytes(p: Plan, i: nat): nat
    requires IsPlan(p)
  {
    if i <= p.shorts then 7 * i
    else if p == PLAN_253 then 364 + 259 * (i - 32)
    else 459 + 239 * (i - 34)
  }

  lemma {:induction false} SepBytesFrom(p: Plan, es: seq<InternalEntry>, lo: nat)
    requires IsPlan(p) && forall j :: 0 <= j < |es| ==> |es[j].key| == SepLen(p, lo + j)
    ensures SepBytes(es) == RootBytes(p, lo + |es|) - RootBytes(p, lo)
  {
    if es != [] {
      assert |es[0].key| == SepLen(p, lo + 0);
      assert forall j :: 0 <= j < |es[1..]| ==> es[1..][j] == es[j + 1];
      SepBytesFrom(p, es[1..], lo + 1);
    }
  }

  // ---------------------------------------------------------------- a node with the planned separators

  /** The children of separators `lo` to `hi`, with the empty key first. */
  ghost predicate Seps(p: Plan, es: seq<InternalEntry>, lo: nat, hi: nat)
    requires IsPlan(p) && hi <= 100
  {
    && lo <= hi && |es| == hi - lo + 1 && es[0].key == []
    && forall j :: 0 < j < |es| ==> es[j].key == SepKey(p, lo + j - 1)
  }

  lemma SepsSize(p: Plan, n: Node, lo: nat, hi: nat)
    requires IsPlan(p) && hi <= 100 && n.Internal? && Seps(p, n.seps, lo, hi)
    ensures EncodedSize(n) == 17 + RootBytes(p, hi) - RootBytes(p, lo)
  {
    assert forall j :: 0 <= j < |n.seps[1..]| ==> n.seps[1..][j] == n.seps[j + 1];
    SepBytesFrom(p, n.seps[1..], lo);
  }

  /** A key beyond all separators leads to the last child. */
  lemma SepsLead(p: Plan, es: seq<InternalEntry>, lo: nat, hi: nat, key: Key)
    requires IsPlan(p) && hi <= 100 && Seps(p, es, lo, hi) && Beyond(p, key, hi)
    ensures ChildPosition(es, key) == |es| - 1
  {
    hide SepKey, Lt, UpperBound;
    LtOrder();
    forall j | 0 <= j < |es| ensures Le(SepKeys(es)[j], key) {
      if j > 0 {
        var c := lo + j - 1;
        assert !Lt(key, SepKey(p, c));
      }
    }
  }

  /** The next separator goes last. */
  lemma SepsAdd(p: Plan, es: seq<InternalEntry>, lo: nat, hi: nat, child: nat)
    requires IsPlan(p) && hi < 100 && Seps(p, es, lo, hi)
    ensures var e := InternalEntry(SepKey(p, hi), child);
            InsertInternalEntry(es, e) == es + [e] && Seps(p, es + [e], lo, hi + 1)
  {
    var e := InternalEntry(SepKey(p, hi), child);
    var rest := SepKeys(es[1..]);
    forall j | 0 <= j < |rest| ensures Lt(rest[j], e.key) {
      assert rest[j] == es[j + 1].key == SepKey(p, lo + (j + 1) - 1);
      FirstByteDecides(rest[j], e.key);
    }
  }

  // ---------------------------------------------------------------- the run, separator by separator

  ghost predicate LastLeaf(f: File, page: nat, es: seq<LeafEntry>) {
    page in f.heap && page < f.next && f.heap[page].Leaf? && f.heap[page].entries == es && f.heap[page].right == 0
  }

  /** A root over leaves, with the first `i` separators and the entries `es` in the last leaf. */
  ghost predicate Stage(p: Plan, f: File, i: nat, es: seq<LeafEntry>)
    requires IsPlan(p) && i <= 100
  {
    && i >= 1 && f.height == 2 && f.root in f.heap && f.root < f.next && f.heap[f.root].Internal?
    && Seps(p, f.heap[f.root].seps, 0, i) && LastLeaf(f, f.heap[f.root].seps[i].child, es)
  }

  function LastPage(f: File): nat {
    if f.root in f.heap && f.heap[f.root].Internal? && f.heap[f.root].seps != []
    then f.heap[f.root].seps[|f.heap[f.root].seps| - 1].child else 0
  }

  lemma StageLead(p: Plan, f: File, i: nat, es: seq<LeafEntry>, key: Key)
    requires IsPlan(p) && i <= 100 && Stage(p, f, i, es) && Beyond(p, key, i)
    ensures PathOf(f, key) == [f.root, LastPage(f)]
  {
    SepsLead(p, f.heap[f.root].seps, 0, i, key);
    assert PathTo(f.heap, LastPage(f), key, 1) == [LastPage(f)];
  }

  lemma StageFills(p: Plan, f: File, i: nat)
    requires IsPlan(p) && i < 100 && Stage(p, f, i, [])
    ensures AllLead(f, [f.root, LastPage(f)], Fill(p, i))
  {
    var es := Fill(p, i);
    FillSorted(p, i);
    hide Fill, Seps, PathOf, Beyond;
    forall j | 0 <= j < |es| ensures PathOf(f, es[j].key) == [f.root, LastPage(f)] {
      FillBeyond(p, i, j);
      StageLead(p, f, i, [], es[j].key);
    }
  }

  /** Filling the last leaf splits it around the next separator. */
  lemma StageSplits(p: Plan, f: File, i: nat)
    requires IsPlan(p) && i < 100 && Stage(p, f, i, [])
    ensures FileAfter(f, Puts(Fill(p, i)))
         == Raised(SplitLast(f, LastPage(f), Fill(p, i)), [f.root], Slot(f.next, SepKey(p, i)))
  {
    hide Fill, LeafBytes, AllLead, Raised, SplitLast, FileAfter, Puts, SepKey, PathOf;
    var es, path := Fill(p, i), [f.root, LastPage(f)];
    StageFills(p, f, i);
    FillFull(p, i);
    assert path[..|path| - 1] == [f.root];
    FillingSplits(f, path, es);
  }

  /** The root with the next separator. */
  lemma RootAdds(p: Plan, f: File, i: nat)
    requires IsPlan(p) && i < 100 && Stage(p, f, i, [])
    ensures var g, n := SplitLast(f, LastPage(f), Fill(p, i)), Enlarged(f.heap[f.root], Slot(f.next, SepKey(p, i)));
            && f.root in g.heap && g.heap[f.root] == f.heap[f.root] && Seps(p, n.seps, 0, i + 1)
            && n.seps[i + 1].child == f.next && EncodedSize(n) == 17 + RootBytes(p, i + 1)
            && LastLeaf(g, f.next, Fill(p, i)[Under(p, i)..])
  {
    var n := Enlarged(f.heap[f.root], Slot(f.next, SepKey(p, i)));
    SepsAdd(p, f.heap[f.root].seps, 0, i, f.next);
    hide Fill, Seps, InsertInternalEntry, EncodedSize;
    SepsSize(p, n, 0, i + 1);
  }

  /** The file after a stage whose root had room. */
  function Extended(p: Plan, f: File, i: nat): File
    requires IsPlan(p) && i < 100 && LastPage(f) in f.heap && f.heap[LastPage(f)].Leaf?
    requires f.root in f.heap && f.heap[f.root].Internal?
  {
    var g := SplitLast(f, LastPage(f), Fill(p, i));
    File(g.heap[f.root := Enlarged(f.heap[f.root], Slot(f.next, SepKey(p, i)))], f.root, 2, f.next + 1)
  }

  /** A parent with room takes the slot. */
  lemma RaisedRoom(f: File, page: nat, n: Node, x: Slot)
    requires page in f.heap && f.heap[page].Internal? && f.heap[page].seps != [] && n == Enlarged(f.heap[page], x)
    requires EncodedSize(n) + FULL_THRESHOLD <= PAGE_SIZE
    ensures Raised(f, [page], x) == Some(File(f.heap[page := n], f.root, f.height, f.next))
  {
  }

  lemma StageExtends(p: Plan, f: File, i: nat)
    requires IsPlan(p) && i < Steps(p) && Stage(p, f, i, [])
    ensures FileAfter(f, Puts(Fill(p, i))) == Some(Extended(p, f, i))
    ensures Stage(p, Extended(p, f, i), i + 1, Fill(p, i)[Under(p, i)..])
  {
    hide Fill, FileAfter, SplitLast, InsertInternalEntry, EncodedSize, Raised, Puts;
    StageSplits(p, f, i);
    RootAdds(p, f, i);
    var g, x := SplitLast(f, LastPage(f), Fill(p, i)), Slot(f.next, SepKey(p, i));
    assert RootBytes(p, i + 1) <= RootBytes(p, Steps(p)) <= 7875;
    RaisedRoom(g, f.root, Enlarged(f.heap[f.root], x), x);
    SplitHeader(f, LastPage(f), Fill(p, i));
  }

  lemma SplitHeader(f: File, page: nat, es: seq<LeafEntry>)
    requires page in f.heap && f.heap[page].Leaf?
    ensures var g := SplitLast(f, page, es); g.root == f.root && g.height == f.height && g.next == f.next + 1
  {
  }

  lemma FillOps(p: Plan, i: nat, limit: nat)
    requires IsPlan(p) && i < 100 && p.len <= limit
    ensures |Puts(Fill(p, i))| <= 50
    ensures forall j :: 0 <= j < |Puts(Fill(p, i))| ==> OpOk(Puts(Fill(p, i))[j], limit)
  {
    forall j | 0 <= j < |Fill(p, i)| ensures |Fill(p, i)[j].key| <= p.len && Fill(p, i)[j].tid == Tid(0, 0) {
      FillAt(p, i, j);
    }
  }

  /** The upper half of the keys is deleted again. */
  lemma StageEmpties(p: Plan, f: File, i: nat)
    requires IsPlan(p) && i < 100 && Stage(p, f, i + 1, Fill(p, i)[Under(p, i)..])
    ensures var f' := WithEntries(f, LastPage(f), []);
            FileAfter(f, Drops(Fill(p, i)[Under(p, i)..])) == Some(f') && Stage(p, f', i + 1, [])
  {
    var es, path := Fill(p, i)[Under(p, i)..], [f.root, LastPage(f)];
    UpperLeads(p, i, es);
    assert es[|es|..] == [] && Drops(es)[..|es|] == Drops(es);
    hide Fill, FileAfter, Drops, Beyond, Seps;
    forall j | 0 <= j < |es| ensures PathOf(f, es[j].key) == path {
      StageLead(p, f, i + 1, es, es[j].key);
    }
    hide PathOf;
    Emptying(f, path, es, |es|);
  }

  lemma UpperLeads(p: Plan, i: nat, es: seq<LeafEntry>)
    requires IsPlan(p) && i < 100 && es == Fill(p, i)[Under(p, i)..]
    ensures Sorted(Keys(es)) && forall j {:trigger es[j]} :: 0 <= j < |es| ==> Beyond(p, es[j].key, i + 1)
  {
    FillSorted(p, i);
    hide Fill, Beyond;
    var all, u := Fill(p, i), Under(p, i);
    assert forall j :: 0 <= j < |es| ==> Keys(es)[j] == Keys(all)[u + j];
    forall j | 0 <= j < |es| ensures Beyond(p, es[j].key, i + 1) {
      FillBeyond(p, i, u + j);
    }
  }

  /** The first split makes a root over two leaves. */
  lemma FirstStage(p: Plan) returns (f: File)
    requires IsPlan(p)
    ensures FileAfter(FreshFile(), Puts(Fill(p, 0))) == Some(f) && Stage(p, f, 1, Fill(p, 0)[Under(p, 0)..])
  {
    var es, g := Fill(p, 0), FreshFile();
    FillSorted(p, 0);
    FillFull(p, 0);
    assert es[|es| / 2].key == SepKey(p, 0) && [1][..0] == [];
    hide Fill, LeafBytes, FileAfter, Puts;
    FillingSplits(g, [1], es);
    var x := Slot(2, SepKey(p, 0));
    f := File(SplitLast(g, 1, es).heap[3 := NewRoot(1, x)], 3, 2, 4);
    assert f.heap[3].seps == [InternalEntry([], 1), InternalEntry(x.lo, 2)];
  }

  ghost predicate AllOk(ops: seq<Op>, limit: nat) {
    forall j :: 0 <= j < |ops| ==> OpOk(ops[j], limit)
  }

  /** One stage: fill the last leaf, and delete what went to its right half. */
  function StageOps(p: Plan, i: nat): seq<Op>
    requires IsPlan(p) && i < 100
  {
    Puts(Fill(p, i)) + Drops(Fill(p, i)[Under(p, i)..])
  }

  lemma StageOpsOk(p: Plan, i: nat, limit: nat)
    requires IsPlan(p) && i < 100 && p.len <= limit
    ensures |StageOps(p, i)| <= 100 && AllOk(StageOps(p, i), limit)
  {
    FillOps(p, i, limit);
  }

  /** A run that gives the root the first `i` separators. */
  lemma {:induction false} Stages(p: Plan, i: nat, limit: nat) returns (ops: seq<Op>, f: File)
    requires IsPlan(p) && 1 <= i <= Steps(p) && p.len <= limit
    ensures FileAfter(FreshFile(), ops) == Some(f) && Stage(p, f, i, []) && |ops| <= 100 * i && AllOk(ops, limit)
  {
    hide Fill, FileAfter, StageOps, WithEntries, Extended, OpOk;
    var init, before := [], FreshFile();
    var filled;
    if i == 1 {
      filled := FirstStage(p);
      assert FileAfter(before, init) == Some(before) by { EmptyRun(before); }
    } else {
      init, before := Stages(p, i - 1, limit);
      StageExtends(p, before, i - 1);
      filled := Extended(p, before, i - 1);
    }
    StageEmpties(p, filled, i - 1);
    f := WithEntries(filled, LastPage(filled), []);
    StageOpsOk(p, i - 1, limit);
    StageRun(p, before, filled, f, i - 1);
    ops := init + StageOps(p, i - 1);
    FileAfterAppend(FreshFile(), init, StageOps(p, i - 1));
  }

  lemma EmptyRun(f: File)
    ensures FileAfter(f, []) == Some(f)
  {
  }

  lemma StageRun(p: Plan, before: File, filled: File, f: File, i: nat)
    requires IsPlan(p) && i < 100
    requires FileAfter(before, Puts(Fill(p, i))) == Some(filled)
    requires FileAfter(filled, Drops(Fill(p, i)[Under(p, i)..])) == Some(f)
    ensures FileAfter(before, StageOps(p, i)) == Some(f)
  {
    FileAfterAppend(before, Puts(Fill(p, i)), Drops(Fill(p, i)[Under(p, i)..]));
  }

  // ---------------------------------------------------------------- the root becomes full

  /** The split leaves all the long separators to the right half. */
  lemma RightHalfSeps(p: Plan, n: Node)
    requires IsPlan(p) && n.Internal? && Seps(p, n.seps, 0, Steps(p) + 1)
    ensures var h := InternalRightHalf(n);
            && Seps(p, h.seps, p.shorts, Steps(p) + 1) && n.seps[|n.seps| / 2].key == SepKey(p, p.shorts - 1)
            && h.seps[|h.seps| - 1].child == n.seps[Steps(p) + 1].child
  {
    var h, mid := InternalRightHalf(n), |n.seps| / 2;
    assert mid == p.shorts;
    forall j | 0 < j < |h.seps| ensures h.seps[j].key == SepKey(p, p.shorts + j - 1) {
      assert h.seps[j] == n.seps[mid + j];
    }
  }

  /** A full root is split, under a new root. */
  lemma RaisedApart(f: File, page: nat, n: Node, x: Slot)
    requires page in f.heap && f.heap[page].Internal? && f.heap[page].seps != [] && n == Enlarged(f.heap[page], x)
    requires PAGE_SIZE < EncodedSize(n) + FULL_THRESHOLD <= PAGE_SIZE + FULL_THRESHOLD
    ensures Raised(f, [page], x) == Some(NewLevel(f, page, n))
  {
    hide EncodedSize, InternalLeftHalf, InternalRightHalf;
    assert [page][..0] == [];
  }

  function NewLevel(f: File, page: nat, n: Node): File
    requires n.Internal? && n.seps != []
  {
    var q := f.next;
    var top := NewRoot(f.root, PromotedSlot(n, q));
    File(f.heap[page := InternalLeftHalf(n)][q := InternalRightHalf(n)][q + 1 := top], q + 1, f.height + 1, q + 2)
  }

  /** Three levels: the last leaf is under `q`, which has the separators from `p.shorts` on. */
  ghost predicate Deep(p: Plan, f: File, q: nat, es: seq<LeafEntry>)
    requires IsPlan(p)
  {
    && f.height == 3 && f.root in f.heap && f.heap[f.root].Internal?
    && Seps(p, f.heap[f.root].seps, p.shorts - 1, p.shorts) && f.heap[f.root].seps[1].child == q
    && q in f.heap && q < f.next && f.heap[q].Internal? && Seps(p, f.heap[q].seps, p.shorts, Steps(p) + 1)
    && LastLeaf(f, LastChild(f, q), es)
  }

  function LastChild(f: File, q: nat): nat {
    if q in f.heap && f.heap[q].Internal? && f.heap[q].seps != []
    then f.heap[q].seps[|f.heap[q].seps| - 1].child else 0
  }

  /** One separator more than the root takes. */
  lemma StageDeepens(p: Plan, f: File) returns (f': File)
    requires IsPlan(p) && Stage(p, f, Steps(p), [])
    ensures FileAfter(f, Puts(Fill(p, Steps(p)))) == Some(f')
    ensures Deep(p, f', f.next + 1, Fill(p, Steps(p))[Under(p, Steps(p))..])
  {
    hide Fill, FileAfter, EncodedSize, Raised, Puts, InsertInternalEntry, SplitLast, NewLevel, SepKey, Deep;
    var i := Steps(p);
    StageSplits(p, f, i);
    RootAdds(p, f, i);
    var g, x := SplitLast(f, LastPage(f), Fill(p, i)), Slot(f.next, SepKey(p, i));
    var n := Enlarged(f.heap[f.root], x);
    SplitHeader(f, LastPage(f), Fill(p, i));
    RootFull(p);
    assert f.heap[f.root].seps != [] && n.seps != [];
    hide RootBytes, Seps;
    RaisedApart(g, f.root, n, x);
    f' := NewLevel(g, f.root, n);
    NewLevelDeep(p, g, f.root, n, Fill(p, i)[Under(p, i)..]);
  }

  lemma RootFull(p: Plan)
    requires IsPlan(p)
    ensures PAGE_SIZE < 17 + RootBytes(p, Steps(p) + 1) + FULL_THRESHOLD <= PAGE_SIZE + FULL_THRESHOLD
  {
  }

  lemma NewLevelDeep(p: Plan, g: File, page: nat, n: Node, es: seq<LeafEntry>)
    requires IsPlan(p) && n.Internal? && Seps(p, n.seps, 0, Steps(p) + 1) && g.height == 2
    requires LastLeaf(g, n.seps[Steps(p) + 1].child, es) && n.seps[Steps(p) + 1].child != page && page < g.next
    ensures Deep(p, NewLevel(g, page, n), g.next, es)
  {
    RightHalfSeps(p, n);
  }

  lemma DeepLead(p: Plan, f: File, q: nat, es: seq<LeafEntry>, key: Key)
    requires IsPlan(p) && Deep(p, f, q, es) && Beyond(p, key, Steps(p) + 1)
    ensures PathOf(f, key) == [f.root, q, LastChild(f, q)]
  {
    SepsLead(p, f.heap[f.root].seps, p.shorts - 1, p.shorts, key);
    SepsLead(p, f.heap[q].seps, p.shorts, Steps(p) + 1, key);
    hide Seps, Beyond, ChildPosition;
    var leaf := LastChild(f, q);
    assert PathTo(f.heap, leaf, key, 1) == [leaf];
    assert PathTo(f.heap, q, key, 2) == [q] + [leaf];
  }

  /** The upper half of the keys is deleted again. */
  lemma DeepEmpties(p: Plan, f: File, q: nat) returns (f': File)
    requires IsPlan(p) && Deep(p, f, q, Fill(p, Steps(p))[Under(p, Steps(p))..])
    ensures FileAfter(f, Drops(Fill(p, Steps(p))[Under(p, Steps(p))..])) == Some(f') && Deep(p, f', q, [])
  {
    var path, es := [f.root, q, LastChild(f, q)], Fill(p, Steps(p))[Under(p, Steps(p))..];
    UpperLeads(p, Steps(p), es);
    assert es[|es|..] == [] && Drops(es)[..|es|] == Drops(es);
    hide Fill, FileAfter, Drops, Beyond, Seps, PathOf, Sorted;
    forall j | 0 <= j < |es| ensures PathOf(f, es[j].key) == path {
      DeepLead(p, f, q, es, es[j].key);
    }
    Emptying(f, path, es, |es|);
    f' := WithEntries(f, LastChild(f, q), []);
    assert f'.heap[q] == f.heap[q] && f'.heap[f'.root] == f.heap[f.root];
  }

  /** The keys of the next stage belong to the same leaf. */
  lemma DeepFills(p: Plan, f: File, q: nat)
    requires IsPlan(p) && Deep(p, f, q, [])
    ensures AllLead(f, [f.root, q, LastChild(f, q)], Fill(p, Steps(p) + 1))
  {
    hide Fill, Beyond, Seps, PathOf;
    var i := Steps(p) + 1;
    var es := Fill(p, i);
    FillSorted(p, i);
    forall j | 0 <= j < |es| ensures PathOf(f, es[j].key) == [f.root, q, LastChild(f, q)] {
      FillBeyond(p, i, j);
      DeepLead(p, f, q, [], es[j].key);
    }
  }

  /** A parent without room for the slot overflows. */
  lemma RaisedOverflows(f: File, path: seq<nat>, n: Node, x: Slot)
    requires path != [] && path[|path| - 1] in f.heap && f.heap[path[|path| - 1]].Internal?
    requires f.heap[path[|path| - 1]].seps != []
    requires n == Enlarged(f.heap[path[|path| - 1]], x) && EncodedSize(n) > PAGE_SIZE
    ensures Raised(f, path, x) == None
  {
  }

  /** The next separator after that does not fit the right half of the old root. */
  lemma DeepOverflows(f: File, q: nat)
    requires Deep(PLAN_253, f, q, [])
    ensures FileAfter(f, Puts(Fill(PLAN_253, 62))) == None
  {
    hide Fill, LeafBytes, FileAfter, Puts, AllLead, Raised, PathOf, Seps, SepKey, EncodedSize, InsertInternalEntry;
    var p := PLAN_253;
    var es, path, leaf := Fill(p, 62), [f.root, q, LastChild(f, q)], LastChild(f, q);
    DeepFills(p, f, q);
    FillFull(p, 62);
    assert path[..|path| - 1] == [f.root, q];
    FillingSplits(f, path, es);
    var x := Slot(f.next, SepKey(p, 62));
    DeepAdds(f, q, x);
    SplitKeeps(f, leaf, es, q);
    RaisedOverflows(SplitLast(f, leaf, es), [f.root, q], Enlarged(f.heap[q], x), x);
  }

  /** The right half has 7934 bytes; 259 more make 8193. */
  lemma DeepAdds(f: File, q: nat, x: Slot)
    requires Deep(PLAN_253, f, q, []) && x.lo == SepKey(PLAN_253, 62)
    ensures f.heap[q].seps != [] && EncodedSize(f.heap[q]) == 7934 && EncodedSize(Enlarged(f.heap[q], x)) == 8193
  {
    var p := PLAN_253;
    SepsAdd(p, f.heap[q].seps, p.shorts, 62, x.page);
    SepsSize(p, f.heap[q], p.shorts, 62);
    SepsSize(p, Enlarged(f.heap[q], x), p.shorts, 63);
  }

  lemma SplitKeeps(f: File, page: nat, es: seq<LeafEntry>, q: nat)
    requires page in f.heap && f.heap[page].Leaf? && q in f.heap && q != page && q < f.next
    ensures q in SplitLast(f, page, es).heap && SplitLast(f, page, es).heap[q] == f.heap[q]
  {
  }

  // ---------------------------------------------------------------- the exact limits

  /** With keys of 253 bytes there is a run that overflows a page. */
  lemma OverflowAt253(limit: nat) returns (ops: seq<Op>)
    requires limit >= 253
    ensures RunOk(ops, limit) && FileAfter(FreshFile(), ops) == None
  {
    hide Fill, FileAfter, Puts, Drops, OpOk, Stage, Deep, AllLead;
    var p := PLAN_253;
    var init, f := Stages(p, 61, limit);
    var f1 := StageDeepens(p, f);
    var f2 := DeepEmpties(p, f1, f.next + 1);
    DeepOverflows(f2, f.next + 1);
    StageRun(p, f, f1, f2, 61);
    StageOpsOk(p, 61, limit);
    FillOps(p, 62, limit);
    FileAfterAppend(FreshFile(), init, StageOps(p, 61));
    FileAfterAppend(FreshFile(), init + StageOps(p, 61), Puts(Fill(p, 62)));
    ops := init + StageOps(p, 61) + Puts(Fill(p, 62));
  }

  lemma DeepSize(f: File, q: nat, es: seq<LeafEntry>)
    requires Deep(PLAN_233, f, q, es)
    ensures q in f.heap && EncodedSize(f.heap[q]) == 7893
  {
    SepsSize(PLAN_233, f.heap[q], 33, 66);
  }

  /** With keys of 233 bytes there is a run that leaves a page with only 299 bytes free. */
  lemma NoSpareAt233(limit: nat) returns (ops: seq<Op>, page: nat)
    requires limit >= 233
    ensures RunOk(ops, limit) && FileAfter(FreshFile(), ops).Some?
    ensures var heap := FileAfter(FreshFile(), ops).value.heap;
            page in heap && EncodedSize(heap[page]) + 299 == PAGE_SIZE
  {
    hide Fill, FileAfter, Puts, Drops, OpOk, Stage, Deep, AllLead, EncodedSize;
    var p := PLAN_233;
    var init, f := Stages(p, 65, limit);
    var f1 := StageDeepens(p, f);
    page := f.next + 1;
    DeepSize(f1, page, Fill(p, 65)[Under(p, 65)..]);
    FillOps(p, 65, limit);
    FileAfterAppend(FreshFile(), init, Puts(Fill(p, 65)));
    ops := init + Puts(Fill(p, 65));
  }

  /** No run overflows a page exactly when keys have at most 252 bytes. */
  lemma SafeKeyLimitExact(limit: nat)
    ensures SafeLimit(limit) <==> limit <= MAX_KEY
  {
    if limit <= MAX_KEY {
      forall ops | RunOk(ops, limit) ensures FileAfter(FreshFile(), ops).Some? {
        var t := RunHolds(ops, limit);
      }
    } else {
      var ops := OverflowAt253(limit);
    }
  }

  /** Every page always keeps the 300 spare bytes exactly when keys have at most 232 bytes. */
  lemma SpareKeyLimitExact(limit: nat)
    ensures SpareLimit(limit) <==> limit <= ROOMY_KEY
  {
    if limit <= ROOMY_KEY {
      forall ops | RunOk(ops, limit)
        ensures FileAfter(FreshFile(), ops).Some? ==> Spare(FileAfter(FreshFile(), ops).value)
      {
        var t := RunHolds(ops, limit);
        forall p | p in t.heap ensures EncodedSize(t.heap[p]) + FULL_THRESHOLD <= PAGE_SIZE { SpareBytes(t, p); }
      }
    } else {
      var ops, page := NoSpareAt233(limit);
    }
  }
}
