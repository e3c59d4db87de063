/** The B+ tree node: its value, its size in bytes, insertion and splitting. */
module BTreeNodes {
  import opened Bytes

  const PAGE_SIZE: nat := 8192
  const NODE_HEADER_SIZE: nat := 11
  const FULL_THRESHOLD: nat := 300

  datatype Tid = Tid(page: nat, slot: nat)
  datatype LeafEntry = LeafEntry(key: Key, tid: Tid)
  datatype InternalEntry = InternalEntry(key: Key, child: nat)

  /** A node; siblings are page numbers with 0 for "none". */
  datatype Node =
    | Leaf(right: nat, left: nat, entries: seq<LeafEntry>)
    | Internal(right: nat, left: nat, seps: seq<InternalEntry>)

  function WithLeft(n: Node, left: nat): Node {
    match n case Leaf(r, _, es) => Leaf(r, left, es) case Internal(r, _, es) => Internal(r, left, es)
  }

  function Keys(es: seq<LeafEntry>): seq<Key> {
    seq(|es|, i requires 0 <= i < |es| => es[i].key)
  }

  function SepKeys(es: seq<InternalEntry>): seq<Key> {
    seq(|es|, i requires 0 <= i < |es| => es[i].key)
  }

  predicate Sorted(ks: seq<Key>) {
    forall i, j :: 0 <= i < j < |ks| ==> Lt(ks[i], ks[j])
  }

  /** Number of leading keys below `k`: `partition_point(|e| e < k)`. */
  function LowerBound(ks: seq<Key>, k: Key): (p: nat)
    ensures p <= |ks|
    ensures forall i :: 0 <= i < p ==> Lt(ks[i], k)
    ensures p < |ks| ==> !Lt(ks[p], k)
  {
    if ks == [] || !Lt(ks[0], k) then 0
    else
      var q := LowerBound(ks[1..], k);
      assert forall i :: 1 <= i < q + 1 ==> ks[i] == ks[1..][i - 1];
      1 + q
  }

  /** Number of leading keys at most `k`: `partition_point(|e| e <= k)`. */
  function UpperBound(ks: seq<Key>, k: Key): (p: nat)
    ensures p <= |ks|
    ensures forall i :: 0 <= i < p ==> Le(ks[i], k)
    ensures p < |ks| ==> !Le(ks[p], k)
  {
    if ks == [] || !Le(ks[0], k) then 0
    else
      var q := UpperBound(ks[1..], k);
      assert forall i :: 1 <= i < q + 1 ==> ks[i] == ks[1..][i - 1];
      1 + q
  }

  function InsertAt<T>(s: seq<T>, p: nat, x: T): (r: seq<T>)
    requires p <= |s|
    ensures |r| == |s| + 1 && r[p] == x
  {
    s[..p] + [x] + s[p..]
  }

  function RemoveAt<T>(s: seq<T>, p: nat): (r: seq<T>)
    requires p < |s|
    ensures |r| == |s| - 1
  {
    s[..p] + s[p + 1..]
  }

  lemma Around<T>(s: seq<T>, p: nat)
    requires p < |s|
    ensures s == s[..p] + [s[p]] + s[p + 1..]
  {
  }

  lemma Cut<T>(s: seq<T>, p: nat)
    requires p <= |s|
    ensures s == s[..p] + s[p..]
  {
  }

  // ---------------------------------------------------------------- operations on one node

  function InsertLeafEntry(es: seq<LeafEntry>, e: LeafEntry): seq<LeafEntry> {
    InsertAt(es, LowerBound(Keys(es), e.key), e)
  }

  /** An empty key goes to the front; any other key never goes before a leading empty one. */
  function InternalPosition(es: seq<InternalEntry>, k: Key): (p: nat)
    ensures p <= |es|
  {
    if k == [] then 0
    else
      var start := if es != [] && es[0].key == [] then 1 else 0;
      start + LowerBound(SepKeys(es[start..]), k)
  }

  function InsertInternalEntry(es: seq<InternalEntry>, e: InternalEntry): seq<InternalEntry> {
    InsertAt(es, InternalPosition(es, e.key), e)
  }

  /** Right half of a leaf split; it keeps the old right sibling, the left one is set by the caller. */
  function LeafRightHalf(n: Node): Node
    requires n.Leaf?
  {
    Leaf(n.right, 0, n.entries[|n.entries| / 2..])
  }

  function LeafLeftHalf(n: Node): Node
    requires n.Leaf?
  {
    Leaf(n.right, n.left, n.entries[..|n.entries| / 2])
  }

  /** Right half of an internal split: the promoted entry's child becomes the leftmost child. */
  function InternalRightHalf(n: Node): Node
    requires n.Internal? && n.seps != []
  {
    var mid := |n.seps| / 2;
    Internal(0, 0, [InternalEntry([], n.seps[mid].child)] + n.seps[mid + 1..])
  }

  function InternalLeftHalf(n: Node): Node
    requires n.Internal?
  {
    Internal(n.right, n.left, n.seps[..|n.seps| / 2])
  }

  /** Position of the child followed for `k`: the last separator at most `k`. */
  function ChildPosition(es: seq<InternalEntry>, k: Key): (p: nat)
    requires es != []
    ensures p < |es|
  {
    var pos := UpperBound(SepKeys(es), k);
    var before := if pos == 0 then 0 else pos - 1;
    if before < |es| - 1 then before else |es| - 1
  }

  // ---------------------------------------------------------------- sizes

  function LeafBytes(es: seq<LeafEntry>): (n: nat) {
    if es == [] then 0 else 8 + |es[0].key| + LeafBytes(es[1..])
  }

  function SepBytes(es: seq<InternalEntry>): (n: nat) {
    if es == [] then 0 else 6 + |es[0].key| + SepBytes(es[1..])
  }

  function EncodedSize(n: Node): nat {
    NODE_HEADER_SIZE + (match n case Leaf(_, _, es) => LeafBytes(es) case Internal(_, _, es) => SepBytes(es))
  }

  function Count(n: Node): nat {
    match n case Leaf(_, _, es) => |es| case Internal(_, _, es) => |es|
  }

  predicate IsFull(n: Node)
    requires EncodedSize(n) <= PAGE_SIZE
  {
    PAGE_SIZE - EncodedSize(n) < FULL_THRESHOLD
  }

  lemma {:induction false} LeafBytesAppend(a: seq<LeafEntry>, b: seq<LeafEntry>)
    ensures LeafBytes(a + b) == LeafBytes(a) + LeafBytes(b)
  {
    if a == [] { assert a + b == b; }
    else { assert (a + b)[1..] == a[1..] + b; LeafBytesAppend(a[1..], b); }
  }

  lemma {:induction false} SepBytesAppend(a: seq<InternalEntry>, b: seq<InternalEntry>)
    ensures SepBytes(a + b) == SepBytes(a) + SepBytes(b)
  {
    if a == [] { assert a + b == b; }
    else { assert (a + b)[1..] == a[1..] + b; SepBytesAppend(a[1..], b); }
  }

  lemma {:induction false} LeafBytesBounds(es: seq<LeafEntry>, limit: nat)
    requires forall i :: 0 <= i < |es| ==> |es[i].key| <= limit
    ensures 8 * |es| <= LeafBytes(es)
    ensures limit <= 252 ==> LeafBytes(es) <= 260 * |es|
    ensures limit <= 232 ==> LeafBytes(es) <= 240 * |es|
  {
    if es != [] { LeafBytesBounds(es[1..], limit); }
  }

  lemma {:induction false} SepBytesBounds(es: seq<InternalEntry>, limit: nat)
    requires forall i :: 0 <= i < |es| ==> 1 <= |es[i].key| <= limit
    ensures 7 * |es| <= SepBytes(es)
    ensures limit <= 252 ==> SepBytes(es) <= 258 * |es|
    ensures limit <= 232 ==> SepBytes(es) <= 238 * |es|
  {
    if es != [] { SepBytesBounds(es[1..], limit); }
  }

  // ---------------------------------------------------------------- capacity

  /** Longest key for which no insertion can ever overflow a page (see `SafeKeyLimitExact`). */
  const MAX_KEY: nat := 252

  /** Longest key for which every written node keeps the 300 free bytes of the threshold. */
  const ROOMY_KEY: nat := 232

  predicate KeysWithin(n: Node, limit: nat) {
    match n
    case Leaf(_, _, es) => forall i :: 0 <= i < |es| ==> |es[i].key| <= limit
    case Internal(_, _, es) => forall i :: 0 <= i < |es| ==> |es[i].key| <= limit
  }

  function EntryCost(n: Node, limit: nat): nat {
    (if n.Leaf? then 8 else 6) + limit
  }

  /** Only the leftmost separator is empty. */
  predicate WellKeyed(n: Node) {
    n.Internal? ==>
      && n.seps != [] && n.seps[0].key == []
      && forall i :: 0 < i < |n.seps| ==> n.seps[i].key != []
  }

  /**
   * What holds of every node ever written when keys have at most `limit` bytes: it has 300 free
   * bytes, or else keys exceed 232 bytes, the node has few entries and one more still fits.
   */
  predicate Fits(n: Node, limit: nat) {
    && KeysWithin(n, limit)
    && WellKeyed(n)
    && HasRoom(EncodedSize(n), Count(n), EntryCost(n, limit), limit)
  }

  predicate HasRoom(size: nat, count: nat, cost: nat, limit: nat) {
    || size + FULL_THRESHOLD <= PAGE_SIZE
    || (limit > ROOMY_KEY && count <= 40 && size + cost <= PAGE_SIZE)
  }

  /** Sizes add up when a sequence is cut in two. */
  lemma LeafBytesCut(es: seq<LeafEntry>, p: nat)
    requires p <= |es|
    ensures LeafBytes(es) == LeafBytes(es[..p]) + LeafBytes(es[p..])
  {
    assert es == es[..p] + es[p..];
    LeafBytesAppend(es[..p], es[p..]);
  }

  lemma SepBytesCut(es: seq<InternalEntry>, p: nat)
    requires p <= |es|
    ensures SepBytes(es) == SepBytes(es[..p]) + SepBytes(es[p..])
  {
    assert es == es[..p] + es[p..];
    SepBytesAppend(es[..p], es[p..]);
  }

  lemma LeafBytesInsert(es: seq<LeafEntry>, p: nat, e: LeafEntry)
    requires p <= |es|
    ensures LeafBytes(InsertAt(es, p, e)) == LeafBytes(es) + 8 + |e.key|
  {
    LeafBytesCut(es, p);
    LeafBytesAppend(es[..p] + [e], es[p..]);
    LeafBytesAppend(es[..p], [e]);
  }

  lemma SepBytesInsert(es: seq<InternalEntry>, p: nat, e: InternalEntry)
    requires p <= |es|
    ensures SepBytes(InsertAt(es, p, e)) == SepBytes(es) + 6 + |e.key|
  {
    SepBytesCut(es, p);
    SepBytesAppend(es[..p] + [e], es[p..]);
    SepBytesAppend(es[..p], [e]);
  }

  /** After a leaf takes one more entry it fits the page; if full, both halves are writable again. */
  lemma LeafInsertFits(n: Node, e: LeafEntry, limit: nat)
    requires n.Leaf? && Fits(n, limit) && |e.key| <= limit <= MAX_KEY
    ensures var n' := Leaf(n.right, n.left, InsertLeafEntry(n.entries, e));
            && EncodedSize(n') <= PAGE_SIZE
            && (!IsFull(n') ==> Fits(n', limit))
            && (IsFull(n') ==> |n'.entries| >= 4 && Fits(LeafLeftHalf(n'), limit) && Fits(LeafRightHalf(n'), limit))
  {
    var n' := Leaf(n.right, n.left, InsertLeafEntry(n.entries, e));
    LeafBytesInsert(n.entries, LowerBound(Keys(n.entries), e.key), e);
    assert KeysWithin(n', limit);
    if IsFull(n') { LeafHalves(n', limit); }
  }

  lemma LeafHalves(n: Node, limit: nat)
    requires n.Leaf? && KeysWithin(n, limit) && limit <= MAX_KEY
    requires EncodedSize(n) <= PAGE_SIZE && IsFull(n)
    requires EncodedSize(n) + FULL_THRESHOLD <= PAGE_SIZE + 8 + limit || (limit > ROOMY_KEY && |n.entries| <= 41)
    ensures |n.entries| >= 4 && Fits(LeafLeftHalf(n), limit) && Fits(LeafRightHalf(n), limit)
  {
    var mid := |n.entries| / 2;
    LeafBytesCut(n.entries, mid);
    LeafBytesBounds(n.entries[..mid], limit);
    LeafBytesBounds(n.entries[mid..], limit);
    LeafHalfArithmetic(mid, |n.entries| - mid, LeafBytes(n.entries[..mid]), LeafBytes(n.entries[mid..]), limit);
  }

  /** The arithmetic of a leaf split: `p` and `q` entries of `a` and `b` bytes. */
  lemma LeafHalfArithmetic(p: nat, q: nat, a: nat, b: nat, limit: nat)
    requires p <= q <= p + 1 && 8 * p <= a <= 260 * p && 8 * q <= b <= 260 * q && limit <= MAX_KEY
    requires limit <= 232 ==> a <= 240 * p && b <= 240 * q
    requires 7892 < 11 + a + b <= 8192
    requires 11 + a + b <= 7900 + limit || (limit > ROOMY_KEY && p + q <= 41)
    ensures p >= 2
    ensures HasRoom(11 + a, p, 8 + limit, limit) && HasRoom(11 + b, q, 8 + limit, limit)
  {
  }

  /** The same for an internal node, whose split drops the promoted key from both halves. */
  lemma InternalInsertFits(n: Node, e: InternalEntry, limit: nat)
    requires n.Internal? && Fits(n, limit) && 1 <= |e.key| <= limit <= MAX_KEY
    ensures var n' := Internal(n.right, n.left, InsertInternalEntry(n.seps, e));
            && EncodedSize(n') <= PAGE_SIZE
            && (!IsFull(n') ==> Fits(n', limit))
            && (IsFull(n') ==>
                  |n'.seps| >= 4 && Fits(InternalLeftHalf(n'), limit) && Fits(InternalRightHalf(n'), limit))
  {
    var n' := Internal(n.right, n.left, InsertInternalEntry(n.seps, e));
    SepBytesInsert(n.seps, InternalPosition(n.seps, e.key), e);
    assert WellKeyed(n') && KeysWithin(n', limit);
    if IsFull(n') { InternalHalves(n', limit); }
  }

  /** How the bytes of a node of at least three children are shared out by an internal split. */
  lemma InternalSplitBytes(n: Node)
    requires n.Internal? && WellKeyed(n) && |n.seps| >= 3
    ensures var mid := |n.seps| / 2;
            && EncodedSize(InternalLeftHalf(n)) == 17 + SepBytes(n.seps[1..mid])
            && EncodedSize(InternalRightHalf(n)) == 17 + SepBytes(n.seps[mid + 1..])
            && EncodedSize(n) == 17 + SepBytes(n.seps[1..mid]) + 6 + |n.seps[mid].key| + SepBytes(n.seps[mid + 1..])
  {
    var mid := |n.seps| / 2;
    SepBytesCut(n.seps, mid);
    SepBytesCut(n.seps[..mid], 1);
    assert n.seps[..mid][1..] == n.seps[1..mid] && n.seps[..mid][..1] == [n.seps[0]];
    assert n.seps[mid..][1..] == n.seps[mid + 1..];
    var z := [InternalEntry([], n.seps[mid].child)];
    SepBytesAppend(z, n.seps[mid + 1..]);
  }

  lemma InternalHalves(n: Node, limit: nat)
    requires n.Internal? && WellKeyed(n) && KeysWithin(n, limit) && limit <= MAX_KEY
    requires EncodedSize(n) <= PAGE_SIZE && IsFull(n)
    requires EncodedSize(n) + FULL_THRESHOLD <= PAGE_SIZE + 6 + limit || (limit > ROOMY_KEY && |n.seps| <= 41)
    ensures |n.seps| >= 4 && Fits(InternalLeftHalf(n), limit) && Fits(InternalRightHalf(n), limit)
  {
    assert |n.seps| >= 4 by {
      SepBytesCut(n.seps, 1);
      SepBytesBounds(n.seps[1..], limit);
      assert n.seps[..1] == [n.seps[0]];
    }
    var mid := |n.seps| / 2;
    var a, b := n.seps[1..mid], n.seps[mid + 1..];
    InternalSplitBytes(n);
    SepBytesBounds(a, limit);
    SepBytesBounds(b, limit);
    InternalHalfArithmetic(|a|, |b|, SepBytes(a), SepBytes(b), |n.seps[mid].key|, limit);
    InternalHalfKeys(n, limit);
  }

  /** The arithmetic of an internal split: `p` and `q` non-leftmost entries, promoted key of `k` bytes. */
  lemma InternalHalfArithmetic(p: nat, q: nat, a: nat, b: nat, k: nat, limit: nat)
    requires q <= p + 1 && p <= q && 7 * p <= a <= 258 * p && 7 * q <= b <= 258 * q && 1 <= k <= limit <= MAX_KEY
    requires limit <= 232 ==> a <= 238 * p && b <= 238 * q
    requires 23 + a + b + k <= 7898 + limit || (limit > ROOMY_KEY && p + q + 2 <= 41)
    ensures HasRoom(17 + a, p + 1, 6 + limit, limit) && HasRoom(17 + b, q + 1, 6 + limit, limit)
  {
  }

  lemma InternalHalfKeys(n: Node, limit: nat)
    requires n.Internal? && WellKeyed(n) && KeysWithin(n, limit) && |n.seps| >= 4
    ensures KeysWithin(InternalLeftHalf(n), limit) && WellKeyed(InternalLeftHalf(n))
    ensures KeysWithin(InternalRightHalf(n), limit) && WellKeyed(InternalRightHalf(n))
  {
  }
}
