/** Whole runs of an index from a fresh file, against a finite map from keys to tuple ids. */
module BTreeRuns {
  import opened Bytes
  import opened BTreeNodes
  import opened BTreeCodec
  import opened Wrappers
  import opened BTreeEntries
  import opened BTreePaths
  import opened BTreeSteps
  import opened BTreeFiles
  import opened BTreeIndex

  datatype Answer =
    | Done
    | Failed(error: BTreeError)
    | Found(tid: Tid)
    | Listed(entries: seq<LeafEntry>)
    | Counted(n: nat)

  /** What each operation answers. */
  ghost predicate Answers(m: map<Key, Tid>, op: Op, a: Answer) {
    match op
    case Put(k, _) => a == if k in m then Failed(DuplicateKey) else Done
    case Drop(k) => a == if k in m then Done else Failed(KeyNotFound)
    case Get(k) => a == if k in m then Found(m[k]) else Failed(KeyNotFound)
    case Scan(s, e) => a.Listed? && IsRange(m, s, e, a.entries)
    case Size => a == Counted(|m|)
  }

  /** The map's entries within the inclusive bounds, in strictly ascending key order. */
  ghost predicate IsRange(m: map<Key, Tid>, start: Option<Key>, end: Option<Key>, es: seq<LeafEntry>) {
    && Sorted(Keys(es))
    && (forall k {:trigger k in ToMap(es)} :: k in ToMap(es) <==> k in m && InRange(k, start, end))
    && (forall k {:trigger ToMap(es)[k]} :: k in ToMap(es) ==> k in m && ToMap(es)[k] == m[k])
  }

  /** The range is determined by the map and the bounds. */
  lemma RangeUnique(m: map<Key, Tid>, start: Option<Key>, end: Option<Key>, a: seq<LeafEntry>, b: seq<LeafEntry>)
    requires IsRange(m, start, end, a) && IsRange(m, start, end, b)
    ensures a == b
  {
    assert ToMap(a) == ToMap(b);
    ToMapInjective(a, b);
  }

  lemma RangeIsRange(es: seq<LeafEntry>, start: Option<Key>, end: Option<Key>)
    requires Sorted(Keys(es))
    ensures IsRange(ToMap(es), start, end, Range(es, start, end))
  {
    RangeMeaning(es, start, end);
    forall k: Key
      ensures k in ToMap(Range(es, start, end)) <==> k in ToMap(es) && InRange(k, start, end)
      ensures k in ToMap(Range(es, start, end)) ==> ToMap(Range(es, start, end))[k] == ToMap(es)[k]
    {
      RangeMap(es, start, end, k);
    }
  }

  /** A valid tree after `n` operations, that holds `m` and whose file is `f`. */
  ghost predicate Tracks(tree: BTree, m: map<Key, Tid>, f: File, n: nat, limit: nat)
    reads tree
  {
    tree.Valid() && Holds(tree.tree, f, m, n, limit)
  }

  method Step(tree: BTree, op: Op, ghost m: map<Key, Tid>, ghost f: File, ghost n: nat, ghost limit: nat)
    returns (a: Answer)
    requires Tracks(tree, m, f, n, limit) && n < 0x3FFF_FFFF && OpOk(op, limit)
    modifies tree
    ensures Applied(f, op).Some? && Tracks(tree, Next(m, op), Applied(f, op).value, n + 1, limit) && Answers(m, op, a)
  {
    match op
    case Put(k, t) =>
      RoomAfter(tree.tree);
      var r := tree.Insert(k, t);
      a := if r.Ok? then Done else Failed(r.error);
    case Drop(k) =>
      var r := tree.Delete(k);
      a := if r.Ok? then Done else Failed(r.error);
    case Get(k) =>
      var r := tree.Search(k);
      a := if r.Ok? then Found(r.value) else Failed(r.error);
    case Scan(s, e) =>
      var es := tree.RangeScan(s, e);
      AllSortedEntries(tree.tree);
      RangeIsRange(AllEntries(tree.tree), s, e);
      a := Listed(es);
    case Size =>
      var count := tree.NumEntries();
      a := Counted(count);
  }

  ghost predicate AnsweredAt(ops: seq<Op>, answers: seq<Answer>, i: nat) {
    i < |ops| && i < |answers| && Answers(After(ops[..i]), ops[i], answers[i])
  }

  /**
   * Every run from a fresh file answers as the map does. Fewer than 2^30 operations keep the page
   * numbers within 32 bits.
   */
  method Run(ops: seq<Op>, limit: nat) returns (answers: seq<Answer>)
    requires limit <= MAX_KEY && RunOk(ops, limit)
    ensures |answers| == |ops|
    ensures forall i {:trigger AnsweredAt(ops, answers, i)} :: 0 <= i < |ops| ==> AnsweredAt(ops, answers, i)
  {
    var tree := new BTree(limit);
    answers := [];
    for i := 0 to |ops|
      invariant fresh(tree) && FileAfter(FreshFile(), ops[..i]).Some? && |answers| == i
      invariant Tracks(tree, After(ops[..i]), FileAfter(FreshFile(), ops[..i]).value, i, limit)
      invariant forall k {:trigger AnsweredAt(ops, answers, k)} :: 0 <= k < i ==> AnsweredAt(ops, answers, k)
    {
      var a := Step(tree, ops[i], After(ops[..i]), FileAfter(FreshFile(), ops[..i]).value, i, limit);
      AfterNext(ops, i);
      AnswerNext(ops, answers, a);
      answers := answers + [a];
    }
  }

  lemma AnswerNext(ops: seq<Op>, answers: seq<Answer>, a: Answer)
    requires |answers| < |ops| && Answers(After(ops[..|answers|]), ops[|answers|], a)
    requires forall k {:trigger AnsweredAt(ops, answers, k)} :: 0 <= k < |answers| ==> AnsweredAt(ops, answers, k)
    ensures var next := answers + [a];
            forall k {:trigger AnsweredAt(ops, next, k)} :: 0 <= k < |next| ==> AnsweredAt(ops, next, k)
  {
    var next := answers + [a];
    forall k | 0 <= k < |next| ensures AnsweredAt(ops, next, k) {
      assert k < |answers| ==> AnsweredAt(ops, answers, k);
    }
  }

  lemma AfterNext(ops: seq<Op>, i: nat)
    requires i < |ops|
    ensures After(ops[..i + 1]) == Next(After(ops[..i]), ops[i])
    ensures var before := FileAfter(FreshFile(), ops[..i]);
            FileAfter(FreshFile(), ops[..i + 1]) == if before.None? then None else Applied(before.value, ops[i])
  {
    assert ops[..i + 1][..i] == ops[..i] && ops[..i + 1][i] == ops[i];
  }
}
