/** What comparisons, AND, OR and NOT mean, and the order of a sort in those terms. */
module Comparisons {
  import opened Bytes
  import opened Wrappers
  import opened Values
  import opened Floats
  import opened Queries
  import opened Windows
  import opened WindowOrder
  import SortKeys

  // ------------------------------------------------------------- the order

  /** The number of an integer of either width. */
  function Whole(v: Value): int
    requires v.Int4? || v.Int8?
  {
    if v.Int4? then v.int4 else v.int8
  }

  predicate IsWhole(v: Value) { v.Int4? || v.Int8? }

  /** Two values with an order: NULL with any, two of one plain type, two numbers, two floats that are numbers. */
  predicate Comparable(a: Value, b: Value) {
    || a.Null? || b.Null?
    || (Plain(a) && SameType(a, b))
    || (IsWhole(a) && IsWhole(b))
    || (a.Float8? && b.Float8? && !IsNaN(a.bits) && !IsNaN(b.bits))
  }

  /** NULL before every value; integers and floats by their numbers; others as the values of their type. */
  predicate Before(a: Value, b: Value)
    requires Comparable(a, b)
  {
    if b.Null? then false
    else if a.Null? then true
    else if IsWhole(a) && IsWhole(b) then Whole(a) < Whole(b)
    else if a.Float8? then Number(a.bits) < Number(b.bits)
    else SortKeys.Less(a, b)
  }

  lemma BytesOrderIs(x: Key, y: Key)
    ensures BytesOrder(x, y) == Less <==> Bytes.Lt(x, y)
    ensures BytesOrder(x, y) == Greater <==> Bytes.Lt(y, x)
    ensures BytesOrder(x, y) == Equal <==> x == y
  {
    LtOrder();
  }

  /** The comparison follows that order, and nothing is both before and after. */
  lemma CompareMeans(lib: Library, a: Value, b: Value)
    requires Comparable(a, b)
    ensures Comparable(b, a) && !(Before(a, b) && Before(b, a))
    ensures Compare(lib, a, b) == Some(if Before(a, b) then Less else if Before(b, a) then Greater else Equal)
  {
    hide IsNaN, Number, Bytes.Lt;
    match (a, b)
    case (Text(x), Text(y)) => BytesOrderIs(x, y);
    case (Bytea(x), Bytea(y)) => BytesOrderIs(x, y);
    case (Uuid(x), Uuid(y)) => BytesOrderIs(x, y);
    case _ =>
  }

  /** Among values of one plain type nothing else ties than equal values. */
  lemma NoOtherTies(lib: Library, a: Value, b: Value)
    requires Plain(a) && SameType(a, b)
    ensures (Before(a, b) <==> SortKeys.Less(a, b)) && (!Before(a, b) && !Before(b, a) <==> a == b)
  {
    CompareMeans(lib, a, b);
    EqualIsSame(lib, a, b);
    match (a, b)
    case (Text(x), Text(y)) => BytesOrderIs(x, y);
    case (Bytea(x), Bytea(y)) => BytesOrderIs(x, y);
    case (Uuid(x), Uuid(y)) => BytesOrderIs(x, y);
    case _ =>
  }

  lemma ReadsItself(lib: Library, a: Value, b: Value)
    requires !a.Null? && !b.Null? && Comparable(a, b)
    ensures ReadAs(lib, a, b) == a
  {
  }

  lemma TiesEqual(lib: Library, a: Value, b: Value)
    requires !a.Null? && !b.Null? && Comparable(a, b)
    ensures Equals(lib, a, b) <==> !Before(a, b) && !Before(b, a)
  {
    CompareMeans(lib, a, b);
    hide IsNaN, Number, Bytes.Lt;
    if Same(a, b) { SameTies(a, b); }
  }

  lemma SameTies(a: Value, b: Value)
    requires !a.Null? && Comparable(a, b) && Same(a, b)
    ensures Comparable(b, a) && !Before(a, b) && !Before(b, a)
  {
    match a
    case Text(x) => LtIrreflexive(x);
    case Bytea(x) => LtIrreflexive(x);
    case Uuid(x) => LtIrreflexive(x);
    case _ =>
  }

  /** The six operators in terms of the order. */
  lemma OperatorsMean(lib: Library, a: Value, b: Value)
    requires !a.Null? && !b.Null? && Comparable(a, b) && Comparable(b, a)
    ensures EvalOp(lib, a, Lt, b) == Ok(Bool(Before(a, b))) && EvalOp(lib, a, Gt, b) == Ok(Bool(Before(b, a)))
    ensures EvalOp(lib, a, Le, b) == Ok(Bool(!Before(b, a))) && EvalOp(lib, a, Ge, b) == Ok(Bool(!Before(a, b)))
    ensures EvalOp(lib, a, Eq, b) == Ok(Bool(!Before(a, b) && !Before(b, a)))
    ensures EvalOp(lib, a, NotEq, b) == Ok(Bool(Before(a, b) || Before(b, a)))
  {
    CompareMeans(lib, a, b);
    TiesEqual(lib, a, b);
    ReadsItself(lib, a, b);
    ReadsItself(lib, b, a);
    hide Compare, Before, Comparable, Equals, ReadAs;
  }

  /** With a NULL they have no value; with a NaN only `<>` holds. */
  lemma OperatorsUnordered(lib: Library, a: Value, op: Op, b: Value)
    requires !op.And? && !op.Or?
    ensures a.Null? || b.Null? ==> EvalOp(lib, a, op, b) == Ok(Null)
    ensures a.Float8? && b.Float8? && (IsNaN(a.bits) || IsNaN(b.bits)) ==>
      EvalOp(lib, a, op, b) == Ok(Bool(op.NotEq?))
  {
    hide IsNaN, Number;
  }

  /** A text beside a date or a timestamp is compared as what it reads as. */
  lemma TextsRead(lib: Library, text: seq<byte>, op: Op, b: Value)
    requires !op.And? && !op.Or?
    ensures b.Date? && lib.date(text).Some? ==>
      && EvalOp(lib, Text(text), op, b) == EvalOp(lib, Date(lib.date(text).value), op, b)
      && EvalOp(lib, b, op, Text(text)) == EvalOp(lib, b, op, Date(lib.date(text).value))
    ensures b.Timestamp? && lib.timestamp(text).Some? ==>
      && EvalOp(lib, Text(text), op, b) == EvalOp(lib, Timestamp(lib.timestamp(text).value), op, b)
      && EvalOp(lib, b, op, Text(text)) == EvalOp(lib, b, op, Timestamp(lib.timestamp(text).value))
    ensures b.Uuid? ==>
      && EvalOp(lib, Text(text), op, b) == EvalOp(lib, Uuid(text), op, b)
      && EvalOp(lib, b, op, Text(text)) == EvalOp(lib, b, op, Uuid(text))
  {
    hide Compare, Equals;
  }

  // ------------------------------------------------------- three truth values

  /** False, unknown, true. */
  function Degree(v: Value): (d: nat)
    requires v.Null? || v.Bool?
    ensures d <= 2
  {
    if v.Null? then 1 else if v.truth then 2 else 0
  }

  predicate Logical(v: Value) { v.Null? || v.Bool? }

  /** AND is the lesser, OR the greater of the two, NOT turns them round. */
  lemma LogicMeans(lib: Library, a: Value, b: Value, e: Expr, row: Row)
    requires Logical(a) && Logical(b) && Eval(lib, e, row) == Ok(a)
    ensures var r := EvalOp(lib, a, And, b);
      r.Ok? && Logical(r.value) && Degree(r.value) == if Degree(a) < Degree(b) then Degree(a) else Degree(b)
    ensures var r := EvalOp(lib, a, Or, b);
      r.Ok? && Logical(r.value) && Degree(r.value) == if Degree(a) > Degree(b) then Degree(a) else Degree(b)
    ensures var r := Eval(lib, Not(e), row); r.Ok? && Logical(r.value) && Degree(r.value) == 2 - Degree(a)
    ensures Eval(lib, IsNull(e), row) == Ok(Bool(a.Null?))
  {
    hide Compare;
  }

  // --------------------------------------------------------- sorting

  predicate Earlier(a: Value, b: Value) { Comparable(a, b) && Before(a, b) }

  /** Column `c` decides: the columns before it tie, and there the one key comes first. */
  predicate Decides(ascending: seq<bool>, a: Keys, b: Keys, c: nat)
    requires |ascending| == |a| == |b|
  {
    && c < |a|
    && (forall d :: 0 <= d < c ==> Same(a[d], b[d]))
    && if ascending[c] then Earlier(a[c], b[c]) else Earlier(b[c], a[c])
  }

  lemma AlikeComparable(a: Value, b: Value)
    requires Alike(a, b)
    ensures Comparable(a, b) && Comparable(b, a)
  {
  }

  /** One column: before in its order, ascending; after, descending. */
  lemma ColumnSorts(lib: Library, a: Value, b: Value)
    requires Alike(a, b)
    ensures ValueOrder(lib, a, b) == if Earlier(a, b) then Less else if Earlier(b, a) then Greater else Equal
    ensures !(Earlier(a, b) && Earlier(b, a)) && (ValueOrder(lib, a, b) == Equal <==> Same(a, b))
  {
    AlikeComparable(a, b);
    CompareMeans(lib, a, b);
    ValueTotal(lib, a, b);
    hide Compare, Before, Same, Comparable;
  }

  lemma DecidesLater(ascending: seq<bool>, a: Keys, b: Keys, c: nat)
    requires |ascending| == |a| == |b| > 0
    ensures Decides(ascending, a, b, c) <==>
      if c == 0 then (if ascending[0] then Earlier(a[0], b[0]) else Earlier(b[0], a[0]))
      else Same(a[0], b[0]) && Decides(ascending[1..], a[1..], b[1..], c - 1)
  {
    hide Same, Earlier;
    if c > 0 {
      if Decides(ascending, a, b, c) {
        forall d | 0 <= d < c - 1 ensures Same(a[1..][d], b[1..][d]) { assert Same(a[d + 1], b[d + 1]); }
      }
      if Same(a[0], b[0]) && Decides(ascending[1..], a[1..], b[1..], c - 1) {
        forall d | 0 <= d < c ensures Same(a[d], b[d]) {
          assert d > 0 ==> a[d] == a[1..][d - 1] && b[d] == b[1..][d - 1];
        }
      }
    }
  }

  /** A sort puts one key before another exactly when some column decides so. */
  lemma {:induction false} SortsExactly(lib: Library, ascending: seq<bool>, a: Keys, b: Keys)
    requires AlikeKeys(a, b) && |ascending| == |a|
    ensures SortsBefore(lib, ascending)(a, b) <==> exists c: nat :: Decides(ascending, a, b, c)
    decreases |ascending|
  {
    if a != [] {
      AlikeTail(a, b);
      ColumnSorts(lib, a[0], b[0]);
      hide Alike, ValueOrder, Same, Earlier, AlikeKeys, Decides;
      var rest, x, y := ascending[1..], a[1..], b[1..];
      SortsExactly(lib, rest, x, y);
      DecidesLater(ascending, a, b, 0);
      if c: nat :| Decides(rest, x, y, c) { DecidesLater(ascending, a, b, c + 1); }
      if c: nat :| Decides(ascending, a, b, c) { DecidesLater(ascending, a, b, c); }
    }
  }
}
