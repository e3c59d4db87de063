/** Sort keys: byte strings whose byte order is the order of the values. */
module SortKeys {
  import opened Bytes
  import opened Wrappers
  import opened BTreeNodes
  import opened BTreePaths
  import opened Floats
  import opened Values

  /** A signed number as its two's complement word. */
  function Word(v: int, size: int): int { if v < 0 then v + size else v }

  /** The top bit turned over. */
  function FlipTop(u: int, half: int): int { if u >= half then u - half else u + half }

  lemma FlipShifts(v: int, half: int)
    requires -half <= v < half
    ensures FlipTop(Word(v, 2 * half), half) == v + half
  {
  }

  /** A pattern as an unsigned number in the total order. */
  function FloatKey(bits: nat): (u: nat)
    requires bits < TWO64
    ensures u < TWO64
  {
    if bits < TWO63 then bits + TWO63 else TWO64 - 1 - bits
  }

  lemma FloatKeyOrder(a: nat, b: nat)
    requires a < TWO64 && b < TWO64
    ensures FloatKey(a) < FloatKey(b) <==> TotallyBelow(a, b)
    ensures FloatKey(a) == FloatKey(b) <==> a == b
  {
    hide TotallyBelow;
    TotalOrderIs(a, b);
  }

  function Encode(v: Value): Key
    requires Proper(v)
  {
    match v
    case Null => [0]
    case Bool(b) => [1, if b then 1 else 0]
    case Int4(i) => FlipShifts(i, TWO31); [2] + BE(FlipTop(Word(i, TWO32), TWO31), 4)
    case Int8(i) => FlipShifts(i, TWO63); [3] + BE(FlipTop(Word(i, TWO64), TWO63), 8)
    case Float8(bits) => [4] + BE(FloatKey(bits), 8)
    case Text(s) => [5] + s
    case Bytea(s) => [6] + s
    case Date(d) => FlipShifts(d, TWO31); [7] + BE(FlipTop(Word(d, TWO32), TWO31), 4)
    case Timestamp(t) => FlipShifts(t, TWO63); [8] + BE(FlipTop(Word(t, TWO64), TWO63), 8)
    case Numeric(s) => [9] + s
    case Uuid(s) => [10] + s
    case Json(s) => [12] + s
  }

  /** The order of values of one type. */
  predicate Less(a: Value, b: Value)
  {
    match (a, b)
    case (Bool(x), Bool(y)) => !x && y
    case (Int4(x), Int4(y)) => x < y
    case (Int8(x), Int8(y)) => x < y
    case (Float8(x), Float8(y)) => TotallyBelow(x, y)
    case (Text(x), Text(y)) => Lt(x, y)
    case (Bytea(x), Bytea(y)) => Lt(x, y)
    case (Date(x), Date(y)) => x < y
    case (Timestamp(x), Timestamp(y)) => x < y
    case (Uuid(x), Uuid(y)) => Lt(x, y)
    case _ => false
  }

  /** The types whose values are ordered; Numeric and Json keys are not in the order of the values. */
  predicate Ordered(v: Value) { !v.Null? && !v.Numeric? && !v.Json? }

  lemma TaggedOrder(tag: byte, a: Key, b: Key)
    ensures Lt([tag] + a, [tag] + b) <==> Lt(a, b)
    ensures [tag] + a == [tag] + b <==> a == b
  {
    LtPrefix([tag], a, b);
    assert ([tag] + a)[1..] == a && ([tag] + b)[1..] == b;
  }

  lemma WordOrder(tag: byte, x: nat, y: nat, w: nat)
    requires x < Pow256(w) && y < Pow256(w)
    ensures Lt([tag] + BE(x, w), [tag] + BE(y, w)) <==> x < y
    ensures [tag] + BE(x, w) == [tag] + BE(y, w) <==> x == y
  {
    TaggedOrder(tag, BE(x, w), BE(y, w));
    BEOrder(x, y, w);
  }

  lemma Signed32Order(tag: byte, x: int, y: int)
    requires -TWO31 <= x < TWO31 && -TWO31 <= y < TWO31
    ensures FlipTop(Word(x, TWO32), TWO31) == x + TWO31 && FlipTop(Word(y, TWO32), TWO31) == y + TWO31
    ensures Lt([tag] + BE(x + TWO31, 4), [tag] + BE(y + TWO31, 4)) <==> x < y
    ensures [tag] + BE(x + TWO31, 4) == [tag] + BE(y + TWO31, 4) <==> x == y
  {
    Widths();
    FlipShifts(x, TWO31);
    FlipShifts(y, TWO31);
    WordOrder(tag, x + TWO31, y + TWO31, 4);
  }

  lemma Signed64Order(tag: byte, x: int, y: int)
    requires -TWO63 <= x < TWO63 && -TWO63 <= y < TWO63
    ensures FlipTop(Word(x, TWO64), TWO63) == x + TWO63 && FlipTop(Word(y, TWO64), TWO63) == y + TWO63
    ensures Lt([tag] + BE(x + TWO63, 8), [tag] + BE(y + TWO63, 8)) <==> x < y
    ensures [tag] + BE(x + TWO63, 8) == [tag] + BE(y + TWO63, 8) <==> x == y
  {
    Widths();
    FlipShifts(x, TWO63);
    FlipShifts(y, TWO63);
    WordOrder(tag, x + TWO63, y + TWO63, 8);
  }

  lemma BoolOrder(x: bool, y: bool)
    ensures Lt([1, if x then 1 else 0], [1, if y then 1 else 0]) <==> !x && y
  {
    TaggedOrder(1, [if x then 1 else 0], [if y then 1 else 0]);
    assert [1] + [if x then 1 else 0] == [1, if x then 1 else 0];
    assert [1] + [if y then 1 else 0] == [1, if y then 1 else 0];
  }

  /** Within a type, byte order is value order and equal keys are equal values. */
  lemma KeyOrder(a: Value, b: Value)
    requires Proper(a) && Proper(b) && SameType(a, b)
    ensures Ordered(a) ==> (Lt(Encode(a), Encode(b)) <==> Less(a, b))
    ensures Encode(a) == Encode(b) <==> a == b
  {
    hide TotallyBelow, IsUtf8, Lt, BE, Pow256, FloatKey;
    match a
    case Bool(x) => BoolOrder(x, b.truth);
    case Int4(x) => Signed32Order(2, x, b.int4);
    case Int8(x) => Signed64Order(3, x, b.int8);
    case Float8(x) => FloatKeyOrder(x, b.bits); Widths(); WordOrder(4, FloatKey(x), FloatKey(b.bits), 8);
    case Text(s) => TaggedOrder(5, s, b.text);
    case Bytea(s) => TaggedOrder(6, s, b.bytes);
    case Date(x) => Signed32Order(7, x, b.days);
    case Timestamp(x) => Signed64Order(8, x, b.micros);
    case Numeric(s) => TaggedOrder(9, s, b.numeric);
    case Uuid(s) => TaggedOrder(10, s, b.uuid);
    case Json(s) => TaggedOrder(12, s, b.json);
    case _ =>
  }

  function Tag(v: Value): byte {
    match v
    case Null => 0 case Bool(_) => 1 case Int4(_) => 2 case Int8(_) => 3 case Float8(_) => 4 case Text(_) => 5
    case Bytea(_) => 6 case Date(_) => 7 case Timestamp(_) => 8 case Numeric(_) => 9 case Uuid(_) => 10
    case Json(_) => 12
  }

  lemma TagFirst(v: Value)
    requires Proper(v)
    ensures |Encode(v)| > 0 && Encode(v)[0] == Tag(v)
  {
  }

  /** Keys are equal only for equal values, whatever their types; the types follow each other, NULL first. */
  lemma KeyInjective(a: Value, b: Value)
    requires Proper(a) && Proper(b)
    ensures Encode(a) == Encode(b) <==> a == b
    ensures Tag(a) < Tag(b) ==> Lt(Encode(a), Encode(b))
  {
    TagFirst(a);
    TagFirst(b);
    if SameType(a, b) { KeyOrder(a, b); }
  }

  // ------------------------------------------------- with the index's range scan

  /** Both bounds are included; a missing bound does not bound. */
  predicate Between(v: Value, low: Option<Value>, high: Option<Value>) {
    (low.Some? ==> !Less(v, low.value)) && (high.Some? ==> !Less(high.value, v))
  }

  predicate Bound(v: Value, b: Option<Value>) {
    b.Some? ==> Proper(b.value) && SameType(v, b.value)
  }

  function KeyOf(b: Option<Value>): Option<Key>
    requires b.Some? ==> Proper(b.value)
  {
    if b.Some? then Some(Encode(b.value)) else None
  }

  lemma KeyInRange(v: Value, low: Option<Value>, high: Option<Value>)
    requires Proper(v) && Ordered(v) && Bound(v, low) && Bound(v, high)
    ensures InRange(Encode(v), KeyOf(low), KeyOf(high)) <==> Between(v, low, high)
  {
    hide Less, Encode;
    if low.Some? { KeyOrder(v, low.value); }
    if high.Some? { KeyOrder(high.value, v); }
  }

  /**
   * An index over the values of a column: scanning between the keys of two
   * bounds finds exactly the values in between, in their order.
   */
  lemma ScanFindsBetween(es: seq<LeafEntry>, values: seq<Value>, low: Option<Value>, high: Option<Value>, i: nat)
    requires Sorted(Keys(es)) && |values| == |es| && i < |es|
    requires forall j :: 0 <= j < |es| ==> Proper(values[j]) && es[j].key == Encode(values[j])
    requires Ordered(values[i]) && Bound(values[i], low) && Bound(values[i], high)
    ensures es[i] in Range(es, KeyOf(low), KeyOf(high)) <==> Between(values[i], low, high)
  {
    hide Less, Encode, Range;
    RangeMeaning(es, KeyOf(low), KeyOf(high));
    KeyInRange(values[i], low, high);
  }

  /** The entries come in the order of their values. */
  lemma ScanInOrder(es: seq<LeafEntry>, values: seq<Value>, i: nat, j: nat)
    requires Sorted(Keys(es)) && |values| == |es| && i < j < |es|
    requires Proper(values[i]) && es[i].key == Encode(values[i])
    requires Proper(values[j]) && es[j].key == Encode(values[j])
    requires Ordered(values[i]) && SameType(values[i], values[j])
    ensures Less(values[i], values[j])
  {
    hide Less, Encode;
    KeyOrder(values[i], values[j]);
    assert Lt(Keys(es)[i], Keys(es)[j]);
  }

  /** Looking one value up, as an equality scan does, finds it and nothing else. */
  lemma ScanFindsEqual(es: seq<LeafEntry>, v: Value, w: Value, i: nat)
    requires Sorted(Keys(es)) && i < |es| && Proper(v) && Proper(w) && es[i].key == Encode(w)
    ensures es[i] in Range(es, Some(Encode(v)), Some(Encode(v))) <==> v == w
  {
    hide Encode, Range;
    RangeMeaning(es, Some(Encode(v)), Some(Encode(v)));
    KeyInjective(v, w);
    LtOrder();
  }
}
