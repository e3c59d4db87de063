/** Rows as bytes: a 32-bit NULL bitmap and the bytes of the values that are not NULL. */
module RowCodec {
  import opened Arithmetic
  import opened Bytes
  import opened Values
  import opened Floats
  import opened SortKeys

  /** Column types; those stored alike are one (VARCHAR with TEXT, TIMESTAMPTZ with TIMESTAMP, JSONB with JSON). */
  datatype Column =
    | BoolColumn | Int4Column | Int8Column | Float8Column | TextColumn | ByteaColumn | DateColumn
    | TimestampColumn | NumericColumn | UuidColumn | JsonColumn

  datatype Decoded<+T> = Good(value: T) | Bad

  const BITMAP_COLUMNS: nat := 32

  // ----------------------------------------------------------------- values

  /** A length-prefixed string. */
  function Prefixed(s: seq<byte>): seq<byte> { LE(|s|, 4) + s }

  function ToBytes(v: Value): seq<byte>
    requires Proper(v)
  {
    match v
    case Null => []
    case Bool(b) => [if b then 1 else 0]
    case Int4(i) => LE(Word(i, TWO32), 4)
    case Int8(i) => LE(Word(i, TWO64), 8)
    case Float8(bits) => LE(bits, 8)
    case Text(s) => Prefixed(s)
    case Bytea(s) => Prefixed(s)
    case Date(d) => LE(Word(d, TWO32), 4)
    case Timestamp(t) => LE(Word(t, TWO64), 8)
    case Numeric(s) => Prefixed(s)
    case Uuid(s) => Prefixed(s)
    case Json(s) => Prefixed(s)
  }

  /** A word read as a signed number. */
  function Signed(u: nat, half: int): int { if u >= half then u - 2 * half else u }

  /** Fewer bytes than this and the column is taken for one added after the row was written. */
  function Least(c: Column): nat {
    match c
    case BoolColumn => 1
    case Int8Column => 8
    case Float8Column => 8
    case TimestampColumn => 8
    case _ => 4
  }

  predicate Variable(c: Column) {
    c.TextColumn? || c.ByteaColumn? || c.NumericColumn? || c.UuidColumn? || c.JsonColumn?
  }

  /** The string of a variable column; only bytes need not be UTF-8. */
  function FromString(s: seq<byte>, c: Column): Decoded<Value> {
    if c.ByteaColumn? then Good(Bytea(s))
    else if !IsUtf8(s) then Bad
    else match c
      case TextColumn => Good(Text(s))
      case NumericColumn => Good(Numeric(s))
      case UuidColumn => Good(Uuid(s))
      case _ => Good(Json(s))
  }

  /** The value of a fixed-size column from its bytes. */
  function FromFixed(s: seq<byte>, c: Column): Value
    requires |s| > 0
  {
    match c
    case BoolColumn => Bool(s[0] != 0)
    case Int4Column => Int4(Signed(FromLE(s), TWO31))
    case Int8Column => Int8(Signed(FromLE(s), TWO63))
    case Float8Column => Float8(FromLE(s))
    case DateColumn => Date(Signed(FromLE(s), TWO31))
    case _ => Timestamp(Signed(FromLE(s), TWO63))
  }

  /** One column read from the front of what is left of the data: the value and how many bytes it took. */
  function ReadColumn(rest: seq<byte>, c: Column): (r: Decoded<(Value, nat)>)
    ensures r.Good? ==> r.value.1 <= |rest|
  {
    if |rest| < Least(c) then Good((Null, 0))
    else if !Variable(c) then Good((FromFixed(rest[..Least(c)], c), Least(c)))
    else
      var len := FromLE(rest[..4]);
      if |rest| < 4 + len then Bad
      else
        var v := FromString(rest[4..4 + len], c);
        if v.Bad? then Bad else Good((v.value, 4 + len))
  }

  predicate Fits(v: Value, c: Column) {
    match c
    case BoolColumn => v.Bool?
    case Int4Column => v.Int4?
    case Int8Column => v.Int8?
    case Float8Column => v.Float8?
    case TextColumn => v.Text?
    case ByteaColumn => v.Bytea?
    case DateColumn => v.Date?
    case TimestampColumn => v.Timestamp?
    case NumericColumn => v.Numeric?
    case UuidColumn => v.Uuid?
    case JsonColumn => v.Json?
  }

  lemma SignedWord(v: int, half: int)
    requires -half <= v < half
    ensures 0 <= Word(v, 2 * half) < 2 * half && Signed(Word(v, 2 * half), half) == v
  {
  }

  lemma LengthReads(p: seq<byte>, s: seq<byte>, rest: seq<byte>, c: Column)
    requires |p| == 4 && FromLE(p) == |s| && Variable(c) && FromString(s, c).Good?
    ensures ReadColumn(p + s + rest, c) == Good((FromString(s, c).value, 4 + |s|))
  {
    hide FromLE, FromFixed, FromString;
    var all := p + s + rest;
    assert all[..4] == p;
    assert all[4..4 + |s|] == s;
  }

  lemma LengthRoundTrip(n: nat)
    requires n < TWO32
    ensures FromLE(LE(n, 4)) == n
  {
    hide LE, FromLE;
    Widths();
    LERoundTrip(n, 4);
  }

  lemma PrefixedReads(s: seq<byte>, rest: seq<byte>, c: Column)
    requires |s| < TWO32 && Variable(c) && (c.ByteaColumn? || IsUtf8(s))
    ensures ReadColumn(Prefixed(s) + rest, c) == Good((FromString(s, c).value, 4 + |s|))
  {
    hide ReadColumn, LE, FromLE, IsUtf8;
    LengthRoundTrip(|s|);
    LengthReads(LE(|s|, 4), s, rest, c);
  }

  lemma FixedReads(b: seq<byte>, rest: seq<byte>, c: Column)
    requires !Variable(c) && |b| == Least(c)
    ensures ReadColumn(b + rest, c) == Good((FromFixed(b, c), |b|))
  {
    assert (b + rest)[..|b|] == b;
  }

  lemma FixedRoundTrip(v: Value, c: Column)
    requires Proper(v) && Fits(v, c) && !Variable(c)
    ensures |ToBytes(v)| == Least(c) && FromFixed(ToBytes(v), c) == v
  {
    Widths();
    hide LE, FromLE, Pow256;
    match v
    case Int4(i) => SignedWord(i, TWO31); LERoundTrip(Word(i, TWO32), 4);
    case Int8(i) => SignedWord(i, TWO63); LERoundTrip(Word(i, TWO64), 8);
    case Float8(bits) => LERoundTrip(bits, 8);
    case Date(d) => SignedWord(d, TWO31); LERoundTrip(Word(d, TWO32), 4);
    case Timestamp(t) => SignedWord(t, TWO63); LERoundTrip(Word(t, TWO64), 8);
    case _ =>
  }

  /** A value is read back from its own bytes, whatever follows them. */
  lemma ValueRoundTrip(v: Value, c: Column, rest: seq<byte>)
    requires Proper(v) && Fits(v, c)
    ensures ReadColumn(ToBytes(v) + rest, c) == Good((v, |ToBytes(v)|))
  {
    if Variable(c) {
      hide ReadColumn, IsUtf8;
      match v
      case Text(s) => PrefixedReads(s, rest, c);
      case Bytea(s) => PrefixedReads(s, rest, c);
      case Numeric(s) => PrefixedReads(s, rest, c);
      case Uuid(s) => PrefixedReads(s, rest, c);
      case Json(s) => PrefixedReads(s, rest, c);
    } else {
      hide ReadColumn, ToBytes, FromFixed;
      FixedRoundTrip(v, c);
      FixedReads(ToBytes(v), rest, c);
    }
  }

  /** A string that a variable column can hold. */
  predicate Holds(c: Column, s: seq<byte>) { c.ByteaColumn? || IsUtf8(s) }

  /** Which bytes are an error: a length that goes past the end, or text that is not UTF-8. */
  lemma ReadFailsExact(rest: seq<byte>, c: Column)
    ensures ReadColumn(rest, c).Bad? <==>
      && Variable(c) && |rest| >= 4
      && (|rest| < 4 + FromLE(rest[..4]) || !Holds(c, rest[4..4 + FromLE(rest[..4])]))
  {
    hide FromLE, IsUtf8, FromFixed;
  }

  /** The number in two's complement that the bytes stand for. */
  lemma SignedExact(s: seq<byte>, half: int)
    requires (|s| == 4 && half == TWO31) || (|s| == 8 && half == TWO63)
    ensures -half <= Signed(FromLE(s), half) < half && LE(Word(Signed(FromLE(s), half), 2 * half), |s|) == s
  {
    var u := FromLE(s);
    assert u < 2 * half by { Widths(); }
    hide FromLE, LE, Pow256;
    FromLERoundTrip(s);
    WordSigned(u, half);
  }

  lemma WordSigned(u: nat, half: int)
    requires 0 < half && u < 2 * half
    ensures -half <= Signed(u, half) < half && Word(Signed(u, half), 2 * half) == u
  {
  }

  /** What is read of the other bytes: NULL of too few, otherwise a value that has them as its own. */
  lemma ReadExact(rest: seq<byte>, c: Column)
    requires ReadColumn(rest, c).Good?
    ensures var (v, k) := ReadColumn(rest, c).value;
      if |rest| < Least(c) then v == Null && k == 0
      else if c.BoolColumn? then v == Bool(rest[0] != 0) && k == 1
      else Proper(v) && Fits(v, c) && ToBytes(v) == rest[..k]
  {
    if |rest| >= Least(c) && !c.BoolColumn? {
      hide IsUtf8;
      if Variable(c) {
        FromLERoundTrip(rest[..4]);
        Widths();
        var len := FromLE(rest[..4]);
        assert rest[..4] + rest[4..4 + len] == rest[..4 + len];
      } else {
        FixedExact(rest[..Least(c)], c);
      }
    }
  }

  lemma FixedExact(s: seq<byte>, c: Column)
    requires !Variable(c) && !c.BoolColumn? && |s| == Least(c)
    ensures var v := FromFixed(s, c); Proper(v) && Fits(v, c) && ToBytes(v) == s
  {
    Widths();
    match c
    case Int4Column => SignedExact(s, TWO31);
    case Int8Column => SignedExact(s, TWO63);
    case Float8Column => FromLERoundTrip(s);
    case DateColumn => SignedExact(s, TWO31);
    case TimestampColumn => SignedExact(s, TWO63);
  }

  // ------------------------------------------------------------------- rows

  predicate Storable(row: seq<Value>) { forall i :: 0 <= i < |row| ==> Proper(row[i]) }

  /** The bytes of a row's values, NULLs leaving none. */
  function Data(row: seq<Value>): seq<byte>
    requires Storable(row)
  {
    if row == [] then [] else ToBytes(row[0]) + Data(row[1..])
  }

  /** The bitmap: bit `i` for a NULL in column `i`, for the first 32 columns only. */
  function Bitmap(row: seq<Value>): nat {
    if row == [] then 0
    else
      var i := |row| - 1;
      Bitmap(row[..i]) + if i < BITMAP_COLUMNS && row[i].Null? then Pow2(i) else 0
  }

  /** Bit `i` of a word. */
  predicate BitAt(bitmap: nat, i: nat) { bitmap / Pow2(i) % 2 == 1 }

  predicate Marked(bitmap: nat, i: nat) { i < BITMAP_COLUMNS && BitAt(bitmap, i) }

  lemma {:induction false} BitmapBelow(row: seq<Value>)
    ensures Bitmap(row) < Pow2(|row|)
  {
    if row != [] {
      BitmapBelow(row[..|row| - 1]);
    }
  }

  lemma BitHigh(low: nat, i: nat)
    requires low < Pow2(i)
    ensures !BitAt(low, i) && BitAt(low + Pow2(i), i)
  {
    hide Pow2;
    DivUnique(Pow2(i), 0, low, low);
    DivUnique(Pow2(i), 1, low, low + Pow2(i));
  }

  lemma {:induction false} Pow2Split(i: nat, k: nat)
    requires i < k
    ensures exists h: nat :: Pow2(k) == 2 * h * Pow2(i)
    decreases k
  {
    if i + 1 == k {
      assert Pow2(k) == 2 * 1 * Pow2(i);
    } else {
      Pow2Split(i, k - 1);
      var h: nat :| Pow2(k - 1) == 2 * h * Pow2(i);
      assert Pow2(k) == 2 * (2 * h) * Pow2(i);
    }
  }

  lemma QuotientShift(low: nat, p: nat, h: nat)
    requires p > 0
    ensures (low + 2 * h * p) / p == low / p + 2 * h
  {
    var q, r := low / p, low % p;
    assert low + 2 * h * p == (q + 2 * h) * p + r;
    DivUnique(p, q + 2 * h, r, low + 2 * h * p);
  }

  lemma BitLow(low: nat, i: nat, k: nat)
    requires i < k
    ensures BitAt(low + Pow2(k), i) <==> BitAt(low, i)
  {
    Pow2Split(i, k);
    hide Pow2;
    var h: nat :| Pow2(k) == 2 * h * Pow2(i);
    QuotientShift(low, Pow2(i), h);
    Parity(low / Pow2(i), h);
  }

  lemma Parity(x: nat, h: nat)
    ensures (x + 2 * h) % 2 == x % 2
  {
  }

  /** The bits mean what they should. */
  lemma {:induction false} BitmapMarks(row: seq<Value>, i: nat)
    ensures Marked(Bitmap(row), i) <==> i < |row| && i < BITMAP_COLUMNS && row[i].Null?
  {
    hide BitAt;
    if row == [] {
      ZeroBits(i);
    } else {
      var k := |row| - 1;
      var low := Bitmap(row[..k]);
      BitmapMarks(row[..k], i);
      BitmapBelow(row[..k]);
      if i == k {
        BitHigh(low, i);
      } else if i < k {
        BitLow(low, i, k);
      } else {
        BitmapBelow(row);
        HighBits(row, i);
      }
    }
  }

  lemma ZeroBits(i: nat)
    ensures !BitAt(0, i)
  {
  }

  lemma HighBits(row: seq<Value>, i: nat)
    requires i >= |row|
    ensures !BitAt(Bitmap(row), i)
  {
    BitmapBelow(row);
    if i > |row| { Pow2Grows(|row|, i); }
    BitHigh(Bitmap(row), i);
  }

  /** The bitmap has 32 bits, whatever the number of columns. */
  lemma {:induction false} BitmapFits(row: seq<Value>)
    ensures Bitmap(row) < 0x1_0000_0000
  {
    if |row| <= 32 {
      BitmapBelow(row);
      PowerWord();
      if |row| < 32 { Pow2Grows(|row|, 32); }
    } else {
      BitmapFits(row[..|row| - 1]);
    }
  }

  lemma PowerWord()
    ensures Pow2(32) == 0x1_0000_0000
  {
    assert Pow2(8) == 256;
    assert Pow2(16) == 65_536;
    assert Pow2(24) == 16_777_216;
  }

  /** Reading the columns from `i` on. */
  function DecodeFrom(rest: seq<byte>, bitmap: nat, columns: seq<Column>, i: nat): (r: Decoded<seq<Value>>)
    requires i <= |columns|
    ensures r.Good? ==> |r.value| == |columns| - i
    decreases |columns| - i
  {
    if i == |columns| then Good([])
    else if Marked(bitmap, i) then
      var r := DecodeFrom(rest, bitmap, columns, i + 1);
      if r.Bad? then Bad else Good([Null] + r.value)
    else
      var head := ReadColumn(rest, columns[i]);
      if head.Bad? then Bad
      else
        var r := DecodeFrom(rest[head.value.1..], bitmap, columns, i + 1);
        if r.Bad? then Bad else Good([head.value.0] + r.value)
  }

  function DecodeRow(data: seq<byte>, bitmap: nat, columns: seq<Column>): Decoded<seq<Value>> {
    DecodeFrom(data, bitmap, columns, 0)
  }

  /** A row of the table as it was when the row was written: columns may have been added since. */
  predicate RowOf(row: seq<Value>, columns: seq<Column>) {
    && Storable(row) && |row| <= |columns|
    && forall i :: 0 <= i < |row| ==> row[i].Null? || Fits(row[i], columns[i])
  }

  function Nulls(n: nat): (r: seq<Value>)
    ensures |r| == n && forall i :: 0 <= i < n ==> r[i].Null?
  {
    seq(n, i => Null)
  }

  /** The row with the columns added since read as NULL. */
  function Extended(row: seq<Value>, columns: seq<Column>): (r: seq<Value>)
    requires |row| <= |columns|
    ensures |r| == |columns|
  {
    row + Nulls(|columns| - |row|)
  }

  /**
   * What makes a NULL beyond the bitmap readable: the values after it leave
   * fewer bytes than its column needs, so it is not taken for one of them.
   */
  predicate Readable(row: seq<Value>, columns: seq<Column>, j: nat)
    requires RowOf(row, columns)
  {
    j >= BITMAP_COLUMNS && j < |row| && row[j].Null? ==> |Data(row[j..])| < Least(columns[j])
  }

  lemma DataStep(row: seq<Value>, i: nat)
    requires Storable(row) && i < |row|
    ensures Data(row[i..]) == ToBytes(row[i]) + Data(row[i + 1..])
  {
    assert row[i..][1..] == row[i + 1..];
  }

  /** Columns past the end of the row read as NULL. */
  lemma {:induction false} AddedColumns(row: seq<Value>, columns: seq<Column>, i: nat)
    requires RowOf(row, columns) && |row| <= i <= |columns|
    ensures DecodeFrom([], Bitmap(row), columns, i) == Good(Extended(row, columns)[i..])
    decreases |columns| - i
  {
    if i < |columns| {
      BitmapMarks(row, i);
      AddedColumns(row, columns, i + 1);
      NullStep(row, columns, i);
      hide Bitmap, Marked, Fits, Extended;
      var none: seq<byte> := [];
      assert none[0..] == none;
    } else {
      assert Extended(row, columns)[i..] == [];
    }
  }

  lemma NullStep(row: seq<Value>, columns: seq<Column>, i: nat)
    requires |row| <= |columns| && i < |columns| && (i < |row| ==> row[i].Null?)
    ensures Extended(row, columns)[i..] == [Null] + Extended(row, columns)[i + 1..]
  {
  }

  lemma ValueStep(row: seq<Value>, columns: seq<Column>, i: nat)
    requires |row| <= |columns| && i < |row|
    ensures Extended(row, columns)[i..] == [row[i]] + Extended(row, columns)[i + 1..]
  {
  }

  /** Good from column `i` on. */
  predicate ReadsBack(row: seq<Value>, columns: seq<Column>, i: nat)
    requires RowOf(row, columns) && i <= |row|
  {
    DecodeFrom(Data(row[i..]), Bitmap(row), columns, i) == Good(Extended(row, columns)[i..])
  }

  lemma ConsDiffers(a: Value, b: Value, s: seq<Value>, t: seq<Value>)
    ensures [a] + s == [b] + t <==> a == b && s == t
  {
    assert ([a] + s)[0] == a && ([b] + t)[0] == b;
    assert ([a] + s)[1..] == s && ([b] + t)[1..] == t;
  }

  lemma MarkedColumn(row: seq<Value>, columns: seq<Column>, i: nat)
    requires RowOf(row, columns) && i < |row| && Marked(Bitmap(row), i)
    ensures ReadsBack(row, columns, i) <==> ReadsBack(row, columns, i + 1)
  {
    BitmapMarks(row, i);
    DataStep(row, i);
    ValueStep(row, columns, i);
    assert Data(row[i..]) == Data(row[i + 1..]);
    hide Bitmap, Data, Marked, Extended, ReadColumn, ToBytes;
    var r := DecodeFrom(Data(row[i + 1..]), Bitmap(row), columns, i + 1);
    if r.Good? { ConsDiffers(Null, Null, r.value, Extended(row, columns)[i + 1..]); }
  }

  lemma ValueColumn(row: seq<Value>, columns: seq<Column>, i: nat)
    requires RowOf(row, columns) && i < |row| && !row[i].Null?
    ensures ReadsBack(row, columns, i) <==> ReadsBack(row, columns, i + 1)
  {
    BitmapMarks(row, i);
    var later := Data(row[i + 1..]);
    ValueRoundTrip(row[i], columns[i], later);
    DataStep(row, i);
    ValueStep(row, columns, i);
    hide Bitmap, Data, Marked, Extended, ToBytes, ReadColumn;
    assert (ToBytes(row[i]) + later)[|ToBytes(row[i])|..] == later;
    var r := DecodeFrom(later, Bitmap(row), columns, i + 1);
    if r.Good? { ConsDiffers(row[i], row[i], r.value, Extended(row, columns)[i + 1..]); }
  }

  lemma FixedNotNull(rest: seq<byte>, c: Column)
    requires |rest| >= Least(c)
    ensures ReadColumn(rest, c).Good? ==> !ReadColumn(rest, c).value.0.Null?
  {
  }

  /** A NULL the bitmap does not cover. */
  lemma UncoveredColumn(row: seq<Value>, columns: seq<Column>, i: nat)
    requires RowOf(row, columns) && i < |row| && row[i].Null? && i >= BITMAP_COLUMNS
    ensures ReadsBack(row, columns, i) <==> Readable(row, columns, i) && ReadsBack(row, columns, i + 1)
  {
    var rest := Data(row[i..]);
    DataStep(row, i);
    assert rest == Data(row[i + 1..]);
    ValueStep(row, columns, i);
    if |rest| >= Least(columns[i]) { FixedNotNull(rest, columns[i]); }
    hide Bitmap, Data, Extended, FromFixed, FromString;
    var head := ReadColumn(rest, columns[i]);
    if head.Good? {
      var r := DecodeFrom(rest[head.value.1..], Bitmap(row), columns, i + 1);
      if r.Good? { ConsDiffers(head.value.0, Null, r.value, Extended(row, columns)[i + 1..]); }
    }
  }

  lemma {:induction false} ReadsBackIff(row: seq<Value>, columns: seq<Column>, i: nat)
    requires RowOf(row, columns) && i <= |row|
    ensures ReadsBack(row, columns, i) <==>
      forall j: nat {:trigger Readable(row, columns, j)} :: i <= j ==> Readable(row, columns, j)
    decreases |row| - i
  {
    hide ReadsBack;
    if i == |row| {
      assert row[i..] == [];
      AddedColumns(row, columns, i);
      Whole(row, columns);
    } else {
      ReadsBackIff(row, columns, i + 1);
      BitmapMarks(row, i);
      if !row[i].Null? {
        ValueColumn(row, columns, i);
        assert Readable(row, columns, i);
      } else if i < BITMAP_COLUMNS {
        MarkedColumn(row, columns, i);
        assert Readable(row, columns, i);
      } else {
        UncoveredColumn(row, columns, i);
      }
    }
  }

  lemma Whole(row: seq<Value>, columns: seq<Column>)
    requires RowOf(row, columns)
    ensures ReadsBack(row, columns, |row|)
  {
    assert row[|row|..] == [];
    AddedColumns(row, columns, |row|);
  }

  /**
   * A row is read back, with columns added since as NULL, exactly when every
   * NULL from the 33rd column on is followed by too few bytes to be mistaken.
   */
  lemma RowRoundTrip(row: seq<Value>, columns: seq<Column>)
    requires RowOf(row, columns)
    ensures DecodeRow(Data(row), Bitmap(row), columns) == Good(Extended(row, columns))
       <==> forall j: nat {:trigger Readable(row, columns, j)} :: Readable(row, columns, j)
  {
    ReadsBackIff(row, columns, 0);
    assert row[0..] == row && Extended(row, columns)[0..] == Extended(row, columns);
  }

  /** In particular whenever the NULLs are in the first 32 columns. */
  lemma EarlyNullsRoundTrip(row: seq<Value>, columns: seq<Column>)
    requires RowOf(row, columns)
    requires forall j :: 32 <= j < |row| ==> !row[j].Null?
    ensures DecodeRow(Data(row), Bitmap(row), columns) == Good(Extended(row, columns))
  {
    RowRoundTrip(row, columns);
  }

  /** A row that does not come back: a NULL in the 33rd column before a value that fills it. */
  lemma LateNullFails()
    ensures var columns := seq(34, i => Int4Column);
      var row := seq(34, i => if i == 32 then Null else Int4(i));
      RowOf(row, columns) && DecodeRow(Data(row), Bitmap(row), columns) != Good(Extended(row, columns))
  {
    var columns := seq(34, i => Int4Column);
    var row := seq(34, i => if i == 32 then Null else Int4(i));
    hide Bitmap, DecodeRow, LE;
    RowRoundTrip(row, columns);
    DataStep(row, 32);
    DataStep(row, 33);
    assert !Readable(row, columns, 32);
  }

  // ------------------------------------------------------------ the two loops

  lemma {:induction false} DataAppend(row: seq<Value>, v: Value)
    requires Storable(row) && Proper(v)
    ensures Data(row + [v]) == Data(row) + ToBytes(v)
  {
    if row == [] {
      assert row + [v] == [v] && [v][1..] == [];
    } else {
      assert (row + [v])[1..] == row[1..] + [v];
      DataAppend(row[1..], v);
    }
  }

  /** Encoding in one pass over the row. */
  method EncodeRow(row: seq<Value>) returns (data: seq<byte>, bitmap: nat)
    requires Storable(row)
    ensures data == Data(row) && bitmap == Bitmap(row)
  {
    data, bitmap := [], 0;
    var i := 0;
    while i < |row|
      invariant 0 <= i <= |row|
      invariant data == Data(row[..i]) && bitmap == Bitmap(row[..i])
    {
      assert row[..i + 1] == row[..i] + [row[i]];
      assert row[..i + 1][..i] == row[..i];
      DataAppend(row[..i], row[i]);
      if row[i].Null? {
        if i < BITMAP_COLUMNS {
          bitmap := bitmap + Pow2(i);
        }
      } else {
        data := data + ToBytes(row[i]);
      }
      i := i + 1;
    }
    assert row[..i] == row;
  }

  /** A column not read yet, in front of the rest. */
  function Chained(values: seq<Value>, r: Decoded<seq<Value>>): Decoded<seq<Value>> {
    if r.Bad? then Bad else Good(values + r.value)
  }

  lemma ChainNone(r: Decoded<seq<Value>>)
    ensures Chained([], r) == r
  {
    if r.Good? { assert [] + r.value == r.value; }
  }

  lemma ChainOne(values: seq<Value>, v: Value, r: Decoded<seq<Value>>)
    ensures Chained(values + [v], r) == Chained(values, Chained([v], r))
  {
    if r.Good? { assert values + [v] + r.value == values + ([v] + r.value); }
  }

  /** Decoding in one pass over the columns, with an offset into the data. */
  method Decode(data: seq<byte>, bitmap: nat, columns: seq<Column>) returns (r: Decoded<seq<Value>>)
    ensures r == DecodeRow(data, bitmap, columns)
  {
    var values: seq<Value> := [];
    var i, offset := 0, 0;
    assert data[0..] == data;
    ChainNone(DecodeRow(data, bitmap, columns));
    assert DecodeRow(data, bitmap, columns) == Chained([], DecodeFrom(data[0..], bitmap, columns, 0));
    while i < |columns|
      invariant 0 <= i <= |columns| && 0 <= offset <= |data|
      invariant DecodeRow(data, bitmap, columns) == Chained(values, DecodeFrom(data[offset..], bitmap, columns, i))
    {
      hide DecodeRow, ReadColumn, Marked;
      if Marked(bitmap, i) {
        ChainOne(values, Null, DecodeFrom(data[offset..], bitmap, columns, i + 1));
        values := values + [Null];
      } else {
        var head := ReadColumn(data[offset..], columns[i]);
        if head.Bad? {
          return Bad;
        }
        assert data[offset..][head.value.1..] == data[offset + head.value.1..];
        ChainOne(values, head.value.0, DecodeFrom(data[offset + head.value.1..], bitmap, columns, i + 1));
        values := values + [head.value.0];
        offset := offset + head.value.1;
      }
      i := i + 1;
    }
    assert values + [] == values;
    return Good(values);
  }
}
