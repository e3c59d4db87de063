/** SQL values.  Strings are their UTF-8 bytes, a Float8 is its 64-bit pattern; arrays are not modelled. */
module Values {
  import opened Bytes

  const TWO31: int := 0x8000_0000
  const TWO32: int := 0x1_0000_0000
  const TWO63: int := 0x8000_0000_0000_0000
  const TWO64: int := 0x1_0000_0000_0000_0000

  datatype Value =
    | Null
    | Bool(truth: bool)
    | Int4(int4: int)
    | Int8(int8: int)
    | Float8(bits: nat)
    | Text(text: seq<byte>)
    | Bytea(bytes: seq<byte>)
    | Date(days: int)
    | Timestamp(micros: int)
    | Numeric(numeric: seq<byte>)
    | Uuid(uuid: seq<byte>)
    | Json(json: seq<byte>)

  /** A byte that continues a character. */
  predicate Continues(b: byte) { 0x80 <= b < 0xC0 }

  /** The length of the well-formed character a string begins with, 0 if there is none (Unicode, table 3-7). */
  function CharLength(s: seq<byte>): (n: nat)
    ensures n <= |s|
  {
    if s == [] then 0
    else if s[0] < 0x80 then 1
    else if |s| >= 2 && 0xC2 <= s[0] < 0xE0 && Continues(s[1]) then 2
    else if |s| >= 3 && 0xE0 <= s[0] < 0xF0 && Continues(s[1]) && Continues(s[2])
         && (s[0] == 0xE0 ==> s[1] >= 0xA0) && (s[0] == 0xED ==> s[1] < 0xA0) then 3
    else if |s| >= 4 && 0xF0 <= s[0] < 0xF5 && Continues(s[1]) && Continues(s[2]) && Continues(s[3])
         && (s[0] == 0xF0 ==> s[1] >= 0x90) && (s[0] == 0xF4 ==> s[1] < 0x90) then 4
    else 0
  }

  predicate IsUtf8(s: seq<byte>)
    decreases |s|
  {
    s == [] || (CharLength(s) > 0 && IsUtf8(s[CharLength(s)..]))
  }

  /** The values the source's types can hold. */
  predicate Proper(v: Value) {
    match v
    case Int4(i) => -TWO31 <= i < TWO31
    case Int8(i) => -TWO63 <= i < TWO63
    case Float8(bits) => bits < TWO64
    case Date(d) => -TWO31 <= d < TWO31
    case Timestamp(t) => -TWO63 <= t < TWO63
    case Text(s) => IsUtf8(s) && |s| < TWO32
    case Numeric(s) => IsUtf8(s) && |s| < TWO32
    case Uuid(s) => IsUtf8(s) && |s| < TWO32
    case Json(s) => IsUtf8(s) && |s| < TWO32
    case Bytea(s) => |s| < TWO32
    case _ => true
  }

  predicate SameType(a: Value, b: Value) {
    match a
    case Null => b.Null?
    case Bool(_) => b.Bool?
    case Int4(_) => b.Int4?
    case Int8(_) => b.Int8?
    case Float8(_) => b.Float8?
    case Text(_) => b.Text?
    case Bytea(_) => b.Bytea?
    case Date(_) => b.Date?
    case Timestamp(_) => b.Timestamp?
    case Numeric(_) => b.Numeric?
    case Uuid(_) => b.Uuid?
    case Json(_) => b.Json?
  }
}
