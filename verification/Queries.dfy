/** Rows, expressions and their evaluation, as far as joins, set operations, windows and plans need them. */
module Queries {
  import opened Bytes
  import opened Wrappers
  import opened Values
  import opened Floats

  datatype Row = Row(values: seq<Value>, names: seq<string>)

  datatype Error = ColumnNotFound(name: string) | AmbiguousColumn(name: string) | TypeError | Failed(code: nat)

  datatype Result<+T> = Ok(value: T) | Err(error: Error)

  // --------------------------------------------------------------- equality

  /** Equality of values: floats as numbers, so a NaN is not equal to itself and the two zeros are equal. */
  predicate Same(a: Value, b: Value) {
    match (a, b)
    case (Float8(x), Float8(y)) => !IsNaN(x) && !IsNaN(y) && Number(x) == Number(y)
    case _ => a == b
  }

  predicate SameValues(a: seq<Value>, b: seq<Value>) {
    |a| == |b| && forall i :: 0 <= i < |a| ==> Same(a[i], b[i])
  }

  lemma SameSymmetric(a: seq<Value>, b: seq<Value>)
    requires SameValues(a, b)
    ensures SameValues(b, a)
  {
    hide IsNaN, Number;
    forall i | 0 <= i < |a| ensures Same(b[i], a[i]) { assert Same(a[i], b[i]); }
  }

  lemma SameTransitive(a: seq<Value>, b: seq<Value>, c: seq<Value>)
    requires SameValues(a, b) && SameValues(b, c)
    ensures SameValues(a, c)
  {
    hide IsNaN, Number;
    forall i | 0 <= i < |a| ensures Same(a[i], c[i]) { assert Same(a[i], b[i]) && Same(b[i], c[i]); }
  }

  // ------------------------------------------------------------- expressions

  datatype Op = Eq | NotEq | Lt | Le | Gt | Ge | And | Or

  /** Every other kind of expression is some function of the row. */
  datatype Expr =
    | Literal(value: Value)
    | Column(table: Option<string>, name: string)
    | Binary(left: Expr, op: Op, right: Expr)
    | Not(arg: Expr)
    | IsNull(arg: Expr)
    | Other(eval: Row -> Result<Value>)

  datatype Ordering = Less | Equal | Greater

  /**
   * What the executor takes from elsewhere: the debug text of values, lower
   * case, dates and timestamps read from text, and the comparisons that go
   * through floating point: of Numerics, and of floats with integers.
   */
  datatype Library = Library(
    debug: Value -> string,
    debugRow: seq<Value> -> string,
    lower: string -> string,
    date: seq<byte> -> Option<int>,
    timestamp: seq<byte> -> Option<int>,
    compare: (Value, Value) -> Option<Ordering>)

  function IntOrder(a: int, b: int): Ordering { if a < b then Less else if a == b then Equal else Greater }

  function BytesOrder(a: Key, b: Key): Ordering {
    if Bytes.Lt(a, b) then Less else if a == b then Equal else Greater
  }

  /** Comparison; none for a NaN and for Json. */
  function Compare(lib: Library, a: Value, b: Value): Option<Ordering> {
    if a.Null? && b.Null? then Some(Equal)
    else if a.Null? then Some(Less)
    else if b.Null? then Some(Greater)
    else match (a, b)
      case (Bool(x), Bool(y)) => Some(IntOrder(if x then 1 else 0, if y then 1 else 0))
      case (Int4(x), Int4(y)) => Some(IntOrder(x, y))
      case (Int8(x), Int8(y)) => Some(IntOrder(x, y))
      case (Int4(x), Int8(y)) => Some(IntOrder(x, y))
      case (Int8(x), Int4(y)) => Some(IntOrder(x, y))
      case (Float8(x), Float8(y)) => if IsNaN(x) || IsNaN(y) then None else Some(IntOrder(Number(x), Number(y)))
      case (Text(x), Text(y)) => Some(BytesOrder(x, y))
      case (Bytea(x), Bytea(y)) => Some(BytesOrder(x, y))
      case (Date(x), Date(y)) => Some(IntOrder(x, y))
      case (Timestamp(x), Timestamp(y)) => Some(IntOrder(x, y))
      case (Uuid(x), Uuid(y)) => Some(BytesOrder(x, y))
      case (Json(_), Json(_)) => None
      case _ => lib.compare(a, b)
  }

  /** A text beside a date, timestamp or UUID is read as one, if it can be. */
  function ReadAs(lib: Library, v: Value, other: Value): Value {
    if !v.Text? then v
    else match other
      case Date(_) => if lib.date(v.text).Some? then Date(lib.date(v.text).value) else v
      case Timestamp(_) => if lib.timestamp(v.text).Some? then Timestamp(lib.timestamp(v.text).value) else v
      case Uuid(_) => Uuid(v.text)
      case _ => v
  }

  predicate Equals(lib: Library, a: Value, b: Value) {
    Same(a, b) || Compare(lib, a, b) == Some(Equal)
  }

  /** Three-valued AND and OR first, then NULL from NULL, then coercion and comparison. */
  function EvalOp(lib: Library, a: Value, op: Op, b: Value): Result<Value> {
    if op.And? && (a.Null? || b.Null?) then
      if a == Bool(false) || b == Bool(false) then Ok(Bool(false)) else Ok(Null)
    else if op.Or? && (a.Null? || b.Null?) then
      if a == Bool(true) || b == Bool(true) then Ok(Bool(true)) else Ok(Null)
    else if a.Null? || b.Null? then Ok(Null)
    else
      var l, r := ReadAs(lib, a, b), ReadAs(lib, b, a);
      var order := Compare(lib, l, r);
      match op
      case Eq => Ok(Bool(Equals(lib, l, r)))
      case NotEq => Ok(Bool(!Equals(lib, l, r)))
      case Lt => Ok(Bool(order == Some(Less)))
      case Le => Ok(Bool(order == Some(Less) || order == Some(Equal)))
      case Gt => Ok(Bool(order == Some(Greater)))
      case Ge => Ok(Bool(order == Some(Greater) || order == Some(Equal)))
      case And => if l.Bool? && r.Bool? then Ok(Bool(l.truth && r.truth)) else Err(TypeError)
      case Or => if l.Bool? && r.Bool? then Ok(Bool(l.truth || r.truth)) else Err(TypeError)
  }

  // --------------------------------------------------------------- columns

  /** The first place of a name, or the length. */
  function Place(names: seq<string>, name: string): (p: nat)
    ensures p <= |names|
    ensures p < |names| ==> names[p] == name
    ensures name !in names[..p]
  {
    if names == [] || names[0] == name then 0
    else
      var q := Place(names[1..], name);
      assert names[..q + 1] == [names[0]] + names[1..][..q];
      q + 1
  }

  predicate Ends(name: string, suffix: string) {
    |name| >= |suffix| && name[|name| - |suffix|..] == suffix
  }

  /** The places of the names that end in `.name`, or also are `name`. */
  function Matches(names: seq<string>, name: string, exact: bool, from: nat): (ps: seq<nat>)
    requires from <= |names|
    ensures forall k :: 0 <= k < |ps| ==> from <= ps[k] < |names|
    decreases |names| - from
  {
    if from == |names| then []
    else
      (if (exact && names[from] == name) || Ends(names[from], "." + name) then [from] else [])
      + Matches(names, name, exact, from + 1)
  }

  function ValueAt(row: Row, p: nat): Option<Value> {
    if p < |row.values| then Some(row.values[p]) else None
  }

  /** An exact name first, then for an unqualified one the only name it is the end of. */
  function Get(row: Row, name: string): Option<Value> {
    var p := Place(row.names, name);
    if p < |row.names| then ValueAt(row, p)
    else if '.' in name then None
    else
      var ps := Matches(row.names, name, false, 0);
      if |ps| == 1 then ValueAt(row, ps[0]) else None
  }

  function Lookup(lib: Library, row: Row, table: Option<string>, name: string): Result<Value> {
    var qualified := if table.Some? then Get(row, table.value + "." + name) else None;
    var lower := if table.Some? then lib.lower(table.value) + "." + lib.lower(name) else "";
    var second := if table.Some? && lower != table.value + "." + name then Get(row, lower) else None;
    if qualified.Some? then Ok(qualified.value)
    else if second.Some? then Ok(second.value)
    else if Get(row, name).Some? then Ok(Get(row, name).value)
    else
      var ps := Matches(row.names, name, true, 0);
      if |ps| == 0 then Err(ColumnNotFound(name))
      else if |ps| == 1 && ps[0] < |row.values| then Ok(row.values[ps[0]])
      else Err(AmbiguousColumn(name))
  }

  function Eval(lib: Library, e: Expr, row: Row): Result<Value> {
    match e
    case Literal(v) => Ok(v)
    case Column(table, name) => Lookup(lib, row, table, name)
    case Binary(l, op, r) =>
      var a := Eval(lib, l, row);
      if a.Err? then a
      else
        var b := Eval(lib, r, row);
        if b.Err? then b else EvalOp(lib, a.value, op, b.value)
    case Not(x) =>
      var v := Eval(lib, x, row);
      if v.Err? || v.value.Null? then v
      else if v.value.Bool? then Ok(Bool(!v.value.truth)) else Err(TypeError)
    case IsNull(x) =>
      var v := Eval(lib, x, row);
      if v.Err? then v else Ok(Bool(v.value.Null?))
    case Other(f) => f(row)
  }

  predicate True(r: Result<Value>) { r == Ok(Bool(true)) }

  /** A true conjunction has true conjuncts. */
  lemma AndTrue(lib: Library, l: Expr, r: Expr, row: Row)
    requires True(Eval(lib, Binary(l, And, r), row))
    ensures True(Eval(lib, l, row)) && True(Eval(lib, r, row))
  {
    hide Compare, Equals;
  }

  /** The types for which equality is identity. */
  predicate Plain(v: Value) {
    v.Bool? || v.Int4? || v.Int8? || v.Text? || v.Bytea? || v.Date? || v.Timestamp? || v.Uuid?
  }

  /** On two values of one of these types, `=` is true exactly of equal ones. */
  lemma EqualIsSame(lib: Library, a: Value, b: Value)
    requires Plain(a) && SameType(a, b)
    ensures True(EvalOp(lib, a, Eq, b)) <==> a == b
  {
  }
}
