/** What filters and select lists give, and how the columns they name are found. */
module RowOperators {
  import opened Wrappers
  import opened Queries
  import opened Optimizer
  import opened OptimizedPlans

  // ------------------------------------------------------------------ filters

  /** The places of the rows that a filter keeps. */
  ghost predicate KeepsPlaces(lib: Library, cond: Expr, rows: seq<Row>, kept: seq<Row>, ps: seq<nat>) {
    && |ps| == |kept|
    && (forall k :: 0 <= k < |ps| ==> ps[k] < |rows| && kept[k] == rows[ps[k]])
    && (forall k, m :: 0 <= k < m < |ps| ==> ps[k] < ps[m])
    && (forall i: nat {:trigger i in ps} :: i in ps <==> i < |rows| && True(Eval(lib, cond, rows[i])))
  }

  lemma {:induction false} FilterPlaces(lib: Library, cond: Expr, rows: seq<Row>) returns (ps: seq<nat>)
    requires FilterRows(lib, cond, rows).Ok?
    ensures KeepsPlaces(lib, cond, rows, FilterRows(lib, cond, rows).value, ps)
  {
    hide Eval;
    ps := [];
    if rows != [] {
      var n := |rows| - 1;
      hide KeepsPlaces;
      ps := FilterPlaces(lib, cond, rows[..n]);
      var before := FilterRows(lib, cond, rows[..n]).value;
      PlaceNext(lib, cond, rows, before, ps);
      if True(Eval(lib, cond, rows[n])) { ps := ps + [n]; } else { assert before + [] == before; }
    }
  }

  lemma PlaceNext(lib: Library, cond: Expr, rows: seq<Row>, kept: seq<Row>, ps: seq<nat>)
    requires rows != [] && KeepsPlaces(lib, cond, rows[..|rows| - 1], kept, ps)
    ensures var n := |rows| - 1;
      if True(Eval(lib, cond, rows[n])) then KeepsPlaces(lib, cond, rows, kept + [rows[n]], ps + [n])
      else KeepsPlaces(lib, cond, rows, kept, ps)
  {
    hide Eval;
    var n := |rows| - 1;
    assert forall i: nat :: i < n ==> rows[..n][i] == rows[i];
    assert forall k :: 0 <= k < |ps| ==> ps[k] in ps;
    assert n in ps + [n] && forall i: nat :: i in ps + [n] <==> i in ps || i == n;
  }

  lemma {:induction false} FilterTotal(lib: Library, cond: Expr, rows: seq<Row>)
    ensures FilterRows(lib, cond, rows).Ok? <==> forall i :: 0 <= i < |rows| ==> Eval(lib, cond, rows[i]).Ok?
  {
    hide Eval;
    if rows != [] {
      FilterTotal(lib, cond, rows[..|rows| - 1]);
      assert forall i :: 0 <= i < |rows| - 1 ==> rows[..|rows| - 1][i] == rows[i];
    }
  }

  /** A filter fails exactly if its condition fails on a row, and keeps in order the rows where it is true. */
  lemma FilterExact(lib: Library, cond: Expr, rows: seq<Row>)
    ensures FilterRows(lib, cond, rows).Ok? <==> forall i :: 0 <= i < |rows| ==> Eval(lib, cond, rows[i]).Ok?
    ensures FilterRows(lib, cond, rows).Ok? ==>
      exists ps :: KeepsPlaces(lib, cond, rows, FilterRows(lib, cond, rows).value, ps)
  {
    hide Eval, KeepsPlaces, FilterRows;
    FilterTotal(lib, cond, rows);
    if FilterRows(lib, cond, rows).Ok? {
      var ps := FilterPlaces(lib, cond, rows);
    }
  }

  // -------------------------------------------------------------- select lists

  lemma {:induction false} ValuesExact(lib: Library, items: seq<(string, Expr)>, row: Row)
    ensures ProjectValues(lib, items, row).Ok? <==> forall j :: 0 <= j < |items| ==> Eval(lib, items[j].1, row).Ok?
    ensures ProjectValues(lib, items, row).Ok? ==> |ProjectValues(lib, items, row).value| == |items|
    ensures ProjectValues(lib, items, row).Ok? ==>
      forall j :: 0 <= j < |items| ==> Ok(ProjectValues(lib, items, row).value[j]) == Eval(lib, items[j].1, row)
  {
    hide Eval;
    if items != [] {
      ValuesExact(lib, items[..|items| - 1], row);
      assert forall j :: 0 <= j < |items| - 1 ==> items[..|items| - 1][j] == items[j];
    }
  }

  /** Row `k` of a select list: under each name the value of its expression on row `k`. */
  predicate Lists(lib: Library, items: seq<(string, Expr)>, row: Row, listed: Row) {
    && |listed.values| == |listed.names| == |items|
    && forall j :: 0 <= j < |items| ==>
         listed.names[j] == items[j].0 && Ok(listed.values[j]) == Eval(lib, items[j].1, row)
  }

  /** A select list fails exactly if an expression fails on a row, and otherwise has one row for each. */
  lemma {:induction false} ProjectExact(lib: Library, items: seq<(string, Expr)>, rows: seq<Row>)
    ensures ProjectRows(lib, items, rows).Ok? <==>
      forall i, j :: 0 <= i < |rows| && 0 <= j < |items| ==> Eval(lib, items[j].1, rows[i]).Ok?
    ensures ProjectRows(lib, items, rows).Ok? ==>
      var listed := ProjectRows(lib, items, rows).value;
      |listed| == |rows| && forall i :: 0 <= i < |rows| ==> Lists(lib, items, rows[i], listed[i])
  {
    hide Eval, ProjectValues;
    if rows != [] {
      var n := |rows| - 1;
      ProjectExact(lib, items, rows[..n]);
      ValuesExact(lib, items, rows[n]);
      assert forall i :: 0 <= i < n ==> rows[..n][i] == rows[i];
    }
  }

  // ------------------------------------------------------------------- columns

  /** A name that some alias qualifies. */
  ghost predicate Suffixed(n: string, name: string) { exists alias: string :: n == alias + "." + name }

  lemma SuffixedEnds(n: string, name: string)
    ensures Suffixed(n, name) <==> Ends(n, "." + name)
  {
    var dotted := "." + name;
    if Ends(n, dotted) {
      var alias := n[..|n| - |dotted|];
      assert n == alias + dotted == alias + "." + name;
    }
    if alias: string :| n == alias + "." + name {
      assert n == alias + dotted && n[|alias|..] == dotted;
    }
  }

  lemma {:induction false} MatchesAre(names: seq<string>, name: string, exact: bool, from: nat, p: nat)
    requires from <= |names|
    ensures p in Matches(names, name, exact, from) <==>
      from <= p < |names| && ((exact && names[p] == name) || Suffixed(names[p], name))
    decreases |names| - from
  {
    hide Ends, Suffixed;
    if from < |names| {
      MatchesAre(names, name, exact, from + 1, p);
      SuffixedEnds(names[from], name);
    }
  }

  predicate Ascends(ps: seq<nat>) { forall i, j :: 0 <= i < j < |ps| ==> ps[i] < ps[j] }

  lemma AscendsInFront(x: nat, ps: seq<nat>)
    requires Ascends(ps) && forall k :: 0 <= k < |ps| ==> x < ps[k]
    ensures Ascends([x] + ps)
  {
  }

  lemma {:induction false} MatchesOnce(names: seq<string>, name: string, exact: bool, from: nat)
    requires from <= |names|
    ensures Ascends(Matches(names, name, exact, from))
    decreases |names| - from
  {
    hide Ends, Ascends;
    if from == |names| {
      NoneAscends();
    } else {
      var rest := Matches(names, name, exact, from + 1);
      MatchesOnce(names, name, exact, from + 1);
      AscendsInFront(from, rest);
      assert [] + rest == rest;
    }
  }

  lemma NoneAscends()
    ensures Ascends([])
  {
  }

  /** The first name that is the one asked for wins, whatever others end in it. */
  lemma BareFound(lib: Library, row: Row, name: string, p: nat)
    requires |row.values| == |row.names| && Place(row.names, name) == p < |row.names|
    ensures Lookup(lib, row, None, name) == Ok(row.values[p])
  {
    hide Matches;
  }

  lemma {:induction false} SameMatches(names: seq<string>, name: string, from: nat)
    requires from <= |names| && name !in names
    ensures Matches(names, name, true, from) == Matches(names, name, false, from)
    decreases |names| - from
  {
    hide Ends;
    if from < |names| { SameMatches(names, name, from + 1); }
  }

  /** A name that is nowhere by itself is found by its endings. */
  lemma ByEndings(lib: Library, row: Row, name: string)
    requires |row.values| == |row.names| && name !in row.names && '.' !in name
    ensures var ps := Matches(row.names, name, false, 0);
      Lookup(lib, row, None, name)
      == if |ps| == 1 then Ok(row.values[ps[0]]) else if |ps| == 0 then Err(ColumnNotFound(name))
         else Err(AmbiguousColumn(name))
  {
    InPlace(row.names, name);
    SameMatches(row.names, name, 0);
    hide Matches, Place;
  }

  /** The only name that ends in it is taken. */
  lemma OneEnding(lib: Library, row: Row, name: string, p: nat)
    requires |row.values| == |row.names| && name !in row.names && '.' !in name
    requires p < |row.names| && Suffixed(row.names[p], name)
    requires forall q: nat :: q < |row.names| && Suffixed(row.names[q], name) ==> q == p
    ensures Lookup(lib, row, None, name) == Ok(row.values[p])
  {
    var ps := Matches(row.names, name, false, 0);
    ByEndings(lib, row, name);
    MatchesAre(row.names, name, false, 0, p);
    MatchesOnce(row.names, name, false, 0);
    hide Matches, Lookup, Suffixed;
    assert p in ps && (|ps| > 1 ==> ps[0] < ps[1]);
    forall k | 0 <= k < |ps| ensures ps[k] == p {
      assert ps[k] in ps;
      MatchesAre(row.names, name, false, 0, ps[k]);
    }
  }

  /** If none does the column is not found. */
  lemma NoEnding(lib: Library, row: Row, name: string)
    requires |row.values| == |row.names| && name !in row.names && '.' !in name
    requires forall q: nat :: q < |row.names| ==> !Suffixed(row.names[q], name)
    ensures Lookup(lib, row, None, name) == Err(ColumnNotFound(name))
  {
    NoMatches(row.names, name, 0);
    ByEndings(lib, row, name);
  }

  lemma {:induction false} NoMatches(names: seq<string>, name: string, from: nat)
    requires from <= |names| && forall q: nat :: q < |names| ==> !Suffixed(names[q], name)
    ensures Matches(names, name, false, from) == []
    decreases |names| - from
  {
    hide Ends, Suffixed;
    if from < |names| {
      NoMatches(names, name, from + 1);
      SuffixedEnds(names[from], name);
    }
  }

  /** If several do it is ambiguous. */
  lemma TwoEndings(lib: Library, row: Row, name: string, p: nat, q: nat)
    requires |row.values| == |row.names| && name !in row.names && '.' !in name
    requires p < q < |row.names| && Suffixed(row.names[p], name) && Suffixed(row.names[q], name)
    ensures Lookup(lib, row, None, name) == Err(AmbiguousColumn(name))
  {
    var ps := Matches(row.names, name, false, 0);
    ByEndings(lib, row, name);
    MatchesAre(row.names, name, false, 0, p);
    MatchesAre(row.names, name, false, 0, q);
    hide Matches, Lookup, Suffixed;
    assert p in ps && q in ps;
  }

  /** A qualified name is found as it is, or else in lower case, or else as the bare name. */
  lemma QualifiedFound(lib: Library, row: Row, table: string, name: string, p: nat)
    requires |row.values| == |row.names|
    ensures var full, lower := table + "." + name, lib.lower(table) + "." + lib.lower(name);
      && (Place(row.names, full) == p < |row.names| ==> Lookup(lib, row, Some(table), name) == Ok(row.values[p]))
      && (full !in row.names && Place(row.names, lower) == p < |row.names| ==>
            Lookup(lib, row, Some(table), name) == Ok(row.values[p]))
      && (full !in row.names && lower !in row.names ==>
            Lookup(lib, row, Some(table), name) == Lookup(lib, row, None, name))
  {
    var full, lower := table + "." + name, lib.lower(table) + "." + lib.lower(name);
    assert full[|table|] == '.' && lower[|lib.lower(table)|] == '.';
    if full !in row.names { DottedGet(row, full); }
    if lower !in row.names { DottedGet(row, lower); }
    InPlace(row.names, full);
    InPlace(row.names, lower);
    hide Matches, Place;
  }
}
