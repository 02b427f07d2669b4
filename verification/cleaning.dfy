/**
 * `clean_data`: strip the strings, fill the missing values with zero, turn
 * whole-number float columns into integer columns, and write every cell as text.
 * The steps are the functions below; `Cleaned` says cell by cell what comes out.
 */
module Cleaning {
  import opened Wrappers
  import opened Whitespace
  import opened Numbers
  import opened Cells
  import opened Rows

  /** Applies `f` to every cell, passing it the cell's column name. */
  function MapCells(rows: seq<Row>, f: (string, Cell) -> Cell): (r: seq<Row>)
    ensures |r| == |rows|
    ensures forall i :: 0 <= i < |rows| ==> r[i].Keys == rows[i].Keys
    ensures forall i, c :: 0 <= i < |rows| && c in rows[i] ==> r[i][c] == f(c, rows[i][c])
  {
    seq(|rows|, i requires 0 <= i < |rows| => map c | c in rows[i] :: f(c, rows[i][c]))
  }

  /** Two tables with the same rows, keys and cells are equal. */
  lemma SameRows(r: seq<Row>, s: seq<Row>)
    requires |r| == |s|
    requires forall i :: 0 <= i < |r| ==> r[i].Keys == s[i].Keys
    requires forall i, c :: 0 <= i < |r| && c in r[i] ==> r[i][c] == s[i][c]
    ensures r == s
  {
    forall i | 0 <= i < |r|
      ensures r[i] == s[i]
    {
      assert forall c :: c in r[i] ==> r[i][c] == s[i][c];
    }
  }

  /** A column pandas stores as floats: each of its cells is a float or missing. */
  predicate FloatColumn(rows: seq<Row>, c: string) {
    forall i :: 0 <= i < |rows| && c in rows[i] ==> rows[i][c].Float? || rows[i][c].Missing?
  }

  /** `x == int(x)`: the value has no fractional part. */
  predicate Integral(x: real) {
    x.Floor as real == x
  }

  /** Every float in column `c` is a whole number. */
  predicate IntegralColumn(rows: seq<Row>, c: string) {
    forall i :: 0 <= i < |rows| && c in rows[i] && rows[i][c].Float? ==> Integral(rows[i][c].x)
  }

  /** Step 1: surrounding whitespace is stripped from strings. */
  function StripCell(v: Cell): Cell {
    if v.Text? then Text(Strip(v.s)) else v
  }

  function Stripped(rows: seq<Row>): seq<Row> {
    MapCells(rows, (c, v) => StripCell(v))
  }

  /**
   * Step 2, `fillna(0)`: a missing value becomes zero, a float zero in a float
   * column and an integer zero in any other column.
   */
  function FillCell(v: Cell, float: bool): Cell {
    if v.Missing? then (if float then Float(0.0) else Int(0)) else v
  }

  function Filled(rows: seq<Row>): seq<Row> {
    MapCells(rows, (c, v) => FillCell(v, FloatColumn(rows, c)))
  }

  /** The float columns, in column order (`select_dtypes(include=['float'])`). */
  function FloatColumns(columns: seq<string>, rows: seq<Row>): (r: seq<string>)
    ensures forall c :: c in r <==> c in columns && FloatColumn(rows, c)
  {
    if columns == [] then []
    else (if FloatColumn(rows, columns[0]) then [columns[0]] else []) + FloatColumns(columns[1..], rows)
  }

  /** `int(x) if x == int(x) else x` on one cell. */
  function IntCell(v: Cell): Cell {
    if v.Float? && Integral(v.x) then Int(v.x.Floor) else v
  }

  /**
   * Step 3 on one column. The conversion is applied cell by cell, but pandas
   * then infers one type for the whole column: only when every value became an
   * integer does the column hold integers; otherwise it stays a float column
   * and the converted values are floats again.
   */
  function ToIntColumn(rows: seq<Row>, c: string): seq<Row> {
    if IntegralColumn(rows, c) then MapCells(rows, (d, v) => if d == c then IntCell(v) else v) else rows
  }

  /** Step 4, `astype(str)`: every value written as text; `showFloat` is `str` of a float. */
  function RenderCell(v: Cell, showFloat: real -> string): Cell {
    match v
    case Missing => Text("nan")
    case Text(_) => v
    case Int(i) => Text(IntToString(i))
    case Float(x) => Text(showFloat(x))
  }

  function Rendered(rows: seq<Row>, showFloat: real -> string): seq<Row> {
    MapCells(rows, (c, v) => RenderCell(v, showFloat))
  }

  /** The table after step 3 has been applied to each column of `done`. */
  function Converted(rows: seq<Row>, done: seq<string>): seq<Row> {
    MapCells(rows, (c, v) => if c in done && IntegralColumn(rows, c) then IntCell(v) else v)
  }

  /**
   * What `clean_data` makes of cell `v`, given whether its column is a float
   * column and whether every float in that column is a whole number.
   */
  function CleanCell(v: Cell, float: bool, whole: bool, showFloat: real -> string): Cell {
    if float then
      var x := if v.Float? then v.x else 0.0;
      Text(if whole then IntToString(x.Floor) else showFloat(x))
    else
      match v
      case Missing => Text("0")
      case Text(s) => Text(Strip(s))
      case Int(i) => Text(IntToString(i))
      case Float(x) => Text(showFloat(x))
  }

  /** The table `clean_data` returns. */
  function Cleaned(rows: seq<Row>, showFloat: real -> string): seq<Row> {
    MapCells(rows, (c, v) => CleanCell(v, FloatColumn(rows, c), IntegralColumn(rows, c), showFloat))
  }

  lemma ConvertedNone(rows: seq<Row>)
    ensures Converted(rows, []) == rows
  {
    SameRows(Converted(rows, []), rows);
  }

  /**
   * Step 3, the loop over the float columns: each column whose values are all
   * whole numbers becomes an integer column.
   */
  method ConvertColumns(rows: seq<Row>, floats: seq<string>) returns (r: seq<Row>)
    ensures r == Converted(rows, floats)
  {
    r := rows;
    ConvertedNone(rows);
    for k := 0 to |floats|
      invariant r == Converted(rows, floats[..k])
    {
      ConvertStep(rows, floats[..k], floats[k]);
      assert floats[..k + 1] == floats[..k] + [floats[k]];
      r := ToIntColumn(r, floats[k]);
    }
    assert floats[..|floats|] == floats;
  }

  /** Converting some columns leaves the whole-number test of every column as it was. */
  lemma ConvertedIntegral(rows: seq<Row>, done: seq<string>, c: string)
    ensures IntegralColumn(Converted(rows, done), c) == IntegralColumn(rows, c)
  {
    var r := Converted(rows, done);
    if !(c in done && IntegralColumn(rows, c)) {
      forall i | 0 <= i < |r| && c in r[i]
        ensures r[i][c] == rows[i][c]
      {
      }
    }
  }

  /** Converting one more column, already converted or not, extends `done` by it. */
  lemma ConvertStep(rows: seq<Row>, done: seq<string>, c: string)
    ensures ToIntColumn(Converted(rows, done), c) == Converted(rows, done + [c])
  {
    var r := Converted(rows, done);
    var want := Converted(rows, done + [c]);
    ConvertedIntegral(rows, done, c);
    var got := ToIntColumn(r, c);
    forall i, d | 0 <= i < |got| && d in got[i]
      ensures got[i][d] == want[i][d]
    {
      assert d in done + [c] <==> d in done || d == c;
    }
    SameRows(got, want);
  }

  lemma StrippedFloat(rows: seq<Row>, c: string)
    ensures FloatColumn(Stripped(rows), c) == FloatColumn(rows, c)
  {
  }

  /** After filling, the float columns are exactly the original float columns and hold no missing value. */
  lemma FilledFloat(rows: seq<Row>, c: string)
    ensures FloatColumn(Filled(Stripped(rows)), c) == FloatColumn(rows, c)
    ensures FloatColumn(rows, c) ==> IntegralColumn(Filled(Stripped(rows)), c) == IntegralColumn(rows, c)
  {
    var f: seq<Row> := Filled(Stripped(rows));
    if FloatColumn(rows, c) {
      forall i | 0 <= i < |rows| && c in rows[i]
        ensures f[i][c].Float?
        ensures rows[i][c].Float? ==> f[i][c] == rows[i][c]
        ensures rows[i][c].Missing? ==> f[i][c] == Float(0.0)
      {
        FilledAt(rows, i, c);
      }
      assert Integral(0.0);
    } else {
      var i :| 0 <= i < |rows| && c in rows[i] && !(rows[i][c].Float? || rows[i][c].Missing?);
      FilledAt(rows, i, c);
    }
  }

  /** One cell of the cleaned table. */
  lemma CleanedAt(rows: seq<Row>, showFloat: real -> string, i: nat, c: string)
    requires i < |rows| && c in rows[i]
    ensures c in Cleaned(rows, showFloat)[i]
    ensures Cleaned(rows, showFloat)[i][c] == CleanCell(rows[i][c], FloatColumn(rows, c), IntegralColumn(rows, c), showFloat)
  {
  }

  /** The four steps on one cell agree with `CleanCell`. */
  lemma StepsOnCell(v: Cell, float: bool, whole: bool, showFloat: real -> string)
    requires float ==> v.Float? || v.Missing?
    requires float && whole && v.Float? ==> Integral(v.x)
    ensures RenderCell(if float && whole then IntCell(FillCell(StripCell(v), float)) else FillCell(StripCell(v), float), showFloat)
         == CleanCell(v, float, whole, showFloat)
  {
  }

  lemma FilledAt(rows: seq<Row>, i: nat, c: string)
    requires i < |rows| && c in rows[i]
    ensures c in Filled(Stripped(rows))[i]
    ensures Filled(Stripped(rows))[i][c] == FillCell(StripCell(rows[i][c]), FloatColumn(rows, c))
  {
    StrippedFloat(rows, c);
  }

  lemma StepsCleanAt(columns: seq<string>, rows: seq<Row>, showFloat: real -> string, i: nat, c: string)
    requires RowsOver(columns, rows)
    requires i < |rows| && c in rows[i]
    ensures c in Rendered(Converted(Filled(Stripped(rows)), FloatColumns(columns, Filled(Stripped(rows)))), showFloat)[i]
    ensures Rendered(Converted(Filled(Stripped(rows)), FloatColumns(columns, Filled(Stripped(rows)))), showFloat)[i][c]
         == CleanCell(rows[i][c], FloatColumn(rows, c), IntegralColumn(rows, c), showFloat)
  {
    var f := Filled(Stripped(rows));
    var floats := FloatColumns(columns, f);
    var v := rows[i][c];
    var float := FloatColumn(rows, c);
    var whole := IntegralColumn(rows, c);
    FilledFloat(rows, c);
    FilledAt(rows, i, c);
    assert c in columns;
    assert (c in floats && IntegralColumn(f, c)) == (float && whole);
    assert Converted(f, floats)[i][c] == if float && whole then IntCell(f[i][c]) else f[i][c];
    StepsOnCell(v, float, whole, showFloat);
  }

  /** The steps, taken in the order `clean_data` takes them, produce `Cleaned`. */
  lemma StepsClean(columns: seq<string>, rows: seq<Row>, showFloat: real -> string)
    requires RowsOver(columns, rows)
    ensures Rendered(Converted(Filled(Stripped(rows)), FloatColumns(columns, Filled(Stripped(rows)))), showFloat)
         == Cleaned(rows, showFloat)
  {
    var out := Rendered(Converted(Filled(Stripped(rows)), FloatColumns(columns, Filled(Stripped(rows)))), showFloat);
    var want := Cleaned(rows, showFloat);
    forall i, c | 0 <= i < |rows| && c in rows[i]
      ensures out[i][c] == want[i][c]
    {
      StepsCleanAt(columns, rows, showFloat, i, c);
      CleanedAt(rows, showFloat, i, c);
    }
    SameRows(out, want);
  }

  /** A string has its surrounding whitespace stripped and is otherwise kept. */
  lemma CleanedString(rows: seq<Row>, showFloat: real -> string, i: nat, c: string)
    requires i < |rows| && c in rows[i] && rows[i][c].Text?
    ensures Cleaned(rows, showFloat)[i][c] == Text(Strip(rows[i][c].s))
  {
    CleanedAt(rows, showFloat, i, c);
  }

  /** An integer is written in decimal, and the text reads back as that integer. */
  lemma CleanedInt(rows: seq<Row>, showFloat: real -> string, i: nat, c: string)
    requires i < |rows| && c in rows[i] && rows[i][c].Int?
    ensures Cleaned(rows, showFloat)[i][c] == Text(IntToString(rows[i][c].i))
    ensures ParseNum(Cleaned(rows, showFloat)[i][c].s) == Some(rows[i][c].i as real)
  {
    CleanedAt(rows, showFloat, i, c);
    assert !FloatColumn(rows, c);
    assert Cleaned(rows, showFloat)[i][c] == Text(IntToString(rows[i][c].i));
    ParseIntToString(rows[i][c].i);
  }

  lemma ZeroText()
    ensures IntToString(0) == "0"
  {
  }

  lemma CleanMissingCell(float: bool, whole: bool, showFloat: real -> string)
    ensures CleanCell(Missing, float, whole, showFloat) == if float && !whole then Text(showFloat(0.0)) else Text("0")
  {
    ZeroText();
  }

  /**
   * A missing value becomes `0`, except in a float column holding a fraction,
   * where it becomes the float zero's text.
   */
  lemma CleanedMissing(rows: seq<Row>, showFloat: real -> string, i: nat, c: string)
    requires i < |rows| && c in rows[i] && rows[i][c].Missing?
    ensures FloatColumn(rows, c) && !IntegralColumn(rows, c) ==> Cleaned(rows, showFloat)[i][c] == Text(showFloat(0.0))
    ensures !(FloatColumn(rows, c) && !IntegralColumn(rows, c)) ==> Cleaned(rows, showFloat)[i][c] == Text("0")
  {
    CleanedAt(rows, showFloat, i, c);
    CleanMissingCell(FloatColumn(rows, c), IntegralColumn(rows, c), showFloat);
  }

  /** A whole number written as an integer reads back as itself. */
  lemma ParseWhole(x: real)
    requires Integral(x)
    ensures ParseNum(IntToString(x.Floor)) == Some(x)
  {
    ParseIntToString(x.Floor);
  }

  lemma CleanedWholeText(rows: seq<Row>, showFloat: real -> string, i: nat, c: string)
    requires i < |rows| && c in rows[i] && rows[i][c].Float? && FloatColumn(rows, c) && IntegralColumn(rows, c)
    ensures Cleaned(rows, showFloat)[i][c] == Text(IntToString(rows[i][c].x.Floor))
  {
    CleanedAt(rows, showFloat, i, c);
  }

  /** A float in a float column of whole numbers is written as an integer, and that text reads back as the same number. */
  lemma CleanedWholeFloat(rows: seq<Row>, showFloat: real -> string, i: nat, c: string)
    requires i < |rows| && c in rows[i] && rows[i][c].Float? && FloatColumn(rows, c) && IntegralColumn(rows, c)
    ensures ParseNum(Cleaned(rows, showFloat)[i][c].s) == Some(rows[i][c].x)
  {
    CleanedWholeText(rows, showFloat, i, c);
    ParseWhole(rows[i][c].x);
  }

  /** Any other float, including one in a column that also holds other kinds of values, is written by `showFloat`. */
  lemma CleanedFraction(rows: seq<Row>, showFloat: real -> string, i: nat, c: string)
    requires i < |rows| && c in rows[i] && rows[i][c].Float? && !(FloatColumn(rows, c) && IntegralColumn(rows, c))
    ensures Cleaned(rows, showFloat)[i][c] == Text(showFloat(rows[i][c].x))
  {
    CleanedAt(rows, showFloat, i, c);
  }

  lemma NoEdgeSpaceOfNat(n: nat)
    ensures NoEdgeSpace(NatToString(n))
  {
    var s := NatToString(n);
    assert IsDigit(s[0]) && IsDigit(s[|s| - 1]);
  }

  /** Integers are written without surrounding whitespace. */
  lemma NoEdgeSpaceOfInt(i: int)
    ensures NoEdgeSpace(IntToString(i))
  {
    NoEdgeSpaceOfNat(if i < 0 then -i else i);
    if i < 0 {
      var s := IntToString(i);
      assert s[|s| - 1] == NatToString(-i)[|NatToString(-i)| - 1];
    }
  }

  /**
   * Every cell of the cleaned table is text, and that text has no surrounding
   * whitespace as long as `str` of a float has none.
   */
  lemma CleanedNoEdgeSpace(rows: seq<Row>, showFloat: real -> string, i: nat, c: string)
    requires forall x :: NoEdgeSpace(showFloat(x))
    requires i < |rows| && c in rows[i]
    ensures c in Cleaned(rows, showFloat)[i]
    ensures Cleaned(rows, showFloat)[i][c].Text? && NoEdgeSpace(Cleaned(rows, showFloat)[i][c].s)
  {
    CleanedAt(rows, showFloat, i, c);
    var v := rows[i][c];
    if FloatColumn(rows, c) {
      NoEdgeSpaceOfInt((if v.Float? then v.x else 0.0).Floor);
    } else if v.Text? {
      var _, _ := StripBounds(v.s);
    } else if v.Int? {
      NoEdgeSpaceOfInt(v.i);
    } else if v.Missing? {
      NoEdgeSpaceOfInt(0);
    }
  }

  /** A string without surrounding whitespace in a column of strings is kept as it is. */
  lemma CleanedOfClean(rows: seq<Row>, showFloat: real -> string, i: nat, c: string)
    requires i < |rows| && c in rows[i] && rows[i][c].Text? && NoEdgeSpace(rows[i][c].s)
    ensures Cleaned(rows, showFloat)[i][c] == rows[i][c]
  {
    CleanedAt(rows, showFloat, i, c);
    assert !FloatColumn(rows, c);
    StripOfNoEdgeSpace(rows[i][c].s);
  }

  /**
   * Cleaning a cleaned table changes nothing, as long as `str` of a float has
   * no surrounding whitespace.
   */
  lemma CleanedIdempotent(rows: seq<Row>, showFloat: real -> string)
    requires forall x :: NoEdgeSpace(showFloat(x))
    ensures Cleaned(Cleaned(rows, showFloat), showFloat) == Cleaned(rows, showFloat)
  {
    var once := Cleaned(rows, showFloat);
    var twice := Cleaned(once, showFloat);
    forall i, c | 0 <= i < |once| && c in once[i]
      ensures twice[i][c] == once[i][c]
    {
      CleanedNoEdgeSpace(rows, showFloat, i, c);
      CleanedOfClean(once, showFloat, i, c);
    }
    SameRows(twice, once);
  }
}
