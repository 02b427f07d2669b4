/** Rows of a table: each maps the table's column names to cells. */
module Rows {
  import opened Cells

  type Row = map<string, Cell>

  /** The set of names in a column list. */
  function Names(columns: seq<string>): set<string> {
    set c | c in columns
  }

  /** No name occurs twice. */
  predicate Distinct<T(==)>(s: seq<T>) {
    forall i, j :: 0 <= i < j < |s| ==> s[i] != s[j]
  }

  /** Every row holds exactly the listed columns. */
  predicate RowsOver(columns: seq<string>, rows: seq<Row>) {
    forall i :: 0 <= i < |rows| ==> rows[i].Keys == Names(columns)
  }

  /** A well-formed table: one index label per row, and every row holding exactly the listed columns. */
  predicate Shaped(columns: seq<string>, index: seq<int>, rows: seq<Row>) {
    |index| == |rows| && RowsOver(columns, rows)
  }

  /** Every row holds column `c`. */
  predicate HasColumn(rows: seq<Row>, c: string) {
    forall i :: 0 <= i < |rows| ==> c in rows[i]
  }

  /** The cells of column `c`, top to bottom. */
  function Column(rows: seq<Row>, c: string): (r: seq<Cell>)
    requires HasColumn(rows, c)
    ensures |r| == |rows| && forall i :: 0 <= i < |rows| ==> r[i] == rows[i][c]
  {
    seq(|rows|, i requires 0 <= i < |rows| => rows[i][c])
  }
}
