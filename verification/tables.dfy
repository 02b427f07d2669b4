/**
 * A pandas DataFrame as the reconciliation pipeline uses it: column names, the
 * index labels, and one row per label. The operations that change a table in
 * place are methods of `Frame`; the functions beside them say what they produce.
 */
module Tables {
  import opened Cells
  import opened Rows
  import opened Cleaning
  import opened Ordering

  /**
   * `f"{c}_file1"`: the name the merge gives the first table's copy of a shared
   * column. It starts with `c` and ends in `1`.
   */
  function File1(c: string): (r: string)
    ensures |r| == |c| + 6 && r[..|c|] == c && r[|r| - 1] == '1'
  {
    c + "_file1"
  }

  /**
   * `f"{c}_file2"`: the name the merge gives the second table's copy of a shared
   * column. It starts with `c` and ends in `2`, so it is never the name of a
   * first-table copy.
   */
  function File2(c: string): (r: string)
    ensures |r| == |c| + 6 && r[..|c|] == c && r[|r| - 1] == '2'
  {
    c + "_file2"
  }

  /** `f'row_number_{file_label}'`. */
  function RowNumber(tag: string): string {
    "row_number_" + tag
  }

  /** The row labelled `index[i]` gains the row number `index[i] + 1` in column `name`. */
  function Numbered(index: seq<int>, rows: seq<Row>, name: string): (r: seq<Row>)
    requires |index| == |rows|
    ensures |r| == |rows|
  {
    seq(|rows|, i requires 0 <= i < |rows| => rows[i][name := Int(index[i] + 1)])
  }

  /**
   * A freshly loaded table is labelled `0..n-1`, so its row numbers run
   * `1..n`, in row order.
   */
  lemma NumberedFromOne(index: seq<int>, rows: seq<Row>, name: string)
    requires |index| == |rows| && forall i :: 0 <= i < |index| ==> index[i] == i
    ensures forall i :: 0 <= i < |rows| ==> Numbered(index, rows, name)[i][name] == Int(i + 1)
  {
  }

  /** The mask says the pair behind label `tag` agrees on column `c`. */
  predicate Matched(mask: map<string, seq<bool>>, c: string, tag: int) {
    c in mask && 0 <= tag < |mask[c]| && !mask[c][tag]
  }

  /** Column `n` of the row labelled `tag` is one of the two copies of a selected column the row agrees on. */
  predicate Blanked(n: string, tag: int, mask: map<string, seq<bool>>, selected: seq<string>) {
    exists c :: c in selected && Matched(mask, c, tag) && (n == File1(c) || n == File2(c))
  }

  /** The table after `replace_matches_with_dash`: every blanked cell holds `-`. */
  function Dashed(index: seq<int>, rows: seq<Row>, mask: map<string, seq<bool>>, selected: seq<string>): (r: seq<Row>)
    requires |index| == |rows|
    ensures |r| == |rows| && forall i :: 0 <= i < |rows| ==> r[i].Keys == rows[i].Keys
  {
    seq(|rows|, i requires 0 <= i < |rows| =>
      map n | n in rows[i] :: if Blanked(n, index[i], mask, selected) then Text("-") else rows[i][n])
  }

  /** One iteration of `replace_matches_with_dash`: the rows agreeing on `c` get `-` in both copies of `c`. */
  function DashColumn(index: seq<int>, rows: seq<Row>, mask: map<string, seq<bool>>, c: string): (r: seq<Row>)
    requires |index| == |rows|
    ensures |r| == |rows|
  {
    seq(|rows|, i requires 0 <= i < |rows| =>
      if Matched(mask, c, index[i]) then rows[i][File1(c) := Text("-")][File2(c) := Text("-")] else rows[i])
  }

  /** A cell of the dashed table: `-` where blanked, the original value elsewhere. */
  lemma DashedAt(index: seq<int>, rows: seq<Row>, mask: map<string, seq<bool>>, selected: seq<string>, i: nat, n: string)
    requires |index| == |rows| && i < |rows| && n in rows[i]
    ensures n in Dashed(index, rows, mask, selected)[i]
    ensures Dashed(index, rows, mask, selected)[i][n] == if Blanked(n, index[i], mask, selected) then Text("-") else rows[i][n]
  {
  }

  /** Distinct columns have distinct copies, and a first-table copy is never a second-table copy. */
  lemma CopiesDistinct(c: string, d: string)
    ensures File1(c) == File1(d) ==> c == d
    ensures File2(c) == File2(d) ==> c == d
    ensures File1(c) != File2(d)
  {
    if File1(c) == File1(d) {
      assert c == File1(c)[..|c|] == File1(d)[..|d|] == d;
    }
    if File2(c) == File2(d) {
      assert c == File2(c)[..|c|] == File2(d)[..|d|] == d;
    }
  }

  /** Both copies of a selected column are dashed exactly on the rows whose pair agrees on it. */
  lemma DashedCopies(index: seq<int>, rows: seq<Row>, mask: map<string, seq<bool>>, selected: seq<string>, i: nat, c: string)
    requires |index| == |rows| && i < |rows| && c in selected
    requires File1(c) in rows[i] && File2(c) in rows[i]
    ensures Dashed(index, rows, mask, selected)[i][File1(c)] == if Matched(mask, c, index[i]) then Text("-") else rows[i][File1(c)]
    ensures Dashed(index, rows, mask, selected)[i][File2(c)] == if Matched(mask, c, index[i]) then Text("-") else rows[i][File2(c)]
  {
    DashedAt(index, rows, mask, selected, i, File1(c));
    DashedAt(index, rows, mask, selected, i, File2(c));
    if Blanked(File1(c), index[i], mask, selected) {
      var d :| d in selected && Matched(mask, d, index[i]) && (File1(c) == File1(d) || File1(c) == File2(d));
      CopiesDistinct(c, d);
    }
    if Blanked(File2(c), index[i], mask, selected) {
      var d :| d in selected && Matched(mask, d, index[i]) && (File2(c) == File1(d) || File2(c) == File2(d));
      CopiesDistinct(c, d);
      CopiesDistinct(d, c);
    }
  }

  /** A column that is not a copy of a selected column keeps its value. */
  lemma DashedOther(index: seq<int>, rows: seq<Row>, mask: map<string, seq<bool>>, selected: seq<string>, i: nat, n: string)
    requires |index| == |rows| && i < |rows| && n in rows[i]
    requires forall c :: c in selected ==> n != File1(c) && n != File2(c)
    ensures Dashed(index, rows, mask, selected)[i][n] == rows[i][n]
  {
    DashedAt(index, rows, mask, selected, i, n);
  }

  /** Dashing a dashed table again changes nothing. */
  lemma DashedIdempotent(index: seq<int>, rows: seq<Row>, mask: map<string, seq<bool>>, selected: seq<string>)
    requires |index| == |rows|
    ensures Dashed(index, Dashed(index, rows, mask, selected), mask, selected) == Dashed(index, rows, mask, selected)
  {
    var once := Dashed(index, rows, mask, selected);
    var twice := Dashed(index, once, mask, selected);
    forall i, n | 0 <= i < |rows| && n in twice[i]
      ensures n in once[i] && twice[i][n] == once[i][n]
    {
      DashedAt(index, once, mask, selected, i, n);
      DashedAt(index, rows, mask, selected, i, n);
    }
    SameRows(twice, once);
  }

  lemma DashedNone(index: seq<int>, rows: seq<Row>, mask: map<string, seq<bool>>)
    requires |index| == |rows|
    ensures Dashed(index, rows, mask, []) == rows
  {
    SameRows(Dashed(index, rows, mask, []), rows);
  }

  lemma BlankedAppend(n: string, tag: int, mask: map<string, seq<bool>>, selected: seq<string>, c: string)
    ensures Blanked(n, tag, mask, selected + [c])
        == (Blanked(n, tag, mask, selected) || (Matched(mask, c, tag) && (n == File1(c) || n == File2(c))))
  {
    if Blanked(n, tag, mask, selected + [c]) {
      var d :| d in selected + [c] && Matched(mask, d, tag) && (n == File1(d) || n == File2(d));
      if d != c {
        assert d in selected;
      }
    }
    if Matched(mask, c, tag) && (n == File1(c) || n == File2(c)) {
      assert c in selected + [c];
    }
    if Blanked(n, tag, mask, selected) {
      var d :| d in selected && Matched(mask, d, tag) && (n == File1(d) || n == File2(d));
      assert d in selected + [c];
    }
  }

  /** Dashing one more column extends the selection by it. */
  lemma DashStep(index: seq<int>, rows: seq<Row>, mask: map<string, seq<bool>>, selected: seq<string>, c: string)
    requires |index| == |rows|
    requires forall i :: 0 <= i < |rows| ==> File1(c) in rows[i] && File2(c) in rows[i]
    ensures DashColumn(index, Dashed(index, rows, mask, selected), mask, c) == Dashed(index, rows, mask, selected + [c])
  {
    var before := Dashed(index, rows, mask, selected);
    var after := DashColumn(index, before, mask, c);
    var want := Dashed(index, rows, mask, selected + [c]);
    forall i, n | 0 <= i < |rows| && n in after[i]
      ensures n in want[i] && after[i][n] == want[i][n]
    {
      BlankedAppend(n, index[i], mask, selected, c);
    }
    SameRows(after, want);
  }

  /** The integer keys of column `name`, one per row. */
  predicate IntColumn(rows: seq<Row>, name: string) {
    forall i :: 0 <= i < |rows| ==> name in rows[i] && rows[i][name].Int?
  }

  function SortKeys(rows: seq<Row>, name: string): (r: seq<int>)
    requires IntColumn(rows, name)
    ensures |r| == |rows| && forall i :: 0 <= i < |rows| ==> r[i] == rows[i][name].i
  {
    seq(|rows|, i requires 0 <= i < |rows| => rows[i][name].i)
  }

  /** The order `sort_values(by=[name])` puts the rows in. */
  function SortRows(rows: seq<Row>, name: string): (r: seq<nat>)
    requires IntColumn(rows, name)
    ensures |r| == |rows| && InBounds(r, |rows|)
  {
    SortOrder(SortKeys(rows, name), |rows|)
  }

  /** After sorting, the values of column `name` ascend from top to bottom. */
  lemma SortRowsAscend(rows: seq<Row>, name: string)
    requires IntColumn(rows, name)
    ensures IntColumn(Permuted<Row>(rows, SortRows(rows, name)), name)
    ensures forall a, b :: 0 <= a < b < |rows| ==>
      Permuted<Row>(rows, SortRows(rows, name))[a][name].i <= Permuted<Row>(rows, SortRows(rows, name))[b][name].i
  {
    var keys := SortKeys(rows, name);
    var order := SortRows(rows, name);
    SortOrderSorted(keys, |rows|);
    forall a, b | 0 <= a < b < |rows|
      ensures keys[order[a]] <= keys[order[b]]
    {
    }
  }

  /** Sorting keeps every row and every index label, each label with its own row. */
  lemma SortRowsKeep(index: seq<int>, rows: seq<Row>, name: string)
    requires |index| == |rows| && IntColumn(rows, name)
    ensures multiset(SortRows(rows, name)) == multiset(Range(|rows|))
    ensures forall k :: 0 <= k < |rows| ==>
      Permuted(index, SortRows(rows, name))[k] == index[SortRows(rows, name)[k]]
      && Permuted<Row>(rows, SortRows(rows, name))[k] == rows[SortRows(rows, name)[k]]
    ensures forall r :: r in Permuted<Row>(rows, SortRows(rows, name)) <==> r in rows
  {
    var order := SortRows(rows, name);
    SortOrderPermutes(SortKeys(rows, name), |rows|);
    forall r
      ensures r in Permuted<Row>(rows, order) <==> r in rows
    {
      PermutedMembers(rows, order, r);
    }
  }

  /** A DataFrame: column names, index labels and rows. */
  class Frame {
    var columns: seq<string>
    var index: seq<int>
    var rows: seq<Row>

    ghost predicate Valid()
      reads this
    {
      Shaped(columns, index, rows)
    }

    constructor (columns: seq<string>, index: seq<int>, rows: seq<Row>)
      requires Shaped(columns, index, rows)
      ensures Valid() && this.columns == columns && this.index == index && this.rows == rows
    {
      this.columns := columns;
      this.index := index;
      this.rows := rows;
    }

    /**
     * `clean_data`: strips the strings, fills missing values with zero, turns
     * whole-number float columns into integers and writes every value as text.
     * `showFloat` is how `str` writes a float.
     */
    method Clean(showFloat: real -> string)
      requires Valid()
      modifies this
      ensures Valid() && columns == old(columns) && index == old(index)
      ensures rows == Cleaned(old(rows), showFloat)
    {
      var filled := Filled(Stripped(rows));
      var r := ConvertColumns(filled, FloatColumns(columns, filled));
      StepsClean(columns, rows, showFloat);
      rows := Rendered(r, showFloat);
    }

    /** `add_row_number`: column `row_number_<tag>` holds each row's index label plus one. */
    method AddRowNumber(tag: string)
      requires Valid()
      modifies this
      ensures Valid() && index == old(index)
      ensures columns == if RowNumber(tag) in old(columns) then old(columns) else old(columns) + [RowNumber(tag)]
      ensures rows == Numbered(old(index), old(rows), RowNumber(tag))
      ensures forall i :: 0 <= i < |rows| ==> rows[i][RowNumber(tag)] == Int(index[i] + 1)
      ensures forall i, n :: 0 <= i < |rows| && n in old(rows)[i] && n != RowNumber(tag) ==> rows[i][n] == old(rows)[i][n]
    {
      var name := RowNumber(tag);
      rows := Numbered(index, rows, name);
      if name !in columns {
        columns := columns + [name];
      }
    }

    /**
     * `replace_matches_with_dash`: for each selected column, the rows the mask
     * marks as agreeing get `-` in both copies of that column. The mask is read
     * by index label.
     */
    method ReplaceMatchesWithDash(mask: map<string, seq<bool>>, selected: seq<string>)
      requires Valid()
      requires forall c :: c in selected ==> File1(c) in columns && File2(c) in columns
      requires forall c :: c in selected ==> c in mask && forall i :: 0 <= i < |index| ==> 0 <= index[i] < |mask[c]|
      modifies this
      ensures Valid() && columns == old(columns) && index == old(index)
      ensures rows == Dashed(index, old(rows), mask, selected)
    {
      ghost var start := rows;
      DashedNone(index, rows, mask);
      for k := 0 to |selected|
        invariant columns == old(columns) && index == old(index) && Shaped(columns, index, start)
        invariant rows == Dashed(index, start, mask, selected[..k])
      {
        var c := selected[k];
        DashStep(index, start, mask, selected[..k], c);
        assert selected[..k + 1] == selected[..k] + [c];
        rows := DashColumn(index, rows, mask, c);
      }
      assert selected[..|selected|] == selected;
    }

    /** `sort_values(by=[name])` on an integer column: rows and labels rearranged together so that the column ascends. */
    method SortBy(name: string)
      requires Valid() && IntColumn(rows, name)
      modifies this
      ensures Valid() && columns == old(columns)
      ensures index == Permuted(old(index), SortRows(old(rows), name))
      ensures rows == Permuted<Row>(old(rows), SortRows(old(rows), name))
    {
      var order := SortRows(rows, name);
      index := Permuted(index, order);
      rows := Permuted<Row>(rows, order);
    }
  }
}
