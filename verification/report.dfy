/**
 * The reconciliation itself: both tables are cleaned and numbered, merged on
 * the base column, compared on the selected columns, and the mismatched rows
 * are shown with agreeing values replaced by `-`, sorted by their row number in
 * the first table, together with the mismatch count and percentage.
 */
module Report {
  import opened Wrappers
  import opened Cells
  import opened Rows
  import opened Cleaning
  import opened Tables
  import opened Join
  import opened Compare
  import opened Ordering

  /** A table: column names, index labels and rows. */
  datatype Table = Table(columns: seq<string>, index: seq<int>, rows: seq<Row>)

  predicate WellFormed(t: Table) {
    Shaped(t.columns, t.index, t.rows)
  }

  /** The row-number columns of the first and of the second table. */
  const Number1: string := RowNumber("file1")
  const Number2: string := RowNumber("file2")

  lemma NumbersDiffer()
    ensures Number1 != Number2
  {
    assert Number1[15] != Number2[15];
  }

  /** Lines 61 and 64 (82 and 85 for the second file): `clean_data`, then `add_row_number`. */
  function Prepared(t: Table, tag: string, showFloat: real -> string): (r: Table)
    requires WellFormed(t)
  {
    var name := RowNumber(tag);
    Table(if name in t.columns then t.columns else t.columns + [name], t.index, Numbered(t.index, Cleaned(t.rows, showFloat), name))
  }

  /**
   * A prepared table is well formed; its row-number column holds each row's
   * label plus one and every other cell is the cleaned cell.
   */
  lemma PreparedCells(t: Table, tag: string, showFloat: real -> string)
    requires WellFormed(t)
    ensures WellFormed(Prepared(t, tag, showFloat))
    ensures Names(Prepared(t, tag, showFloat).columns) == Names(t.columns) + {RowNumber(tag)}
    ensures IntColumn(Prepared(t, tag, showFloat).rows, RowNumber(tag))
    ensures forall i :: 0 <= i < |t.rows| ==> Prepared(t, tag, showFloat).rows[i][RowNumber(tag)] == Int(t.index[i] + 1)
    ensures forall i, c :: 0 <= i < |t.rows| && c in t.rows[i] && c != RowNumber(tag) ==>
      Prepared(t, tag, showFloat).rows[i][c] == Cleaned(t.rows, showFloat)[i][c]
  {
    var r := Prepared(t, tag, showFloat);
    var cleaned := Cleaned(t.rows, showFloat);
    forall i | 0 <= i < |t.rows|
      ensures r.rows[i].Keys == Names(r.columns)
    {
      assert cleaned[i].Keys == t.rows[i].Keys;
    }
  }

  /** Loads a table as lines 61-64 do: a frame, cleaned, then numbered. */
  method Load(t: Table, tag: string, showFloat: real -> string) returns (f: Frame)
    requires WellFormed(t)
    ensures fresh(f) && f.Valid()
    ensures Table(f.columns, f.index, f.rows) == Prepared(t, tag, showFloat)
  {
    f := new Frame(t.columns, t.index, t.rows);
    f.Clean(showFloat);
    f.AddRowNumber(tag);
  }

  /** `display_columns` (line 107). */
  function DisplayColumns(key: string, selected: seq<string>): (r: seq<string>)
    ensures |r| == 2 * |selected| + 3
  {
    [key, Number2]
      + seq(|selected|, k requires 0 <= k < |selected| => File2(selected[k]))
      + [Number1]
      + seq(|selected|, k requires 0 <= k < |selected| => File1(selected[k]))
  }

  /** The base column and both row numbers are displayed. */
  lemma DisplayColumnsFixed(key: string, selected: seq<string>)
    ensures key in DisplayColumns(key, selected) && Number1 in DisplayColumns(key, selected) && Number2 in DisplayColumns(key, selected)
  {
    var r := DisplayColumns(key, selected);
    assert r[0] == key && r[1] == Number2 && r[2 + |selected|] == Number1;
  }

  /** Both copies of every selected column are displayed. */
  lemma DisplayColumnsCopies(key: string, selected: seq<string>, c: string)
    requires c in selected
    ensures File1(c) in DisplayColumns(key, selected) && File2(c) in DisplayColumns(key, selected)
  {
    var r := DisplayColumns(key, selected);
    var k :| 0 <= k < |selected| && selected[k] == c;
    assert r[2 + k] == File2(c);
    assert r[3 + |selected| + k] == File1(c);
  }

  /** The names shown beside the copies of the selected columns are not themselves such copies. */
  predicate DisplayNamesDistinct(key: string, selected: seq<string>) {
    && key != Number1 && key != Number2
    && forall c :: c in selected ==>
         && File1(c) != key && File1(c) != Number1 && File1(c) != Number2
         && File2(c) != key && File2(c) != Number1 && File2(c) != Number2
  }

  /** The column a suffixed copy was made from. */
  function Base(n: string): string
    requires |n| >= 6
  {
    n[..|n| - 6]
  }

  /**
   * Column `n` of the merged row built from `row1` and `row2`: the base column
   * and the first row number come from the first table, the second row number
   * from the second; a copy ending in `2` is the second table's, any other copy
   * the first table's.
   */
  function DisplayCell(row1: Row, row2: Row, key: string, selected: seq<string>, n: string): Cell
    requires key in row1 && Number1 in row1 && Number2 in row2
    requires forall c :: c in selected ==> c in row1 && c in row2
    requires n in DisplayColumns(key, selected)
  {
    if n == key then row1[key]
    else if n == Number2 then row2[Number2]
    else if n == Number1 then row1[Number1]
    else if n[|n| - 1] == '2' then row2[Base(n)]
    else row1[Base(n)]
  }

  /**
   * The displayed part of the merged row built from `row1` of the first table
   * and `row2` of the second (lines 92 and 108).
   */
  function DisplayRow(row1: Row, row2: Row, key: string, selected: seq<string>): (r: Row)
    requires key in row1 && Number1 in row1 && Number2 in row2
    requires forall c :: c in selected ==> c in row1 && c in row2
    ensures r.Keys == Names(DisplayColumns(key, selected))
  {
    map n | n in DisplayColumns(key, selected) :: DisplayCell(row1, row2, key, selected, n)
  }

  /** The base column and the row numbers hold the values they were copied from. */
  lemma DisplayRowFixed(row1: Row, row2: Row, key: string, selected: seq<string>)
    requires key in row1 && Number1 in row1 && Number2 in row2
    requires forall c :: c in selected ==> c in row1 && c in row2
    requires DisplayNamesDistinct(key, selected)
    ensures DisplayRow(row1, row2, key, selected)[key] == row1[key]
    ensures DisplayRow(row1, row2, key, selected)[Number1] == row1[Number1]
    ensures DisplayRow(row1, row2, key, selected)[Number2] == row2[Number2]
  {
    DisplayColumnsFixed(key, selected);
    NumbersDiffer();
  }

  /** Each copy of a selected column holds the value of that column in its own table's row. */
  lemma DisplayRowCopies(row1: Row, row2: Row, key: string, selected: seq<string>, c: string)
    requires key in row1 && Number1 in row1 && Number2 in row2
    requires forall c :: c in selected ==> c in row1 && c in row2
    requires DisplayNamesDistinct(key, selected) && c in selected
    ensures File1(c) in DisplayRow(row1, row2, key, selected) && File2(c) in DisplayRow(row1, row2, key, selected)
    ensures DisplayRow(row1, row2, key, selected)[File1(c)] == row1[c]
    ensures DisplayRow(row1, row2, key, selected)[File2(c)] == row2[c]
  {
    DisplayColumnsCopies(key, selected, c);
    assert Base(File1(c)) == c && Base(File2(c)) == c;
  }

  /** The mismatched rows of lines 107-108 before they are dashed and sorted, one per kept label. */
  function Display(t1: Table, t2: Table, pairs: seq<Pair>, labels: seq<int>, key: string, selected: seq<string>): (r: Table)
    requires WellFormed(t1) && WellFormed(t2)
    requires key in t1.columns && Number1 in t1.columns && Number2 in t2.columns
    requires forall c :: c in selected ==> c in t1.columns && c in t2.columns
    requires PairsIn(pairs, |t1.rows|, |t2.rows|)
    requires forall k :: 0 <= k < |labels| ==> 0 <= labels[k] < |pairs|
    ensures |r.rows| == |labels| && r.index == labels && r.columns == DisplayColumns(key, selected)
  {
    Table(DisplayColumns(key, selected), labels,
      seq(|labels|, k requires 0 <= k < |labels| =>
        DisplayRow(t1.rows[pairs[labels[k]].0], t2.rows[pairs[labels[k]].1], key, selected)))
  }

  /**
   * The inputs the comparison works on: both tables prepared, the base and
   * selected columns present in both, the row-number columns on their own side,
   * and no merged copy of a selected column colliding with another shown name.
   */
  predicate Joinable(t1: Table, t2: Table, key: string, selected: seq<string>) {
    && WellFormed(t1) && WellFormed(t2)
    && key in t1.columns && key in t2.columns
    && (forall c :: c in selected ==> c in t1.columns && c in t2.columns)
    && Number1 in t1.columns && Number2 in t2.columns
    && IntColumn(t1.rows, Number1)
    && DisplayNamesDistinct(key, selected)
  }

  /** The merged rows: pairs of rows, one from each table, whose base-column values are equal. */
  function MergedPairs(t1: Table, t2: Table, key: string): (r: seq<Pair>)
    requires WellFormed(t1) && WellFormed(t2) && key in t1.columns && key in t2.columns
    ensures PairsIn(r, |t1.rows|, |t2.rows|)
  {
    JoinPairsIn(Column(t1.rows, key), Column(t2.rows, key));
    JoinPairs(Column(t1.rows, key), Column(t2.rows, key))
  }

  function MaskOf(t1: Table, t2: Table, key: string, selected: seq<string>): map<string, seq<bool>>
    requires Joinable(t1, t2, key, selected)
  {
    Mask(t1.rows, t2.rows, MergedPairs(t1, t2, key), selected)
  }

  /** The labels of the merged rows with at least one mismatch (line 102). */
  function LabelsOf(t1: Table, t2: Table, key: string, selected: seq<string>): (r: seq<int>)
    requires Joinable(t1, t2, key, selected)
    ensures forall k :: 0 <= k < |r| ==> 0 <= r[k] < |MergedPairs(t1, t2, key)|
  {
    var labels := MismatchLabels(MaskOf(t1, t2, key, selected), selected, |MergedPairs(t1, t2, key)|);
    assert forall k :: 0 <= k < |labels| ==> 0 <= labels[k] < |MergedPairs(t1, t2, key)| by {
      forall k | 0 <= k < |labels|
        ensures 0 <= labels[k] < |MergedPairs(t1, t2, key)|
      {
        MismatchLabelsMembers(MaskOf(t1, t2, key, selected), selected, |MergedPairs(t1, t2, key)|, labels[k]);
      }
    }
    labels
  }

  function DisplayOf(t1: Table, t2: Table, key: string, selected: seq<string>): (r: Table)
    requires Joinable(t1, t2, key, selected)
    ensures |r.rows| == |r.index| == |LabelsOf(t1, t2, key, selected)|
  {
    Display(t1, t2, MergedPairs(t1, t2, key), LabelsOf(t1, t2, key, selected), key, selected)
  }

  /** Every shown row carries the displayed columns, and its first-table row number is an integer that is never dashed. */
  lemma DisplayOfShaped(t1: Table, t2: Table, key: string, selected: seq<string>)
    requires Joinable(t1, t2, key, selected)
    ensures WellFormed(DisplayOf(t1, t2, key, selected))
    ensures forall i :: 0 <= i < |DisplayOf(t1, t2, key, selected).rows| ==>
      DisplayOf(t1, t2, key, selected).rows[i][Number1] == t1.rows[MergedPairs(t1, t2, key)[DisplayOf(t1, t2, key, selected).index[i]].0][Number1]
  {
    var d := DisplayOf(t1, t2, key, selected);
    var pairs := MergedPairs(t1, t2, key);
    forall i | 0 <= i < |d.rows|
      ensures d.rows[i].Keys == Names(d.columns)
      ensures d.rows[i][Number1] == t1.rows[pairs[d.index[i]].0][Number1]
    {
      var p := pairs[d.index[i]];
      DisplayRowFixed(t1.rows[p.0], t2.rows[p.1], key, selected);
    }
  }

  /** The row numbers are never copies of a selected column, so no mask blanks them. */
  lemma NumbersNotBlanked(key: string, selected: seq<string>, tag: int, mask: map<string, seq<bool>>)
    requires DisplayNamesDistinct(key, selected)
    ensures !Blanked(Number1, tag, mask, selected) && !Blanked(Number2, tag, mask, selected)
  {
  }

  /** The dashed display rows keep the first table's row number, an integer. */
  lemma DashedNumber(t1: Table, t2: Table, key: string, selected: seq<string>)
    requires Joinable(t1, t2, key, selected)
    ensures IntColumn(Dashed(DisplayOf(t1, t2, key, selected).index, DisplayOf(t1, t2, key, selected).rows, MaskOf(t1, t2, key, selected), selected), Number1)
  {
    var d := DisplayOf(t1, t2, key, selected);
    var mask := MaskOf(t1, t2, key, selected);
    var pairs := MergedPairs(t1, t2, key);
    DisplayOfShaped(t1, t2, key, selected);
    var dashed: seq<Row> := Dashed(d.index, d.rows, mask, selected);
    forall i | 0 <= i < |dashed|
      ensures Number1 in dashed[i] && dashed[i][Number1].Int?
    {
      DisplayColumnsFixed(key, selected);
      DashedAt(d.index, d.rows, mask, selected, i, Number1);
      NumbersNotBlanked(key, selected, d.index[i], mask);
      assert t1.rows[pairs[d.index[i]].0][Number1].Int?;
    }
  }

  /** The table shown: the display rows dashed where they agree, then sorted by row number in the first table. */
  function Shown(t1: Table, t2: Table, key: string, selected: seq<string>): Table
    requires Joinable(t1, t2, key, selected)
  {
    var d := DisplayOf(t1, t2, key, selected);
    var dashed: seq<Row> := Dashed(d.index, d.rows, MaskOf(t1, t2, key, selected), selected);
    DashedNumber(t1, t2, key, selected);
    var order := SortRows(dashed, Number1);
    Table(d.columns, Permuted(d.index, order), Permuted<Row>(dashed, order))
  }

  /**
   * What the app ends with: nothing compared (a gate failed), the merge on line
   * 92 raising `MergeError`, or the comparison: the shown table when some row
   * mismatched, the count, and the percentage.
   */
  datatype Outcome = Withheld | MergeFailed | Compared(report: Option<Table>, count: nat, percentage: real)

  /** Lines 92-123 once both gates are passed. */
  function Comparison(t1: Table, t2: Table, key: string, selected: seq<string>): Outcome
    requires Joinable(t1, t2, key, selected)
  {
    var labels := LabelsOf(t1, t2, key, selected);
    Compared(if labels == [] then None else Some(Shown(t1, t2, key, selected)), |labels|, Percentage(|labels|, |t1.rows|))
  }

  /** Some selected column's two copies disagree in the merged row built from `row1` and `row2`. */
  predicate Mismatched(row1: Row, row2: Row, selected: seq<string>) {
    exists c :: c in selected && c in row1 && c in row2 && IsMismatch(row1[c], row2[c])
  }

  /** The filter of line 102 reads the mask as `is_mismatch` on the selected columns. */
  lemma AnyMismatchOf(t1: Table, t2: Table, key: string, selected: seq<string>, l: nat)
    requires Joinable(t1, t2, key, selected) && l < |MergedPairs(t1, t2, key)|
    ensures AnyMismatch(MaskOf(t1, t2, key, selected), selected, l)
        <==> Mismatched(t1.rows[MergedPairs(t1, t2, key)[l].0], t2.rows[MergedPairs(t1, t2, key)[l].1], selected)
  {
    var pairs := MergedPairs(t1, t2, key);
    var mask := MaskOf(t1, t2, key, selected);
    var row1 := t1.rows[pairs[l].0];
    var row2 := t2.rows[pairs[l].1];
    if AnyMismatch(mask, selected, l) {
      var c :| c in selected && c in mask && 0 <= l < |mask[c]| && mask[c][l];
      MaskAt(t1.rows, t2.rows, pairs, selected, c, l);
      assert c in row1 && c in row2 && IsMismatch(row1[c], row2[c]);
    }
    if Mismatched(row1, row2, selected) {
      var c :| c in selected && c in row1 && c in row2 && IsMismatch(row1[c], row2[c]);
      MaskAt(t1.rows, t2.rows, pairs, selected, c, l);
    }
  }

  /** The kept labels are exactly those of the merged rows with a mismatch, in merged order. */
  lemma LabelsOfMembers(t1: Table, t2: Table, key: string, selected: seq<string>, l: int)
    requires Joinable(t1, t2, key, selected)
    ensures l in LabelsOf(t1, t2, key, selected) <==>
      0 <= l < |MergedPairs(t1, t2, key)| && Mismatched(t1.rows[MergedPairs(t1, t2, key)[l].0], t2.rows[MergedPairs(t1, t2, key)[l].1], selected)
    ensures forall a, b :: 0 <= a < b < |LabelsOf(t1, t2, key, selected)| ==> LabelsOf(t1, t2, key, selected)[a] < LabelsOf(t1, t2, key, selected)[b]
  {
    var pairs := MergedPairs(t1, t2, key);
    MismatchLabelsMembers(MaskOf(t1, t2, key, selected), selected, |pairs|, l);
    MismatchLabelsIncreasing(MaskOf(t1, t2, key, selected), selected, |pairs|);
    if 0 <= l < |pairs| {
      AnyMismatchOf(t1, t2, key, selected, l);
    }
  }

  /** The shown table holds exactly the labels of the mismatched merged rows. */
  lemma ShownLabels(t1: Table, t2: Table, key: string, selected: seq<string>, l: int)
    requires Joinable(t1, t2, key, selected)
    ensures |Shown(t1, t2, key, selected).index| == |Shown(t1, t2, key, selected).rows| == |LabelsOf(t1, t2, key, selected)|
    ensures l in Shown(t1, t2, key, selected).index <==>
      0 <= l < |MergedPairs(t1, t2, key)| && Mismatched(t1.rows[MergedPairs(t1, t2, key)[l].0], t2.rows[MergedPairs(t1, t2, key)[l].1], selected)
  {
    var d := DisplayOf(t1, t2, key, selected);
    var dashed: seq<Row> := Dashed(d.index, d.rows, MaskOf(t1, t2, key, selected), selected);
    DashedNumber(t1, t2, key, selected);
    SortRowsKeep(d.index, dashed, Number1);
    PermutedMembers(d.index, SortRows(dashed, Number1), l);
    LabelsOfMembers(t1, t2, key, selected, l);
  }

  /** Where row `k` of the shown table came from: its label and the merged pair behind it. */
  lemma ShownSource(t1: Table, t2: Table, key: string, selected: seq<string>, k: nat)
    returns (j: nat)
    requires Joinable(t1, t2, key, selected) && k < |Shown(t1, t2, key, selected).rows|
    ensures j < |DisplayOf(t1, t2, key, selected).rows|
    ensures Shown(t1, t2, key, selected).index[k] == DisplayOf(t1, t2, key, selected).index[j] == LabelsOf(t1, t2, key, selected)[j]
    ensures Shown(t1, t2, key, selected).rows[k]
      == Dashed(DisplayOf(t1, t2, key, selected).index, DisplayOf(t1, t2, key, selected).rows, MaskOf(t1, t2, key, selected), selected)[j]
  {
    var d := DisplayOf(t1, t2, key, selected);
    var dashed: seq<Row> := Dashed(d.index, d.rows, MaskOf(t1, t2, key, selected), selected);
    DashedNumber(t1, t2, key, selected);
    SortRowsKeep(d.index, dashed, Number1);
    j := SortRows(dashed, Number1)[k];
  }

  /**
   * Row `k` of the shown table: both copies of a selected column hold `-` when
   * the two tables agree on it, and their own values when they do not.
   */
  lemma ShownCopies(t1: Table, t2: Table, key: string, selected: seq<string>, k: nat, c: string)
    requires Joinable(t1, t2, key, selected) && k < |Shown(t1, t2, key, selected).rows| && c in selected
    ensures 0 <= Shown(t1, t2, key, selected).index[k] < |MergedPairs(t1, t2, key)|
    ensures File1(c) in Shown(t1, t2, key, selected).rows[k] && File2(c) in Shown(t1, t2, key, selected).rows[k]
    ensures var p := MergedPairs(t1, t2, key)[Shown(t1, t2, key, selected).index[k]];
      Shown(t1, t2, key, selected).rows[k][File1(c)] == if IsMismatch(t1.rows[p.0][c], t2.rows[p.1][c]) then t1.rows[p.0][c] else Text("-")
    ensures var p := MergedPairs(t1, t2, key)[Shown(t1, t2, key, selected).index[k]];
      Shown(t1, t2, key, selected).rows[k][File2(c)] == if IsMismatch(t1.rows[p.0][c], t2.rows[p.1][c]) then t2.rows[p.1][c] else Text("-")
  {
    var d := DisplayOf(t1, t2, key, selected);
    var mask := MaskOf(t1, t2, key, selected);
    var pairs := MergedPairs(t1, t2, key);
    var j := ShownSource(t1, t2, key, selected, k);
    var l := d.index[j];
    var p := pairs[l];
    DisplayColumnsCopies(key, selected, c);
    DisplayRowCopies(t1.rows[p.0], t2.rows[p.1], key, selected, c);
    DashedCopies(d.index, d.rows, mask, selected, j, c);
    MaskAt(t1.rows, t2.rows, pairs, selected, c, l);
  }

  /**
   * Row `k` of the shown table: it has the displayed columns, in the order of
   * line 107, and its base column and row numbers are never dashed.
   */
  lemma ShownFixed(t1: Table, t2: Table, key: string, selected: seq<string>, k: nat)
    requires Joinable(t1, t2, key, selected) && k < |Shown(t1, t2, key, selected).rows|
    ensures Shown(t1, t2, key, selected).columns
      == [key, Number2] + seq(|selected|, i requires 0 <= i < |selected| => File2(selected[i]))
         + [Number1] + seq(|selected|, i requires 0 <= i < |selected| => File1(selected[i]))
    ensures Shown(t1, t2, key, selected).rows[k].Keys == Names(Shown(t1, t2, key, selected).columns)
    ensures 0 <= Shown(t1, t2, key, selected).index[k] < |MergedPairs(t1, t2, key)|
    ensures var p := MergedPairs(t1, t2, key)[Shown(t1, t2, key, selected).index[k]];
      && Shown(t1, t2, key, selected).rows[k][key] == t1.rows[p.0][key]
      && Shown(t1, t2, key, selected).rows[k][Number1] == t1.rows[p.0][Number1]
      && Shown(t1, t2, key, selected).rows[k][Number2] == t2.rows[p.1][Number2]
  {
    var d := DisplayOf(t1, t2, key, selected);
    var mask := MaskOf(t1, t2, key, selected);
    var pairs := MergedPairs(t1, t2, key);
    var j := ShownSource(t1, t2, key, selected, k);
    var l := d.index[j];
    var p := pairs[l];
    DisplayColumnsFixed(key, selected);
    DisplayRowFixed(t1.rows[p.0], t2.rows[p.1], key, selected);
    assert forall c :: c in selected ==> key != File1(c) && key != File2(c);
    DashedOther(d.index, d.rows, mask, selected, j, key);
    DashedOther(d.index, d.rows, mask, selected, j, Number1);
    DashedOther(d.index, d.rows, mask, selected, j, Number2);
  }

  /** The shown rows ascend by their row number in the first table (line 114). */
  lemma ShownSorted(t1: Table, t2: Table, key: string, selected: seq<string>)
    requires Joinable(t1, t2, key, selected)
    ensures IntColumn(Shown(t1, t2, key, selected).rows, Number1)
    ensures forall a, b :: 0 <= a < b < |Shown(t1, t2, key, selected).rows| ==>
      Shown(t1, t2, key, selected).rows[a][Number1].i <= Shown(t1, t2, key, selected).rows[b][Number1].i
  {
    var d := DisplayOf(t1, t2, key, selected);
    var dashed: seq<Row> := Dashed(d.index, d.rows, MaskOf(t1, t2, key, selected), selected);
    DashedNumber(t1, t2, key, selected);
    SortRowsAscend(dashed, Number1);
  }

  /** Nothing is shown exactly when no merged row mismatches. */
  lemma ComparisonReport(t1: Table, t2: Table, key: string, selected: seq<string>)
    requires Joinable(t1, t2, key, selected)
    ensures Comparison(t1, t2, key, selected).Compared?
    ensures Comparison(t1, t2, key, selected).report.None? <==>
      forall l :: 0 <= l < |MergedPairs(t1, t2, key)| ==> !Mismatched(t1.rows[MergedPairs(t1, t2, key)[l].0], t2.rows[MergedPairs(t1, t2, key)[l].1], selected)
    ensures Comparison(t1, t2, key, selected).report.Some? ==> Comparison(t1, t2, key, selected).report.value == Shown(t1, t2, key, selected)
  {
    var labels := LabelsOf(t1, t2, key, selected);
    var pairs := MergedPairs(t1, t2, key);
    if labels == [] {
      forall l | 0 <= l < |pairs|
        ensures !Mismatched(t1.rows[pairs[l].0], t2.rows[pairs[l].1], selected)
      {
        LabelsOfMembers(t1, t2, key, selected, l);
      }
    } else {
      LabelsOfMembers(t1, t2, key, selected, labels[0]);
    }
  }

  /**
   * The count is the number of mismatched merged rows (each counted once);
   * the percentage is that count per hundred rows of the first table, zero for
   * an empty first table, and at most a hundred when the base column does not
   * repeat in the second table.
   */
  lemma ComparisonCount(t1: Table, t2: Table, key: string, selected: seq<string>)
    requires Joinable(t1, t2, key, selected)
    ensures Comparison(t1, t2, key, selected).Compared?
    ensures Comparison(t1, t2, key, selected).count == |LabelsOf(t1, t2, key, selected)| <= |MergedPairs(t1, t2, key)|
    ensures Comparison(t1, t2, key, selected).percentage == Percentage(Comparison(t1, t2, key, selected).count, |t1.rows|)
    ensures |t1.rows| == 0 ==> Comparison(t1, t2, key, selected).count == 0 && Comparison(t1, t2, key, selected).percentage == 0.0
    ensures Distinct(Column(t2.rows, key)) ==> 0.0 <= Comparison(t1, t2, key, selected).percentage <= 100.0
  {
    var labels := LabelsOf(t1, t2, key, selected);
    var pairs := MergedPairs(t1, t2, key);
    PercentageScale(|labels|, |t1.rows|);
    if |t1.rows| == 0 {
      assert Column(t1.rows, key) == [];
      assert JoinFrom([], Column(t2.rows, key), 0) == [];
    }
    if Distinct(Column(t2.rows, key)) {
      JoinPairsUnique(Column(t1.rows, key), Column(t2.rows, key));
      PercentageBound(|labels|, |t1.rows|);
    }
  }

  /**
   * The inputs the model covers: well-formed tables; a base column and
   * selected columns that the first prepared table offers (lines 69 and 72);
   * the base column not among the selected ones (line 99 would look up a
   * `_file1` copy the merge does not make of it); neither table already
   * holding the other's row-number column (the merge would suffix it and line
   * 107 look it up in vain); no suffixed copy of a selected column that the
   * merge would place beside an unsuffixed column of the same name from the
   * other table; and no suffixed copy of a shared column named like the base
   * column that the merge keeps (the second table's `c_file2` when the first
   * table has rows, a selected column's `c_file1` when it has none), which
   * would give the merged table two base columns.
   */
  predicate Admissible(raw1: Table, raw2: Option<Table>, key: string, selected: seq<string>) {
    && WellFormed(raw1) && (raw2.Some? ==> WellFormed(raw2.value))
    && (key in raw1.columns || key == Number1)
    && (forall c :: c in selected ==> c in raw1.columns || c == Number1)
    && key !in selected
    && Number2 !in raw1.columns
    && (raw2.Some? ==> Number1 !in raw2.value.columns)
    && (raw2.Some? ==> forall c :: c in selected ==>
          && (File1(c) in raw2.value.columns ==> File1(c) in raw1.columns)
          && (File2(c) in raw1.columns ==> File2(c) in raw2.value.columns))
    && (raw2.Some? ==> forall c :: c in raw1.columns && c in raw2.value.columns && c != key ==>
          if |raw1.rows| > 0 then File2(c) != key else c in selected ==> File1(c) != key)
  }

  /** Column `c` is on both sides of the merge and is not the base column, so the merge suffixes it. */
  predicate Shared(t1: Table, t2: Table, key: string, c: string) {
    c in t1.columns && c in t2.columns && c != key
  }

  /**
   * Line 92 raises `MergeError` (pandas 2) when suffixing repeats a name on one
   * side: a copy `c_file1` that the first table already holds as a column the
   * merge leaves alone, or a copy `c_file2` that the second table holds
   * likewise. The merge drops one base column before suffixing: the second
   * table's when the first table has rows, the first table's otherwise.
   */
  predicate MergeRaises(t1: Table, t2: Table, key: string) {
    exists c :: c in t1.columns && Shared(t1, t2, key, c) &&
      ((File1(c) in t1.columns && !(|t1.rows| == 0 && File1(c) == key) && !Shared(t1, t2, key, File1(c))) ||
       (File2(c) in t2.columns && !(|t1.rows| > 0 && File2(c) == key) && !Shared(t1, t2, key, File2(c))))
  }

  /**
   * A shared column whose suffixed copy is named like the base column makes
   * the merge raise on the side that keeps its base column: the first table's
   * copy when that table has rows, the second table's when it has none.
   */
  lemma CopyNamedLikeKey(t1: Table, t2: Table, key: string, c: string)
    requires Shared(t1, t2, key, c) && key in t1.columns && key in t2.columns
    ensures File1(c) == key && |t1.rows| > 0 ==> MergeRaises(t1, t2, key)
    ensures File2(c) == key && |t1.rows| == 0 ==> MergeRaises(t1, t2, key)
  {
  }

  /** Line 77: a second file, some selected columns and a base column. */
  predicate FirstGate(raw2: Option<Table>, key: string, selected: seq<string>) {
    raw2.Some? && selected != [] && key != ""
  }

  /** Line 87: the second prepared table holds every selected column and the base column. */
  predicate SecondGate(t2: Table, key: string, selected: seq<string>) {
    (forall c :: c in selected ==> c in t2.columns) && key in t2.columns
  }

  lemma CopyNames(c: string)
    ensures File1(c) != Number2 && File2(c) != Number1
    ensures File1(c) == Number1 || File2(c) == Number2 ==> c == "row_number"
  {
    assert Number1 == File1("row_number") && Number2 == File2("row_number");
    CopiesDistinct(c, "row_number");
    CopiesDistinct("row_number", c);
  }

  /**
   * Both gates passed and the merge did not raise: the prepared tables are
   * ready to be merged and compared.
   */
  lemma GatesJoinable(raw1: Table, raw2: Option<Table>, key: string, selected: seq<string>, showFloat: real -> string)
    requires Admissible(raw1, raw2, key, selected) && FirstGate(raw2, key, selected)
    requires SecondGate(Prepared(raw2.value, "file2", showFloat), key, selected)
    requires !MergeRaises(Prepared(raw1, "file1", showFloat), Prepared(raw2.value, "file2", showFloat), key)
    ensures Joinable(Prepared(raw1, "file1", showFloat), Prepared(raw2.value, "file2", showFloat), key, selected)
  {
    var t1 := Prepared(raw1, "file1", showFloat);
    var t2 := Prepared(raw2.value, "file2", showFloat);
    PreparedCells(raw1, "file1", showFloat);
    PreparedCells(raw2.value, "file2", showFloat);
    NumbersDiffer();
    assert Names(t1.columns) == Names(raw1.columns) + {Number1};
    assert Names(t2.columns) == Names(raw2.value.columns) + {Number2};
    assert key in t1.columns;
    assert Number1 in t1.columns && Number2 in t2.columns;
    assert Number1 !in t2.columns && Number2 !in t1.columns;
    forall c | c in selected
      ensures c in t1.columns
      ensures File1(c) != key && File1(c) != Number1 && File1(c) != Number2
      ensures File2(c) != key && File2(c) != Number1 && File2(c) != Number2
    {
      assert c in Names(t1.columns);
      assert Shared(t1, t2, key, c);
      CopyNames(c);
    }
  }

  /** The whole pipeline from the two loaded tables to what is shown. */
  function Reconciled(raw1: Table, raw2: Option<Table>, key: string, selected: seq<string>, showFloat: real -> string): Outcome
    requires Admissible(raw1, raw2, key, selected)
  {
    if !FirstGate(raw2, key, selected) then Withheld
    else if !SecondGate(Prepared(raw2.value, "file2", showFloat), key, selected) then Withheld
    else if MergeRaises(Prepared(raw1, "file1", showFloat), Prepared(raw2.value, "file2", showFloat), key) then MergeFailed
    else
      GatesJoinable(raw1, raw2, key, selected, showFloat);
      Comparison(Prepared(raw1, "file1", showFloat), Prepared(raw2.value, "file2", showFloat), key, selected)
  }

  /** Lines 106-114: the mismatched merged rows, displayed, dashed where they agree and sorted by first-table row number. */
  method ShowMismatches(t1: Table, t2: Table, key: string, selected: seq<string>, mask: map<string, seq<bool>>)
    returns (report: Table)
    requires Joinable(t1, t2, key, selected) && mask == MaskOf(t1, t2, key, selected)
    ensures report == Shown(t1, t2, key, selected)
  {
    var d := DisplayOf(t1, t2, key, selected);
    DisplayOfShaped(t1, t2, key, selected);
    DashedNumber(t1, t2, key, selected);
    MaskShape(t1.rows, t2.rows, MergedPairs(t1, t2, key), selected);
    forall c | c in selected
      ensures File1(c) in d.columns && File2(c) in d.columns
    {
      DisplayColumnsCopies(key, selected, c);
    }
    var shown := new Frame(d.columns, d.index, d.rows);
    shown.ReplaceMatchesWithDash(mask, selected);
    shown.SortBy(Number1);
    report := Table(shown.columns, shown.index, shown.rows);
  }

  /**
   * The app shows nothing unless both gates are passed; past them, the merge
   * raises exactly when suffixing repeats a name, and otherwise the prepared
   * tables are compared.
   */
  lemma ReconciledGates(raw1: Table, raw2: Option<Table>, key: string, selected: seq<string>, showFloat: real -> string)
    requires Admissible(raw1, raw2, key, selected)
    ensures Reconciled(raw1, raw2, key, selected, showFloat) != Withheld <==>
      FirstGate(raw2, key, selected) && SecondGate(Prepared(raw2.value, "file2", showFloat), key, selected)
    ensures Reconciled(raw1, raw2, key, selected, showFloat) == MergeFailed <==>
      FirstGate(raw2, key, selected) && SecondGate(Prepared(raw2.value, "file2", showFloat), key, selected) &&
      MergeRaises(Prepared(raw1, "file1", showFloat), Prepared(raw2.value, "file2", showFloat), key)
    ensures Reconciled(raw1, raw2, key, selected, showFloat).Compared? ==>
      Joinable(Prepared(raw1, "file1", showFloat), Prepared(raw2.value, "file2", showFloat), key, selected)
  {
    if FirstGate(raw2, key, selected) && SecondGate(Prepared(raw2.value, "file2", showFloat), key, selected)
      && !MergeRaises(Prepared(raw1, "file1", showFloat), Prepared(raw2.value, "file2", showFloat), key)
    {
      GatesJoinable(raw1, raw2, key, selected, showFloat);
    }
  }

  /**
   * The app after both files are loaded: prepare the tables, pass the gates,
   * merge, build the mask, keep the mismatched rows, dash and sort them, and
   * count them.
   */
  method Reconcile(raw1: Table, raw2: Option<Table>, key: string, selected: seq<string>, showFloat: real -> string)
    returns (out: Outcome)
    requires Admissible(raw1, raw2, key, selected)
    ensures out == Reconciled(raw1, raw2, key, selected, showFloat)
  {
    var f1 := Load(raw1, "file1", showFloat);
    if raw2.None? || selected == [] || key == "" {
      return Withheld;
    }
    var f2 := Load(raw2.value, "file2", showFloat);
    if !((forall c :: c in selected ==> c in f2.columns) && key in f2.columns) {
      return Withheld;
    }
    var t1 := Table(f1.columns, f1.index, f1.rows);
    var t2 := Table(f2.columns, f2.index, f2.rows);
    if MergeRaises(t1, t2, key) {
      return MergeFailed;
    }
    GatesJoinable(raw1, raw2, key, selected, showFloat);
    var pairs := JoinPairs(Column(f1.rows, key), Column(f2.rows, key));
    var mask := BuildMask(f1.rows, f2.rows, MergedPairs(t1, t2, key), selected);
    var labels := MismatchLabels(mask, selected, |pairs|);
    assert labels == LabelsOf(t1, t2, key, selected);
    var report: Option<Table> := None;
    if labels != [] {
      var shown := ShowMismatches(t1, t2, key, selected, mask);
      report := Some(shown);
    }
    out := Compared(report, |labels|, Percentage(|labels|, |f1.rows|));
  }
}
