# Excel Data Checker: the reconciliation pipeline in Dafny

The Data Checker is a small Streamlit app. It compares two tables (Excel or CSV files).

1. It loads the first table, cleans it (`clean_data`) and numbers its rows (`add_row_number`). The user then picks a base column and the columns to compare.
2. It loads the second table and prepares it the same way.
3. Two gates apply: a second file and a selection must exist (line 77), and the second table must hold the base and selected columns (line 87). If a gate fails, nothing is compared.
4. The app inner-merges the tables on the base column. The merged copies of each shared column get `_file1` and `_file2` suffixes.
5. For each selected column, `is_mismatch` compares the two copies in every merged row. This gives a mismatch mask.
6. The app keeps the merged rows with at least one mismatch. It projects them onto a fixed column order and replaces the agreeing copies with `-`. It then sorts by the first table's row number.
7. It reports the mismatch count and the mismatch percentage.

This project models that pipeline and proves what each step promises.

| file | module | contents |
|---|---|---|
| `wrappers.dfy` | `Wrappers` | `Option` |
| `whitespace.dfy` | `Whitespace` | `str.strip()`, `re.sub(r'\s+', ' ', s)` and `clean_string` on strings |
| `numbers.dfy` | `Numbers` | `str` of an integer; `float()` on decimal literals; `round(x, 8)` as half-even rounding over the reals |
| `cells.dfy` | `Cells` | the cell variant `Missing \| Text \| Int \| Float`; `clean_string` on any value; `is_mismatch` |
| `rows.dfy` | `Rows` | rows as maps from column name to cell; table shape |
| `cleaning.dfy` | `Cleaning` | `clean_data`, step by step, and what it makes of each cell |
| `ordering.dfy` | `Ordering` | a sort order by integer keys: a permutation, ascending |
| `tables.dfy` | `Tables` | the `Frame` class (a DataFrame changed in place), with `Clean`, `AddRowNumber`, `ReplaceMatchesWithDash` and `SortBy` |
| `join.dfy` | `Join` | the inner merge as pairs of row positions |
| `compare.dfy` | `Compare` | the mask, the filter and the percentage |
| `report.dfy` | `Report` | loading, the gates, the display, the whole run (`Reconcile`), and end-to-end properties |

Modelling choices:
- A cell is `Missing` (NaN), `Text`, `Int` or `Float`. A float is an exact real.
- How `str` writes a non-integral float is the parameter `showFloat`.
- Number parsing is a concrete `float()` on decimal literals: sign, digits, point, exponent.
- A table is a list of column names, a list of index labels and one row per label. A row is a map from column name to cell.
- The merged table is represented by the pairs `(i, j)` of the first and second table's rows whose base values are equal. The pairs are in nested-loop order.
- The mask is read by merged-row label, as `df.loc[~mask[col], …]` aligns it.

In these points the model follows the code rather than the intended design:
- Missing cells become `0` (`fillna(0)`, line 14). There is no dash or "missing key" marker, and no key-validity filtering.
- `clean_data` only strips strings. Inner whitespace runs are collapsed only inside `is_mismatch`.
- A float column whose floats are not all whole numbers keeps its floats. A missing cell there becomes `str(0.0)`, not `0`, because pandas re-infers one dtype for the whole column.
- Row numbers are the index label plus one, which is `1..n` only for a freshly loaded table (`Tables.NumberedFromOne`).
- The percentage divides merged mismatched rows by the first table's rows. It can exceed 100 when base values repeat in the second table: a repeated base value yields more merged rows than first-table rows (`Join.JoinPairsRepeated`), and a count above the total gives a percentage above 100 (`Compare.PercentageOverHundred`).
- `str` keeps the sign of a zero, so `-0.0` and `0.0` are a mismatch, and so are a small negative value that rounds to zero and `0` (`Cells.ExampleNegativeZero`, `Cells.ExampleRoundsToNegativeZero`).
- The merge raises `MergeError` when a suffixed copy of any shared column, selected or not, repeats a column name on its own side. Before suffixing, the merge drops one base column: the second table's when the first table has rows, the first table's when it has none. So a copy named like the base column raises on the side that keeps its base column (`Report.CopyNamedLikeKey`). The model ends in `MergeFailed` there (`Report.ReconciledGates`).

## Model

| member | source | states |
|---|---|---|
| Whitespace.StripBounds | streamlit_app.py:13 | `strip()` removes only whitespace at the two ends, and the result has no whitespace at either end |
| Whitespace.StripIdempotent | streamlit_app.py:13 | stripping twice equals stripping once |
| Whitespace.CollapseSingleSpaced | streamlit_app.py:23 | after `re.sub(r'\s+', ' ', …)` every whitespace character is a single plain space |
| Whitespace.CleanStringIsClean | streamlit_app.py:21-24 | `clean_string` output has no edge whitespace and no run of two whitespace characters |
| Whitespace.CleanStringKeepsNonSpace | streamlit_app.py:21-24 | `clean_string` keeps every non-whitespace character, in order |
| Whitespace.CleanStringOfClean | streamlit_app.py:21-24 | a string already clean is returned unchanged |
| Whitespace.CleanStringIdempotent | streamlit_app.py:21-24 | applying `clean_string` twice equals applying it once |
| Whitespace.CleanStringRunLength | streamlit_app.py:23 | any whitespace run counts as one space |
| Whitespace.CleanStringLeadingSpace | streamlit_app.py:23 | leading whitespace does not change the result |
| Whitespace.CleanStringTrailingSpace | streamlit_app.py:23 | trailing whitespace does not change the result |
| Numbers.NatToStringValue | streamlit_app.py:17 | the digits `str` writes for a natural number read back as that number |
| Numbers.ParseIntToString | streamlit_app.py:30-31 | `float(str(i)) == i` for every integer |
| Numbers.ParseDecimal | streamlit_app.py:30 | `float()` reads `digits.digits` as its decimal value |
| Numbers.ParseNumRejects | streamlit_app.py:29-33 | a character outside digits, signs, `.`, `e` and `E` makes `float()` fail (`ValueError`) |
| Numbers.Round8Error | streamlit_app.py:31 | `round(x, 8)` moves x by at most half a unit of the eighth decimal |
| Numbers.Round8Idempotent | streamlit_app.py:31 | rounding a rounded value changes nothing |
| Numbers.Round8OfInt | streamlit_app.py:31 | integers are not moved by rounding |
| Numbers.Round8Monotone | streamlit_app.py:31 | rounding preserves order |
| Cells.CleanValueShape | streamlit_app.py:21-24 | on a string the result is clean and keeps the other characters; any other value is returned unchanged |
| Cells.CleanValueIdempotent | streamlit_app.py:21-24 | `clean_string` of any value is idempotent |
| Cells.AgreementIsEquivalence | streamlit_app.py:27-39 | `is_mismatch(v, v)` is false; `is_mismatch` is symmetric; agreement is transitive |
| Cells.MismatchOfTexts | streamlit_app.py:28-39 | on two strings: both numeric, a mismatch exactly when the rounded values differ or both round to zero and only one has a minus sign; neither numeric, compare cleaned strings; exactly one numeric, always a mismatch |
| Cells.MismatchIgnoresRunLength | streamlit_app.py:28 | a whitespace run of any length agrees with a single space |
| Cells.MismatchIgnoresEdgeSpace | streamlit_app.py:28 | edge whitespace never causes a mismatch |
| Cells.MismatchOfDifferentText | streamlit_app.py:39 | non-numeric strings whose non-whitespace characters differ are a mismatch |
| Cells.NumbersWithinRounding | streamlit_app.py:29-39 | two numeric values mismatch exactly when their 8-decimal roundings differ, or both round to zero and only one carries a minus sign |
| Cells.IntAgreesWithItsText | streamlit_app.py:30-39 | an integer agrees with its decimal text |
| Cells.ExampleThree | streamlit_app.py:29-39 | "3" and "3.0" agree |
| Cells.ExampleThirty | streamlit_app.py:29-39 | "30" and "30.0" agree |
| Cells.ExampleNinthDecimal | streamlit_app.py:31-36 | "1.000000001" and "1.000000002" agree |
| Cells.ExampleEighthDecimal | streamlit_app.py:31-39 | "1.00000001" and "1.00000002" mismatch |
| Cells.ExampleDifferentText | streamlit_app.py:39 | "abc" and "abd" mismatch |
| Cells.ExampleTrailingSpace | streamlit_app.py:28 | "abc" and "abc " agree |
| Cells.ExampleInnerRun | streamlit_app.py:28 | "a   b" and "a b" agree |
| Cells.ExampleCase | streamlit_app.py:39 | "Alice" and "alice " mismatch: the comparison is case-sensitive |
| Cells.ExampleNegativeZero | streamlit_app.py:29-39 | "-0.0" and "0.0" mismatch: `str` writes the rounded values as `-0.0` and `0.0` |
| Cells.ExampleRoundsToNegativeZero | streamlit_app.py:29-39 | "-0.000000001" and "0" mismatch: the first rounds to `-0.0` |
| Cleaning.MapCells | streamlit_app.py:13 | an elementwise map keeps every row and column, and applies the function to each cell |
| Cleaning.FloatColumns | streamlit_app.py:15 | `select_dtypes(include=['float'])` lists exactly the columns whose cells are all floats or missing |
| Cleaning.ConvertColumns | streamlit_app.py:15-16 | the loop over float columns gives `Converted` for all of them |
| Cleaning.ConvertStep | streamlit_app.py:16 | converting one more column extends the converted set by that column |
| Cleaning.StepsClean | streamlit_app.py:12-18 | strip, `fillna(0)`, the conversion and `astype(str)`, in that order, give `Cleaned` |
| Cleaning.CleanedAt | streamlit_app.py:12-18 | each cleaned cell is `CleanCell` of the cell, its column's float-ness and whole-number-ness |
| Cleaning.CleanedString | streamlit_app.py:13-17 | a string is stripped and otherwise kept |
| Cleaning.CleanedInt | streamlit_app.py:17 | an integer is written in decimal, which reads back as the integer |
| Cleaning.CleanedMissing | streamlit_app.py:14-17 | a missing cell becomes "0", or `str(0.0)` in a float column that keeps its floats; no missing cell remains |
| Cleaning.CleanedWholeText | streamlit_app.py:15-17 | in a float column of whole numbers a float is written as an integer |
| Cleaning.CleanedWholeFloat | streamlit_app.py:15-17 | that integer text reads back as the same number |
| Cleaning.CleanedFraction | streamlit_app.py:15-17 | any other float is written by `str` of the float |
| Cleaning.CleanedNoEdgeSpace | streamlit_app.py:12-18 | every cleaned cell is text with no edge whitespace |
| Cleaning.CleanedOfClean | streamlit_app.py:13 | a string without edge whitespace is kept as is |
| Cleaning.CleanedIdempotent | streamlit_app.py:12-18 | cleaning a cleaned table changes nothing |
| Tables.Frame.Clean | streamlit_app.py:12-18 | the frame's rows become `Cleaned` of the old rows; columns and labels are kept |
| Tables.Frame.AddRowNumber | streamlit_app.py:48-50 | the new column holds label + 1 in every row; every other cell is unchanged; the column is appended once |
| Tables.NumberedFromOne | streamlit_app.py:48-50 | on a table labelled `0..n-1`, as a freshly loaded one is, the row numbers are `1..n` in row order |
| Tables.Frame.ReplaceMatchesWithDash | streamlit_app.py:42-45 | the column loop produces `Dashed`: both copies of a selected column become `-` where the mask is false |
| Tables.DashStep | streamlit_app.py:43-44 | one iteration dashes one more selected column |
| Tables.DashedCopies | streamlit_app.py:44 | a copy of a selected column is `-` exactly where the mask is false for that column, and is unchanged otherwise |
| Tables.DashedOther | streamlit_app.py:44 | a column that is not a copy of a selected column is unchanged |
| Tables.DashedIdempotent | streamlit_app.py:42-45 | dashing twice equals dashing once |
| Tables.CopiesDistinct | streamlit_app.py:44 | the `_file1` and `_file2` names of distinct columns are distinct, and never equal to each other |
| Tables.Frame.SortBy | streamlit_app.py:114 | rows and labels are rearranged together by `SortRows` |
| Tables.SortRowsAscend | streamlit_app.py:114 | after sorting, the key column ascends |
| Tables.SortRowsKeep | streamlit_app.py:114 | sorting is a permutation that keeps each label with its row |
| Ordering.SortOrderPermutes | streamlit_app.py:114 | the sort order is a permutation of the positions |
| Ordering.SortOrderSorted | streamlit_app.py:114 | the sort order ascends by key |
| Join.JoinPairsMembers | streamlit_app.py:92 | the merge holds exactly the row pairs whose base values are equal |
| Join.JoinPairsIncreasing | streamlit_app.py:92 | merged rows are ordered by first-table row, then second-table row, with no pair twice |
| Join.JoinPairsUnique | streamlit_app.py:92 | when base values do not repeat in the second table, the merge has at most as many rows as the first table |
| Join.JoinPairsRepeated | streamlit_app.py:92 | a repeated base value gives one first-table row two merged rows |
| Compare.MaskAt | streamlit_app.py:99 | the mask at row p and column c is `is_mismatch` of the two copies of c in merged row p |
| Compare.MaskShape | streamlit_app.py:95 | one mask column per selected column, one flag per merged row |
| Compare.BuildMask | streamlit_app.py:95-99 | starting from all `False` and filling the columns one by one gives `Mask` |
| Compare.PartialMaskStep | streamlit_app.py:98-99 | one iteration fills in one more column |
| Compare.MismatchLabelsMembers | streamlit_app.py:102 | a merged row is kept exactly when one of its mask flags is true |
| Compare.MismatchLabelsIncreasing | streamlit_app.py:102 | kept rows stay in merged order, each once |
| Compare.PercentageScale | streamlit_app.py:121-123 | percentage × total = count × 100, and 0 for an empty first table |
| Compare.PercentageBound | streamlit_app.py:123 | no more mismatches than rows means a percentage between 0 and 100 |
| Compare.PercentageOverHundred | streamlit_app.py:123 | more mismatched merged rows than first-table rows means more than 100 |
| Report.PreparedCells | streamlit_app.py:61-64 | a loaded table is well formed; its row number is label + 1; every other cell is the cleaned cell |
| Report.Load | streamlit_app.py:60-64 | cleaning then numbering a frame gives `Prepared` |
| Report.DisplayColumnsFixed | streamlit_app.py:107 | the base column and both row numbers are displayed |
| Report.DisplayColumnsCopies | streamlit_app.py:107 | both copies of every selected column are displayed |
| Report.DisplayRowFixed | streamlit_app.py:92-108 | a displayed row's base column and row numbers come from their own tables' rows |
| Report.DisplayRowCopies | streamlit_app.py:92-108 | `c_file1` holds the first table's c and `c_file2` the second table's |
| Report.GatesJoinable | streamlit_app.py:77-92 | past both gates and a merge that does not raise, the prepared tables have the base and selected columns and integer row numbers, and no shown name is taken twice |
| Report.AnyMismatchOf | streamlit_app.py:99-102 | `mask.any(axis=1)` holds exactly when some selected column mismatches in that merged row |
| Report.LabelsOfMembers | streamlit_app.py:102 | the kept labels are exactly the mismatched merged rows, in increasing order |
| Report.ShownLabels | streamlit_app.py:102-114 | the shown table's labels are exactly the mismatched merged rows |
| Report.ShownCopies | streamlit_app.py:42-114 | in each shown row, both copies of a selected column are `-` where the tables agree and hold their own values where they do not |
| Report.ShownFixed | streamlit_app.py:107-114 | shown columns are ordered base, `row_number_file2`, the `_file2` copies, `row_number_file1`, the `_file1` copies; base column and row numbers are never dashed |
| Report.ShownSorted | streamlit_app.py:114 | shown rows ascend by `row_number_file1` |
| Report.ComparisonReport | streamlit_app.py:102-118 | nothing is shown exactly when no merged row mismatches |
| Report.ComparisonCount | streamlit_app.py:121-123 | count = number of mismatched merged rows; percentage = `Percentage(count, rows)`; 0 for an empty first table; at most 100 when base values do not repeat in the second table |
| Report.ShowMismatches | streamlit_app.py:106-114 | projecting, dashing and sorting through `Frame` gives `Shown` |
| Report.ReconciledGates | streamlit_app.py:77-92 | a result is produced exactly when both gates pass; past them the merge fails exactly when a suffixed name repeats a name on its own side (`MergeRaises`), and a comparison is made on joinable tables |
| Report.CopyNamedLikeKey | streamlit_app.py:92 | a shared column's copy named like the base column makes the merge raise: `c_file1` when the first table has rows, `c_file2` when it has none |
| Report.Reconcile | streamlit_app.py:60-123 | the whole run (load, gates, merge or `MergeError`, mask, filter, display, dash, sort, count) gives `Reconciled` |

## Left out

- The Streamlit page is not modelled: titles, uploaders, select boxes, spinners, `time.sleep`, `st.dataframe`, `st.metric`, `st.progress` and the Styler option on line 7. The selections are parameters of `Reconcile`. `st.progress` with a percentage above 100 is not modelled.
- File reading (`pd.read_excel`, `pd.read_csv` and the extension test) is not modelled. A loaded table is an input.
- Binary floating point is not modelled. Floats are exact reals and `str` of a non-integral float is the parameter `showFloat`. A float cell holding `-0.0` cannot be written, since the reals have one zero; the sign of a zero that `float()` reads from text or that rounding produces is modelled. Infinities, `int(inf)` overflow and NaN as a float value are not modelled; `Missing` stands for NaN.
- Numbers.ParseNum: `float()` also accepts the decimal digits of other scripts (Unicode category Nd, such as the full-width digits U+FF10 to U+FF19 or the Arabic-Indic digits U+0660 to U+0669) and reads each as its value; the model accepts only `0` to `9`. A number written in such digits is text here, so `Numbers.ParseNumRejects` and `Cells.MismatchOfTexts` treat it as not numeric, and the model reports a mismatch where the program may find agreement (the full-width digits for `12` against the text `12`).
- `float()` accepts only decimal literals here. `inf`, `nan`, `infinity`, digit-group underscores and surrounding whitespace inside `float()` are not modelled. `clean_string` has already removed edge whitespace before `float()` sees a value.
- `round(x, 8)` is exact half-even rounding over the reals, not Python's correctly rounded binary result.
- Report.ComparisonCount: the percentage is an exact real; the `:.2f` formatting is not modelled.
- Report.Admissible: `Reconcile` requires the inputs the model covers. A `MergeError` at line 92 is modelled (`MergeFailed`). Excluded instead are: a base column or selected column the select boxes do not offer; the base column among the selected ones (line 99 then looks up a `_file1` copy that the merge does not make, which raises `KeyError` unless another column has that name); a table that already holds the other table's row-number column (the merge suffixes it, so line 107 raises `KeyError` once a mismatched row is shown, while a run without mismatches completes); a suffixed copy of a selected column that meets an unsuffixed column of the same name from the other table; and a suffixed copy of a shared column that is named like the base column on the side whose base column the merge keeps without raising (`c_file2` of any shared column when the first table has rows; `c_file1` of a selected column when it has none, where line 99 would then read two columns). In these cases the merged table has two columns of one name, which the model does not represent.
- Columns that are neither the base nor selected but occur in both tables also get suffixes in the merge. They are not displayed, so the model does not build them; it only checks whether their suffixes make the merge raise (`MergeRaises`). A copy of such a column named like the base column would be displayed beside the base column; `Report.Admissible` excludes that when the first table has rows. When it has none, no row is shown and the run does not read that column.
- The merge's row order is nested-loop order. The shown table is sorted by `row_number_file1` afterwards, so only the order among ties depends on the merge order.
- Tables.Frame.SortBy: `sort_values` uses an unstable sort. The order of rows with equal row numbers is the model's own; only ascending order and the permutation are stated.
- Boolean, date and other cell types, and pandas dtype inference beyond the float-column rule, are not modelled.
- The select boxes are parameters. A base column named by the empty string fails the truth test on line 77, as `FirstGate` states; the box itself always offers at least `row_number_file1`.
