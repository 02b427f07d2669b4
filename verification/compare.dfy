/**
 * The comparison of the merged rows: the mismatch mask, the filter that keeps
 * the rows with at least one mismatch, and the mismatch percentage.
 */
module Compare {
  import opened Cells
  import opened Rows
  import opened Join

  /** Every pair refers to a row of each table. */
  predicate PairsIn(pairs: seq<Pair>, n1: nat, n2: nat) {
    forall p :: 0 <= p < |pairs| ==> pairs[p].0 < n1 && pairs[p].1 < n2
  }

  /** The merge only pairs rows that exist. */
  lemma JoinPairsIn(keys1: seq<Cell>, keys2: seq<Cell>)
    ensures PairsIn(JoinPairs(keys1, keys2), |keys1|, |keys2|)
  {
    var pairs := JoinPairs(keys1, keys2);
    forall p | 0 <= p < |pairs|
      ensures pairs[p].0 < |keys1| && pairs[p].1 < |keys2|
    {
      JoinPairsMembers(keys1, keys2, pairs[p]);
    }
  }

  /** Every row holds each of the columns `cs`. */
  predicate HasColumns(rows: seq<Row>, cs: seq<string>) {
    forall c :: c in cs ==> HasColumn(rows, c)
  }

  /**
   * Line 99 for one column: `is_mismatch` of the first table's copy and the
   * second table's copy of column `c`, merged row by merged row.
   */
  function MaskColumn(rows1: seq<Row>, rows2: seq<Row>, pairs: seq<Pair>, c: string): (r: seq<bool>)
    requires PairsIn(pairs, |rows1|, |rows2|) && HasColumn(rows1, c) && HasColumn(rows2, c)
    ensures |r| == |pairs|
  {
    seq(|pairs|, p requires 0 <= p < |pairs| => IsMismatch(rows1[pairs[p].0][c], rows2[pairs[p].1][c]))
  }

  /** `mismatch_mask`: one column of flags per selected column, one flag per merged row. */
  function Mask(rows1: seq<Row>, rows2: seq<Row>, pairs: seq<Pair>, selected: seq<string>): (m: map<string, seq<bool>>)
    requires PairsIn(pairs, |rows1|, |rows2|) && HasColumns(rows1, selected) && HasColumns(rows2, selected)
  {
    map c | c in selected :: MaskColumn(rows1, rows2, pairs, c)
  }

  /** Reading the mask: merged row `p` mismatches on column `c` exactly when `is_mismatch` says its two copies differ. */
  lemma MaskAt(rows1: seq<Row>, rows2: seq<Row>, pairs: seq<Pair>, selected: seq<string>, c: string, p: nat)
    requires PairsIn(pairs, |rows1|, |rows2|) && HasColumns(rows1, selected) && HasColumns(rows2, selected)
    requires c in selected && p < |pairs|
    ensures c in Mask(rows1, rows2, pairs, selected) && |Mask(rows1, rows2, pairs, selected)[c]| == |pairs|
    ensures Mask(rows1, rows2, pairs, selected)[c][p] == IsMismatch(rows1[pairs[p].0][c], rows2[pairs[p].1][c])
  {
  }

  /** The mask has one column per selected column, one flag per merged row. */
  lemma MaskShape(rows1: seq<Row>, rows2: seq<Row>, pairs: seq<Pair>, selected: seq<string>)
    requires PairsIn(pairs, |rows1|, |rows2|) && HasColumns(rows1, selected) && HasColumns(rows2, selected)
    ensures Mask(rows1, rows2, pairs, selected).Keys == Names(selected)
    ensures forall c :: c in selected ==> |Mask(rows1, rows2, pairs, selected)[c]| == |pairs|
  {
  }

  /** The mask once the first `k` selected columns are filled in; the others are still all `False`. */
  function PartialMask(rows1: seq<Row>, rows2: seq<Row>, pairs: seq<Pair>, selected: seq<string>, k: nat): (m: map<string, seq<bool>>)
    requires PairsIn(pairs, |rows1|, |rows2|) && HasColumns(rows1, selected) && HasColumns(rows2, selected)
    requires k <= |selected|
    ensures m.Keys == Names(selected)
  {
    map c | c in selected :: if c in selected[..k] then MaskColumn(rows1, rows2, pairs, c) else seq(|pairs|, p => false)
  }

  /** Filling in one more column. */
  lemma PartialMaskStep(rows1: seq<Row>, rows2: seq<Row>, pairs: seq<Pair>, selected: seq<string>, k: nat)
    requires PairsIn(pairs, |rows1|, |rows2|) && HasColumns(rows1, selected) && HasColumns(rows2, selected)
    requires k < |selected|
    ensures PartialMask(rows1, rows2, pairs, selected, k)[selected[k] := MaskColumn(rows1, rows2, pairs, selected[k])]
         == PartialMask(rows1, rows2, pairs, selected, k + 1)
  {
    assert selected[..k + 1] == selected[..k] + [selected[k]];
  }

  /** With every column filled in, the partial mask is the mask. */
  lemma PartialMaskDone(rows1: seq<Row>, rows2: seq<Row>, pairs: seq<Pair>, selected: seq<string>)
    requires PairsIn(pairs, |rows1|, |rows2|) && HasColumns(rows1, selected) && HasColumns(rows2, selected)
    ensures PartialMask(rows1, rows2, pairs, selected, |selected|) == Mask(rows1, rows2, pairs, selected)
  {
    assert selected[..|selected|] == selected;
  }

  /**
   * Lines 95-99: the mask starts all `False` and is filled in one selected
   * column at a time.
   */
  method BuildMask(rows1: seq<Row>, rows2: seq<Row>, pairs: seq<Pair>, selected: seq<string>)
    returns (mask: map<string, seq<bool>>)
    requires PairsIn(pairs, |rows1|, |rows2|) && HasColumns(rows1, selected) && HasColumns(rows2, selected)
    ensures mask == Mask(rows1, rows2, pairs, selected)
  {
    var none := seq(|pairs|, p => false);
    mask := map c | c in selected :: none;
    assert mask == PartialMask(rows1, rows2, pairs, selected, 0);
    for k := 0 to |selected|
      invariant mask == PartialMask(rows1, rows2, pairs, selected, k)
    {
      PartialMaskStep(rows1, rows2, pairs, selected, k);
      mask := mask[selected[k] := MaskColumn(rows1, rows2, pairs, selected[k])];
    }
    PartialMaskDone(rows1, rows2, pairs, selected);
  }

  /** `mismatch_mask.any(axis=1)` at merged row `p`. */
  predicate AnyMismatch(mask: map<string, seq<bool>>, selected: seq<string>, p: int) {
    exists c :: c in selected && c in mask && 0 <= p < |mask[c]| && mask[c][p]
  }

  /** The labels of the merged rows `0 .. n - 1` that the filter of line 102 keeps, in order. */
  function MismatchLabels(mask: map<string, seq<bool>>, selected: seq<string>, n: nat): (r: seq<int>)
    ensures |r| <= n
  {
    if n == 0 then []
    else MismatchLabels(mask, selected, n - 1) + (if AnyMismatch(mask, selected, n - 1) then [n - 1] else [])
  }

  /** A merged row is kept exactly when at least one selected column mismatches in it. */
  lemma {:induction false} MismatchLabelsMembers(mask: map<string, seq<bool>>, selected: seq<string>, n: nat, p: int)
    ensures p in MismatchLabels(mask, selected, n) <==> 0 <= p < n && AnyMismatch(mask, selected, p)
  {
    if n > 0 {
      MismatchLabelsMembers(mask, selected, n - 1, p);
    }
  }

  /** The kept rows stay in merged order, each once. */
  lemma {:induction false} MismatchLabelsIncreasing(mask: map<string, seq<bool>>, selected: seq<string>, n: nat)
    ensures forall a, b :: 0 <= a < b < |MismatchLabels(mask, selected, n)| ==>
      MismatchLabels(mask, selected, n)[a] < MismatchLabels(mask, selected, n)[b]
  {
    if n > 0 {
      var prev := MismatchLabels(mask, selected, n - 1);
      MismatchLabelsIncreasing(mask, selected, n - 1);
      forall k | 0 <= k < |prev|
        ensures prev[k] < n - 1
      {
        MismatchLabelsMembers(mask, selected, n - 1, prev[k]);
      }
    }
  }

  /** Line 123: the share of the first table's rows that came out mismatched, in percent. */
  function Percentage(count: nat, total: nat): real {
    if total > 0 then count as real / total as real * 100.0 else 0.0
  }

  /** The percentage is the count scaled to a hundred rows, and zero for an empty first table. */
  lemma PercentageScale(count: nat, total: nat)
    ensures total > 0 ==> Percentage(count, total) * total as real == count as real * 100.0
    ensures total == 0 ==> Percentage(count, total) == 0.0
  {
  }

  /** No more mismatches than rows means no more than a hundred percent. */
  lemma PercentageBound(count: nat, total: nat)
    requires count <= total
    ensures 0.0 <= Percentage(count, total) <= 100.0
  {
    if total > 0 {
      assert count as real / total as real <= 1.0;
    }
  }

  /** More mismatched merged rows than rows in the first table gives more than a hundred percent. */
  lemma PercentageOverHundred(count: nat, total: nat)
    requires 0 < total < count
    ensures Percentage(count, total) > 100.0
  {
    assert count as real / total as real > 1.0;
  }
}
