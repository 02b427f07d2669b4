/**
 * The inner merge on the base column: which row of the first table meets which
 * row of the second. A pair `(i, j)` stands for the merged row built from row `i`
 * of the first table and row `j` of the second; the merged table lists them
 * first by `i`, then by `j`.
 */
module Join {
  import opened Cells
  import opened Rows

  type Pair = (nat, nat)

  /** The pairs `(i, j)` for the rows `j` from `from` on whose key is `k`, in row order. */
  function MatchesFrom(i: nat, k: Cell, keys2: seq<Cell>, from: nat): seq<Pair>
    requires from <= |keys2|
    decreases |keys2| - from
  {
    if from == |keys2| then []
    else (if keys2[from] == k then [(i, from)] else []) + MatchesFrom(i, k, keys2, from + 1)
  }

  /** The merged rows contributed by the rows `i` from `from` on of the first table. */
  function JoinFrom(keys1: seq<Cell>, keys2: seq<Cell>, from: nat): seq<Pair>
    requires from <= |keys1|
    decreases |keys1| - from
  {
    if from == |keys1| then [] else MatchesFrom(from, keys1[from], keys2, 0) + JoinFrom(keys1, keys2, from + 1)
  }

  /** `pd.merge(left, right, on=key, how='inner')`, given the key column of each side. */
  function JoinPairs(keys1: seq<Cell>, keys2: seq<Cell>): seq<Pair> {
    JoinFrom(keys1, keys2, 0)
  }

  lemma {:induction false} MatchesFromMembers(i: nat, k: Cell, keys2: seq<Cell>, from: nat, p: Pair)
    requires from <= |keys2|
    ensures p in MatchesFrom(i, k, keys2, from) <==> p.0 == i && from <= p.1 < |keys2| && keys2[p.1] == k
    decreases |keys2| - from
  {
    if from < |keys2| {
      MatchesFromMembers(i, k, keys2, from + 1, p);
    }
  }

  lemma {:induction false} JoinFromMembers(keys1: seq<Cell>, keys2: seq<Cell>, from: nat, p: Pair)
    requires from <= |keys1|
    ensures p in JoinFrom(keys1, keys2, from) <==> from <= p.0 < |keys1| && p.1 < |keys2| && keys1[p.0] == keys2[p.1]
    decreases |keys1| - from
  {
    if from < |keys1| {
      MatchesFromMembers(from, keys1[from], keys2, 0, p);
      JoinFromMembers(keys1, keys2, from + 1, p);
    }
  }

  /** The merge holds exactly the pairs of rows whose keys are equal. */
  lemma JoinPairsMembers(keys1: seq<Cell>, keys2: seq<Cell>, p: Pair)
    ensures p in JoinPairs(keys1, keys2) <==> p.0 < |keys1| && p.1 < |keys2| && keys1[p.0] == keys2[p.1]
  {
    JoinFromMembers(keys1, keys2, 0, p);
  }

  /** `p` comes before `q`: by the first table's row, then by the second's. */
  predicate Before(p: Pair, q: Pair) {
    p.0 < q.0 || (p.0 == q.0 && p.1 < q.1)
  }

  predicate Increasing(ps: seq<Pair>) {
    forall a, b :: 0 <= a < b < |ps| ==> Before(ps[a], ps[b])
  }

  lemma IncreasingAppend(xs: seq<Pair>, ys: seq<Pair>)
    requires Increasing(xs) && Increasing(ys)
    requires forall x, y :: x in xs && y in ys ==> Before(x, y)
    ensures Increasing(xs + ys)
  {
    var zs := xs + ys;
    forall a, b | 0 <= a < b < |zs|
      ensures Before(zs[a], zs[b])
    {
      if b < |xs| {
        assert zs[a] == xs[a] && zs[b] == xs[b];
      } else if a >= |xs| {
        assert zs[a] == ys[a - |xs|] && zs[b] == ys[b - |xs|];
      } else {
        assert zs[a] in xs && zs[b] in ys;
      }
    }
  }

  lemma {:induction false} MatchesFromIncreasing(i: nat, k: Cell, keys2: seq<Cell>, from: nat)
    requires from <= |keys2|
    ensures Increasing(MatchesFrom(i, k, keys2, from))
    decreases |keys2| - from
  {
    if from < |keys2| {
      MatchesFromIncreasing(i, k, keys2, from + 1);
      forall y | y in MatchesFrom(i, k, keys2, from + 1)
        ensures Before((i, from), y)
      {
        MatchesFromMembers(i, k, keys2, from + 1, y);
      }
      IncreasingAppend(if keys2[from] == k then [(i, from)] else [], MatchesFrom(i, k, keys2, from + 1));
    }
  }

  lemma {:induction false} JoinFromIncreasing(keys1: seq<Cell>, keys2: seq<Cell>, from: nat)
    requires from <= |keys1|
    ensures Increasing(JoinFrom(keys1, keys2, from))
    decreases |keys1| - from
  {
    if from < |keys1| {
      var head := MatchesFrom(from, keys1[from], keys2, 0);
      var rest := JoinFrom(keys1, keys2, from + 1);
      MatchesFromIncreasing(from, keys1[from], keys2, 0);
      JoinFromIncreasing(keys1, keys2, from + 1);
      forall x, y | x in head && y in rest
        ensures Before(x, y)
      {
        MatchesFromMembers(from, keys1[from], keys2, 0, x);
        JoinFromMembers(keys1, keys2, from + 1, y);
      }
      IncreasingAppend(head, rest);
    }
  }

  /** The merged rows come in the order of the first table, and no pair of rows is merged twice. */
  lemma JoinPairsIncreasing(keys1: seq<Cell>, keys2: seq<Cell>)
    ensures Increasing(JoinPairs(keys1, keys2))
    ensures Distinct(JoinPairs(keys1, keys2))
  {
    JoinFromIncreasing(keys1, keys2, 0);
  }

  lemma {:induction false} MatchesFromUnique(i: nat, k: Cell, keys2: seq<Cell>, from: nat)
    requires from <= |keys2| && Distinct(keys2)
    ensures |MatchesFrom(i, k, keys2, from)| <= 1
    decreases |keys2| - from
  {
    if from < |keys2| {
      MatchesFromUnique(i, k, keys2, from + 1);
      if keys2[from] == k && MatchesFrom(i, k, keys2, from + 1) != [] {
        var p := MatchesFrom(i, k, keys2, from + 1)[0];
        MatchesFromMembers(i, k, keys2, from + 1, p);
        assert keys2[from] == keys2[p.1];
      }
    }
  }

  lemma {:induction false} JoinFromUnique(keys1: seq<Cell>, keys2: seq<Cell>, from: nat)
    requires from <= |keys1| && Distinct(keys2)
    ensures |JoinFrom(keys1, keys2, from)| <= |keys1| - from
    decreases |keys1| - from
  {
    if from < |keys1| {
      MatchesFromUnique(from, keys1[from], keys2, 0);
      JoinFromUnique(keys1, keys2, from + 1);
    }
  }

  /** When no key repeats in the second table, the merge has at most as many rows as the first table. */
  lemma JoinPairsUnique(keys1: seq<Cell>, keys2: seq<Cell>)
    requires Distinct(keys2)
    ensures |JoinPairs(keys1, keys2)| <= |keys1|
  {
    JoinFromUnique(keys1, keys2, 0);
  }

  /** A repeated key in the second table gives one row of the first table two merged rows. */
  lemma JoinPairsRepeated(k: Cell)
    ensures JoinPairs([k], [k, k]) == [(0, 0), (0, 1)]
  {
    assert MatchesFrom(0, k, [k, k], 2) == [];
    assert MatchesFrom(0, k, [k, k], 1) == [(0, 1)];
    assert MatchesFrom(0, k, [k, k], 0) == [(0, 0), (0, 1)];
    assert JoinFrom([k], [k, k], 1) == [];
  }
}
