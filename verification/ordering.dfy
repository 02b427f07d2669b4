/**
 * The order `sort_values` puts rows in: positions rearranged so that their integer
 * keys ascend. Rows with equal keys are kept in their original order here; the
 * sort the report uses makes no promise about them.
 */
module Ordering {

  /** The positions `0 .. n - 1` in order. */
  function Range(n: nat): (r: seq<nat>)
    ensures |r| == n && forall k :: 0 <= k < n ==> r[k] == k
  {
    if n == 0 then [] else Range(n - 1) + [n - 1]
  }

  /** Every position in `order` is a valid position of `keys`. */
  predicate InBounds(order: seq<nat>, n: nat) {
    forall k :: 0 <= k < |order| ==> order[k] < n
  }

  /** The keys read in the order `order` ascend. */
  predicate SortedBy(keys: seq<int>, order: seq<nat>)
    requires InBounds(order, |keys|)
  {
    forall a, b :: 0 <= a < b < |order| ==> keys[order[a]] <= keys[order[b]]
  }

  /** Puts position `p` after every position whose key is at most `keys[p]` and before the rest. */
  function Insert(keys: seq<int>, p: nat, order: seq<nat>): (r: seq<nat>)
    requires p < |keys| && InBounds(order, |keys|)
    ensures |r| == |order| + 1 && InBounds(r, |keys|)
  {
    if order == [] then [p]
    else if keys[p] < keys[order[0]] then [p] + order
    else [order[0]] + Insert(keys, p, order[1..])
  }

  /** The positions `0 .. n - 1` arranged so that their keys ascend. */
  function SortOrder(keys: seq<int>, n: nat): (r: seq<nat>)
    requires n <= |keys|
    ensures |r| == n && InBounds(r, |keys|)
  {
    if n == 0 then [] else Insert(keys, n - 1, SortOrder(keys, n - 1))
  }

  lemma {:induction false} InsertPermutes(keys: seq<int>, p: nat, order: seq<nat>)
    requires p < |keys| && InBounds(order, |keys|)
    ensures multiset(Insert(keys, p, order)) == multiset(order) + multiset{p}
    decreases |order|
  {
    if order != [] && keys[p] >= keys[order[0]] {
      InsertPermutes(keys, p, order[1..]);
      assert order == [order[0]] + order[1..];
    }
  }

  /** Every key in `order` is at least `lo`. */
  predicate KeysAtLeast(keys: seq<int>, order: seq<nat>, lo: int)
    requires InBounds(order, |keys|)
  {
    forall k :: 0 <= k < |order| ==> lo <= keys[order[k]]
  }

  lemma ConsSorted(keys: seq<int>, x: nat, u: seq<nat>)
    requires x < |keys| && InBounds(u, |keys|) && SortedBy(keys, u) && KeysAtLeast(keys, u, keys[x])
    ensures SortedBy(keys, [x] + u)
  {
    var r := [x] + u;
    forall a, b | 0 <= a < b < |r|
      ensures keys[r[a]] <= keys[r[b]]
    {
      assert r[b] == u[b - 1];
      if a > 0 {
        assert r[a] == u[a - 1];
      }
    }
  }

  lemma TailSorted(keys: seq<int>, order: seq<nat>)
    requires order != [] && InBounds(order, |keys|) && SortedBy(keys, order)
    ensures SortedBy(keys, order[1..]) && KeysAtLeast(keys, order[1..], keys[order[0]])
  {
    var t := order[1..];
    forall a, b | 0 <= a < b < |t|
      ensures keys[t[a]] <= keys[t[b]]
    {
      assert t[a] == order[a + 1] && t[b] == order[b + 1];
    }
    forall k | 0 <= k < |t|
      ensures keys[order[0]] <= keys[t[k]]
    {
      assert t[k] == order[k + 1];
    }
  }

  lemma {:induction false} InsertAtLeast(keys: seq<int>, p: nat, order: seq<nat>, lo: int)
    requires p < |keys| && InBounds(order, |keys|)
    requires KeysAtLeast(keys, order, lo) && lo <= keys[p]
    ensures KeysAtLeast(keys, Insert(keys, p, order), lo)
    decreases |order|
  {
    if order != [] && keys[p] >= keys[order[0]] {
      var t := order[1..];
      assert KeysAtLeast(keys, t, lo) by {
        forall k | 0 <= k < |t|
          ensures lo <= keys[t[k]]
        {
          assert t[k] == order[k + 1];
        }
      }
      InsertAtLeast(keys, p, t, lo);
      var r := Insert(keys, p, order);
      forall k | 0 <= k < |r|
        ensures lo <= keys[r[k]]
      {
        if k > 0 {
          assert r[k] == Insert(keys, p, t)[k - 1];
        }
      }
    } else if order != [] {
      var r := Insert(keys, p, order);
      forall k | 0 <= k < |r|
        ensures lo <= keys[r[k]]
      {
        if k > 0 {
          assert r[k] == order[k - 1];
        }
      }
    }
  }

  lemma {:induction false} InsertSorted(keys: seq<int>, p: nat, order: seq<nat>)
    requires p < |keys| && InBounds(order, |keys|) && SortedBy(keys, order)
    ensures SortedBy(keys, Insert(keys, p, order))
    decreases |order|
  {
    if order != [] {
      TailSorted(keys, order);
      var t := order[1..];
      if keys[p] >= keys[order[0]] {
        InsertSorted(keys, p, t);
        InsertAtLeast(keys, p, t, keys[order[0]]);
        ConsSorted(keys, order[0], Insert(keys, p, t));
      } else {
        assert order == [order[0]] + t;
        ConsSorted(keys, p, order);
      }
    }
  }

  /** The sort order lists every position exactly once. */
  lemma {:induction false} SortOrderPermutes(keys: seq<int>, n: nat)
    requires n <= |keys|
    ensures multiset(SortOrder(keys, n)) == multiset(Range(n))
  {
    if n > 0 {
      var prev := SortOrder(keys, n - 1);
      SortOrderPermutes(keys, n - 1);
      InsertPermutes(keys, n - 1, prev);
      assert SortOrder(keys, n) == Insert(keys, n - 1, prev);
      var last: nat := n - 1;
      assert Range(n) == Range(last) + [last];
      assert multiset(Range(n)) == multiset(Range(last)) + multiset{last};
    }
  }

  /** The keys read in the sort order ascend. */
  lemma {:induction false} SortOrderSorted(keys: seq<int>, n: nat)
    requires n <= |keys|
    ensures SortedBy(keys, SortOrder(keys, n))
  {
    if n > 0 {
      SortOrderSorted(keys, n - 1);
      InsertSorted(keys, n - 1, SortOrder(keys, n - 1));
    }
  }

  /** `s` read in the order `order`. */
  function Permuted<T>(s: seq<T>, order: seq<nat>): (r: seq<T>)
    requires InBounds(order, |s|)
    ensures |r| == |order|
  {
    seq(|order|, k requires 0 <= k < |order| => s[order[k]])
  }

  /** Read in an order that lists every position once, a sequence keeps exactly its elements. */
  lemma PermutedMembers<T>(s: seq<T>, order: seq<nat>, x: T)
    requires InBounds(order, |s|) && multiset(order) == multiset(Range(|s|))
    ensures x in Permuted(s, order) <==> x in s
  {
    if x in s {
      var j :| 0 <= j < |s| && s[j] == x;
      assert Range(|s|)[j] == j;
      assert j in multiset(order);
      var k :| 0 <= k < |order| && order[k] == j;
      assert Permuted(s, order)[k] == x;
    }
  }
}
