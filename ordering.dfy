/**
 * The `order(column, { ascending })` clause of the remote store's select queries.
 * The store is external; this module gives one concrete ordering (a stable
 * insertion sort) and proves the two facts every caller relies on: the result is
 * ordered by the key, and it holds exactly the rows of the table.
 * A descending order is an ascending order on the negated key.
 */
module Ordering {

  /** `xs` is in ascending order of `key`. */
  predicate SortedBy<T>(xs: seq<T>, key: T -> int)
  {
    forall i, j :: 0 <= i < j < |xs| ==> key(xs[i]) <= key(xs[j])
  }

  /** Inserts `x` before the first element whose key is not smaller. */
  function InsertBy<T>(x: T, xs: seq<T>, key: T -> int): (r: seq<T>)
    requires SortedBy(xs, key)
    ensures SortedBy(r, key)
    ensures multiset(r) == multiset(xs) + multiset{x}
  {
    if xs == [] || key(x) <= key(xs[0]) then
      PrependKeepsSorted(x, xs, key);
      [x] + xs
    else
      assert xs == [xs[0]] + xs[1..];
      var rest := InsertBy(x, xs[1..], key);
      var others := xs[1..] + [x];
      assert forall k :: 0 <= k < |others| ==> key(xs[0]) <= key(others[k]) by {
        forall k | 0 <= k < |others| ensures key(xs[0]) <= key(others[k]) {
          if k < |xs| - 1 { assert others[k] == xs[k + 1]; }
        }
      }
      BoundByContents(rest, others, key, key(xs[0]));
      PrependKeepsSorted(xs[0], rest, key);
      [xs[0]] + rest
  }

  /** An element no larger than the first of a sorted sequence can go in front of it. */
  lemma PrependKeepsSorted<T>(x: T, xs: seq<T>, key: T -> int)
    requires SortedBy(xs, key)
    requires forall k :: 0 <= k < |xs| ==> key(x) <= key(xs[k])
    ensures SortedBy([x] + xs, key)
  {
    forall i, j | 0 <= i < j < |xs| + 1 ensures key(([x] + xs)[i]) <= key(([x] + xs)[j]) {
      assert ([x] + xs)[j] == xs[j - 1];
      if i > 0 { assert ([x] + xs)[i] == xs[i - 1]; }
    }
  }

  /** A lower bound on the keys of `zs` bounds the keys of any rearrangement of `zs`. */
  lemma BoundByContents<T>(ys: seq<T>, zs: seq<T>, key: T -> int, b: int)
    requires multiset(ys) == multiset(zs)
    requires forall k :: 0 <= k < |zs| ==> b <= key(zs[k])
    ensures forall k :: 0 <= k < |ys| ==> b <= key(ys[k])
  {
    forall k | 0 <= k < |ys| ensures b <= key(ys[k]) {
      assert ys[k] in multiset(zs);
      var m :| 0 <= m < |zs| && zs[m] == ys[k];
    }
  }

  /** The rows of `xs`, reordered into ascending order of `key`. */
  function SortBy<T>(xs: seq<T>, key: T -> int): (r: seq<T>)
    ensures SortedBy(r, key)
    ensures multiset(r) == multiset(xs)
  {
    if xs == [] then []
    else
      assert xs == [xs[0]] + xs[1..];
      InsertBy(xs[0], SortBy(xs[1..], key), key)
  }
}
