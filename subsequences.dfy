/**
 * Order-keeping sublists: what a `filter` over a list, or a reduce that only
 * ever keeps or skips each element, leaves of that list.
 */
module Subsequences {

  /** `xs` is `ys` with some elements left out, order kept. */
  predicate IsSubsequence<T(==)>(xs: seq<T>, ys: seq<T>)
  {
    if xs == [] then true
    else if ys == [] then false
    else if xs[|xs| - 1] == ys[|ys| - 1] then IsSubsequence(xs[..|xs| - 1], ys[..|ys| - 1])
    else IsSubsequence(xs, ys[..|ys| - 1])
  }

  /** A subsequence of `ys` is a subsequence of `ys` with one more element at the end. */
  lemma {:induction false} SubsequenceExtend<T>(xs: seq<T>, ys: seq<T>, y: T)
    requires IsSubsequence(xs, ys)
    ensures IsSubsequence(xs, ys + [y])
    decreases |xs| + |ys|, 1
  {
    assert (ys + [y])[..|ys|] == ys;
    if xs != [] && xs[|xs| - 1] == y {
      SubsequenceDropLast(xs, ys);
    }
  }

  /** Leaving out the last element of a subsequence gives a subsequence. */
  lemma {:induction false} SubsequenceDropLast<T>(xs: seq<T>, ys: seq<T>)
    requires xs != [] && IsSubsequence(xs, ys)
    ensures IsSubsequence(xs[..|xs| - 1], ys)
    decreases |xs| + |ys|, 0
  {
    if ys != [] {
      if xs[|xs| - 1] == ys[|ys| - 1] {
        SubsequenceExtend(xs[..|xs| - 1], ys[..|ys| - 1], ys[|ys| - 1]);
        assert ys[..|ys| - 1] + [ys[|ys| - 1]] == ys;
      } else {
        SubsequenceDropLast(xs, ys[..|ys| - 1]);
        SubsequenceExtend(xs[..|xs| - 1], ys[..|ys| - 1], ys[|ys| - 1]);
        assert ys[..|ys| - 1] + [ys[|ys| - 1]] == ys;
      }
    }
  }

  /** An element put in front of `ys` may be skipped, or kept in front of the subsequence. */
  lemma {:induction false} SubsequencePrepend<T>(y: T, xs: seq<T>, ys: seq<T>)
    requires IsSubsequence(xs, ys)
    ensures IsSubsequence(xs, [y] + ys)
    ensures IsSubsequence([y] + xs, [y] + ys)
    decreases |xs| + |ys|
  {
    if ys == [] {
      assert xs == [];
      assert ([y] + xs)[..0] == [];
    } else {
      var ys' := ys[..|ys| - 1];
      assert ([y] + ys)[..|ys|] == [y] + ys';
      if xs == [] {
        SubsequencePrepend(y, xs, ys');
        assert [y] + xs == [y];
      } else {
        var xs' := xs[..|xs| - 1];
        assert ([y] + xs)[..|xs|] == [y] + xs';
        if xs[|xs| - 1] == ys[|ys| - 1] {
          SubsequencePrepend(y, xs', ys');
        } else {
          SubsequencePrepend(y, xs, ys');
        }
      }
    }
  }
}
