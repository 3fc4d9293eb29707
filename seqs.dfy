/**
 * Order-preserving filtering and counting, the two list idioms the pipeline
 * uses everywhere (`[e for e in xs if p(e)]` and counters bumped in a loop).
 * Both are defined from the back so that they extend by one element exactly
 * the way a forward loop does.
 */
module Seqs {

  function Filter<T>(s: seq<T>, p: T -> bool): (r: seq<T>)
    ensures |r| <= |s|
  {
    if s == [] then []
    else Filter(s[..|s| - 1], p) + (if p(s[|s| - 1]) then [s[|s| - 1]] else [])
  }

  function CountWhere<T>(s: seq<T>, p: T -> bool): (n: nat)
    ensures n <= |s|
  {
    if s == [] then 0
    else CountWhere(s[..|s| - 1], p) + (if p(s[|s| - 1]) then 1 else 0)
  }

  /** `xs` can be obtained from `ys` by deleting elements, keeping the order of the rest. */
  predicate IsSubsequence<T(==)>(xs: seq<T>, ys: seq<T>)
    decreases |ys|
  {
    if xs == [] then true
    else if ys == [] then false
    else (xs[|xs| - 1] == ys[|ys| - 1] && IsSubsequence(xs[..|xs| - 1], ys[..|ys| - 1]))
         || IsSubsequence(xs, ys[..|ys| - 1])
  }

  /** The filter keeps exactly the elements that satisfy the predicate. */
  lemma {:induction false} FilterMembership<T>(s: seq<T>, p: T -> bool, x: T)
    ensures x in Filter(s, p) <==> x in s && p(x)
  {
    if s != [] {
      FilterMembership(s[..|s| - 1], p, x);
      assert s == s[..|s| - 1] + [s[|s| - 1]];
    }
  }

  /** The filter keeps the elements in their original order. */
  lemma {:induction false} FilterIsSubsequence<T>(s: seq<T>, p: T -> bool)
    ensures IsSubsequence(Filter(s, p), s)
  {
    if s != [] {
      var init := s[..|s| - 1];
      FilterIsSubsequence(init, p);
      var r := Filter(s, p);
      if p(s[|s| - 1]) {
        assert r[..|r| - 1] == Filter(init, p);
      } else {
        assert r == Filter(init, p);
        SubsequenceOfLonger(r, init, s[|s| - 1]);
      }
    }
  }

  lemma {:induction false} SubsequenceOfLonger<T>(xs: seq<T>, ys: seq<T>, y: T)
    requires IsSubsequence(xs, ys)
    ensures IsSubsequence(xs, ys + [y])
  {
    assert (ys + [y])[..|ys|] == ys;
  }

  lemma {:induction false} FilterAppend<T>(a: seq<T>, b: seq<T>, p: T -> bool)
    ensures Filter(a + b, p) == Filter(a, p) + Filter(b, p)
  {
    if b != [] {
      var b' := b[..|b| - 1];
      assert (a + b)[..|a + b| - 1] == a + b';
      FilterAppend(a, b', p);
    } else {
      assert a + b == a;
    }
  }

  /** Counting is the length of the filter. */
  lemma {:induction false} CountIsFilterLength<T>(s: seq<T>, p: T -> bool)
    ensures CountWhere(s, p) == |Filter(s, p)|
  {
    if s != [] {
      CountIsFilterLength(s[..|s| - 1], p);
    }
  }

  /** Extending a prefix by one element extends the count by that element's contribution. */
  lemma CountStep<T>(s: seq<T>, i: nat, p: T -> bool)
    requires i < |s|
    ensures CountWhere(s[..i + 1], p) == CountWhere(s[..i], p) + (if p(s[i]) then 1 else 0)
  {
    assert s[..i + 1][..i] == s[..i];
  }

  lemma FilterStep<T>(s: seq<T>, i: nat, p: T -> bool)
    requires i < |s|
    ensures Filter(s[..i + 1], p) == Filter(s[..i], p) + (if p(s[i]) then [s[i]] else [])
  {
    assert s[..i + 1][..i] == s[..i];
  }
}
