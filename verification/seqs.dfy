/** Order-preserving filtering and the sequence relations used to describe it. */
module Seqs {

  /** `xs` can be obtained from `ys` by deleting elements; relative order is kept. */
  ghost predicate IsSubsequence<T>(xs: seq<T>, ys: seq<T>)
    decreases |ys|
  {
    if |xs| == 0 then true
    else if |ys| == 0 then false
    else (xs[0] == ys[0] && IsSubsequence(xs[1..], ys[1..])) || IsSubsequence(xs, ys[1..])
  }

  /** No element occurs twice. */
  predicate NoDuplicates<T(==)>(xs: seq<T>) {
    forall i, j :: 0 <= i < j < |xs| ==> xs[i] != xs[j]
  }

  /** The elements of `xs` satisfying `p`, in their original order
      (a Python list comprehension with an `if` clause). */
  function Filter<T(==)>(xs: seq<T>, p: T -> bool): (r: seq<T>)
    ensures |r| <= |xs|
    ensures forall i :: 0 <= i < |r| ==> r[i] in xs && p(r[i])
    ensures forall i :: 0 <= i < |xs| && p(xs[i]) ==> xs[i] in r
    ensures IsSubsequence(r, xs)
    decreases |xs|
  {
    if |xs| == 0 then []
    else if p(xs[0]) then [xs[0]] + Filter(xs[1..], p)
    else Filter(xs[1..], p)
  }

  /** The elements of `xs` whose flag in `keep` is set. */
  function Select<T>(xs: seq<T>, keep: seq<bool>): seq<T>
    requires |keep| == |xs|
    decreases |xs|
  {
    if |xs| == 0 then []
    else (if keep[0] then [xs[0]] else []) + Select(xs[1..], keep[1..])
  }

  /** Filtering is selecting the elements whose predicate holds. */
  lemma {:induction false} FilterBySelection<T>(xs: seq<T>, p: T -> bool, keep: seq<bool>)
    requires |keep| == |xs|
    requires forall i :: 0 <= i < |xs| ==> p(xs[i]) == keep[i]
    ensures Filter(xs, p) == Select(xs, keep)
    decreases |xs|
  {
    if |xs| > 0 {
      FilterBySelection(xs[1..], p, keep[1..]);
    }
  }

  /** Filtering distributes over concatenation. */
  lemma {:induction false} FilterConcat<T>(a: seq<T>, b: seq<T>, p: T -> bool)
    ensures Filter(a + b, p) == Filter(a, p) + Filter(b, p)
    decreases |a|
  {
    if |a| == 0 {
      assert a + b == b;
    } else {
      assert (a + b)[1..] == a[1..] + b;
      FilterConcat(a[1..], b, p);
    }
  }

  /** When every element passes, filtering changes nothing. */
  lemma {:induction false} FilterAllPass<T>(xs: seq<T>, p: T -> bool)
    requires forall i :: 0 <= i < |xs| ==> p(xs[i])
    ensures Filter(xs, p) == xs
    decreases |xs|
  {
    if |xs| > 0 {
      FilterAllPass(xs[1..], p);
    }
  }

  /** Filtering twice with the same predicate is filtering once. */
  lemma FilterIdempotent<T>(xs: seq<T>, p: T -> bool)
    ensures Filter(Filter(xs, p), p) == Filter(xs, p)
  {
    var r := Filter(xs, p);
    forall i | 0 <= i < |r|
      ensures p(r[i])
    {
      assert r[i] in r;
    }
    FilterAllPass(r, p);
  }

  /** Filtering keeps distinct elements distinct. */
  lemma {:induction false} FilterNoDuplicates<T>(xs: seq<T>, p: T -> bool)
    requires NoDuplicates(xs)
    ensures NoDuplicates(Filter(xs, p))
    decreases |xs|
  {
    if |xs| > 0 {
      assert NoDuplicates(xs[1..]) by {
        forall i, j | 0 <= i < j < |xs[1..]|
          ensures xs[1..][i] != xs[1..][j]
        {
          assert xs[1..][i] == xs[i + 1] && xs[1..][j] == xs[j + 1];
        }
      }
      FilterNoDuplicates(xs[1..], p);
      if p(xs[0]) {
        var rest := Filter(xs[1..], p);
        assert xs[0] !in xs[1..] by {
          forall j | 0 <= j < |xs[1..]|
            ensures xs[1..][j] != xs[0]
          {
            assert xs[1..][j] == xs[j + 1];
          }
        }
        assert xs[0] !in rest;
        var r := [xs[0]] + rest;
        forall i, j | 0 <= i < j < |r|
          ensures r[i] != r[j]
        {
          if i == 0 {
            assert r[j] == rest[j - 1];
            assert r[j] in rest;
          } else {
            assert r[i] == rest[i - 1] && r[j] == rest[j - 1];
          }
        }
      }
    }
  }

  /** How often each value occurs after filtering: unchanged when it passes, zero otherwise. */
  lemma {:induction false} FilterMultiplicity<T>(xs: seq<T>, p: T -> bool, x: T)
    ensures multiset(Filter(xs, p))[x] == if p(x) then multiset(xs)[x] else 0
    decreases |xs|
  {
    if |xs| > 0 {
      var rest := Filter(xs[1..], p);
      FilterMultiplicity(xs[1..], p, x);
      assert xs == [xs[0]] + xs[1..];
      assert multiset(xs) == multiset{xs[0]} + multiset(xs[1..]);
      if p(xs[0]) {
        assert multiset(Filter(xs, p)) == multiset{xs[0]} + multiset(rest) by {
          assert Filter(xs, p) == [xs[0]] + rest;
        }
      } else {
        assert Filter(xs, p) == rest;
      }
    }
  }

  /** Filtering two permutations of each other yields permutations of each other. */
  lemma FilterPermutation<T>(xs: seq<T>, ys: seq<T>, p: T -> bool)
    requires multiset(xs) == multiset(ys)
    ensures multiset(Filter(xs, p)) == multiset(Filter(ys, p))
  {
    forall x
      ensures multiset(Filter(xs, p))[x] == multiset(Filter(ys, p))[x]
    {
      FilterMultiplicity(xs, p, x);
      FilterMultiplicity(ys, p, x);
    }
  }

  /** Filtering first by a weaker predicate changes nothing: what `q` keeps,
      `p` would have kept too. */
  lemma {:induction false} FilterNarrowing<T>(xs: seq<T>, p: T -> bool, q: T -> bool)
    requires forall i :: 0 <= i < |xs| && q(xs[i]) ==> p(xs[i])
    ensures Filter(Filter(xs, p), q) == Filter(xs, q)
    decreases |xs|
  {
    if |xs| > 0 {
      FilterNarrowing(xs[1..], p, q);
      if p(xs[0]) {
        assert ([xs[0]] + Filter(xs[1..], p))[1..] == Filter(xs[1..], p);
      }
    }
  }

  /** Filtering a sequence with one more element at the end. */
  lemma FilterAppend<T>(xs: seq<T>, c: T, p: T -> bool)
    ensures Filter(xs + [c], p) == Filter(xs, p) + (if p(c) then [c] else [])
  {
    FilterConcat(xs, [c], p);
    assert [c][1..] == [];
  }

  /** The smaller of two integers. */
  function Min(a: int, b: int): int {
    if a <= b then a else b
  }

  /** The larger of two integers. */
  function Max(a: int, b: int): int {
    if a <= b then b else a
  }
}
