/** The few tensor primitives the core uses, on one batch lane. */
module Tensors {

  /** A dense rows x cols table as a sequence of rows. */
  predicate IsMatrix<T>(m: seq<seq<T>>, rows: nat, cols: nat)
  {
    |m| == rows && forall i | 0 <= i < |m| :: |m[i]| == cols
  }

  /** mask.sum(): the number of set entries. */
  function Count(mask: seq<bool>): (c: nat)
    ensures c <= |mask|
    ensures (forall i | 0 <= i < |mask| :: mask[i]) ==> c == |mask|
    ensures (forall i | 0 <= i < |mask| :: !mask[i]) ==> c == 0
  {
    if mask == [] then 0 else Count(mask[..|mask| - 1]) + (if mask[|mask| - 1] then 1 else 0)
  }

  /** xs[mask]: the entries whose mask entry is set, in order. */
  function Select<T>(xs: seq<T>, mask: seq<bool>): (s: seq<T>)
    requires |xs| == |mask|
    ensures |s| == Count(mask)
    ensures forall x | x in s :: x in xs
  {
    if xs == [] then []
    else Select(xs[..|xs| - 1], mask[..|mask| - 1]) + (if mask[|mask| - 1] then [xs[|xs| - 1]] else [])
  }

  /** Selecting from a concatenation is concatenating the selections. */
  lemma {:induction false} SelectAppend<T>(xs: seq<T>, ys: seq<T>, m: seq<bool>, n: seq<bool>)
    requires |xs| == |m| && |ys| == |n|
    ensures Select(xs + ys, m + n) == Select(xs, m) + Select(ys, n)
    decreases |ys|
  {
    if ys == [] {
      assert xs + ys == xs && m + n == m;
    } else {
      var ys', n' := ys[..|ys| - 1], n[..|n| - 1];
      var tail := if n[|n| - 1] then [ys[|ys| - 1]] else [];
      assert (xs + ys)[..|xs + ys| - 1] == xs + ys';
      assert (m + n)[..|m + n| - 1] == m + n';
      assert Select(xs + ys, m + n) == Select(xs + ys', m + n') + tail;
      assert Select(ys, n) == Select(ys', n') + tail;
      SelectAppend(xs, ys', m, n');
    }
  }

  /** No element occurs twice. */
  ghost predicate Distinct<X>(s: seq<X>)
  {
    forall p, q | 0 <= p < q < |s| :: s[p] != s[q]
  }

  /** Two duplicate-free sequences with nothing in common concatenate to a duplicate-free one. */
  lemma DistinctAppend<X>(a: seq<X>, b: seq<X>)
    requires Distinct(a) && Distinct(b) && forall x | x in a :: x !in b
    ensures Distinct(a + b)
  {
    forall p, q | 0 <= p < q < |a + b|
      ensures (a + b)[p] != (a + b)[q]
    {
      if p < |a| && |a| <= q {
        assert (a + b)[p] in a && (a + b)[q] == b[q - |a|];
      }
    }
  }

  /** In a duplicate-free sequence every element occurs once. */
  lemma {:induction false} DistinctMultiplicity<X>(s: seq<X>, x: X)
    requires Distinct(s)
    ensures multiset(s)[x] == if x in s then 1 else 0
  {
    if s != [] {
      var s', y := s[..|s| - 1], s[|s| - 1];
      assert s == s' + [y];
      DistinctMultiplicity(s', x);
      assert y !in s';
    }
  }

  /** Two duplicate-free sequences with the same elements are permutations of each other. */
  lemma SameElementsPermutation<X>(a: seq<X>, b: seq<X>)
    requires Distinct(a) && Distinct(b) && forall x :: x in a <==> x in b
    ensures multiset(a) == multiset(b)
  {
    forall x
      ensures multiset(a)[x] == multiset(b)[x]
    {
      DistinctMultiplicity(a, x);
      DistinctMultiplicity(b, x);
    }
  }

  /** Removing the last element of one side and a matching element of the other keeps two permutations permutations. */
  lemma RemoveMatching<X>(xs: seq<X>, ys: seq<X>, p: nat)
    requires multiset(xs) == multiset(ys) && |xs| > 0 && p < |ys| && ys[p] == xs[|xs| - 1]
    ensures multiset(xs[..|xs| - 1]) == multiset(ys[..p] + ys[p + 1..])
  {
    var x, xs', ys' := xs[|xs| - 1], xs[..|xs| - 1], ys[..p] + ys[p + 1..];
    assert xs == xs' + [x];
    assert ys == ys[..p] + [x] + ys[p + 1..];
    calc {
      multiset(xs') + multiset{x};
      multiset(ys);
      multiset(ys[..p]) + multiset{x} + multiset(ys[p + 1..]);
      multiset(ys') + multiset{x};
    }
    assert multiset(xs') == (multiset(xs') + multiset{x}) - multiset{x};
    assert multiset(ys') == (multiset(ys') + multiset{x}) - multiset{x};
  }
}
