/**
 * The algebra the inside algorithms are written over.  The code computes in
 * the log semiring: logsumexp plays the part of the sum (add), + the part
 * of the product (mul), -inf is the zero and 0 the one.  The model keeps the
 * four operations abstract; what is proved about the tables needs no law of
 * them, and the few results that do require IsCommutativeSemiring.
 */
module Semiring {
  import opened Tensors

  datatype Semiring<!T> = Semiring(zero: T, one: T, add: (T, T) -> T, mul: (T, T) -> T)

  /** The laws of a commutative semiring. */
  ghost predicate IsCommutativeSemiring<T(!new)>(sr: Semiring<T>) {
    && (forall a, b :: sr.add(a, b) == sr.add(b, a))
    && (forall a, b, c :: sr.add(sr.add(a, b), c) == sr.add(a, sr.add(b, c)))
    && (forall a :: sr.add(a, sr.zero) == a)
    && (forall a, b :: sr.mul(a, b) == sr.mul(b, a))
    && (forall a, b, c :: sr.mul(sr.mul(a, b), c) == sr.mul(a, sr.mul(b, c)))
    && (forall a :: sr.mul(a, sr.one) == a)
    && (forall a :: sr.mul(a, sr.zero) == sr.zero)
    && (forall a, b, c :: sr.mul(a, sr.add(b, c)) == sr.add(sr.mul(a, b), sr.mul(a, c)))
  }

  /** The two facts about zero that sums with a zero (-inf) term need: it is neutral for add and absorbing for mul. */
  ghost predicate ZeroIsNeutral<T(!new)>(sr: Semiring<T>) {
    && (forall a :: sr.add(sr.zero, a) == a)
    && (forall a :: sr.add(a, sr.zero) == a)
    && (forall a, b :: sr.add(a, sr.mul(sr.zero, b)) == a)
  }

  lemma CommutativeSemiringZero<T(!new)>(sr: Semiring<T>)
    requires IsCommutativeSemiring(sr)
    ensures ZeroIsNeutral(sr)
  {
    forall a, b
      ensures sr.add(a, sr.mul(sr.zero, b)) == a
    {
      assert sr.mul(sr.zero, b) == sr.mul(b, sr.zero);
    }
  }

  /** The product (in the code: the sum of log-scores) of a sequence, left to right. */
  function Product<T>(sr: Semiring<T>, xs: seq<T>): T
  {
    if xs == [] then sr.one else sr.mul(Product(sr, xs[..|xs| - 1]), xs[|xs| - 1])
  }

  /** Concatenation multiplies: the product of a + b is the product of a times the product of b. */
  lemma {:induction false} ProductAppend<T(!new)>(sr: Semiring<T>, a: seq<T>, b: seq<T>)
    requires IsCommutativeSemiring(sr)
    ensures Product(sr, a + b) == sr.mul(Product(sr, a), Product(sr, b))
    decreases |b|
  {
    if b == [] {
      assert a + b == a;
    } else {
      var b' := b[..|b| - 1];
      assert (a + b)[..|a + b| - 1] == a + b';
      ProductAppend(sr, a, b');
    }
  }

  /** A product over two groups and one more factor, as the last factor times the two group products. */
  lemma ProductOfGroups<T(!new)>(sr: Semiring<T>, a: seq<T>, b: seq<T>, x: T)
    requires IsCommutativeSemiring(sr)
    ensures Product(sr, a + b + [x]) == sr.mul(sr.mul(Product(sr, a), Product(sr, b)), x)
  {
    assert (a + b + [x])[..|a + b + [x]| - 1] == a + b;
    ProductAppend(sr, a, b);
  }

  /** Taking one element out: the product is the product of the rest times that element. */
  lemma ProductRemoveAt<T(!new)>(sr: Semiring<T>, xs: seq<T>, p: nat)
    requires IsCommutativeSemiring(sr) && p < |xs|
    ensures Product(sr, xs) == sr.mul(Product(sr, xs[..p] + xs[p + 1..]), xs[p])
  {
    var a, x, b := xs[..p], xs[p], xs[p + 1..];
    assert xs == (a + [x]) + b;
    ProductAppend(sr, a + [x], b);
    assert (a + [x])[..|a + [x]| - 1] == a;
    ProductAppend(sr, a, b);
    var pa, pb := Product(sr, a), Product(sr, b);
    calc {
      Product(sr, xs);
      sr.mul(sr.mul(pa, x), pb);
      sr.mul(pa, sr.mul(x, pb));
      { assert sr.mul(x, pb) == sr.mul(pb, x); }
      sr.mul(pa, sr.mul(pb, x));
      sr.mul(sr.mul(pa, pb), x);
    }
  }

  /** The product does not depend on the order of the factors. */
  lemma {:induction false} ProductPermutation<T(!new)>(sr: Semiring<T>, xs: seq<T>, ys: seq<T>)
    requires IsCommutativeSemiring(sr) && multiset(xs) == multiset(ys)
    ensures Product(sr, xs) == Product(sr, ys)
    decreases |xs|
  {
    if xs != [] {
      var x, xs' := xs[|xs| - 1], xs[..|xs| - 1];
      assert xs == xs' + [x];
      assert x in multiset(ys);
      var p :| 0 <= p < |ys| && ys[p] == x;
      var ys' := ys[..p] + ys[p + 1..];
      RemoveMatching(xs, ys, p);
      ProductPermutation(sr, xs', ys');
      ProductRemoveAt(sr, ys, p);
    } else {
      assert |ys| == |multiset(ys)| == 0;
    }
  }
}

/**
 * The max-plus (Viterbi) instance: scores are integers extended with -inf,
 * max stands for logsumexp and + for +.
 */
module MaxPlus {
  import opened Semiring

  datatype Ext = NegInf | Fin(v: int)

  function Max(a: Ext, b: Ext): Ext
  {
    match (a, b)
    case (NegInf, _) => b
    case (_, NegInf) => a
    case (Fin(x), Fin(y)) => if x >= y then a else b
  }

  function Plus(a: Ext, b: Ext): Ext
  {
    if a.NegInf? || b.NegInf? then NegInf else Fin(a.v + b.v)
  }

  /** The order of the extended integers: -inf lies below every finite score. */
  predicate Leq(a: Ext, b: Ext)
  {
    a.NegInf? || (b.Fin? && a.v <= b.v)
  }

  const Tropical: Semiring<Ext> := Semiring(NegInf, Fin(0), Max, Plus)

  lemma MaxAssociative(a: Ext, b: Ext, c: Ext)
    ensures Max(Max(a, b), c) == Max(a, Max(b, c))
  {
  }

  lemma PlusAssociative(a: Ext, b: Ext, c: Ext)
    ensures Plus(Plus(a, b), c) == Plus(a, Plus(b, c))
  {
  }

  lemma PlusDistributesOverMax(a: Ext, b: Ext, c: Ext)
    ensures Plus(a, Max(b, c)) == Max(Plus(a, b), Plus(a, c))
  {
  }

  lemma TropicalIsCommutativeSemiring()
    ensures IsCommutativeSemiring(Tropical)
  {
    forall a, b, c ensures Tropical.add(Tropical.add(a, b), c) == Tropical.add(a, Tropical.add(b, c)) {
      MaxAssociative(a, b, c);
    }
    forall a, b, c ensures Tropical.mul(Tropical.mul(a, b), c) == Tropical.mul(a, Tropical.mul(b, c)) {
      PlusAssociative(a, b, c);
    }
    forall a, b, c ensures Tropical.mul(a, Tropical.add(b, c)) == Tropical.add(Tropical.mul(a, b), Tropical.mul(a, c)) {
      PlusDistributesOverMax(a, b, c);
    }
  }

  /** Max is an upper bound of both arguments and is one of them. */
  lemma MaxBounds(a: Ext, b: Ext)
    ensures Leq(a, Max(a, b)) && Leq(b, Max(a, b))
    ensures Max(a, b) == a || Max(a, b) == b
  {
  }

  /** Plus is monotone in both arguments. */
  lemma PlusMonotone(a: Ext, b: Ext, c: Ext, d: Ext)
    requires Leq(a, c) && Leq(b, d)
    ensures Leq(Plus(a, b), Plus(c, d))
  {
  }
}

/**
 * The counting instance: with every potential 1 (log-score 0) the inside
 * values count derivations; + stands for logsumexp and * for +.
 */
module CountingSemiring {
  import opened Semiring

  const Counting: Semiring<int> := Semiring(0, 1, (a: int, b: int) => a + b, (a: int, b: int) => a * b)

  /** An L x L table of ones. */
  function Ones(L: nat): (m: seq<seq<int>>)
    ensures |m| == L && forall i | 0 <= i < L :: |m[i]| == L && forall j | 0 <= j < L :: m[i][j] == 1
  {
    seq(L, i => seq(L, j => 1))
  }

  /** An L x L x L table of ones. */
  function Ones3(L: nat): (m: seq<seq<seq<int>>>)
    ensures |m| == L && forall i | 0 <= i < L :: m[i] == Ones(L)
  {
    seq(L, i => Ones(L))
  }
}
