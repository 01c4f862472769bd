/**
 * CRF2oDependency of supar/modules/treecrf.py: the second-order (sibling)
 * inside pass over one sentence and the loss numerator built on it.
 */
module Crf2oDependency {
  import opened Semiring
  import opened Wrappers
  import opened Tensors
  import opened Fn
  import opened DependencySpans
  import opened CountingSemiring

  /** Arc and sibling scores as the inside pass sees them; only the arcs are masked by the candidates. */
  function Arcs<T>(sr: Semiring<T>, arcScores: seq<seq<T>>, sibScores: seq<seq<seq<T>>>, mask: seq<bool>,
                   cands: Option<seq<int>>): (m: ArcScores<T>)
    requires IsMatrix(arcScores, |mask|, |mask|) && |sibScores| == |mask|
    requires forall d | 0 <= d < |mask| :: IsMatrix(sibScores[d], |mask|, |mask|)
    requires cands.Some? ==> |cands.value| == |mask| > 0
    ensures m.SecondOrder? && WellFormed(m) && |m.arc| == |mask| && m.sib == sibScores
  {
    SecondOrder(ArcTable(sr, arcScores, mask, cands), sibScores)
  }

  /** The value the inside pass leaves at s_c[0][len]. */
  ghost function Partition<T>(sr: Semiring<T>, arcScores: seq<seq<T>>, sibScores: seq<seq<seq<T>>>, mask: seq<bool>,
                              cands: Option<seq<int>>): T
    requires IsMatrix(arcScores, |mask|, |mask|) && |sibScores| == |mask|
    requires forall d | 0 <= d < |mask| :: IsMatrix(sibScores[d], |mask|, |mask|)
    requires Count(mask) < |mask| && (cands.Some? ==> |cands.value| == |mask|)
  {
    Comp(sr, Arcs(sr, arcScores, sibScores, mask, cands), Count(mask), 0, Count(mask))
  }

  /** s_sib[range(w, n + w), range(n)] in the permuted layout: row t is sib[t][t + w], dependent t under head t + w. */
  function LeftSibRows<T>(m: ArcScores<T>, w: nat, n: nat): (rows: seq<seq<T>>)
    requires WellFormed(m) && m.SecondOrder? && n + w <= |m.arc|
    ensures IsMatrix(rows, n, |m.arc|)
  {
    seq(n, t requires 0 <= t < n => m.sib[t][t + w])
  }

  /** s_sib[range(n), range(w, n + w)] in the permuted layout: row t is sib[t + w][t], dependent t + w under head t. */
  function RightSibRows<T>(m: ArcScores<T>, w: nat, n: nat): (rows: seq<seq<T>>)
    requires WellFormed(m) && m.SecondOrder? && n + w <= |m.arc|
    ensures IsMatrix(rows, n, |m.arc|)
  {
    seq(n, t requires 0 <= t < n => m.sib[t + w][t])
  }

  /** Row t of stripe(s_sib[range(w, n + w), range(n)], n, w, (0, 1)) holds sib[t][t + w][t + 1 + k], k < w. */
  lemma LeftSibStripeReads<T>(m: ArcScores<T>, w: nat, n: nat)
    requires WellFormed(m) && m.SecondOrder? && 1 <= w < |m.arc| && n == |m.arc| - w
    ensures StripeFits(n * |m.arc|, |m.arc|, n, w, 0, 1, 1)
    ensures forall t, k | 0 <= t < n && 0 <= k < w ::
              Stripe(Storage(LeftSibRows(m, w, n), |m.arc|), |m.arc|, n, w, 0, 1, 1)[t][k] == m.sib[t][t + w][t + 1 + k]
  {
    var L := |m.arc|;
    StripeFitsTable(n, L, n, w, 0, 1, 1);
    forall t, k | 0 <= t < n && 0 <= k < w
      ensures Stripe(Storage(LeftSibRows(m, w, n), L), L, n, w, 0, 1, 1)[t][k] == m.sib[t][t + w][t + 1 + k]
    {
      StripeReadsCell(LeftSibRows(m, w, n), L, n, w, 0, 1, 1, t, k);
    }
  }

  /** Row t of stripe(s_sib[range(n), range(w, n + w)], n, w) holds sib[t + w][t][t + k], k < w. */
  lemma RightSibStripeReads<T>(m: ArcScores<T>, w: nat, n: nat)
    requires WellFormed(m) && m.SecondOrder? && 1 <= w < |m.arc| && n == |m.arc| - w
    ensures StripeFits(n * |m.arc|, |m.arc|, n, w, 0, 0, 1)
    ensures forall t, k | 0 <= t < n && 0 <= k < w ::
              Stripe(Storage(RightSibRows(m, w, n), |m.arc|), |m.arc|, n, w, 0, 0, 1)[t][k] == m.sib[t + w][t][t + k]
  {
    var L := |m.arc|;
    StripeFitsTable(n, L, n, w, 0, 0, 1);
    forall t, k | 0 <= t < n && 0 <= k < w
      ensures Stripe(Storage(RightSibRows(m, w, n), L), L, n, w, 0, 0, 1)[t][k] == m.sib[t + w][t][t + k]
    {
      StripeReadsCell(RightSibRows(m, w, n), L, n, w, 0, 0, 1, t, k);
    }
  }

  /**
   * The I(j -> i) sum of span t: stripe(s_i, n, w, (w, 1)) + stripe(s_s, n, w, (1, 0), 0)
   * + the sibling stripe, with the last term replaced by il0 (zero for the
   * span starting at 0).  sibs is row t of the sibling stripe.
   */
  method SumLeftSiblings<T>(sr: Semiring<T>, m: ArcScores<T>, len: nat, s_i: array2<T>, s_s: array2<T>, s_c: array2<T>,
                            w: nat, t: nat, sibs: seq<T>) returns (acc: T)
    requires WellFormed(m) && m.SecondOrder? && IsTable(s_i, |m.arc|) && IsTable(s_s, |m.arc|) && IsTable(s_c, |m.arc|)
    requires 1 <= w && t + w < |m.arc|
    requires |sibs| == w && forall k | 0 <= k < w :: sibs[k] == m.sib[t][t + w][t + 1 + k]
    requires IncAgree(sr, m, len, s_i, w) && SibAgree(sr, m, len, s_s, w) && CompAgree(sr, m, len, s_c, w)
    ensures acc == LeftSiblings(sr, m, len, t, t + w, w)
  {
    var n := |m.arc| - w;
    acc := sr.zero;
    for k := 0 to w
      invariant acc == LeftSiblings(sr, m, len, t, t + w, k)
    {
      var term;
      if k == w - 1 {
        if t == 0 {
          term := sr.one;
        } else {
          var last := ReadStripe(s_c, n, 1, w, w, 1, t, 0);       // C(j -> j)
          var first := ReadStripe(s_c, n, 1, 0, w - 1, 1, t, 0);  // C(i -> j - 1)
          term := sr.mul(last, first);
        }
      } else {
        var inc := ReadStripe(s_i, n, w, w, 1, 1, t, k);  // I(j -> r), r = i + 1 + k
        var sib := ReadStripe(s_s, n, w, 1, 0, 0, t, k);  // S(r, i)
        term := sr.mul(sr.mul(inc, sib), sibs[k]);
      }
      acc := sr.add(acc, term);
    }
  }

  /**
   * The I(i -> j) sum of span t: stripe(s_i, n, w) + stripe(s_s, n, w, (0, w), 0)
   * + the sibling stripe, all -inf for the span starting at 0, with the
   * first term replaced by ir0.  sibs is row t of the sibling stripe.
   */
  method SumRightSiblings<T>(sr: Semiring<T>, m: ArcScores<T>, len: nat, s_i: array2<T>, s_s: array2<T>, s_c: array2<T>,
                             w: nat, t: nat, sibs: seq<T>) returns (acc: T)
    requires WellFormed(m) && m.SecondOrder? && IsTable(s_i, |m.arc|) && IsTable(s_s, |m.arc|) && IsTable(s_c, |m.arc|)
    requires 1 <= w && t + w < |m.arc|
    requires |sibs| == w && forall k | 0 <= k < w :: sibs[k] == m.sib[t + w][t][t + k]
    requires IncAgree(sr, m, len, s_i, w) && SibAgree(sr, m, len, s_s, w) && CompAgree(sr, m, len, s_c, w)
    ensures acc == RightSiblings(sr, m, len, t, t + w, w)
  {
    var n := |m.arc| - w;
    acc := sr.zero;
    for k := 0 to w
      invariant acc == RightSiblings(sr, m, len, t, t + w, k)
    {
      var term;
      if k == 0 {
        var first := ReadStripe(s_c, n, 1, 0, 0, 1, t, 0);  // C(i -> i)
        var last := ReadStripe(s_c, n, 1, w, 1, 1, t, 0);   // C(j -> i + 1)
        term := sr.mul(first, last);
      } else if t == 0 {
        term := sr.zero;
      } else {
        var inc := ReadStripe(s_i, n, w, 0, 0, 1, t, k);  // I(i -> r), r = i + k
        var sib := ReadStripe(s_s, n, w, 0, w, 0, t, k);  // S(r, j)
        term := sr.mul(sr.mul(inc, sib), sibs[k]);
      }
      acc := sr.add(acc, term);
    }
  }

  /** s_i.diagonal(-w): I(j -> i) for every span of width w. */
  method FillIncompleteLeft<T>(sr: Semiring<T>, m: ArcScores<T>, len: nat, s_i: array2<T>, s_s: array2<T>, s_c: array2<T>, w: nat)
    requires WellFormed(m) && m.SecondOrder? && IsTable(s_i, |m.arc|) && IsTable(s_s, |m.arc|) && IsTable(s_c, |m.arc|)
    requires s_i != s_s && s_i != s_c
    requires 1 <= w < |m.arc|
    requires IncAgree(sr, m, len, s_i, w) && SibAgree(sr, m, len, s_s, w) && CompAgree(sr, m, len, s_c, w)
    modifies s_i
    ensures forall x, y | 0 <= x < |m.arc| && 0 <= y < |m.arc| ::
              s_i[x, y] == if x == y + w then Inc(sr, m, len, x, y) else old(s_i[x, y])
  {
    var L := |m.arc|;
    var n := L - w;
    LeftSibStripeReads(m, w, n);
    var sibs := Stripe(Storage(LeftSibRows(m, w, n), L), L, n, w, 0, 1, 1);
    for t := 0 to n
      invariant IncAgree(sr, m, len, s_i, w)
      invariant forall x, y | 0 <= x < L && 0 <= y < L ::
                  s_i[x, y] == if x == y + w && y < t then Inc(sr, m, len, x, y) else old(s_i[x, y])
    {
      var sum := SumLeftSiblings(sr, m, len, s_i, s_s, s_c, w, t, sibs[t]);
      s_i[t + w, t] := sr.mul(sum, m.arc[t + w][t]);
    }
  }

  /** s_i.diagonal(w): I(i -> j) for every span of width w. */
  method FillIncompleteRight<T>(sr: Semiring<T>, m: ArcScores<T>, len: nat, s_i: array2<T>, s_s: array2<T>, s_c: array2<T>, w: nat)
    requires WellFormed(m) && m.SecondOrder? && IsTable(s_i, |m.arc|) && IsTable(s_s, |m.arc|) && IsTable(s_c, |m.arc|)
    requires s_i != s_s && s_i != s_c
    requires 1 <= w < |m.arc|
    requires IncAgree(sr, m, len, s_i, w) && SibAgree(sr, m, len, s_s, w) && CompAgree(sr, m, len, s_c, w)
    modifies s_i
    ensures forall x, y | 0 <= x < |m.arc| && 0 <= y < |m.arc| ::
              s_i[x, y] == if y == x + w then Inc(sr, m, len, x, y) else old(s_i[x, y])
  {
    var L := |m.arc|;
    var n := L - w;
    RightSibStripeReads(m, w, n);
    var sibs := Stripe(Storage(RightSibRows(m, w, n), L), L, n, w, 0, 0, 1);
    for t := 0 to n
      invariant IncAgree(sr, m, len, s_i, w)
      invariant forall x, y | 0 <= x < L && 0 <= y < L ::
                  s_i[x, y] == if y == x + w && x < t then Inc(sr, m, len, x, y) else old(s_i[x, y])
    {
      var sum := SumRightSiblings(sr, m, len, s_i, s_s, s_c, w, t, sibs[t]);
      s_i[t, t + w] := sr.mul(sum, m.arc[t][t + w]);
    }
  }

  /** One iteration of the width loop: I, then S, then C for every span of width w. */
  method FillWidth<T>(sr: Semiring<T>, m: ArcScores<T>, len: nat, s_i: array2<T>, s_s: array2<T>, s_c: array2<T>, w: nat)
    requires WellFormed(m) && m.SecondOrder? && IsTable(s_i, |m.arc|) && IsTable(s_s, |m.arc|) && IsTable(s_c, |m.arc|)
    requires s_i != s_s && s_i != s_c && s_s != s_c
    requires 1 <= w < |m.arc|
    requires IncAgree(sr, m, len, s_i, w) && SibAgree(sr, m, len, s_s, w) && CompAgree(sr, m, len, s_c, w)
    modifies s_i, s_s, s_c
    ensures IncAgree(sr, m, len, s_i, w + 1) && SibAgree(sr, m, len, s_s, w + 1) && CompAgree(sr, m, len, s_c, w + 1)
    ensures forall x, y | 0 <= x < |m.arc| && 0 <= y < |m.arc| && Width(x, y) > w ::
              s_i[x, y] == old(s_i[x, y]) && s_s[x, y] == old(s_s[x, y]) && s_c[x, y] == old(s_c[x, y])
  {
    FillIncompleteLeft(sr, m, len, s_i, s_s, s_c, w);
    FillIncompleteRight(sr, m, len, s_i, s_s, s_c, w);
    FillSibling(sr, m, len, s_s, s_c, w);
    FillComplete(sr, m, len, s_i, s_c, w);
  }

  /**
   * The inside pass: the three tables hold the width-recursive values, the
   * sibling table is symmetric, the diagonal of s_c is the identity, and no
   * complete span from the root ends anywhere but at the sentence length.
   */
  method Inside<T>(sr: Semiring<T>, arcScores: seq<seq<T>>, sibScores: seq<seq<seq<T>>>, mask: seq<bool>,
                   cands: Option<seq<int>>) returns (s_i: array2<T>, s_s: array2<T>, s_c: array2<T>)
    requires IsMatrix(arcScores, |mask|, |mask|) && |sibScores| == |mask|
    requires forall d | 0 <= d < |mask| :: IsMatrix(sibScores[d], |mask|, |mask|)
    requires cands.Some? ==> |cands.value| == |mask| > 0
    ensures IsTable(s_i, |mask|) && IsTable(s_s, |mask|) && IsTable(s_c, |mask|)
    ensures forall x, y | 0 <= x < |mask| && 0 <= y < |mask| ::
              && s_i[x, y] == Inc(sr, Arcs(sr, arcScores, sibScores, mask, cands), Count(mask), x, y)
              && s_s[x, y] == Sib(sr, Arcs(sr, arcScores, sibScores, mask, cands), Count(mask), x, y)
              && s_c[x, y] == Comp(sr, Arcs(sr, arcScores, sibScores, mask, cands), Count(mask), x, y)
    ensures forall x, y | 0 <= x < |mask| && 0 <= y < |mask| :: s_s[x, y] == s_s[y, x]
    ensures forall x | 0 <= x < |mask| :: s_c[x, x] == sr.one && s_i[x, x] == sr.zero && s_s[x, x] == sr.zero
    ensures forall e | 0 < e < |mask| && e != Count(mask) :: s_c[0, e] == sr.zero
  {
    var L := |mask|;
    var len := Count(mask);
    var m := Arcs(sr, arcScores, sibScores, mask, cands);
    s_c := new T[L, L]((_, _) => sr.zero);
    for t := 0 to L
      invariant forall x, y | 0 <= x < L && 0 <= y < L :: s_c[x, y] == if x == y && x < t then sr.one else sr.zero
    {
      s_c[t, t] := sr.one;
    }
    s_i := new T[L, L]((_, _) => sr.zero);
    s_s := new T[L, L]((_, _) => sr.zero);
    var w := 1;
    while w < L
      invariant 1 <= w && (L > 0 ==> w <= L)
      invariant IncAgree(sr, m, len, s_i, w) && SibAgree(sr, m, len, s_s, w) && CompAgree(sr, m, len, s_c, w)
    {
      FillWidth(sr, m, len, s_i, s_s, s_c, w);
      w := w + 1;
    }
  }

  datatype CrfError =
    | LengthOutOfRange  // gathering s_c[0][len] needs len < seq_len
    | TargetOutOfRange  // gathering a gold arc or sibling score needs its index in [0, seq_len)

  /** The two terms of the loss numerator logZ - gold. */
  datatype Loss<T> = Loss(logZ: T, gold: T)

  /** The gold indices the full-annotation score gathers: the head of each valid dependent and its positive siblings. */
  predicate TargetInRange(mask: seq<bool>, arcs: seq<int>, sibs: seq<int>)
    requires |arcs| == |mask| && |sibs| == |mask|
  {
    forall d | 0 <= d < |mask| && mask[d] :: 0 <= arcs[d] < |mask| && sibs[d] < |mask|
  }

  /** sib[d][h][s], the score of dependent d under head h with sibling s. */
  function SibScore<T>(sibScores: seq<seq<seq<T>>>, L: nat, d: nat, h: nat, s: nat): T
    requires |sibScores| == L && (forall d' | 0 <= d' < L :: IsMatrix(sibScores[d'], L, L))
    requires d < L && h < L && s < L
  {
    assert IsMatrix(sibScores[d], L, L);
    sibScores[d][h][s]
  }

  /**
   * The score of a full annotation: the arcs arcs[d] -> d over the valid
   * dependents, times the sibling scores sib[d][arcs[d]][sibs[d]] of the
   * valid dependents whose sibling index is positive.
   */
  function Gold<T>(sr: Semiring<T>, arcScores: seq<seq<T>>, sibScores: seq<seq<seq<T>>>, mask: seq<bool>,
                   arcs: seq<int>, sibs: seq<int>): T
    requires IsMatrix(arcScores, |mask|, |mask|) && |sibScores| == |mask|
    requires forall d | 0 <= d < |mask| :: IsMatrix(sibScores[d], |mask|, |mask|)
    requires |arcs| == |mask| && |sibs| == |mask| && TargetInRange(mask, arcs, sibs)
  {
    var L := |mask|;
    var arcTerms := seq(L, d requires 0 <= d < L => if mask[d] then arcScores[d][arcs[d]] else sr.one);
    var sibMask := seq(L, d requires 0 <= d < L => mask[d] && sibs[d] > 0);
    var sibTerms := seq(L, d requires 0 <= d < L => if sibMask[d] then SibScore(sibScores, L, d, arcs[d], sibs[d]) else sr.one);
    sr.mul(Product(sr, Select(arcTerms, mask)), Product(sr, Select(sibTerms, sibMask)))
  }

  /**
   * forward with a target (arcs, sibs): logZ from the unconstrained inside
   * pass; the gold term from a pass constrained to the target's heads under
   * partial annotation, and from the target's arc and sibling scores otherwise.
   */
  method Forward<T>(sr: Semiring<T>, arcScores: seq<seq<T>>, sibScores: seq<seq<seq<T>>>, mask: seq<bool>,
                    arcs: seq<int>, sibs: seq<int>, partial: bool) returns (res: Result<Loss<T>, CrfError>)
    requires IsMatrix(arcScores, |mask|, |mask|) && |sibScores| == |mask|
    requires forall d | 0 <= d < |mask| :: IsMatrix(sibScores[d], |mask|, |mask|)
    requires |arcs| == |mask| && |sibs| == |mask|
    ensures res.Failure? <==> Count(mask) >= |mask| || (!partial && !TargetInRange(mask, arcs, sibs))
    ensures Count(mask) >= |mask| ==> res == Failure(LengthOutOfRange)
    ensures res.Success? ==> res.value.logZ == Partition(sr, arcScores, sibScores, mask, None)
    ensures res.Success? && partial ==> res.value.gold == Partition(sr, arcScores, sibScores, mask, Some(arcs))
    ensures res.Success? && !partial ==> res.value.gold == Gold(sr, arcScores, sibScores, mask, arcs, sibs)
  {
    var L := |mask|;
    var len := Count(mask);
    var s_i, s_s, s_c := Inside(sr, arcScores, sibScores, mask, None);
    if len >= L {
      return Failure(LengthOutOfRange);
    }
    var logZ := s_c[0, len];
    var gold;
    if partial {
      var p_i, p_s, p_c := Inside(sr, arcScores, sibScores, mask, Some(arcs));
      gold := p_c[0, len];
    } else {
      if !TargetInRange(mask, arcs, sibs) {
        return Failure(TargetOutOfRange);
      }
      gold := Gold(sr, arcScores, sibScores, mask, arcs, sibs);
    }
    return Success(Loss(logZ, gold));
  }

  /**
   * A partial annotation that leaves every word of the sentence
   * unconstrained gives back the unconstrained partition, so the loss
   * numerator logZ - gold vanishes.
   */
  lemma UnconstrainedPartialKeepsPartition<T>(sr: Semiring<T>, arcScores: seq<seq<T>>, sibScores: seq<seq<seq<T>>>,
                                              mask: seq<bool>, cands: seq<int>)
    requires IsMatrix(arcScores, |mask|, |mask|) && |sibScores| == |mask|
    requires forall d | 0 <= d < |mask| :: IsMatrix(sibScores[d], |mask|, |mask|)
    requires |cands| == |mask| && Count(mask) < |mask|
    requires forall d | 1 <= d <= Count(mask) :: mask[d] && cands[d] < 0
    ensures Partition(sr, arcScores, sibScores, mask, Some(cands)) == Partition(sr, arcScores, sibScores, mask, None)
  {
    var len := Count(mask);
    var full, part := Arcs(sr, arcScores, sibScores, mask, None), Arcs(sr, arcScores, sibScores, mask, Some(cands));
    assert AgreeUpTo(part, full, len) by {
      forall h, d | 0 <= h <= len && 0 <= d <= len
        ensures part.arc[h][d] == full.arc[h][d]
      {
        assert ArcAllowed(mask, cands, h, d);
      }
    }
    CompUpTo(sr, part, full, len, len, 0, len);
  }

  /**
   * With every arc and sibling score 0 the second-order partition counts the
   * same single-root projective trees as the first-order one: 2 over a root
   * and two words, 7 over a root and three words.
   */
  lemma CountsSingleRootTrees()
    ensures Partition(Counting, Ones(3), Ones3(3), [false, true, true], None) == 2
    ensures Partition(Counting, Ones(4), Ones3(4), [false, true, true, true], None) == 7
  {
    assert [false, true, true, true][..3] == [false, true, true];
    assert [false, true, true][..2] == [false, true];
    assert [false, true][..1] == [false];
    assert Count([false, true, true]) == 2;
    assert Count([false, true, true, true]) == 3;
  }
}
