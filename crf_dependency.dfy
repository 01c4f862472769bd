/**
 * CRFDependency of supar/modules/treecrf.py: the first-order (Eisner)
 * inside pass over one sentence and the loss numerator built on it.
 */
module CrfDependency {
  import opened Semiring
  import opened Wrappers
  import opened Tensors
  import opened DependencySpans
  import opened CountingSemiring

  /** The scores as the inside pass sees them: permuted to [head][dependent] and masked by the candidates. */
  function Arcs<T>(sr: Semiring<T>, scores: seq<seq<T>>, mask: seq<bool>, cands: Option<seq<int>>): (m: ArcScores<T>)
    requires IsMatrix(scores, |mask|, |mask|)
    requires cands.Some? ==> |cands.value| == |mask| > 0
    ensures m.FirstOrder? && WellFormed(m) && |m.arc| == |mask|
  {
    FirstOrder(ArcTable(sr, scores, mask, cands))
  }

  /** The value the inside pass leaves at s_c[0][len]: the total over the sentence's trees. */
  ghost function Partition<T>(sr: Semiring<T>, scores: seq<seq<T>>, mask: seq<bool>, cands: Option<seq<int>>): T
    requires IsMatrix(scores, |mask|, |mask|) && Count(mask) < |mask|
    requires cands.Some? ==> |cands.value| == |mask|
  {
    Comp(sr, Arcs(sr, scores, mask, cands), Count(mask), 0, Count(mask))
  }

  /**
   * The inside pass: both tables hold the width-recursive values, the
   * diagonal of s_c is the identity, and no complete span from the root
   * ends anywhere but at the sentence length.
   */
  method Inside<T>(sr: Semiring<T>, scores: seq<seq<T>>, mask: seq<bool>, cands: Option<seq<int>>)
    returns (s_i: array2<T>, s_c: array2<T>)
    requires IsMatrix(scores, |mask|, |mask|)
    requires cands.Some? ==> |cands.value| == |mask| > 0
    ensures IsTable(s_i, |mask|) && IsTable(s_c, |mask|)
    ensures forall x, y | 0 <= x < |mask| && 0 <= y < |mask| ::
              && s_i[x, y] == Inc(sr, Arcs(sr, scores, mask, cands), Count(mask), x, y)
              && s_c[x, y] == Comp(sr, Arcs(sr, scores, mask, cands), Count(mask), x, y)
    ensures forall x | 0 <= x < |mask| :: s_c[x, x] == sr.one && s_i[x, x] == sr.zero
    ensures forall e | 0 < e < |mask| && e != Count(mask) :: s_c[0, e] == sr.zero
  {
    var L := |mask|;
    var len := Count(mask);
    var m := Arcs(sr, scores, mask, cands);
    s_c := new T[L, L]((_, _) => sr.zero);
    for t := 0 to L
      invariant forall x, y | 0 <= x < L && 0 <= y < L :: s_c[x, y] == if x == y && x < t then sr.one else sr.zero
    {
      s_c[t, t] := sr.one;
    }
    s_i := new T[L, L]((_, _) => sr.zero);
    var w := 1;
    while w < L
      invariant 1 <= w && (L > 0 ==> w <= L)
      invariant IncAgree(sr, m, len, s_i, w) && CompAgree(sr, m, len, s_c, w)
    {
      FillIncomplete(sr, m, len, s_i, s_c, w);
      FillComplete(sr, m, len, s_i, s_c, w);
      w := w + 1;
    }
  }

  datatype CrfError =
    | LengthOutOfRange  // gathering s_c[0][len] needs len < seq_len
    | TargetOutOfRange  // gathering scores[d][target[d]] needs every head in [0, seq_len)

  /** The two terms of the loss numerator logZ - gold (the loss divides it by the number of tokens). */
  datatype Loss<T> = Loss(logZ: T, gold: T)

  predicate InRange(target: seq<int>, L: nat)
  {
    forall d | 0 <= d < |target| :: 0 <= target[d] < L
  }

  /** The score of a full annotation: the arcs target[d] -> d, over the valid dependents. */
  function Gold<T>(sr: Semiring<T>, scores: seq<seq<T>>, mask: seq<bool>, target: seq<int>): T
    requires IsMatrix(scores, |mask|, |mask|) && |target| == |mask| && InRange(target, |mask|)
  {
    Product(sr, Select(seq(|mask|, d requires 0 <= d < |mask| => scores[d][target[d]]), mask))
  }

  /**
   * forward with a target: logZ from the unconstrained inside pass; the gold
   * term from a second, candidate-constrained pass under partial annotation,
   * and from the target's arcs otherwise.
   */
  method Forward<T>(sr: Semiring<T>, scores: seq<seq<T>>, mask: seq<bool>, target: seq<int>, partial: bool)
    returns (res: Result<Loss<T>, CrfError>)
    requires IsMatrix(scores, |mask|, |mask|) && |target| == |mask|
    ensures res.Failure? <==> Count(mask) >= |mask| || (!partial && !InRange(target, |mask|))
    ensures Count(mask) >= |mask| ==> res == Failure(LengthOutOfRange)
    ensures res.Success? ==> res.value.logZ == Partition(sr, scores, mask, None)
    ensures res.Success? && partial ==> res.value.gold == Partition(sr, scores, mask, Some(target))
    ensures res.Success? && !partial ==> res.value.gold == Gold(sr, scores, mask, target)
  {
    var L := |mask|;
    var len := Count(mask);
    var s_i, s_c := Inside(sr, scores, mask, None);
    if len >= L {
      return Failure(LengthOutOfRange);
    }
    var logZ := s_c[0, len];
    var gold;
    if partial {
      var p_i, p_c := Inside(sr, scores, mask, Some(target));
      gold := p_c[0, len];
    } else {
      if !InRange(target, L) {
        return Failure(TargetOutOfRange);
      }
      gold := Gold(sr, scores, mask, target);
    }
    return Success(Loss(logZ, gold));
  }

  /**
   * A partial annotation that leaves every word of the sentence
   * unconstrained (a negative candidate head) gives back the unconstrained
   * partition, so the loss numerator logZ - gold vanishes; padding positions
   * may hold anything.
   */
  lemma UnconstrainedPartialKeepsPartition<T>(sr: Semiring<T>, scores: seq<seq<T>>, mask: seq<bool>, cands: seq<int>)
    requires IsMatrix(scores, |mask|, |mask|) && |cands| == |mask| && Count(mask) < |mask|
    requires forall d | 1 <= d <= Count(mask) :: mask[d] && cands[d] < 0
    ensures Partition(sr, scores, mask, Some(cands)) == Partition(sr, scores, mask, None)
  {
    var len := Count(mask);
    var full, part := Arcs(sr, scores, mask, None), Arcs(sr, scores, mask, Some(cands));
    assert AgreeUpTo(part, full, len) by {
      forall h, d | 0 <= h <= len && 0 <= d <= len
        ensures part.arc[h][d] == full.arc[h][d]
      {
        assert ArcAllowed(mask, cands, h, d);
      }
    }
    CompUpTo(sr, part, full, len, len, 0, len);
  }

  /**
   * With every arc score 0 (potential 1) the partition counts the trees the
   * recurrence admits: over a root and two words there are 2, over a root
   * and three words 7 -- the projective trees in which the root has exactly
   * one dependent.
   */
  lemma CountsSingleRootTrees()
    ensures Partition(Counting, Ones(3), [false, true, true], None) == 2
    ensures Partition(Counting, Ones(4), [false, true, true, true], None) == 7
  {
    assert [false, true, true, true][..3] == [false, true, true];
    assert [false, true, true][..2] == [false, true];
    assert [false, true][..1] == [false];
    assert Count([false, true, true]) == 2;
    assert Count([false, true, true, true]) == 3;
  }
}
