/**
 * What the two dependency CRFs of supar/modules/treecrf.py have in common:
 * the arc scores after candidate masking, the width-recursive values of the
 * incomplete (s_i), sibling (s_s) and complete (s_c) span tables, the
 * per-span reductions over stripes, and the steps that fill one diagonal of
 * a table.
 *
 * Table layout, one sentence of seq_len = L positions (0 is the root):
 *   s_i[h][d]  incomplete span between head h and dependent d
 *   s_c[h][e]  complete span headed at h ending at e (s_c[x][x] is empty)
 *   s_s[x][y]  two adjacent complete spans meeting between x and y
 * Below the diagonal (row > column) the span points leftward.
 */
module DependencySpans {
  import opened Semiring
  import opened Wrappers
  import opened Tensors
  import opened Fn

  /**
   * The scores the inside pass works on.  arc[h][d] scores head h with
   * dependent d (the input is permuted to this layout and then masked).  A
   * second-order model adds sib[d][h][s], in the input's own layout: the
   * score of dependent d under head h when s is the sibling attached just
   * before it.
   */
  datatype ArcScores<T> =
    | FirstOrder(arc: seq<seq<T>>)
    | SecondOrder(arc: seq<seq<T>>, sib: seq<seq<seq<T>>>)

  predicate WellFormed<T>(m: ArcScores<T>)
  {
    && IsMatrix(m.arc, |m.arc|, |m.arc|)
    && (m.SecondOrder? ==>
          |m.sib| == |m.arc| && forall d | 0 <= d < |m.sib| :: IsMatrix(m.sib[d], |m.arc|, |m.arc|))
  }

  function Width(x: int, y: int): nat
  {
    if x <= y then y - x else x - y
  }

  function Min(x: int, y: int): int
  {
    if x <= y then x else y
  }

  // ---------------------------------------------------------------------------
  // Candidate masking
  // ---------------------------------------------------------------------------

  /** Whether arc h -> d survives masking by the candidate heads. */
  predicate ArcAllowed(mask: seq<bool>, cands: seq<int>, h: nat, d: nat)
    requires h < |mask| && d < |mask| && |cands| == |mask|
  {
    && (h == 0 || mask[h])
    && (d == 0 || (mask[d] && (cands[d] == h || cands[d] < 0)))
  }

  /**
   * The arc table of the inside pass: scores[d][h] permuted to [h][d]; with
   * candidate heads, mask[0] is first set, cands[0] set to -1, and every arc
   * whose ends are not both valid or whose head is neither the candidate nor
   * unconstrained (a negative candidate) is filled with zero (-inf).  The
   * masked fill makes a new table; the scores passed in are a value and are
   * left as they were.
   */
  function ArcTable<T>(sr: Semiring<T>, scores: seq<seq<T>>, mask: seq<bool>, cands: Option<seq<int>>): (arc: seq<seq<T>>)
    requires IsMatrix(scores, |mask|, |mask|)
    requires cands.Some? ==> |cands.value| == |mask| > 0
    ensures IsMatrix(arc, |mask|, |mask|)
    ensures forall h, d | 0 <= h < |mask| && 0 <= d < |mask| ::
              arc[h][d] == if cands.None? || ArcAllowed(mask, cands.value, h, d) then scores[d][h] else sr.zero
  {
    var L := |mask|;
    if cands.None? then
      seq(L, h requires 0 <= h < L => seq(L, d requires 0 <= d < L => scores[d][h]))
    else
      var valid := mask[0 := true];
      var heads := cands.value[0 := -1];
      seq(L, h requires 0 <= h < L => seq(L, d requires 0 <= d < L =>
        if (heads[d] == h || heads[d] < 0) && valid[h] && valid[d] then scores[d][h] else sr.zero))
  }

  // ---------------------------------------------------------------------------
  // The inside values, by width
  // ---------------------------------------------------------------------------

  /**
   * The first k terms of the sum over split points r in [i, j) of
   * C(i -> r) (x) C(j -> r + 1): two complete spans meeting between r and r + 1.
   */
  ghost function Link<T>(sr: Semiring<T>, m: ArcScores<T>, len: nat, i: nat, j: nat, k: nat): T
    requires WellFormed(m) && i < j < |m.arc| && k <= j - i
    decreases j - i, 0, k
  {
    if k == 0 then sr.zero
    else sr.add(Link(sr, m, len, i, j, k - 1), sr.mul(Comp(sr, m, len, i, i + k - 1), Comp(sr, m, len, j, i + k)))
  }

  /**
   * Term k of the second-order sum for I(j -> i): for a split r = i + 1 + k
   * strictly inside the span, I(j -> r) (x) S(r, i) (x) sib(head j, dependent i,
   * sibling r); the last term is the first-child case C(j -> j) (x) C(i -> j - 1),
   * taken as one for the span starting at 0.
   */
  ghost function LeftSiblingTerm<T>(sr: Semiring<T>, m: ArcScores<T>, len: nat, i: nat, j: nat, k: nat): T
    requires WellFormed(m) && m.SecondOrder? && i < j < |m.arc| && k < j - i
    decreases j - i, 0, 0
  {
    if k == j - i - 1 then
      if i == 0 then sr.one else sr.mul(Comp(sr, m, len, j, j), Comp(sr, m, len, i, j - 1))
    else
      sr.mul(sr.mul(Inc(sr, m, len, j, i + 1 + k), Sib(sr, m, len, i + 1 + k, i)), m.sib[i][j][i + 1 + k])
  }

  /**
   * Term k of the second-order sum for I(i -> j): the first term is the
   * first-child case C(i -> i) (x) C(j -> i + 1); for r = i + k further in,
   * I(i -> r) (x) S(r, j) (x) sib(head i, dependent j, sibling r), except that
   * every such term is zero for the span starting at 0.
   */
  ghost function RightSiblingTerm<T>(sr: Semiring<T>, m: ArcScores<T>, len: nat, i: nat, j: nat, k: nat): T
    requires WellFormed(m) && m.SecondOrder? && i < j < |m.arc| && k < j - i
    decreases j - i, 0, 0
  {
    if k == 0 then sr.mul(Comp(sr, m, len, i, i), Comp(sr, m, len, j, i + 1))
    else if i == 0 then sr.zero
    else sr.mul(sr.mul(Inc(sr, m, len, i, i + k), Sib(sr, m, len, i + k, j)), m.sib[j][i][i + k])
  }

  /** The first k terms of the I(j -> i) sum. */
  ghost function LeftSiblings<T>(sr: Semiring<T>, m: ArcScores<T>, len: nat, i: nat, j: nat, k: nat): T
    requires WellFormed(m) && m.SecondOrder? && i < j < |m.arc| && k <= j - i
    decreases j - i, 1, k
  {
    if k == 0 then sr.zero else sr.add(LeftSiblings(sr, m, len, i, j, k - 1), LeftSiblingTerm(sr, m, len, i, j, k - 1))
  }

  /** The first k terms of the I(i -> j) sum. */
  ghost function RightSiblings<T>(sr: Semiring<T>, m: ArcScores<T>, len: nat, i: nat, j: nat, k: nat): T
    requires WellFormed(m) && m.SecondOrder? && i < j < |m.arc| && k <= j - i
    decreases j - i, 1, k
  {
    if k == 0 then sr.zero else sr.add(RightSiblings(sr, m, len, i, j, k - 1), RightSiblingTerm(sr, m, len, i, j, k - 1))
  }

  /** s_i[h][d]: the incomplete span of arc h -> d; nothing for h == d. */
  ghost function Inc<T>(sr: Semiring<T>, m: ArcScores<T>, len: nat, h: nat, d: nat): T
    requires WellFormed(m) && h < |m.arc| && d < |m.arc|
    decreases Width(h, d), 2, 0
  {
    if h == d then sr.zero
    else if d < h then
      sr.mul(if m.FirstOrder? then Link(sr, m, len, d, h, h - d) else LeftSiblings(sr, m, len, d, h, h - d), m.arc[h][d])
    else
      sr.mul(if m.FirstOrder? then Link(sr, m, len, h, d, d - h) else RightSiblings(sr, m, len, h, d, d - h), m.arc[h][d])
  }

  /** s_s[x][y]: the sibling span, the same value in both directions; nothing for x == y. */
  ghost function Sib<T>(sr: Semiring<T>, m: ArcScores<T>, len: nat, x: nat, y: nat): T
    requires WellFormed(m) && x < |m.arc| && y < |m.arc|
    decreases Width(x, y), 2, 0
  {
    if x == y then sr.zero
    else if x < y then Link(sr, m, len, x, y, y - x)
    else Link(sr, m, len, y, x, x - y)
  }

  /** The first k terms of the sum over r in [i, j) of C(r -> i) (x) I(j -> r). */
  ghost function CompLeft<T>(sr: Semiring<T>, m: ArcScores<T>, len: nat, i: nat, j: nat, k: nat): T
    requires WellFormed(m) && i < j < |m.arc| && k <= j - i
    decreases j - i, 3, k
  {
    if k == 0 then sr.zero
    else sr.add(CompLeft(sr, m, len, i, j, k - 1), sr.mul(Comp(sr, m, len, i + k - 1, i), Inc(sr, m, len, j, i + k - 1)))
  }

  /** The first k terms of the sum over r in (i, j] of I(i -> r) (x) C(r -> j). */
  ghost function CompRight<T>(sr: Semiring<T>, m: ArcScores<T>, len: nat, i: nat, j: nat, k: nat): T
    requires WellFormed(m) && i < j < |m.arc| && k <= j - i
    decreases j - i, 3, k
  {
    if k == 0 then sr.zero
    else sr.add(CompRight(sr, m, len, i, j, k - 1), sr.mul(Inc(sr, m, len, i, i + k), Comp(sr, m, len, i + k, j)))
  }

  /**
   * s_c[h][e]: the complete span; one (the empty span) for h == e, and zero
   * for a span from the root 0 whose end e is not the sentence length len.
   */
  ghost function Comp<T>(sr: Semiring<T>, m: ArcScores<T>, len: nat, h: nat, e: nat): T
    requires WellFormed(m) && h < |m.arc| && e < |m.arc|
    decreases Width(h, e), 4, 0
  {
    if h == e then sr.one
    else if e < h then CompLeft(sr, m, len, e, h, h - e)
    else if h == 0 && e != len then sr.zero
    else CompRight(sr, m, len, h, e, e - h)
  }

  // ---------------------------------------------------------------------------
  // The tables against the values, up to a width
  // ---------------------------------------------------------------------------

  predicate IsTable<T>(a: array2<T>, L: nat)
  {
    a.Length0 == L && a.Length1 == L
  }

  /** Every cell of s_i narrower than w holds Inc. */
  ghost predicate IncAgree<T>(sr: Semiring<T>, m: ArcScores<T>, len: nat, s_i: array2<T>, w: nat)
    requires WellFormed(m) && IsTable(s_i, |m.arc|)
    reads s_i
  {
    forall x, y | 0 <= x < |m.arc| && 0 <= y < |m.arc| && Width(x, y) < w :: s_i[x, y] == Inc(sr, m, len, x, y)
  }

  /** Every cell of s_c narrower than w holds Comp. */
  ghost predicate CompAgree<T>(sr: Semiring<T>, m: ArcScores<T>, len: nat, s_c: array2<T>, w: nat)
    requires WellFormed(m) && IsTable(s_c, |m.arc|)
    reads s_c
  {
    forall x, y | 0 <= x < |m.arc| && 0 <= y < |m.arc| && Width(x, y) < w :: s_c[x, y] == Comp(sr, m, len, x, y)
  }

  /** Every cell of s_s narrower than w holds Sib. */
  ghost predicate SibAgree<T>(sr: Semiring<T>, m: ArcScores<T>, len: nat, s_s: array2<T>, w: nat)
    requires WellFormed(m) && IsTable(s_s, |m.arc|)
    reads s_s
  {
    forall x, y | 0 <= x < |m.arc| && 0 <= y < |m.arc| && Width(x, y) < w :: s_s[x, y] == Sib(sr, m, len, x, y)
  }

  // ---------------------------------------------------------------------------
  // Per-span reductions over stripes (n spans of width w; span t is (t, t + w))
  // ---------------------------------------------------------------------------

  /** logsumexp over row t of stripe(s_c, n, w) + stripe(s_c, n, w, (w, 1)). */
  method SumLink<T>(sr: Semiring<T>, m: ArcScores<T>, len: nat, s_c: array2<T>, w: nat, t: nat) returns (acc: T)
    requires WellFormed(m) && IsTable(s_c, |m.arc|)
    requires 1 <= w && t + w < |m.arc|
    requires CompAgree(sr, m, len, s_c, w)
    ensures acc == Link(sr, m, len, t, t + w, w)
  {
    var n := |m.arc| - w;
    acc := sr.zero;
    for k := 0 to w
      invariant acc == Link(sr, m, len, t, t + w, k)
    {
      var left := ReadStripe(s_c, n, w, 0, 0, 1, t, k);   // C(i -> r), r = i + k
      var right := ReadStripe(s_c, n, w, w, 1, 1, t, k);  // C(j -> r + 1)
      acc := sr.add(acc, sr.mul(left, right));
    }
  }

  /** logsumexp over row t of stripe(s_c, n, w, (0, 0), 0) + stripe(s_i, n, w, (w, 0)). */
  method SumCompLeft<T>(sr: Semiring<T>, m: ArcScores<T>, len: nat, s_i: array2<T>, s_c: array2<T>, w: nat, t: nat)
    returns (acc: T)
    requires WellFormed(m) && IsTable(s_i, |m.arc|) && IsTable(s_c, |m.arc|)
    requires 1 <= w && t + w < |m.arc|
    requires CompAgree(sr, m, len, s_c, w) && IncAgree(sr, m, len, s_i, w + 1)
    ensures acc == CompLeft(sr, m, len, t, t + w, w)
  {
    var n := |m.arc| - w;
    acc := sr.zero;
    for k := 0 to w
      invariant acc == CompLeft(sr, m, len, t, t + w, k)
    {
      var comp := ReadStripe(s_c, n, w, 0, 0, 0, t, k);  // C(r -> i), r = i + k
      var inc := ReadStripe(s_i, n, w, w, 0, 1, t, k);   // I(j -> r)
      acc := sr.add(acc, sr.mul(comp, inc));
    }
  }

  /** logsumexp over row t of stripe(s_i, n, w, (0, 1)) + stripe(s_c, n, w, (1, w), 0). */
  method SumCompRight<T>(sr: Semiring<T>, m: ArcScores<T>, len: nat, s_i: array2<T>, s_c: array2<T>, w: nat, t: nat)
    returns (acc: T)
    requires WellFormed(m) && IsTable(s_i, |m.arc|) && IsTable(s_c, |m.arc|)
    requires 1 <= w && t + w < |m.arc|
    requires CompAgree(sr, m, len, s_c, w) && IncAgree(sr, m, len, s_i, w + 1)
    ensures acc == CompRight(sr, m, len, t, t + w, w)
  {
    var n := |m.arc| - w;
    acc := sr.zero;
    for k := 0 to w
      invariant acc == CompRight(sr, m, len, t, t + w, k)
    {
      var inc := ReadStripe(s_i, n, w, 0, 1, 1, t, k);   // I(i -> r), r = i + 1 + k
      var comp := ReadStripe(s_c, n, w, 1, w, 0, t, k);  // C(r -> j)
      acc := sr.add(acc, sr.mul(inc, comp));
    }
  }

  /**
   * Every stripe view the two dependency CRFs take of an L x L table at width
   * w fits the table's storage, so as_strided accepts it: the split sums,
   * the complete-span sums, and the second-order sibling and first-child
   * stripes of width 1.
   */
  lemma DependencyStripesFit(L: nat, w: nat)
    requires 1 <= w < L
    ensures var n := L - w;
      && StripeFits(L * L, L, n, w, 0, 0, 1) && StripeFits(L * L, L, n, w, w, 1, 1)
      && StripeFits(L * L, L, n, w, 0, 0, 0) && StripeFits(L * L, L, n, w, w, 0, 1)
      && StripeFits(L * L, L, n, w, 0, 1, 1) && StripeFits(L * L, L, n, w, 1, w, 0)
      && StripeFits(L * L, L, n, w, 1, 0, 0) && StripeFits(L * L, L, n, w, 0, w, 0)
      && StripeFits(L * L, L, n, 1, w, w, 1) && StripeFits(L * L, L, n, 1, 0, w - 1, 1)
      && StripeFits(L * L, L, n, 1, 0, 0, 1) && StripeFits(L * L, L, n, 1, w, 1, 1)
  {
    var n := L - w;
    StripeFitsTable(L, L, n, w, 0, 0, 1);
    StripeFitsTable(L, L, n, w, w, 1, 1);
    StripeFitsTable(L, L, n, w, 0, 0, 0);
    StripeFitsTable(L, L, n, w, w, 0, 1);
    StripeFitsTable(L, L, n, w, 0, 1, 1);
    StripeFitsTable(L, L, n, w, 1, w, 0);
    StripeFitsTable(L, L, n, w, 1, 0, 0);
    StripeFitsTable(L, L, n, w, 0, w, 0);
    StripeFitsTable(L, L, n, 1, w, w, 1);
    StripeFitsTable(L, L, n, 1, 0, w - 1, 1);
    StripeFitsTable(L, L, n, 1, 0, 0, 1);
    StripeFitsTable(L, L, n, 1, w, 1, 1);
  }

  // ---------------------------------------------------------------------------
  // Filling one diagonal
  // ---------------------------------------------------------------------------

  /** s_i.diagonal(-w) and s_i.diagonal(w) of the first-order CRF, both from the same sum. */
  method FillIncomplete<T>(sr: Semiring<T>, m: ArcScores<T>, len: nat, s_i: array2<T>, s_c: array2<T>, w: nat)
    requires WellFormed(m) && m.FirstOrder? && IsTable(s_i, |m.arc|) && IsTable(s_c, |m.arc|) && s_i != s_c
    requires 1 <= w < |m.arc|
    requires CompAgree(sr, m, len, s_c, w)
    modifies s_i
    ensures forall x, y | 0 <= x < |m.arc| && 0 <= y < |m.arc| ::
              s_i[x, y] == if Width(x, y) == w then Inc(sr, m, len, x, y) else old(s_i[x, y])
  {
    var L := |m.arc|;
    for t := 0 to L - w
      invariant forall x, y | 0 <= x < L && 0 <= y < L ::
                  s_i[x, y] == if Width(x, y) == w && Min(x, y) < t then Inc(sr, m, len, x, y) else old(s_i[x, y])
    {
      var sum := SumLink(sr, m, len, s_c, w, t);
      s_i[t + w, t] := sr.mul(sum, m.arc[t + w][t]);
      s_i[t, t + w] := sr.mul(sum, m.arc[t][t + w]);
    }
  }

  /** s_s.diagonal(-w) and s_s.diagonal(w) of the second-order CRF: the same sum, written on both sides. */
  method FillSibling<T>(sr: Semiring<T>, m: ArcScores<T>, len: nat, s_s: array2<T>, s_c: array2<T>, w: nat)
    requires WellFormed(m) && IsTable(s_s, |m.arc|) && IsTable(s_c, |m.arc|) && s_s != s_c
    requires 1 <= w < |m.arc|
    requires CompAgree(sr, m, len, s_c, w)
    modifies s_s
    ensures forall x, y | 0 <= x < |m.arc| && 0 <= y < |m.arc| ::
              s_s[x, y] == if Width(x, y) == w then Sib(sr, m, len, x, y) else old(s_s[x, y])
  {
    var L := |m.arc|;
    for t := 0 to L - w
      invariant forall x, y | 0 <= x < L && 0 <= y < L ::
                  s_s[x, y] == if Width(x, y) == w && Min(x, y) < t then Sib(sr, m, len, x, y) else old(s_s[x, y])
    {
      var sum := SumLink(sr, m, len, s_c, w, t);
      s_s[t + w, t] := sum;
      s_s[t, t + w] := sum;
    }
  }

  /** s_c.diagonal(-w): C(j -> i) for every span of width w. */
  method FillCompleteLeft<T>(sr: Semiring<T>, m: ArcScores<T>, len: nat, s_i: array2<T>, s_c: array2<T>, w: nat)
    requires WellFormed(m) && IsTable(s_i, |m.arc|) && IsTable(s_c, |m.arc|) && s_i != s_c
    requires 1 <= w < |m.arc|
    requires CompAgree(sr, m, len, s_c, w) && IncAgree(sr, m, len, s_i, w + 1)
    modifies s_c
    ensures forall x, y | 0 <= x < |m.arc| && 0 <= y < |m.arc| ::
              s_c[x, y] == if x == y + w then Comp(sr, m, len, x, y) else old(s_c[x, y])
  {
    var L := |m.arc|;
    for t := 0 to L - w
      invariant CompAgree(sr, m, len, s_c, w)
      invariant forall x, y | 0 <= x < L && 0 <= y < L ::
                  s_c[x, y] == if x == y + w && y < t then Comp(sr, m, len, x, y) else old(s_c[x, y])
    {
      var sum := SumCompLeft(sr, m, len, s_i, s_c, w, t);
      s_c[t + w, t] := sum;
    }
  }

  /**
   * s_c.diagonal(w): C(i -> j) for every span of width w, before the root
   * mask of the same width is applied.
   */
  method FillCompleteRight<T>(sr: Semiring<T>, m: ArcScores<T>, len: nat, s_i: array2<T>, s_c: array2<T>, w: nat)
    requires WellFormed(m) && IsTable(s_i, |m.arc|) && IsTable(s_c, |m.arc|) && s_i != s_c
    requires 1 <= w < |m.arc|
    requires CompAgree(sr, m, len, s_c, w) && IncAgree(sr, m, len, s_i, w + 1)
    modifies s_c
    ensures forall x, y | 0 <= x < |m.arc| && 0 <= y < |m.arc| ::
              s_c[x, y] == if y == x + w then CompRight(sr, m, len, x, y, w) else old(s_c[x, y])
  {
    var L := |m.arc|;
    for t := 0 to L - w
      invariant CompAgree(sr, m, len, s_c, w)
      invariant forall x, y | 0 <= x < L && 0 <= y < L ::
                  s_c[x, y] == if y == x + w && x < t then CompRight(sr, m, len, x, y, w) else old(s_c[x, y])
    {
      var sum := SumCompRight(sr, m, len, s_i, s_c, w, t);
      s_c[t, t + w] := sum;
    }
  }

  /**
   * Both complete diagonals of width w and then the root mask
   * s_c[0, w] = -inf unless w is the sentence length; the step shared by
   * both dependency CRFs.
   */
  method FillComplete<T>(sr: Semiring<T>, m: ArcScores<T>, len: nat, s_i: array2<T>, s_c: array2<T>, w: nat)
    requires WellFormed(m) && IsTable(s_i, |m.arc|) && IsTable(s_c, |m.arc|) && s_i != s_c
    requires 1 <= w < |m.arc|
    requires CompAgree(sr, m, len, s_c, w) && IncAgree(sr, m, len, s_i, w + 1)
    modifies s_c
    ensures CompAgree(sr, m, len, s_c, w + 1)
    ensures forall x, y | 0 <= x < |m.arc| && 0 <= y < |m.arc| && Width(x, y) > w :: s_c[x, y] == old(s_c[x, y])
  {
    FillCompleteLeft(sr, m, len, s_i, s_c, w);
    FillCompleteRight(sr, m, len, s_i, s_c, w);
    if len != w {
      s_c[0, w] := sr.zero;
    }
  }

  // ---------------------------------------------------------------------------
  // Spans from the root
  // ---------------------------------------------------------------------------

  /**
   * Within the sentence, the first-order split sum of a span (0, j) keeps only
   * its first term: C(0 -> r) is zero for every 0 < r < j <= len.
   */
  lemma {:induction false} RootLinkFirstTerm<T(!new)>(sr: Semiring<T>, m: ArcScores<T>, len: nat, j: nat, k: nat)
    requires ZeroIsNeutral(sr) && WellFormed(m)
    requires 1 <= k <= j <= len && j < |m.arc|
    ensures Link(sr, m, len, 0, j, k) == sr.mul(Comp(sr, m, len, 0, 0), Comp(sr, m, len, j, 1))
  {
    if k > 1 {
      RootLinkFirstTerm(sr, m, len, j, k - 1);
      assert Comp(sr, m, len, 0, k - 1) == sr.zero;
    }
  }

  /** The second-order sum for a rightward span (0, j) keeps only its first-child term, ir0. */
  lemma {:induction false} RootRightSiblingsFirstTerm<T(!new)>(sr: Semiring<T>, m: ArcScores<T>, len: nat, j: nat, k: nat)
    requires ZeroIsNeutral(sr) && WellFormed(m) && m.SecondOrder?
    requires 1 <= k <= j < |m.arc|
    ensures RightSiblings(sr, m, len, 0, j, k) == sr.mul(Comp(sr, m, len, 0, 0), Comp(sr, m, len, j, 1))
  {
    if k > 1 {
      RootRightSiblingsFirstTerm(sr, m, len, j, k - 1);
    }
  }

  /**
   * With the semiring laws, the incomplete span from the root to j is one arc
   * over the complete span from j back to 1: I(0 -> j) = C(j -> 1) (x) s(0 -> j).
   * In the second-order CRF this holds for every j, since every sibling
   * term of the span from 0 is -inf; in the first-order CRF for j up to the
   * sentence length, since the root mask empties every C(0 -> r) in between.
   */
  lemma RootIncomplete<T(!new)>(sr: Semiring<T>, m: ArcScores<T>, len: nat, j: nat)
    requires IsCommutativeSemiring(sr) && WellFormed(m)
    requires 1 <= j < |m.arc| && (m.FirstOrder? ==> j <= len)
    ensures Inc(sr, m, len, 0, j) == sr.mul(Comp(sr, m, len, j, 1), m.arc[0][j])
  {
    CommutativeSemiringZero(sr);
    if m.FirstOrder? {
      RootLinkFirstTerm(sr, m, len, j, j);
    } else {
      RootRightSiblingsFirstTerm(sr, m, len, j, j);
    }
    assert sr.mul(sr.one, Comp(sr, m, len, j, 1)) == sr.mul(Comp(sr, m, len, j, 1), sr.one);
  }

  // ---------------------------------------------------------------------------
  // Locality: a span's value depends on the scores inside it only
  // ---------------------------------------------------------------------------

  /** m and m' are models of the same order that agree on every arc and sibling score among positions 0 .. n. */
  ghost predicate AgreeUpTo<T>(m: ArcScores<T>, m': ArcScores<T>, n: nat)
    requires WellFormed(m) && WellFormed(m')
  {
    && n < |m.arc| && n < |m'.arc| && m.FirstOrder? == m'.FirstOrder?
    && (forall h, d | 0 <= h <= n && 0 <= d <= n :: m.arc[h][d] == m'.arc[h][d])
    && (m.SecondOrder? ==> forall d, h, s | 0 <= d <= n && 0 <= h <= n && 0 <= s <= n :: m.sib[d][h][s] == m'.sib[d][h][s])
  }

  lemma {:induction false} LinkUpTo<T>(sr: Semiring<T>, m: ArcScores<T>, m': ArcScores<T>, len: nat, n: nat, i: nat, j: nat, k: nat)
    requires WellFormed(m) && WellFormed(m') && AgreeUpTo(m, m', n) && i < j <= n && k <= j - i
    ensures Link(sr, m, len, i, j, k) == Link(sr, m', len, i, j, k)
    decreases j - i, 0, k
  {
    if k > 0 {
      LinkUpTo(sr, m, m', len, n, i, j, k - 1);
      CompUpTo(sr, m, m', len, n, i, i + k - 1);
      CompUpTo(sr, m, m', len, n, j, i + k);
    }
  }

  lemma {:induction false} LeftSiblingTermUpTo<T>(sr: Semiring<T>, m: ArcScores<T>, m': ArcScores<T>, len: nat, n: nat, i: nat, j: nat, k: nat)
    requires WellFormed(m) && WellFormed(m') && AgreeUpTo(m, m', n) && m.SecondOrder? && i < j <= n && k < j - i
    ensures LeftSiblingTerm(sr, m, len, i, j, k) == LeftSiblingTerm(sr, m', len, i, j, k)
    decreases j - i, 0, 0
  {
    if k == j - i - 1 {
      CompUpTo(sr, m, m', len, n, j, j);
      CompUpTo(sr, m, m', len, n, i, j - 1);
    } else {
      IncUpTo(sr, m, m', len, n, j, i + 1 + k);
      SibUpTo(sr, m, m', len, n, i + 1 + k, i);
    }
  }

  lemma {:induction false} RightSiblingTermUpTo<T>(sr: Semiring<T>, m: ArcScores<T>, m': ArcScores<T>, len: nat, n: nat, i: nat, j: nat, k: nat)
    requires WellFormed(m) && WellFormed(m') && AgreeUpTo(m, m', n) && m.SecondOrder? && i < j <= n && k < j - i
    ensures RightSiblingTerm(sr, m, len, i, j, k) == RightSiblingTerm(sr, m', len, i, j, k)
    decreases j - i, 0, 0
  {
    if k == 0 {
      CompUpTo(sr, m, m', len, n, i, i);
      CompUpTo(sr, m, m', len, n, j, i + 1);
    } else if i > 0 {
      IncUpTo(sr, m, m', len, n, i, i + k);
      SibUpTo(sr, m, m', len, n, i + k, j);
    }
  }

  lemma {:induction false} LeftSiblingsUpTo<T>(sr: Semiring<T>, m: ArcScores<T>, m': ArcScores<T>, len: nat, n: nat, i: nat, j: nat, k: nat)
    requires WellFormed(m) && WellFormed(m') && AgreeUpTo(m, m', n) && m.SecondOrder? && i < j <= n && k <= j - i
    ensures LeftSiblings(sr, m, len, i, j, k) == LeftSiblings(sr, m', len, i, j, k)
    decreases j - i, 1, k
  {
    if k > 0 {
      LeftSiblingsUpTo(sr, m, m', len, n, i, j, k - 1);
      LeftSiblingTermUpTo(sr, m, m', len, n, i, j, k - 1);
    }
  }

  lemma {:induction false} RightSiblingsUpTo<T>(sr: Semiring<T>, m: ArcScores<T>, m': ArcScores<T>, len: nat, n: nat, i: nat, j: nat, k: nat)
    requires WellFormed(m) && WellFormed(m') && AgreeUpTo(m, m', n) && m.SecondOrder? && i < j <= n && k <= j - i
    ensures RightSiblings(sr, m, len, i, j, k) == RightSiblings(sr, m', len, i, j, k)
    decreases j - i, 1, k
  {
    if k > 0 {
      RightSiblingsUpTo(sr, m, m', len, n, i, j, k - 1);
      RightSiblingTermUpTo(sr, m, m', len, n, i, j, k - 1);
    }
  }

  lemma {:induction false} IncUpTo<T>(sr: Semiring<T>, m: ArcScores<T>, m': ArcScores<T>, len: nat, n: nat, h: nat, d: nat)
    requires WellFormed(m) && WellFormed(m') && AgreeUpTo(m, m', n) && h <= n && d <= n
    ensures Inc(sr, m, len, h, d) == Inc(sr, m', len, h, d)
    decreases Width(h, d), 2, 0
  {
    if d < h {
      if m.FirstOrder? {
        LinkUpTo(sr, m, m', len, n, d, h, h - d);
      } else {
        LeftSiblingsUpTo(sr, m, m', len, n, d, h, h - d);
      }
    } else if h < d {
      if m.FirstOrder? {
        LinkUpTo(sr, m, m', len, n, h, d, d - h);
      } else {
        RightSiblingsUpTo(sr, m, m', len, n, h, d, d - h);
      }
    }
  }

  lemma {:induction false} SibUpTo<T>(sr: Semiring<T>, m: ArcScores<T>, m': ArcScores<T>, len: nat, n: nat, x: nat, y: nat)
    requires WellFormed(m) && WellFormed(m') && AgreeUpTo(m, m', n) && x <= n && y <= n
    ensures Sib(sr, m, len, x, y) == Sib(sr, m', len, x, y)
    decreases Width(x, y), 2, 0
  {
    if x < y {
      LinkUpTo(sr, m, m', len, n, x, y, y - x);
    } else if y < x {
      LinkUpTo(sr, m, m', len, n, y, x, x - y);
    }
  }

  lemma {:induction false} CompLeftUpTo<T>(sr: Semiring<T>, m: ArcScores<T>, m': ArcScores<T>, len: nat, n: nat, i: nat, j: nat, k: nat)
    requires WellFormed(m) && WellFormed(m') && AgreeUpTo(m, m', n) && i < j <= n && k <= j - i
    ensures CompLeft(sr, m, len, i, j, k) == CompLeft(sr, m', len, i, j, k)
    decreases j - i, 3, k
  {
    if k > 0 {
      CompLeftUpTo(sr, m, m', len, n, i, j, k - 1);
      CompUpTo(sr, m, m', len, n, i + k - 1, i);
      IncUpTo(sr, m, m', len, n, j, i + k - 1);
    }
  }

  lemma {:induction false} CompRightUpTo<T>(sr: Semiring<T>, m: ArcScores<T>, m': ArcScores<T>, len: nat, n: nat, i: nat, j: nat, k: nat)
    requires WellFormed(m) && WellFormed(m') && AgreeUpTo(m, m', n) && i < j <= n && k <= j - i
    ensures CompRight(sr, m, len, i, j, k) == CompRight(sr, m', len, i, j, k)
    decreases j - i, 3, k
  {
    if k > 0 {
      CompRightUpTo(sr, m, m', len, n, i, j, k - 1);
      IncUpTo(sr, m, m', len, n, i, i + k);
      CompUpTo(sr, m, m', len, n, i + k, j);
    }
  }

  /**
   * Complete spans over positions 0 .. n take the same value in two models
   * that agree on the scores among those positions; in particular the
   * partition value C(0 -> len) ignores every score at a padding position.
   */
  lemma {:induction false} CompUpTo<T>(sr: Semiring<T>, m: ArcScores<T>, m': ArcScores<T>, len: nat, n: nat, h: nat, e: nat)
    requires WellFormed(m) && WellFormed(m') && AgreeUpTo(m, m', n) && h <= n && e <= n
    ensures Comp(sr, m, len, h, e) == Comp(sr, m', len, h, e)
    decreases Width(h, e), 4, 0
  {
    if e < h {
      CompLeftUpTo(sr, m, m', len, n, e, h, h - e);
    } else if h < e && (h != 0 || e == len) {
      CompRightUpTo(sr, m, m', len, n, h, e, e - h);
    }
  }
}
