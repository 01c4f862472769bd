/**
 * CRFConstituency of supar/modules/treecrf.py: the inside pass over the
 * binary bracketings of one sentence, and the loss numerator built on it.
 * Span (i, j) covers the fenceposts i < j; s[i][j] holds its inside value.
 */
module CrfConstituency {
  import opened Semiring
  import opened MaxPlus
  import opened Wrappers
  import opened Tensors
  import opened Fn
  import opened DependencySpans

  /** The inside value of span (i, j): its own score over the sum of its splits; a width-1 span is just its score. */
  ghost function Chart<T>(sr: Semiring<T>, scores: seq<seq<T>>, i: nat, j: nat): T
    requires IsMatrix(scores, |scores|, |scores|) && i < j < |scores|
    decreases j - i, 1, 0
  {
    if j == i + 1 then scores[i][j] else sr.mul(Splits(sr, scores, i, j, j - i - 1), scores[i][j])
  }

  /** The first k terms of the sum over split points m in (i, j) of s[i][m] (x) s[m][j]. */
  ghost function Splits<T>(sr: Semiring<T>, scores: seq<seq<T>>, i: nat, j: nat, k: nat): T
    requires IsMatrix(scores, |scores|, |scores|) && i < j < |scores| && k < j - i
    decreases j - i, 0, k
  {
    if k == 0 then sr.zero
    else sr.add(Splits(sr, scores, i, j, k - 1), sr.mul(Chart(sr, scores, i, i + k), Chart(sr, scores, i + k, j)))
  }

  /** The cell (i, j) of the chart: the inside value above the diagonal, zero (-inf) elsewhere. */
  ghost function Cell<T>(sr: Semiring<T>, scores: seq<seq<T>>, i: nat, j: nat): T
    requires IsMatrix(scores, |scores|, |scores|) && i < |scores| && j < |scores|
  {
    if i < j then Chart(sr, scores, i, j) else sr.zero
  }

  /** Every span of s narrower than w holds its inside value. */
  ghost predicate ChartAgree<T>(sr: Semiring<T>, scores: seq<seq<T>>, s: array2<T>, w: nat)
    requires IsMatrix(scores, |scores|, |scores|) && IsTable(s, |scores|)
    reads s
  {
    forall i, j | 0 <= i < j < |scores| && j - i < w :: s[i, j] == Chart(sr, scores, i, j)
  }

  /** logsumexp over row t of stripe(s, n, w - 1, (0, 1)) + stripe(s, n, w - 1, (1, w), 0). */
  method SumSplits<T>(sr: Semiring<T>, scores: seq<seq<T>>, s: array2<T>, w: nat, t: nat) returns (acc: T)
    requires IsMatrix(scores, |scores|, |scores|) && IsTable(s, |scores|)
    requires 2 <= w && t + w < |scores|
    requires ChartAgree(sr, scores, s, w)
    ensures acc == Splits(sr, scores, t, t + w, w - 1)
  {
    var n := |scores| - w;
    acc := sr.zero;
    for k := 0 to w - 1
      invariant acc == Splits(sr, scores, t, t + w, k)
    {
      var left := ReadStripe(s, n, w - 1, 0, 1, 1, t, k);   // s[i][m], m = i + 1 + k
      var right := ReadStripe(s, n, w - 1, 1, w, 0, t, k);  // s[m][j]
      acc := sr.add(acc, sr.mul(left, right));
    }
  }

  /** The two stripe views of the chart at width w >= 2 fit its storage. */
  lemma ConstituencyStripesFit(L: nat, w: nat)
    requires 2 <= w < L
    ensures StripeFits(L * L, L, L - w, w - 1, 0, 1, 1) && StripeFits(L * L, L, L - w, w - 1, 1, w, 0)
  {
    StripeFitsTable(L, L, L - w, w - 1, 0, 1, 1);
    StripeFitsTable(L, L, L - w, w - 1, 1, w, 0);
  }

  /**
   * The inside pass: every cell above the diagonal holds its inside value,
   * width-1 spans their own score, and the diagonal and the lower triangle
   * stay zero (-inf).  The mask the code passes in is not read by it.
   */
  method Inside<T>(sr: Semiring<T>, scores: seq<seq<T>>) returns (s: array2<T>)
    requires IsMatrix(scores, |scores|, |scores|)
    ensures IsTable(s, |scores|)
    ensures forall i, j | 0 <= i < |scores| && 0 <= j < |scores| :: s[i, j] == Cell(sr, scores, i, j)
    ensures forall i, j | 0 <= j <= i < |scores| :: s[i, j] == sr.zero
    ensures forall i | 0 <= i && i + 1 < |scores| :: s[i, i + 1] == scores[i][i + 1]
  {
    var L := |scores|;
    s := new T[L, L]((_, _) => sr.zero);
    var w := 1;
    while w < L
      invariant 1 <= w && (L > 0 ==> w <= L)
      invariant forall i, j | 0 <= i < L && 0 <= j < L ::
                  s[i, j] == if i < j && j - i < w then Chart(sr, scores, i, j) else sr.zero
    {
      for t := 0 to L - w
        invariant forall i, j | 0 <= i < L && 0 <= j < L ::
                    s[i, j] == if i < j && (j - i < w || (j - i == w && i < t)) then Chart(sr, scores, i, j) else sr.zero
      {
        if w == 1 {
          s[t, t + 1] := scores[t][t + 1];
        } else {
          var sum := SumSplits(sr, scores, s, w, t);
          s[t, t + w] := sr.mul(sum, scores[t][t + w]);
        }
      }
      w := w + 1;
    }
  }

  datatype CrfError =
    | EmptySentence     // mask[:, 0] needs a first row
    | LengthOutOfRange  // gathering s[0][len] needs len < seq_len

  /** The two terms of the loss numerator logZ - gold. */
  datatype Loss<T> = Loss(logZ: T, gold: T)

  /** The cells where both masks are set. */
  function Both(a: seq<seq<bool>>, b: seq<seq<bool>>, L: nat): (c: seq<seq<bool>>)
    requires IsMatrix(a, L, L) && IsMatrix(b, L, L)
    ensures IsMatrix(c, L, L) && forall i, j | 0 <= i < L && 0 <= j < L :: c[i][j] == (a[i][j] && b[i][j])
  {
    seq(L, i requires 0 <= i < L => seq(L, j requires 0 <= j < L => a[i][j] && b[i][j]))
  }

  /** The score of the gold bracketing: the product of the scores where mask and target are both set, row by row. */
  function Gold<T>(sr: Semiring<T>, scores: seq<seq<T>>, mask: seq<seq<bool>>, target: seq<seq<bool>>): T
    requires IsMatrix(scores, |scores|, |scores|) && IsMatrix(mask, |scores|, |scores|) && IsMatrix(target, |scores|, |scores|)
  {
    var L := |scores|;
    Product(sr, Select(Storage(scores, L), Storage(Both(mask, target, L), L)))
  }

  /**
   * forward with a target: the sentence length is the number of set entries
   * in the first row of the mask, logZ is s[0][len], and the gold term the
   * product over the target's spans inside the mask.
   */
  method Forward<T>(sr: Semiring<T>, scores: seq<seq<T>>, mask: seq<seq<bool>>, target: seq<seq<bool>>)
    returns (res: Result<Loss<T>, CrfError>)
    requires IsMatrix(scores, |scores|, |scores|) && IsMatrix(mask, |scores|, |scores|) && IsMatrix(target, |scores|, |scores|)
    ensures |scores| == 0 <==> res == Failure(EmptySentence)
    ensures res == Failure(LengthOutOfRange) <==> |scores| > 0 && Count(mask[0]) >= |scores|
    ensures res.Success? ==> res.value.logZ == Cell(sr, scores, 0, Count(mask[0]))
    ensures res.Success? ==> res.value.gold == Gold(sr, scores, mask, target)
  {
    var L := |scores|;
    if L == 0 {
      return Failure(EmptySentence);
    }
    var len := Count(mask[0]);
    var s := Inside(sr, scores);
    if len >= L {
      return Failure(LengthOutOfRange);
    }
    return Success(Loss(s[0, len], Gold(sr, scores, mask, target)));
  }

  // ---------------------------------------------------------------------------
  // What the chart means: the best binary bracketing under max-plus
  // ---------------------------------------------------------------------------

  /** A binary bracketing of a span: a single word, or a split point with a bracketing of each side. */
  datatype Bracketing = Leaf | Node(split: nat, left: Bracketing, right: Bracketing)

  /** t brackets exactly the span (i, j). */
  predicate Brackets(t: Bracketing, i: nat, j: nat)
  {
    match t
    case Leaf => j == i + 1
    case Node(m, l, r) => i < m < j && Brackets(l, i, m) && Brackets(r, m, j)
  }

  /** The score of a bracketing: the product of the scores of all its spans. */
  function Score<T>(sr: Semiring<T>, scores: seq<seq<T>>, t: Bracketing, i: nat, j: nat): T
    requires IsMatrix(scores, |scores|, |scores|) && j < |scores| && Brackets(t, i, j)
  {
    match t
    case Leaf => scores[i][j]
    case Node(m, l, r) => sr.mul(sr.mul(Score(sr, scores, l, i, m), Score(sr, scores, r, m, j)), scores[i][j])
  }

  /** Under max-plus every split term is below the running maximum. */
  lemma {:induction false} SplitsBound(scores: seq<seq<Ext>>, i: nat, j: nat, k: nat, m: nat)
    requires IsMatrix(scores, |scores|, |scores|) && i < j < |scores| && k < j - i
    requires 1 <= m <= k
    ensures Leq(Plus(Chart(Tropical, scores, i, i + m), Chart(Tropical, scores, i + m, j)), Splits(Tropical, scores, i, j, k))
  {
    var term := Plus(Chart(Tropical, scores, i, i + k), Chart(Tropical, scores, i + k, j));
    MaxBounds(Splits(Tropical, scores, i, j, k - 1), term);
    if m < k {
      SplitsBound(scores, i, j, k - 1, m);
    }
  }

  /** Under max-plus the running maximum is attained by one of its split terms. */
  lemma {:induction false} SplitsArgmax(scores: seq<seq<Ext>>, i: nat, j: nat, k: nat) returns (m: nat)
    requires IsMatrix(scores, |scores|, |scores|) && i < j < |scores| && 1 <= k < j - i
    ensures 1 <= m <= k
    ensures Splits(Tropical, scores, i, j, k) == Plus(Chart(Tropical, scores, i, i + m), Chart(Tropical, scores, i + m, j))
  {
    var term := Plus(Chart(Tropical, scores, i, i + k), Chart(Tropical, scores, i + k, j));
    if k == 1 {
      m := 1;
    } else {
      var m' := SplitsArgmax(scores, i, j, k - 1);
      MaxBounds(Splits(Tropical, scores, i, j, k - 1), term);
      m := if Splits(Tropical, scores, i, j, k) == term then k else m';
    }
  }

  /** Under max-plus the chart value of a span is at least the score of each of its bracketings. */
  lemma {:induction false} ChartBoundsBracketing(scores: seq<seq<Ext>>, t: Bracketing, i: nat, j: nat)
    requires IsMatrix(scores, |scores|, |scores|) && j < |scores| && Brackets(t, i, j)
    ensures Leq(Score(Tropical, scores, t, i, j), Chart(Tropical, scores, i, j))
  {
    match t
    case Leaf =>
    case Node(m, l, r) =>
      ChartBoundsBracketing(scores, l, i, m);
      ChartBoundsBracketing(scores, r, m, j);
      PlusMonotone(Score(Tropical, scores, l, i, m), Score(Tropical, scores, r, m, j),
                   Chart(Tropical, scores, i, m), Chart(Tropical, scores, m, j));
      SplitsBound(scores, i, j, j - i - 1, m - i);
      PlusMonotone(Plus(Score(Tropical, scores, l, i, m), Score(Tropical, scores, r, m, j)), scores[i][j],
                   Splits(Tropical, scores, i, j, j - i - 1), scores[i][j]);
  }

  /** Under max-plus some bracketing of the span scores exactly its chart value. */
  lemma {:induction false} BestBracketing(scores: seq<seq<Ext>>, i: nat, j: nat) returns (t: Bracketing)
    requires IsMatrix(scores, |scores|, |scores|) && i < j < |scores|
    ensures Brackets(t, i, j) && Score(Tropical, scores, t, i, j) == Chart(Tropical, scores, i, j)
    decreases j - i
  {
    if j == i + 1 {
      t := Leaf;
    } else {
      var k := SplitsArgmax(scores, i, j, j - i - 1);
      var l := BestBracketing(scores, i, i + k);
      var r := BestBracketing(scores, i + k, j);
      t := Node(i + k, l, r);
    }
  }

  /**
   * Under max-plus, s[0][len] after the inside pass is the score of the best
   * binary bracketing of the sentence: no bracketing scores more, and one
   * scores exactly that.
   */
  lemma ChartIsBestBracketing(scores: seq<seq<Ext>>, i: nat, j: nat)
    requires IsMatrix(scores, |scores|, |scores|) && i < j < |scores|
    ensures forall t | Brackets(t, i, j) :: Leq(Score(Tropical, scores, t, i, j), Chart(Tropical, scores, i, j))
    ensures exists t :: Brackets(t, i, j) && Score(Tropical, scores, t, i, j) == Chart(Tropical, scores, i, j)
  {
    forall t | Brackets(t, i, j)
      ensures Leq(Score(Tropical, scores, t, i, j), Chart(Tropical, scores, i, j))
    {
      ChartBoundsBracketing(scores, t, i, j);
    }
    var best := BestBracketing(scores, i, j);
  }

  // ---------------------------------------------------------------------------
  // What the gold term means: the score of the bracketing the target marks
  // ---------------------------------------------------------------------------

  /** The spans of a bracketing of (i, j), each child before its parent. */
  function Spans(t: Bracketing, i: nat, j: nat): (cells: seq<(nat, nat)>)
    requires Brackets(t, i, j)
    ensures forall c | c in cells :: i <= c.0 < c.1 <= j
    ensures |cells| > 0 && cells[|cells| - 1] == (i, j)
  {
    match t
    case Leaf => [(i, j)]
    case Node(m, l, r) => Spans(l, i, m) + Spans(r, m, j) + [(i, j)]
  }

  /** No span of a bracketing occurs twice: the two sides are disjoint and the whole span is wider than both. */
  lemma {:induction false} SpansDistinct(t: Bracketing, i: nat, j: nat)
    requires Brackets(t, i, j)
    ensures Distinct(Spans(t, i, j))
  {
    match t
    case Leaf =>
    case Node(m, l, r) =>
      var a, b := Spans(l, i, m), Spans(r, m, j);
      SpansDistinct(l, i, m);
      SpansDistinct(r, m, j);
      DistinctAppend(a, b);
      DistinctAppend(a + b, [(i, j)]);
  }

  /** The scores of a list of cells, in that order. */
  function ScoresAt<T>(scores: seq<seq<T>>, cells: seq<(nat, nat)>): seq<T>
    requires IsMatrix(scores, |scores|, |scores|)
    requires forall c | c in cells :: c.0 < |scores| && c.1 < |scores|
  {
    seq(|cells|, k requires 0 <= k < |cells| => scores[cells[k].0][cells[k].1])
  }

  /** The score of a bracketing is the product of the scores of its spans. */
  lemma {:induction false} ScoreIsProduct<T(!new)>(sr: Semiring<T>, scores: seq<seq<T>>, t: Bracketing, i: nat, j: nat)
    requires IsCommutativeSemiring(sr)
    requires IsMatrix(scores, |scores|, |scores|) && j < |scores| && Brackets(t, i, j)
    ensures Product(sr, ScoresAt(scores, Spans(t, i, j))) == Score(sr, scores, t, i, j)
  {
    match t
    case Leaf =>
      assert ScoresAt(scores, Spans(t, i, j))[..0] == [];
    case Node(m, l, r) =>
      var a, b := ScoresAt(scores, Spans(l, i, m)), ScoresAt(scores, Spans(r, m, j));
      var cl, cr := Spans(l, i, m), Spans(r, m, j);
      assert Spans(t, i, j) == cl + cr + [(i, j)];
      ScoresAtAppend(scores, cl + cr, [(i, j)]);
      ScoresAtAppend(scores, cl, cr);
      assert ScoresAt(scores, [(i, j)]) == [scores[i][j]];
      assert ScoresAt(scores, Spans(t, i, j)) == a + b + [scores[i][j]];
      ScoreIsProduct(sr, scores, l, i, m);
      ScoreIsProduct(sr, scores, r, m, j);
      ProductOfGroups(sr, a, b, scores[i][j]);
  }

  /** Reordering the cells reorders their scores. */
  lemma {:induction false} ScoresAtPermutation<T>(scores: seq<seq<T>>, cs: seq<(nat, nat)>, ds: seq<(nat, nat)>)
    requires IsMatrix(scores, |scores|, |scores|)
    requires forall c | c in cs :: c.0 < |scores| && c.1 < |scores|
    requires multiset(cs) == multiset(ds)
    ensures forall c | c in ds :: c.0 < |scores| && c.1 < |scores|
    ensures multiset(ScoresAt(scores, cs)) == multiset(ScoresAt(scores, ds))
    decreases |cs|
  {
    assert forall c | c in ds :: c in multiset(cs);
    if cs == [] {
      assert |ds| == |multiset(ds)| == 0;
    } else {
      var c: (nat, nat), cs' := cs[|cs| - 1], cs[..|cs| - 1];
      assert c in multiset(ds);
      var p :| 0 <= p < |ds| && ds[p] == c;
      var ds' := ds[..p] + ds[p + 1..];
      RemoveMatching(cs, ds, p);
      ScoresAtPermutation(scores, cs', ds');
      assert cs == cs' + [c];
      assert ds == ds[..p] + [c] + ds[p + 1..];
      ScoresAtAppend(scores, cs', [c]);
      ScoresAtAppend(scores, ds[..p] + [c], ds[p + 1..]);
      ScoresAtAppend(scores, ds[..p], [c]);
      ScoresAtAppend(scores, ds[..p], ds[p + 1..]);
    }
  }

  /** The cells (r, c) set in one row r of a mask, left to right. */
  function MarkedInRow(row: seq<bool>, r: nat): (cells: seq<(nat, nat)>)
    ensures forall c :: c in cells <==> c.0 == r && c.1 < |row| && row[c.1]
    ensures Distinct(cells)
  {
    if row == [] then []
    else
      var k := |row| - 1;
      var prefix := MarkedInRow(row[..k], r);
      DistinctAppend(prefix, if row[k] then [(r, k)] else []);
      prefix + (if row[k] then [(r, k)] else [])
  }

  /** The cells (row0 + r, c) set in the rows of a mask, in row-major order, the order of its flat storage. */
  function Marked(b: seq<seq<bool>>, L: nat, row0: nat): (cells: seq<(nat, nat)>)
    requires forall r | 0 <= r < |b| :: |b[r]| == L
    ensures forall c :: c in cells <==> row0 <= c.0 < row0 + |b| && c.1 < L && b[c.0 - row0][c.1]
    ensures Distinct(cells)
  {
    if b == [] then []
    else
      var head, rest := MarkedInRow(b[0], row0), Marked(b[1..], L, row0 + 1);
      DistinctAppend(head, rest);
      head + rest
  }

  /** Selecting along one row picks the scores of its marked cells. */
  lemma {:induction false} SelectRow<T>(scores: seq<seq<T>>, b: seq<seq<bool>>, r: nat, k: nat)
    requires IsMatrix(scores, |scores|, |scores|) && IsMatrix(b, |scores|, |scores|) && r < |scores| && k <= |scores|
    ensures Select(scores[r][..k], b[r][..k]) == ScoresAt(scores, MarkedInRow(b[r][..k], r))
  {
    if k > 0 {
      SelectRow(scores, b, r, k - 1);
      var xs, row := scores[r][..k], b[r][..k];
      assert xs[..k - 1] == scores[r][..k - 1] && row[..k - 1] == b[r][..k - 1];
      var last: seq<(nat, nat)> := if row[k - 1] then [(r, k - 1)] else [];
      assert MarkedInRow(row, r) == MarkedInRow(b[r][..k - 1], r) + last;
      assert ScoresAt(scores, last) == if row[k - 1] then [xs[k - 1]] else [];
      ScoresAtAppend(scores, MarkedInRow(b[r][..k - 1], r), last);
    }
  }

  /** scores[b] over the flat storages picks the scores of the marked cells, in row-major order. */
  lemma {:induction false} SelectStorage<T>(scores: seq<seq<T>>, b: seq<seq<bool>>, row0: nat)
    requires IsMatrix(scores, |scores|, |scores|) && IsMatrix(b, |scores|, |scores|) && row0 <= |scores|
    ensures Select(Storage(scores[row0..], |scores|), Storage(b[row0..], |scores|))
            == ScoresAt(scores, Marked(b[row0..], |scores|, row0))
    decreases |scores| - row0
  {
    var L := |scores|;
    if row0 < L {
      var xs, ys := scores[row0], Storage(scores[row0 + 1..], L);
      var m, n := b[row0], Storage(b[row0 + 1..], L);
      assert Storage(scores[row0..], L) == xs + ys by {
        assert scores[row0..][0] == xs && scores[row0..][1..] == scores[row0 + 1..];
      }
      assert Storage(b[row0..], L) == m + n by {
        assert b[row0..][0] == m && b[row0..][1..] == b[row0 + 1..];
      }
      SelectAppend(xs, ys, m, n);
      SelectRow(scores, b, row0, L);
      assert xs[..L] == xs && m[..L] == m;
      SelectStorage(scores, b, row0 + 1);
      var head, rest := MarkedInRow(m, row0), Marked(b[row0 + 1..], L, row0 + 1);
      assert Marked(b[row0..], L, row0) == head + rest by {
        assert b[row0..][0] == m && b[row0..][1..] == b[row0 + 1..];
      }
      ScoresAtAppend(scores, head, rest);
    }
  }

  /** The scores of concatenated cell lists are the concatenated scores. */
  lemma ScoresAtAppend<T>(scores: seq<seq<T>>, cs: seq<(nat, nat)>, ds: seq<(nat, nat)>)
    requires IsMatrix(scores, |scores|, |scores|)
    requires forall c | c in cs + ds :: c.0 < |scores| && c.1 < |scores|
    ensures ScoresAt(scores, cs + ds) == ScoresAt(scores, cs) + ScoresAt(scores, ds)
  {
  }

  /**
   * The gold term is the score of the gold bracketing: when the target marks
   * exactly the spans of a bracketing t of (i, j) and the mask keeps all of
   * them, the product over the selected scores equals Score(t).
   */
  lemma GoldIsBracketingScore<T(!new)>(sr: Semiring<T>, scores: seq<seq<T>>, mask: seq<seq<bool>>,
                                       target: seq<seq<bool>>, t: Bracketing, i: nat, j: nat)
    requires IsCommutativeSemiring(sr)
    requires IsMatrix(scores, |scores|, |scores|) && IsMatrix(mask, |scores|, |scores|) && IsMatrix(target, |scores|, |scores|)
    requires j < |scores| && Brackets(t, i, j)
    requires forall a, b | 0 <= a < |scores| && 0 <= b < |scores| :: target[a][b] <==> (a, b) in Spans(t, i, j)
    requires forall c | c in Spans(t, i, j) :: mask[c.0][c.1]
    ensures Gold(sr, scores, mask, target) == Score(sr, scores, t, i, j)
  {
    var L := |scores|;
    var marked, spans := Marked(target, L, 0), Spans(t, i, j);
    BothKeepsTarget(mask, target, t, i, j, L);
    assert scores[0..] == scores && target[0..] == target;
    SelectStorage(scores, target, 0);
    MarkedAreSpans(target, t, i, j, L);
    ScoresAtPermutation(scores, marked, spans);
    ProductPermutation(sr, ScoresAt(scores, marked), ScoresAt(scores, spans));
    ScoreIsProduct(sr, scores, t, i, j);
  }

  /** Where the target marks only cells the mask keeps, mask & target is the target. */
  lemma BothKeepsTarget(mask: seq<seq<bool>>, target: seq<seq<bool>>, t: Bracketing, i: nat, j: nat, L: nat)
    requires IsMatrix(mask, L, L) && IsMatrix(target, L, L) && j < L && Brackets(t, i, j)
    requires forall a, b | 0 <= a < L && 0 <= b < L :: target[a][b] <==> (a, b) in Spans(t, i, j)
    requires forall c | c in Spans(t, i, j) :: mask[c.0][c.1]
    ensures Both(mask, target, L) == target
  {
    var both := Both(mask, target, L);
    forall a | 0 <= a < L
      ensures both[a] == target[a]
    {
      forall b | 0 <= b < L
        ensures both[a][b] == target[a][b]
      {
        if target[a][b] {
          assert (a, b) in Spans(t, i, j);
        }
      }
    }
  }

  /** The cells the target marks, in row-major order, are the spans of t in another order. */
  lemma MarkedAreSpans(target: seq<seq<bool>>, t: Bracketing, i: nat, j: nat, L: nat)
    requires IsMatrix(target, L, L) && j < L && Brackets(t, i, j)
    requires forall a, b | 0 <= a < L && 0 <= b < L :: target[a][b] <==> (a, b) in Spans(t, i, j)
    ensures multiset(Marked(target, L, 0)) == multiset(Spans(t, i, j))
  {
    var marked, spans := Marked(target, L, 0), Spans(t, i, j);
    SpansDistinct(t, i, j);
    forall c
      ensures c in marked <==> c in spans
    {
      if c in spans {
        assert c.0 < L && c.1 < L;
      }
    }
    SameElementsPermutation(marked, spans);
  }

  /**
   * Under max-plus the loss numerator logZ - gold is never negative: the gold
   * bracketing of the sentence scores at most s[0][len].
   */
  lemma GoldBelowPartition(scores: seq<seq<Ext>>, mask: seq<seq<bool>>, target: seq<seq<bool>>, t: Bracketing, len: nat)
    requires IsMatrix(scores, |scores|, |scores|) && IsMatrix(mask, |scores|, |scores|) && IsMatrix(target, |scores|, |scores|)
    requires 0 < len < |scores| && Brackets(t, 0, len)
    requires forall a, b | 0 <= a < |scores| && 0 <= b < |scores| :: target[a][b] <==> (a, b) in Spans(t, 0, len)
    requires forall c | c in Spans(t, 0, len) :: mask[c.0][c.1]
    ensures Leq(Gold(Tropical, scores, mask, target), Cell(Tropical, scores, 0, len))
  {
    TropicalIsCommutativeSemiring();
    GoldIsBracketingScore(Tropical, scores, mask, target, t, 0, len);
    ChartBoundsBracketing(scores, t, 0, len);
  }
}
