# Tree-CRF inside algorithms and stripe indexing, in Dafny

This project models the structured-prediction core of a parser built on
supar. It covers the three tree CRFs of `supar/modules/treecrf.py` and the index
utilities of `supar/utils/fn.py` that their recurrences depend on:

- **CRFDependency.** This is the first-order (Eisner) inside pass. It fills the
  incomplete-span table `s_i` and the complete-span table `s_c` one diagonal at
  a time, by increasing width. It masks arcs by candidate heads under partial
  annotation and forces `s_c[0][w] = -inf` for every width that is not the
  sentence length. Its forward reads `logZ = s_c[0][len]` and computes the gold
  term of the loss.
- **CRF2oDependency.** This is the second-order (sibling) variant. It adds a
  sibling-span table `s_s` and the three-index sibling scores `sib[d][h][s]`.
  Every span's sum also has a first-child term (`il0`, `ir0`). For the spans
  that start at the root, `il0` is replaced by the identity and the other
  `ir` terms by `-inf`.
- **CRFConstituency.** This is the inside pass over binary bracketings. Its chart
  `s[i][j]` is the sum over splits of `s[i][m] (x) s[m][j]`, times the span's
  own score.
- **stripe.** Every read of a span table (`s_i`, `s_s`, `s_c`, `s`) inside
  the width loop goes through this view. It uses base offset `o0 * L + o1`, row stride `L + 1`,
  and a column stride of `1` or `L`.
- **pad and has_number.** `pad` copies sequences into a padded rectangle.
  `has_number` scans a token for a number.

The algorithms are written over an abstract semiring `(zero, one, add, mul)`:

- `logsumexp` is `add` and `+` is `mul`;
- `-inf` is `zero` and `0` is `one`.

The abstract `Semiring` parameter stands for the log semiring, which is not
written out, because it is floating point. Two concrete instances are given:

- max-plus over the integers extended with `-inf` (`MaxPlus.Tropical`);
- counting over the integers (`CountingSemiring.Counting`).

The batch dimension is dropped, because each lane is independent and differs
only in `len`. One sentence's tables are `array2` values, filled in place by
methods with loop invariants over the width.

Each inside method is proved equal, cell by cell, to a width-recursive
reference definition. These are ghost functions:

- `DependencySpans.Link`, `Inc`, `Sib`, `Comp`, with the partial sums
  `CompLeft`, `CompRight`, `LeftSiblings` and `RightSiblings`;
- `CrfConstituency.Chart` and `Splits`.

What the code promises is then stated about those references:

- root exclusivity;
- the identity on the diagonal;
- the symmetry of the sibling table;
- the collapse of the root's spans;
- padding independence: every span inside positions `0..n`, and so `logZ`,
  depends only on the scores among positions `0..n`, never on padding;
- for constituency, that under max-plus the chart value is the score of the
  best bracketing;
- for constituency, that the gold term is the score of the bracketing the
  target marks, so under max-plus it never exceeds `logZ`.

Every span-table read inside the width loop goes through `Fn.ReadStripe`. It
computes the strided storage offset exactly as `stripe` does and reads the
row-major cell at that offset. Its precondition is that the cell the stripe
element stands for lies inside the table. Its contract is that the cell read at
the offset is that cell.

`DependencyStripesFit` and `ConstituencyStripesFit` are separate statements.
They show that the views listed in them fit the table storage, using the
`(n, w, offset, dim)` of each stripe call in the code. The loops do not call
them, and `ReadStripe` does not depend on them.

The other reads work differently:

- Arc and span scores are read directly as `arc[h][d]` and `scores[i][j]`.
  These are the code's `diagonal(+-w)` reads, which are not stripes.
- The second-order sibling scores go through `Fn.Stripe` over the flat
  storage of the indexed sibling table (`LeftSibStripeReads`,
  `RightSibStripeReads`).
- `logZ` and the partial-annotation gold term are read directly as
  `s_c[0, len]` or `s[0, len]` after the inside pass. This matches the code's
  `gather` at `lens`, which is not a stripe read.

Files: `wrappers.dfy`, `semiring.dfy`, `tensors.dfy`, `fn.dfy`,
`dependency_spans.dfy` (shared by both dependency CRFs), `crf_dependency.dfy`,
`crf2o_dependency.dfy`, `crf_constituency.dfy`.

Where the code and its own documentation disagree, the model follows the code:

- **The `dim` flag.** The stripe doc comment calls `dim = 0` the horizontal
  stripe. The code and both doc-comment examples make `dim = 1` horizontal,
  stepping along a row, and `dim = 0` vertical. `Fn.StripeOffset` follows the
  code, and `Fn.StripeColumnsExample` confirms the `dim = 0` example.
- **The number of trees.** With all scores 0 over a root and two words, one
  might expect three projective trees (`logZ = log 3`), counting the one in
  which both words hang from the root. The root mask at
  `supar/modules/treecrf.py:90` leaves two.
  `CrfDependency.CountsSingleRootTrees` shows that the partition counts 2 trees
  for that input, and 7 over three words.

## Model

| member | source | states |
|---|---|---|
| Tensors.Count | supar/modules/treecrf.py:16 | `lens = mask.sum(1)`: the count is at most the length; all-true gives the length, all-false gives 0 |
| Tensors.Select | supar/modules/treecrf.py:37 | `x[mask]` has exactly `Count(mask)` entries, each taken from `x` |
| Tensors.SelectAppend | supar/modules/treecrf.py:239 | `x[mask]` over a concatenation of storages is the concatenation of the two selections |
| Fn.Storage | supar/utils/fn.py:79 | the contiguous storage of an `R x L` table has `R * L` entries |
| Fn.StorageAt | supar/utils/fn.py:79 | cell `(row, col)` sits at flat offset `row * L + col` |
| Fn.RowMajorCell | supar/utils/fn.py:79-82 | from flat offset `row * L + col`, the quotient by `L` gives the row back and the remainder gives the column |
| Fn.StripeOffsetIsCell | supar/utils/fn.py:80-85 | the offset `(o0*L+o1) + r*(L+1) + k*(dim==1 ? 1 : L)` is the row-major offset of cell `(o0+r+(dim==1?0:k), o1+r+(dim==1?k:0))` |
| Fn.StripeOffset | supar/utils/fn.py:80-85 | the storage offset of stripe element `[r][k]`: base `o0 * L + o1`, row stride `L + 1`, and column stride `1` for `dim = 1`, `L` otherwise |
| Fn.StripeFits | supar/utils/fn.py:83-85 | `as_strided` accepts the view exactly when it is empty or its last element's offset lies inside the storage |
| Fn.StripeOffsetMonotone | supar/utils/fn.py:81-85 | the strided offset grows with both view indices |
| Fn.StripeWithinStorage | supar/utils/fn.py:83-85 | when the view's last element lies in the storage, every element does |
| Fn.Stripe | supar/utils/fn.py:49-85 | `stripe` returns `n` rows of `w` elements, element `[r][k]` read at the strided offset; it is a pure function of `x` and writes nothing |
| Fn.StripeReadsCell | supar/utils/fn.py:79-85 | over a table's storage, stripe element `[r][k]` is the cell `(o0+r+(dim==1?0:k), o1+r+(dim==1?k:0))` whenever that cell lies inside the table |
| Fn.StripeFitsTable | supar/utils/fn.py:83-85 | a view whose last element's cell lies inside the table is accepted by `as_strided` |
| Fn.StripeRowsExample | supar/utils/fn.py:71-73 | `stripe(arange(25).view(5,5), 2, 3, (1, 1)) == [[6,7,8],[12,13,14]]` |
| Fn.StripeColumnsExample | supar/utils/fn.py:74-76 | `stripe(arange(25).view(5,5), 2, 3, dim=0) == [[0,5,10],[6,11,16]]` |
| Fn.ReadStripe | supar/utils/fn.py:79-85 | when the cell the stripe element `[r][k]` stands for lies inside the table (its precondition), reading the storage at the strided offset `off` as cell `(off / L, off % L)` yields exactly that cell |
| Fn.MaxLength | supar/utils/fn.py:89-90 | the maximum length bounds every sequence and is attained by one of them (0 for none) |
| Fn.Pad | supar/utils/fn.py:88-97 | an empty list fails; the assertion fails exactly when `total_length` is below the maximum length. Otherwise the result has `len(tensors)` rows of the maximum length (or `total_length`), every cell `k < len(tensors[i])` holds `tensors[i][k]`, and every other cell holds the padding value |
| Fn.NumSet | supar/utils/fn.py:41 | `set(range(10))` holds integers only |
| Fn.HasNumber | supar/utils/fn.py:38-46 | the scan finds a character in the integer set iff it returns true, and it always returns false |
| Fn.HasDigit | supar/utils/fn.py:38-46 | corrected test: true iff some character is a digit `'0'..'9'`; the scan stops at the first digit |
| DependencySpans.ArcTable | supar/modules/treecrf.py:47-59 | after the permute and masked fill, arc `h -> d` keeps `scores[d][h]` iff there are no candidates, or `h` is 0 or valid and `d` is 0 or valid with candidate `h` or a negative candidate; otherwise `-inf`. Position 0 is forced valid and its candidate forced to -1 |
| DependencySpans.ArcAllowed | supar/modules/treecrf.py:51-59 | arc `h -> d` survives the candidate mask iff `h` is the root or valid, and `d` is the root or valid with candidate head `h` or a negative (unconstrained) candidate |
| DependencySpans.SumLink | supar/modules/treecrf.py:66-71 | the logsumexp over row `t` of `stripe(s_c,n,w) + stripe(s_c,n,w,(w,1))` is the sum over `r in [i, j)` of `C(i->r) (x) C(j->r+1)` |
| DependencySpans.Link | supar/modules/treecrf.py:66-71 | the split sum of span `(i, j)`: the sum over `r in [i, j)` of `C(i->r) (x) C(j->r+1)`, two complete spans that meet between `r` and `r + 1` |
| DependencySpans.LeftSiblingTerm | supar/modules/treecrf.py:163-176 | term `k` of the `I(j->i)` sum: `I(j->r) (x) S(r,i) (x) sib[i][j][r]` for `r = i+1+k` inside the span, and the last term the first-child case `C(j->j) (x) C(i->j-1)`, the identity for the span from 0 (the `index_fill_` of line 173) |
| DependencySpans.LeftSiblings | supar/modules/treecrf.py:163-176 | the first `k` terms of the `I(j->i)` sum, added in order |
| DependencySpans.RightSiblingTerm | supar/modules/treecrf.py:178-190 | term `k` of the `I(i->j)` sum: the first-child case `C(i->i) (x) C(j->i+1)` first, then `I(i->r) (x) S(r,j) (x) sib[j][i][r]` for `r = i+k`, every such term `-inf` for the span from 0 |
| DependencySpans.RightSiblings | supar/modules/treecrf.py:178-190 | the first `k` terms of the `I(i->j)` sum, added in order |
| DependencySpans.Inc | supar/modules/treecrf.py:72-79 | `s_i[h][d]`: the split sum (first order) or the sibling sum (second order, lines 177 and 191) of the span times the arc score `s(h->d)`; `-inf` on the diagonal |
| DependencySpans.Sib | supar/modules/treecrf.py:193-201 | `s_s[x][y]`: the split sum of the span between `x` and `y`, the same in both directions; `-inf` on the diagonal |
| DependencySpans.CompLeft | supar/modules/treecrf.py:81-84 | the first `k` terms of the sum over `r in [i, j)` of `C(r->i) (x) I(j->r)` |
| DependencySpans.CompRight | supar/modules/treecrf.py:85-88 | the first `k` terms of the sum over `r in (i, j]` of `I(i->r) (x) C(r->j)` |
| DependencySpans.Comp | supar/modules/treecrf.py:81-90 | `s_c[h][e]`: the identity for the empty span, `CompLeft` leftwards, `CompRight` rightwards, and `-inf` for a span from the root whose end is not the sentence length (the root mask of line 90, and of line 212 in the second order) |
| DependencySpans.SumCompLeft | supar/modules/treecrf.py:81-84 | the `cl` reduction of span `t` is the sum over `r in [i, j)` of `C(r->i) (x) I(j->r)` |
| DependencySpans.SumCompRight | supar/modules/treecrf.py:85-88 | the `cr` reduction of span `t` is the sum over `r in (i, j]` of `I(i->r) (x) C(r->j)` |
| DependencySpans.DependencyStripesFit | supar/modules/treecrf.py:159-210 | every stripe view the dependency recurrences take at width `1 <= w < L` fits the `L x L` table's storage |
| DependencySpans.FillIncomplete | supar/modules/treecrf.py:72-79 | `s_i.diagonal(-w)` and `s_i.diagonal(w)` become the split sum times `s(j->i)` and times `s(i->j)`; every other cell is unchanged |
| DependencySpans.FillSibling | supar/modules/treecrf.py:193-201 | both diagonals `+-w` of `s_s` become the same split sum; every other cell is unchanged |
| DependencySpans.FillCompleteLeft | supar/modules/treecrf.py:81-84 | `s_c.diagonal(-w)` becomes `C(j->i)`; every other cell is unchanged |
| DependencySpans.FillCompleteRight | supar/modules/treecrf.py:85-88 | `s_c.diagonal(w)` becomes the `cr` sum; every other cell is unchanged |
| DependencySpans.FillComplete | supar/modules/treecrf.py:81-90 | after both complete diagonals and the root mask `s_c[0, w] = -inf` for `len != w`, every cell narrower than `w + 1` holds its value, and wider cells are unchanged |
| DependencySpans.RootLinkFirstTerm | supar/modules/treecrf.py:66-90 | in a commutative semiring, with `j <= len`, the split sum of span `(0, j)` keeps only `C(0->0) (x) C(j->1)`, because the root mask empties every `C(0->r)` in between |
| DependencySpans.RootRightSiblingsFirstTerm | supar/modules/treecrf.py:182-187 | in the second order, `ir[0] = -inf` leaves only the first-child term `ir0 = C(0->0) (x) C(j->1)` in the sum for span `(0, j)` |
| DependencySpans.RootIncomplete | supar/modules/treecrf.py:66-191 | in a commutative semiring, `I(0->j) = C(j->1) (x) s(0->j)`: for every `j` in the second order, and for `j <= len` in the first |
| DependencySpans.LinkUpTo | supar/modules/treecrf.py:66-71 | split sums inside positions `0..n` agree in two models that agree on the scores there |
| DependencySpans.LeftSiblingTermUpTo | supar/modules/treecrf.py:167-173 | the same for each `I(j->i)` sibling term |
| DependencySpans.RightSiblingTermUpTo | supar/modules/treecrf.py:182-187 | the same for each `I(i->j)` sibling term |
| DependencySpans.LeftSiblingsUpTo | supar/modules/treecrf.py:163-176 | the same for the `I(j->i)` sums |
| DependencySpans.RightSiblingsUpTo | supar/modules/treecrf.py:178-190 | the same for the `I(i->j)` sums |
| DependencySpans.IncUpTo | supar/modules/treecrf.py:72-79 | the same for incomplete spans |
| DependencySpans.SibUpTo | supar/modules/treecrf.py:193-201 | the same for sibling spans |
| DependencySpans.CompLeftUpTo | supar/modules/treecrf.py:81-84 | the same for the `cl` sums |
| DependencySpans.CompRightUpTo | supar/modules/treecrf.py:85-88 | the same for the `cr` sums |
| DependencySpans.CompUpTo | supar/modules/treecrf.py:61-92 | complete spans inside positions `0..n`, and so `logZ = C(0->len)`, depend only on the arc and sibling scores among those positions, never on padding |
| CrfDependency.Arcs | supar/modules/treecrf.py:47-59 | the masked first-order arc table is a well-formed `L x L` model |
| CrfDependency.Partition | supar/modules/treecrf.py:23 | `logZ = s_c[0].gather(0, lens)`: the complete span `C(0->len)` over the (candidate-masked) arc table, the value both `Forward` terms are stated in |
| CrfDependency.Inside | supar/modules/treecrf.py:42-92 | every cell of `s_i` and `s_c` equals `Inc` and `Comp`; `s_c[x][x]` is the identity and `s_i[x][x]` is `-inf`; `s_c[0][e] = -inf` for every `0 < e < L` with `e != len` |
| CrfDependency.Forward | supar/modules/treecrf.py:14-40 | fails iff `len >= L` (gather) or, under full annotation, some head lies outside `[0, L)`; otherwise `logZ = C(0->len)`, and gold is `C(0->len)` of the head-constrained pass (partial) or the product of `scores[d][target[d]]` over the valid `d` (full) |
| CrfDependency.Gold | supar/modules/treecrf.py:37 | the gold score of a full annotation: the product of `scores[d][target[d]]` over the valid dependents, in order |
| CrfDependency.InRange | supar/modules/treecrf.py:37 | the `gather` of `scores` at `target` is in range: every head lies in `[0, L)` |
| CrfDependency.UnconstrainedPartialKeepsPartition | supar/modules/treecrf.py:33-35 | with every word valid and unconstrained (negative candidate), the constrained pass gives back `logZ`, so the loss numerator vanishes; padding may hold anything |
| CrfDependency.CountsSingleRootTrees | supar/modules/treecrf.py:42-92 | with all scores 0 the partition counts 2 trees over a root and two words and 7 over three: the projective trees whose root has one dependent |
| Crf2oDependency.Arcs | supar/modules/treecrf.py:139-157 | only the arc scores are masked by the candidates; the sibling scores pass through unchanged |
| Crf2oDependency.Partition | supar/modules/treecrf.py:110 | `logZ = s_c[0].gather(0, lens)`: the second-order complete span `C(0->len)` |
| Crf2oDependency.LeftSibRows | supar/modules/treecrf.py:168 | `s_sib[range(w, n+w), range(n)]` is an `n x L` table |
| Crf2oDependency.RightSibRows | supar/modules/treecrf.py:183 | `s_sib[range(n), range(w, n+w)]` is an `n x L` table |
| Crf2oDependency.LeftSibStripeReads | supar/modules/treecrf.py:168 | the stripe over `s_sib[range(w, n+w), range(n)]` fits, and its element `[t][k]` is `sib[t][t+w][t+1+k]`: dependent `i`, head `j`, sibling `i+1+k` |
| Crf2oDependency.RightSibStripeReads | supar/modules/treecrf.py:183 | the stripe over `s_sib[range(n), range(w, n+w)]` fits, and its element `[t][k]` is `sib[t+w][t][t+k]`: dependent `j`, head `i`, sibling `i+k` |
| Crf2oDependency.SumLeftSiblings | supar/modules/treecrf.py:163-176 | the `il` reduction of span `(i, j)` is the sum over `r in (i, j)` of `I(j->r) (x) S(r,i) (x) sib[i][j][r]`, plus the first-child term `C(j->j) (x) C(i->j-1)`, which is the identity for the span from 0 |
| Crf2oDependency.SumRightSiblings | supar/modules/treecrf.py:178-190 | the `ir` reduction is the first-child term `C(i->i) (x) C(j->i+1)` plus the sum over `r in (i, j)` of `I(i->r) (x) S(r,j) (x) sib[j][i][r]`, every such term being `-inf` for the span from 0 |
| Crf2oDependency.FillIncompleteLeft | supar/modules/treecrf.py:163-177 | `s_i.diagonal(-w)` becomes `I(j->i)`, with the sibling stripe reading `sib[i][j][r]`; every other cell is unchanged |
| Crf2oDependency.FillIncompleteRight | supar/modules/treecrf.py:178-191 | `s_i.diagonal(w)` becomes `I(i->j)`, with the sibling stripe reading `sib[j][i][r]`; every other cell is unchanged |
| Crf2oDependency.FillWidth | supar/modules/treecrf.py:159-212 | one iteration of the width loop takes all three tables from agreeing below width `w` to agreeing below width `w + 1`, and leaves every cell wider than `w` in `s_i`, `s_s` and `s_c` as it was (it writes only the `+-w` diagonals, lines 177, 191, 199, 201, 206, 210 and 212) |
| Crf2oDependency.Inside | supar/modules/treecrf.py:136-214 | every cell of `s_i`, `s_s` and `s_c` equals `Inc`, `Sib` and `Comp`; `s_s` is symmetric; the diagonals are `-inf` for `s_i`/`s_s` and the identity for `s_c`; `s_c[0][e] = -inf` for `e != len` |
| Crf2oDependency.Forward | supar/modules/treecrf.py:100-134 | fails iff `len >= L` or, under full annotation, a valid position's head lies outside `[0, L)` or its sibling index is `>= L`; otherwise `logZ = C(0->len)`, and gold is the constrained pass (partial) or the arc product times the sibling product `sib[d][arcs[d]][sibs[d]]` over the valid `d` with `sibs[d] > 0` (full) |
| Crf2oDependency.Gold | supar/modules/treecrf.py:125-131 | the gold score of a full annotation: the product of the arc scores `arc[d][arcs[d]]` over the valid dependents, times the product of `sib[d][arcs[d]][sibs[d]]` over the valid dependents with `sibs[d] > 0` |
| Crf2oDependency.TargetInRange | supar/modules/treecrf.py:125-130 | the indexing and gathers at the valid positions are in range: each head lies in `[0, L)`, and each positive sibling index is below `L` |
| Crf2oDependency.UnconstrainedPartialKeepsPartition | supar/modules/treecrf.py:120-123 | with every word valid and unconstrained, the constrained second-order pass gives back `logZ` |
| Crf2oDependency.CountsSingleRootTrees | supar/modules/treecrf.py:136-214 | with all arc and sibling scores 0, the second-order partition counts the same 2 and 7 trees |
| CrfConstituency.ConstituencyStripesFit | supar/modules/treecrf.py:258 | both stripe views of the chart at width `w >= 2` fit its storage |
| CrfConstituency.SumSplits | supar/modules/treecrf.py:257-263 | the logsumexp over row `t` of the two chart stripes is the sum over `m in (i, j)` of `s[i][m] (x) s[m][j]` |
| CrfConstituency.Chart | supar/modules/treecrf.py:250-265 | the inside value of span `(i, j)`: its own score for width 1, otherwise the split sum times its own score |
| CrfConstituency.Cell | supar/modules/treecrf.py:247-265 | cell `(i, j)` of the chart: the inside value above the diagonal, and the `-inf` of `full_like` elsewhere |
| CrfConstituency.Splits | supar/modules/treecrf.py:250-265 | the first `k` terms of the sum over split points `m in (i, j)` of `Chart(i, m) (x) Chart(m, j)` |
| CrfConstituency.Inside | supar/modules/treecrf.py:243-266 | every cell above the diagonal equals its inside value `Chart`; `s[i][i+1] = score[i][i+1]`; the diagonal and the lower triangle stay `-inf` |
| CrfConstituency.Both | supar/modules/treecrf.py:239 | `mask & target` is set exactly where both are |
| CrfConstituency.Gold | supar/modules/treecrf.py:239 | `scores[mask & target].sum()`: the product of the scores where mask and target are both set, in row-major order |
| CrfConstituency.Forward | supar/modules/treecrf.py:222-241 | fails on an empty sentence or when `len = sum(mask[0]) >= L`; otherwise `logZ = s[0][len]` and gold is the product of the scores where `mask & target`, in row-major order |
| CrfConstituency.SplitsBound | supar/modules/treecrf.py:258-263 | under max-plus every split term is below the span's reduction |
| CrfConstituency.Brackets | supar/modules/treecrf.py:249-264 | a binary bracketing of span `(i, j)`: a single word, or a split `m in (i, j)` with bracketings of `(i, m)` and `(m, j)`, the structures the split sum ranges over |
| CrfConstituency.Score | supar/modules/treecrf.py:249-264 | the score of a bracketing: the product of the scores of all its spans |
| CrfConstituency.SplitsArgmax | supar/modules/treecrf.py:258-263 | under max-plus the reduction equals one of its split terms |
| CrfConstituency.ChartBoundsBracketing | supar/modules/treecrf.py:249-264 | under max-plus no binary bracketing of a span scores above its chart value |
| CrfConstituency.BestBracketing | supar/modules/treecrf.py:249-264 | under max-plus some bracketing of a span scores exactly its chart value |
| CrfConstituency.ChartIsBestBracketing | supar/modules/treecrf.py:249-264 | under max-plus the chart value of a span is the maximum score over its binary bracketings, and it is attained |
| Semiring.ProductAppend | supar/modules/treecrf.py:239 | the `.sum()` of two concatenated runs of scores is the product of their two sums |
| Semiring.ProductPermutation | supar/modules/treecrf.py:239 | in a commutative semiring the `.sum()` of the selected scores does not depend on their order |
| CrfConstituency.Spans | supar/modules/treecrf.py:239 | the spans of a bracketing of `(i, j)` all lie inside `(i, j)`, and `(i, j)` itself is among them, last |
| CrfConstituency.SpansDistinct | supar/modules/treecrf.py:239 | no span of a bracketing occurs twice |
| CrfConstituency.ScoreIsProduct | supar/modules/treecrf.py:239 | the score of a bracketing is the product of the scores of its spans |
| CrfConstituency.Marked | supar/modules/treecrf.py:239 | the row-major cells of a boolean table are exactly its set cells, each once |
| CrfConstituency.SelectStorage | supar/modules/treecrf.py:239 | `scores[mask]` over row-major storage picks the scores of the set cells, in row-major order |
| CrfConstituency.BothKeepsTarget | supar/modules/treecrf.py:239 | when the mask keeps every span the target marks, `mask & target` is the target |
| CrfConstituency.MarkedAreSpans | supar/modules/treecrf.py:239 | when the target marks exactly the spans of a bracketing, its set cells in row-major order are those spans in another order |
| CrfConstituency.GoldIsBracketingScore | supar/modules/treecrf.py:239 | in a commutative semiring, when the target marks exactly the spans of a bracketing `t` and the mask keeps them, the gold term `scores[mask & target].sum()` equals the score of `t` |
| CrfConstituency.GoldBelowPartition | supar/modules/treecrf.py:231-239 | under max-plus the gold term never exceeds `logZ = s[0][len]`, so the loss numerator `logZ - gold` is never negative |

## Left out

- Marginals through `autograd.grad` (the `mbr` paths) and the NaN-scrubbing gradient hooks: these are reverse-mode differentiation internals. `forward` without a target returns only `probs`, which is the scores or their gradient, so it is not modelled.
- Real `logsumexp` and the division of the loss by `total`: floating point is replaced by an abstract semiring, and the loss is returned as the pair `(logZ, gold)` of its numerator `logZ - gold`.
- Batching: one sentence is modelled. `total = mask.sum()`, `requires_grad_` and `torch.enable_grad` have no discrete content.
- CrfConstituency.Inside: the `mask` and `cands` arguments of the code's `inside` are not taken, because it only permutes `mask` and never reads either.
- The aliasing of `as_strided` views, the copy `x.contiguous()` may make, and reads that run past a row's end into the next row: the recurrences only read, and reads stay inside the table (`ReadStripe`). `Fn.Stripe` is modelled on flat storage, as a value.
- Only one trailing dimension pattern of `stripe` is modelled: trailing dimensions are folded into the element type.
- Fn.Pad: only sequences of one dimension are padded; the code also pads tensors of more dimensions to the maximum of every dimension.
- Dependency inside with candidates over an empty sentence (`seq_len = 0`): `index_fill` at position 0 raises. The model's `requires` excludes that case rather than modelling the exception.
- The meaning of the dependency tables as sums over projective trees is proved only for the small examples of `CountsSingleRootTrees`. The general proof, that any tree's score is bounded and attained under max-plus, is given for constituency only.
- `ispunct`, `isfullwidth`, `islatin`, `isdigit`, `tohalfwidth` (thin wrappers over `unicodedata` tables), the `lru_cache` memoisation, and `heatmap` (plotting and a file write).
- `supar/parsers/vae_pos.py` is not part of this model: it is training and evaluation orchestration over code that is not available.

## Findings

| source | as written | input that shows it | evidently intended | confidence | as-written member | corrected member |
|---|---|---|---|---|---|---|
| supar/utils/fn.py:38-46 | `has_number` tests each character for membership in `set(range(10))`, a set of integers, so a one-character string is never found | `has_number("1")` returns `False` | report whether the token contains a decimal digit | high; not executed | Fn.HasNumber | Fn.HasDigit |
