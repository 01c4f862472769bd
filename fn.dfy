/**
 * The index utilities of supar/utils/fn.py: the diagonal stripe, the padding
 * copy and has_number.
 *
 * A contiguous table of rows of length L is stored row-major, so cell
 * (row, col) sits at flat offset row * L + col.  Any trailing dimensions
 * (the batch, in the tree CRFs) are folded into the element type T, which is
 * why they come through a stripe unchanged.
 */
module Fn {
  import opened Wrappers

  // ---------------------------------------------------------------------------
  // Row-major storage
  // ---------------------------------------------------------------------------

  /** The flat storage of a contiguous table: its rows one after the other. */
  function Storage<T>(m: seq<seq<T>>, L: nat): (x: seq<T>)
    requires forall i | 0 <= i < |m| :: |m[i]| == L
    ensures |x| == |m| * L
  {
    if m == [] then [] else m[0] + Storage(m[1..], L)
  }

  lemma {:induction false} StorageAt<T>(m: seq<seq<T>>, L: nat, row: nat, col: nat)
    requires forall i | 0 <= i < |m| :: |m[i]| == L
    requires row < |m| && col < L
    ensures row * L + col < |Storage(m, L)|
    ensures Storage(m, L)[row * L + col] == m[row][col]
  {
    if row > 0 {
      StorageAt(m[1..], L, row - 1, col);
      assert row * L + col == L + ((row - 1) * L + col);
    }
  }

  lemma MulAtLeast(a: int, L: nat)
    requires a >= 1
    ensures a * L >= L
  {
  }

  /** Flat offset row * L + col names cell (row, col) again: the row is the quotient, the column the remainder. */
  lemma RowMajorCell(L: nat, row: nat, col: nat)
    requires col < L
    ensures (row * L + col) / L == row && (row * L + col) % L == col
  {
    var x := row * L + col;
    var q, rem := x / L, x % L;
    assert x == q * L + rem && 0 <= rem < L;
    assert (q - row) * L == col - rem;
    if q > row { MulAtLeast(q - row, L); }
    else if q < row { MulAtLeast(row - q, L); }
  }

  // ---------------------------------------------------------------------------
  // stripe
  // ---------------------------------------------------------------------------

  /**
   * Storage offset of element [r][k] of stripe(x, n, w, (o0, o1), dim) over a
   * table with rows of length L: base o0 * L + o1, stride L + 1 between rows
   * of the stripe, and stride 1 (dim == 1) or L (any other dim) along a row.
   */
  function StripeOffset(L: nat, o0: nat, o1: nat, dim: int, r: nat, k: nat): nat
  {
    (o0 * L + o1) + r * (L + 1) + k * (if dim == 1 then 1 else L)
  }

  /** The table row that element [r][k] of a stripe stands for. */
  function StripeRow(o0: nat, dim: int, r: nat, k: nat): nat
  {
    o0 + r + (if dim == 1 then 0 else k)
  }

  /** The table column that element [r][k] of a stripe stands for. */
  function StripeCol(o1: nat, dim: int, r: nat, k: nat): nat
  {
    o1 + r + (if dim == 1 then k else 0)
  }

  /** The strided offset is the row-major offset of the cell the stripe element stands for. */
  lemma StripeOffsetIsCell(L: nat, o0: nat, o1: nat, dim: int, r: nat, k: nat)
    ensures StripeOffset(L, o0, o1, dim, r, k) == StripeRow(o0, dim, r, k) * L + StripeCol(o1, dim, r, k)
  {
    if dim == 1 {
      assert (o0 + r) * L == o0 * L + r * L;
    } else {
      assert (o0 + r + k) * L == o0 * L + r * L + k * L;
    }
  }

  /** as_strided accepts a view only when its last element lies inside the storage. */
  predicate StripeFits(size: nat, L: nat, n: nat, w: nat, o0: nat, o1: nat, dim: int)
  {
    n == 0 || w == 0 || StripeOffset(L, o0, o1, dim, n - 1, w - 1) < size
  }

  lemma StripeOffsetMonotone(L: nat, o0: nat, o1: nat, dim: int, r: nat, k: nat, r': nat, k': nat)
    requires r <= r' && k <= k'
    ensures StripeOffset(L, o0, o1, dim, r, k) <= StripeOffset(L, o0, o1, dim, r', k')
  {
    assert r * (L + 1) <= r' * (L + 1) by {
      if r < r' { MulAtLeast(r' - r, L + 1); assert r' * (L + 1) - r * (L + 1) == (r' - r) * (L + 1); }
    }
    var s := if dim == 1 then 1 else L;
    assert k * s <= k' * s by {
      if k < k' { MulAtLeast(k' - k, s); assert k' * s - k * s == (k' - k) * s; }
    }
  }

  /** When the view fits, every one of its elements lies inside the storage. */
  lemma StripeWithinStorage(size: nat, L: nat, n: nat, w: nat, o0: nat, o1: nat, dim: int)
    requires StripeFits(size, L, n, w, o0, o1, dim)
    ensures forall r, k | 0 <= r < n && 0 <= k < w :: StripeOffset(L, o0, o1, dim, r, k) < size
  {
    forall r, k | 0 <= r < n && 0 <= k < w
      ensures StripeOffset(L, o0, o1, dim, r, k) < size
    {
      StripeOffsetMonotone(L, o0, o1, dim, r, k, n - 1, w - 1);
    }
  }

  /**
   * stripe(x, n, w, (o0, o1), dim) over the flat storage x of a table whose
   * rows have L entries: n rows of w elements, element [r][k] read at
   * StripeOffset.  Nothing is written; the result is a view of x.
   */
  function Stripe<T>(x: seq<T>, L: nat, n: nat, w: nat, o0: nat, o1: nat, dim: int): (s: seq<seq<T>>)
    requires StripeFits(|x|, L, n, w, o0, o1, dim)
    ensures |s| == n && forall r | 0 <= r < n :: |s[r]| == w
    ensures forall r, k | 0 <= r < n && 0 <= k < w ::
              StripeOffset(L, o0, o1, dim, r, k) < |x| && s[r][k] == x[StripeOffset(L, o0, o1, dim, r, k)]
  {
    StripeWithinStorage(|x|, L, n, w, o0, o1, dim);
    seq(n, r requires 0 <= r < n =>
      seq(w, k requires 0 <= k < w => x[StripeOffset(L, o0, o1, dim, r, k)]))
  }

  /**
   * Over the storage of a table, element [r][k] of a stripe is the table cell
   * (o0 + r + (dim == 1 ? 0 : k), o1 + r + (dim == 1 ? k : 0)), whenever that
   * cell lies inside the table.
   */
  lemma StripeReadsCell<T>(m: seq<seq<T>>, L: nat, n: nat, w: nat, o0: nat, o1: nat, dim: int, r: nat, k: nat)
    requires forall i | 0 <= i < |m| :: |m[i]| == L
    requires StripeFits(|m| * L, L, n, w, o0, o1, dim)
    requires r < n && k < w
    requires StripeRow(o0, dim, r, k) < |m| && StripeCol(o1, dim, r, k) < L
    ensures Stripe(Storage(m, L), L, n, w, o0, o1, dim)[r][k] == m[StripeRow(o0, dim, r, k)][StripeCol(o1, dim, r, k)]
  {
    StripeOffsetIsCell(L, o0, o1, dim, r, k);
    StorageAt(m, L, StripeRow(o0, dim, r, k), StripeCol(o1, dim, r, k));
  }

  /** A stripe over a rows x L table fits its storage when its last element's cell lies inside the table. */
  lemma StripeFitsTable(rows: nat, L: nat, n: nat, w: nat, o0: nat, o1: nat, dim: int)
    requires n > 0 && w > 0 ==> StripeRow(o0, dim, n - 1, w - 1) < rows && StripeCol(o1, dim, n - 1, w - 1) < L
    ensures StripeFits(rows * L, L, n, w, o0, o1, dim)
  {
    if n > 0 && w > 0 {
      var row, col := StripeRow(o0, dim, n - 1, w - 1), StripeCol(o1, dim, n - 1, w - 1);
      StripeOffsetIsCell(L, o0, o1, dim, n - 1, w - 1);
      MulAtLeast(rows - row, L);
      assert rows * L - row * L == (rows - row) * L;
    }
  }

  /** torch.arange(count): the integers 0 .. count - 1. */
  function Arange(count: nat): (x: seq<int>)
    ensures |x| == count && forall i | 0 <= i < count :: x[i] == i
  {
    seq(count, i => i)
  }

  /** The first example of the doc comment: a horizontal stripe of arange(25) viewed as 5 x 5. */
  lemma StripeRowsExample()
    ensures StripeFits(25, 5, 2, 3, 1, 1, 1)
    ensures Stripe(Arange(25), 5, 2, 3, 1, 1, 1) == [[6, 7, 8], [12, 13, 14]]
  {
    var s := Stripe(Arange(25), 5, 2, 3, 1, 1, 1);
    assert s[0] == [6, 7, 8];
    assert s[1] == [12, 13, 14];
  }

  /** The second example of the doc comment: a vertical stripe (dim = 0) from offset (0, 0). */
  lemma StripeColumnsExample()
    ensures StripeFits(25, 5, 2, 3, 0, 0, 0)
    ensures Stripe(Arange(25), 5, 2, 3, 0, 0, 0) == [[0, 5, 10], [6, 11, 16]]
  {
    var s := Stripe(Arange(25), 5, 2, 3, 0, 0, 0);
    assert s[0] == [0, 5, 10];
    assert s[1] == [6, 11, 16];
  }

  /**
   * Element [r][k] of stripe(a, n, w, (o0, o1), dim) for a live table a: the
   * strided storage offset is computed as stripe does and the row-major cell
   * at that offset is read.  The cell read is the one the stripe stands for,
   * and it lies inside the table; only rows of the view that do not run past
   * the end of a table row are read.
   */
  method ReadStripe<T>(a: array2<T>, n: nat, w: nat, o0: nat, o1: nat, dim: int, r: nat, k: nat) returns (v: T)
    requires r < n && k < w
    requires StripeRow(o0, dim, r, k) < a.Length0 && StripeCol(o1, dim, r, k) < a.Length1
    ensures v == a[StripeRow(o0, dim, r, k), StripeCol(o1, dim, r, k)]
  {
    var L := a.Length1;
    var offset := StripeOffset(L, o0, o1, dim, r, k);
    StripeOffsetIsCell(L, o0, o1, dim, r, k);
    RowMajorCell(L, StripeRow(o0, dim, r, k), StripeCol(o1, dim, r, k));
    v := a[offset / L, offset % L];
  }

  // ---------------------------------------------------------------------------
  // pad
  // ---------------------------------------------------------------------------

  /** The longest length among the sequences (0 for none). */
  function MaxLength<T>(tensors: seq<seq<T>>): (m: nat)
    ensures forall i | 0 <= i < |tensors| :: |tensors[i]| <= m
    ensures tensors != [] ==> exists i | 0 <= i < |tensors| :: |tensors[i]| == m
    ensures tensors == [] ==> m == 0
  {
    if tensors == [] then 0
    else
      var rest := MaxLength(tensors[1..]);
      if |tensors[0]| >= rest then |tensors[0]| else rest
  }

  datatype PadError =
    | NoTensors            // tensors[0] raises IndexError on an empty list
    | TotalLengthTooSmall  // assert total_length >= size[1] fails

  /**
   * pad(tensors, padding_value, total_length) for one-dimensional tensors:
   * allocate a len(tensors) x width table filled with padding_value, where
   * width is the longest length or total_length when that is given, then
   * copy every tensor into the front of its row.
   */
  method Pad<T>(tensors: seq<seq<T>>, paddingValue: T, totalLength: Option<int>) returns (res: Result<array2<T>, PadError>)
    ensures tensors == [] <==> res == Failure(NoTensors)
    ensures res == Failure(TotalLengthTooSmall) <==>
              tensors != [] && totalLength.Some? && totalLength.value < MaxLength(tensors)
    ensures res.Success? ==>
              && res.value.Length0 == |tensors|
              && res.value.Length1 == (if totalLength.Some? then totalLength.value else MaxLength(tensors))
    ensures res.Success? ==>
              forall i, k | 0 <= i < res.value.Length0 && 0 <= k < res.value.Length1 ::
                res.value[i, k] == if k < |tensors[i]| then tensors[i][k] else paddingValue
  {
    if tensors == [] {
      return Failure(NoTensors);
    }
    var width := MaxLength(tensors);
    if totalLength.Some? {
      if totalLength.value < width {
        return Failure(TotalLengthTooSmall);
      }
      width := totalLength.value;
    }
    var out := new T[|tensors|, width]((_, _) => paddingValue);
    for i := 0 to |tensors|
      invariant forall i', k | 0 <= i' < |tensors| && 0 <= k < width ::
                  out[i', k] == if i' < i && k < |tensors[i']| then tensors[i'][k] else paddingValue
    {
      var row := tensors[i];
      for k := 0 to |row|
        invariant forall i', k' | 0 <= i' < |tensors| && 0 <= k' < width ::
                    out[i', k'] == if (i' < i && k' < |tensors[i']|) || (i' == i && k' < k) then tensors[i'][k'] else paddingValue
      {
        out[i, k] := row[k];
      }
    }
    return Success(out);
  }

  // ---------------------------------------------------------------------------
  // has_number
  // ---------------------------------------------------------------------------

  /** The Python values the membership test compares: one-character strings and ints. */
  datatype PyValue = PyStr(s: string) | PyInt(i: int)

  /** set(range(10)): the integers 0 to 9, not the digit characters. */
  function NumSet(): (s: set<PyValue>)
    ensures forall v | v in s :: v.PyInt?
  {
    set i | 0 <= i < 10 :: PyInt(i)
  }

  /**
   * has_number(token): scan the characters and stop at the first one found
   * in num_set.  A character compares unequal to every int, so the scan
   * never stops early and the answer is always false.
   */
  method HasNumber(token: string) returns (hasNum: bool)
    ensures hasNum <==> exists k | 0 <= k < |token| :: PyStr([token[k]]) in NumSet()
    ensures !hasNum
  {
    hasNum := false;
    var numSet := NumSet();
    var k := 0;
    while k < |token|
      invariant 0 <= k <= |token|
      invariant !hasNum
      invariant forall k' | 0 <= k' < k :: PyStr([token[k']]) !in numSet
    {
      if PyStr([token[k]]) in numSet {
        hasNum := true;
        break;
      }
      k := k + 1;
    }
  }

  /**
   * What has_number evidently means to compute: whether some character of
   * the token is a decimal digit, with the same scan and early exit, and
   * the position at which the scan stopped.
   */
  method HasDigit(token: string) returns (hasNum: bool, at: nat)
    ensures hasNum <==> exists k | 0 <= k < |token| :: '0' <= token[k] <= '9'
    ensures hasNum ==> at < |token| && '0' <= token[at] <= '9' && forall k | 0 <= k < at :: !('0' <= token[k] <= '9')
  {
    hasNum := false;
    at := 0;
    while at < |token|
      invariant 0 <= at <= |token|
      invariant !hasNum
      invariant forall k | 0 <= k < at :: !('0' <= token[k] <= '9')
    {
      if '0' <= token[at] <= '9' {
        hasNum := true;
        break;
      }
      at := at + 1;
    }
  }
}
