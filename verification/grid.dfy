/** Matrices as sequences of rows, boolean masks of the same shape, and the
    column-wise numpy operations the imputer applies to them: `mask.sum(0)`,
    boolean row selection `x[mask[:, c], c]`, `np.ix_` sub-matrices and the
    masked column assignment `x[mask[:, c], c] = values`. */
module Grid {

  type Matrix<V> = seq<seq<V>>

  /** `true` marks a missing cell. */
  type Mask = Matrix<bool>

  /** Every row has exactly `width` entries. */
  predicate HasWidth<V>(m: Matrix<V>, width: nat)
  {
    forall r :: 0 <= r < |m| ==> |m[r]| == width
  }

  /** Every row has a cell in column `c`. */
  predicate HasColumn<V>(m: Matrix<V>, c: nat)
  {
    forall r :: 0 <= r < |m| ==> c < |m[r]|
  }

  /** A matrix and its mask share one `rows x width` shape. */
  predicate Conforms<V>(x: Matrix<V>, mask: Mask, width: nat)
  {
    |x| == |mask| && HasWidth(x, width) && HasWidth(mask, width)
  }

  predicate SameShape<V, W>(a: Matrix<V>, b: Matrix<W>)
  {
    |a| == |b| && forall r :: 0 <= r < |a| ==> |a[r]| == |b[r]|
  }

  /** `x` and `y` hold the same value in every cell that `mask` does not mark. */
  predicate AgreeUnmasked<V(==)>(x: Matrix<V>, y: Matrix<V>, mask: Mask)
    requires SameShape(x, y) && SameShape(x, mask)
  {
    forall r, j :: 0 <= r < |x| && 0 <= j < |x[r]| && !mask[r][j] ==> x[r][j] == y[r][j]
  }

  /** Number of rows above row `r` in which column `c` of `mask` is set. */
  function RankUpTo(mask: Mask, c: nat, r: nat): nat
    requires r <= |mask| && HasColumn(mask, c)
  {
    if r == 0 then 0 else RankUpTo(mask, c, r - 1) + (if mask[r - 1][c] then 1 else 0)
  }

  /** Number of set cells in column `c` (numpy's `mask.sum(axis=0)[c]`). */
  function ColumnCount(mask: Mask, c: nat): nat
    requires HasColumn(mask, c)
  {
    RankUpTo(mask, c, |mask|)
  }

  /** A set cell's rank is below the column's count. */
  lemma {:induction false} RankBelowCount(mask: Mask, c: nat, r: nat, n: nat)
    requires r < n <= |mask| && HasColumn(mask, c) && mask[r][c]
    ensures RankUpTo(mask, c, r) < RankUpTo(mask, c, n)
  {
    if n > r + 1 {
      RankBelowCount(mask, c, r, n - 1);
    }
  }

  lemma RanksBelowCount(mask: Mask, c: nat)
    requires HasColumn(mask, c)
    ensures forall r :: 0 <= r < |mask| && mask[r][c] ==> RankUpTo(mask, c, r) < ColumnCount(mask, c)
  {
    forall r | 0 <= r < |mask| && mask[r][c]
      ensures RankUpTo(mask, c, r) < ColumnCount(mask, c)
    {
      RankBelowCount(mask, c, r, |mask|);
    }
  }

  /** Counting grows by at most one per row. */
  lemma {:induction false} RankAtMostRows(mask: Mask, c: nat, n: nat)
    requires n <= |mask| && HasColumn(mask, c)
    ensures RankUpTo(mask, c, n) <= n
  {
    if n > 0 {
      RankAtMostRows(mask, c, n - 1);
    }
  }

  /** A column with an unset cell among its first `n` rows counts fewer than `n`. */
  lemma {:induction false} UnsetBelowRows(mask: Mask, c: nat, r: nat, n: nat)
    requires r < n <= |mask| && HasColumn(mask, c) && !mask[r][c]
    ensures RankUpTo(mask, c, n) < n
  {
    if n > r + 1 {
      UnsetBelowRows(mask, c, r, n - 1);
    } else {
      RankAtMostRows(mask, c, r);
    }
  }

  /** The rows below `n` whose cell in column `c` equals `b`, in ascending order
      (the positions numpy's boolean index `mask[:n, c] == b` selects). */
  function RowsUpTo(mask: Mask, c: nat, b: bool, n: nat): (rows: seq<nat>)
    requires n <= |mask| && HasColumn(mask, c)
    ensures forall k :: 0 <= k < |rows| ==> rows[k] < n && mask[rows[k]][c] == b
    ensures forall r :: 0 <= r < n && mask[r][c] == b ==> r in rows
    ensures forall i, j :: 0 <= i < j < |rows| ==> rows[i] < rows[j]
    ensures |rows| == if b then RankUpTo(mask, c, n) else n - RankUpTo(mask, c, n)
    ensures b ==> forall k :: 0 <= k < |rows| ==> RankUpTo(mask, c, rows[k]) == k
  {
    RankAtMostRows(mask, c, n);
    if n == 0 then []
    else
      var before := RowsUpTo(mask, c, b, n - 1);
      if mask[n - 1][c] == b then before + [n - 1] else before
  }

  /** Rows where column `c` is missing. */
  function MissingRows(mask: Mask, c: nat): (rows: seq<nat>)
    requires HasColumn(mask, c)
    ensures |rows| == ColumnCount(mask, c)
  {
    RowsUpTo(mask, c, true, |mask|)
  }

  /** Rows where column `c` is observed. */
  function ObservedRows(mask: Mask, c: nat): (rows: seq<nat>)
    requires HasColumn(mask, c)
    ensures |rows| == |mask| - ColumnCount(mask, c)
  {
    RowsUpTo(mask, c, false, |mask|)
  }

  /** `x[rows, c]`: the entries of column `c` in the listed rows, in list order. */
  function Pick<V>(x: Matrix<V>, rows: seq<nat>, c: nat): (vals: seq<V>)
    requires HasColumn(x, c) && forall k :: 0 <= k < |rows| ==> rows[k] < |x|
    ensures |vals| == |rows|
  {
    seq(|rows|, k requires 0 <= k < |rows| => x[rows[k]][c])
  }

  /** `x[np.ix_(rows, cols)]`: the listed rows restricted to the listed columns. */
  function SubMatrix<V>(x: Matrix<V>, rows: seq<nat>, cols: seq<nat>): (s: Matrix<V>)
    requires forall k :: 0 <= k < |rows| ==> rows[k] < |x|
    requires forall i, j :: 0 <= i < |x| && 0 <= j < |cols| ==> cols[j] < |x[i]|
    ensures |s| == |rows| && HasWidth(s, |cols|)
  {
    seq(|rows|, k requires 0 <= k < |rows| =>
      seq(|cols|, j requires 0 <= j < |cols| => x[rows[k]][cols[j]]))
  }

  /** The observed entries of column `c`, top to bottom; each comes from an observed
      cell of the column. */
  function ObservedValues<V(==)>(x: Matrix<V>, mask: Mask, c: nat): (vals: seq<V>)
    requires |x| == |mask| && HasColumn(x, c) && HasColumn(mask, c)
    ensures |vals| == |mask| - ColumnCount(mask, c)
    ensures forall k :: 0 <= k < |vals| ==> exists r :: 0 <= r < |x| && !mask[r][c] && x[r][c] == vals[k]
  {
    var rows := ObservedRows(mask, c);
    var vals := Pick(x, rows, c);
    assert forall k :: 0 <= k < |vals| ==> rows[k] < |x| && !mask[rows[k]][c] && x[rows[k]][c] == vals[k];
    vals
  }

  /** Conversely, every observed cell of column `c` is listed among its observed values. */
  lemma ObservedCellListed<V>(x: Matrix<V>, mask: Mask, c: nat, r: nat)
    requires |x| == |mask| && HasColumn(x, c) && HasColumn(mask, c)
    requires r < |x| && !mask[r][c]
    ensures x[r][c] in ObservedValues(x, mask, c)
  {
    var rows := ObservedRows(mask, c);
    assert r in rows;
    var k :| 0 <= k < |rows| && rows[k] == r;
    assert ObservedValues(x, mask, c)[k] == x[r][c];
  }

  /** `x[mask[:, c], c] = vals`: the missing cell of column `c` in row `r` receives
      `vals[k]`, where `k` counts the missing cells above it; every other cell keeps
      its value. */
  function AssignColumn<V>(x: Matrix<V>, mask: Mask, c: nat, vals: seq<V>): (y: Matrix<V>)
    requires |x| == |mask| && HasColumn(x, c) && HasColumn(mask, c)
    requires |vals| == ColumnCount(mask, c)
    ensures SameShape(y, x)
    ensures forall r, j :: 0 <= r < |y| && 0 <= j < |y[r]| && (j != c || !mask[r][j]) ==> y[r][j] == x[r][j]
    ensures forall r :: 0 <= r < |y| && mask[r][c] ==> RankUpTo(mask, c, r) < |vals| && y[r][c] == vals[RankUpTo(mask, c, r)]
  {
    RanksBelowCount(mask, c);
    seq(|x|, r requires 0 <= r < |x| =>
      if mask[r][c] then x[r][c := vals[RankUpTo(mask, c, r)]] else x[r])
  }

  /** Reading the missing cells of column `c` back after `x[mask[:, c], c] = vals`
      gives `vals`, in order. */
  lemma AssignColumnReadBack<V>(x: Matrix<V>, mask: Mask, c: nat, vals: seq<V>)
    requires |x| == |mask| && HasColumn(x, c) && HasColumn(mask, c)
    requires |vals| == ColumnCount(mask, c)
    ensures Pick(AssignColumn(x, mask, c, vals), MissingRows(mask, c), c) == vals
  {
  }

  /** The value a missing cell receives is one of `vals`. */
  lemma AssignedFromValues<V>(x: Matrix<V>, mask: Mask, c: nat, vals: seq<V>, r: nat)
    requires |x| == |mask| && HasColumn(x, c) && HasColumn(mask, c)
    requires |vals| == ColumnCount(mask, c)
    requires r < |x| && mask[r][c]
    ensures exists k :: 0 <= k < |vals| && AssignColumn(x, mask, c, vals)[r][c] == vals[k]
  {
    var k := RankUpTo(mask, c, r);
    assert AssignColumn(x, mask, c, vals)[r][c] == vals[k];
  }

  /** Two matrices that agree on the observed cells of column `c` have the same observed values there. */
  lemma ObservedValuesAgree<V>(x: Matrix<V>, y: Matrix<V>, mask: Mask, c: nat)
    requires |x| == |y| == |mask| && HasColumn(x, c) && HasColumn(y, c) && HasColumn(mask, c)
    requires forall r :: 0 <= r < |x| && !mask[r][c] ==> x[r][c] == y[r][c]
    ensures ObservedValues(x, mask, c) == ObservedValues(y, mask, c)
  {
  }
}
