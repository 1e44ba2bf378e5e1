/** The input as the driver receives it, a matrix of numbers with `NaN` marking the
    missing cells, and the extra column the driver appends to it: a constant column
    of ones in the matrix (the regression's intercept) with an all-false column in
    the mask, stripped from the mask again before the result is returned. */
module Augment {
  import opened Grid
  import opened Flatten

  /** One cell of the input: a number, or `NaN` for a missing value. */
  datatype Entry = NaN | Num(value: real)

  /** `np.isnan(X)`: the missing mask of the input. */
  function IsNan(X: Matrix<Entry>): (mask: Mask)
    ensures SameShape(mask, X)
    ensures forall r, c :: 0 <= r < |X| && 0 <= c < |X[r]| ==> (mask[r][c] <==> X[r][c].NaN?)
  {
    seq(|X|, r requires 0 <= r < |X| => seq(|X[r]|, c requires 0 <= c < |X[r]| => X[r][c].NaN?))
  }

  /** The input as a matrix of reals.  A missing cell holds the placeholder `0.0`,
      which the initializer overwrites before anything reads it. */
  function Numeric(X: Matrix<Entry>): (x: Matrix<real>)
    ensures SameShape(x, X)
    ensures forall r, c :: 0 <= r < |X| && 0 <= c < |X[r]| && X[r][c].Num? ==> x[r][c] == X[r][c].value
  {
    seq(|X|, r requires 0 <= r < |X| => seq(|X[r]|, c requires 0 <= c < |X[r]| =>
      if X[r][c].Num? then X[r][c].value else 0.0))
  }

  /** `np.column_stack((m, [v] * len(m)))`: every row extended by one cell holding `v`. */
  function AppendColumn<V>(m: Matrix<V>, v: V): (y: Matrix<V>)
    ensures |y| == |m|
    ensures forall r :: 0 <= r < |m| ==> |y[r]| == |m[r]| + 1 && y[r][|m[r]|] == v
    ensures forall r, c :: 0 <= r < |m| && 0 <= c < |m[r]| ==> y[r][c] == m[r][c]
  {
    seq(|m|, r requires 0 <= r < |m| => m[r] + [v])
  }

  /** `m[:, :-1]`: every row without its last cell. */
  function DropLastColumn<V>(m: Matrix<V>): (y: Matrix<V>)
    requires forall r :: 0 <= r < |m| ==> |m[r]| > 0
    ensures |y| == |m|
    ensures forall r :: 0 <= r < |m| ==> |y[r]| == |m[r]| - 1
    ensures forall r, c :: 0 <= r < |m| && 0 <= c < |m[r]| - 1 ==> y[r][c] == m[r][c]
  {
    seq(|m|, r requires 0 <= r < |m| => m[r][..|m[r]| - 1])
  }

  /** Stripping the appended column gives back the original matrix. */
  lemma DropAppended<V>(m: Matrix<V>, v: V)
    ensures DropLastColumn(AppendColumn(m, v)) == m
  {
    var y := DropLastColumn(AppendColumn(m, v));
    forall r | 0 <= r < |m|
      ensures y[r] == m[r]
    {
    }
  }

  /** An extra column leaves the counts of the existing columns alone. */
  lemma {:induction false} AppendedRank(mask: Mask, b: bool, c: nat, n: nat)
    requires n <= |mask| && HasColumn(mask, c)
    ensures HasColumn(AppendColumn(mask, b), c)
    ensures RankUpTo(AppendColumn(mask, b), c, n) == RankUpTo(mask, c, n)
  {
    if n > 0 {
      AppendedRank(mask, b, c, n - 1);
    }
  }

  /** A false cell appended to a row leaves the row's counts alone. */
  lemma {:induction false} AppendedFalseCount(bs: seq<bool>, n: nat)
    requires n <= |bs|
    ensures CountUpTo(bs + [false], n) == CountUpTo(bs, n)
  {
    if n > 0 {
      AppendedFalseCount(bs, n - 1);
    }
  }

  /** ... and so does the gather of the row. */
  lemma {:induction false} AppendedRowGather<V>(row: seq<V>, bs: seq<bool>, v: V, n: nat)
    requires |bs| == |row| && n <= |bs|
    ensures RowGather(row + [v], bs + [false], n) == RowGather(row, bs, n)
  {
    if n > 0 {
      AppendedRowGather(row, bs, v, n - 1);
    }
  }

  /** A row's whole gather and count ignore an appended false cell. */
  lemma AppendedRow<V>(row: seq<V>, bs: seq<bool>, v: V)
    requires |bs| == |row|
    ensures Count(bs + [false]) == Count(bs)
    ensures RowGather(row + [v], bs + [false], |bs| + 1) == RowGather(row, bs, |bs|)
  {
    AppendedFalseCount(bs, |bs|);
    AppendedRowGather(row, bs, v, |bs|);
  }

  /** The flat position of every cell of the original columns is unchanged by an
      all-false extra mask column. */
  lemma {:induction false} AppendedOffset(mask: Mask, n: nat)
    requires n <= |mask|
    ensures Offset(AppendColumn(mask, false), n) == Offset(mask, n)
  {
    if n > 0 {
      AppendedOffset(mask, n - 1);
      AppendedFalseCount(mask[n - 1], |mask[n - 1]|);
      assert AppendColumn(mask, false)[n - 1] == mask[n - 1] + [false];
    }
  }

  lemma AppendedFlatIndex(mask: Mask, r: nat, c: nat)
    requires r < |mask| && c <= |mask[r]|
    ensures FlatIndex(AppendColumn(mask, false), r, c) == FlatIndex(mask, r, c)
  {
    AppendedOffset(mask, r);
    AppendedFalseCount(mask[r], c);
    assert AppendColumn(mask, false)[r] == mask[r] + [false];
  }

  /** `x[mask]` over the extended matrix and mask flattens exactly the cells it
      flattens over the original ones: the extra column never contributes a sample. */
  lemma {:induction false} AppendedGatherRows<V>(x: Matrix<V>, mask: Mask, v: V, n: nat)
    requires SameShape(x, mask) && n <= |x|
    ensures SameShape(AppendColumn(x, v), AppendColumn(mask, false))
    ensures GatherRows(AppendColumn(x, v), AppendColumn(mask, false), n) == GatherRows(x, mask, n)
  {
    if n > 0 {
      AppendedGatherRows(x, mask, v, n - 1);
      assert AppendColumn(x, v)[n - 1] == x[n - 1] + [v];
      assert AppendColumn(mask, false)[n - 1] == mask[n - 1] + [false];
      AppendedRow(x[n - 1], mask[n - 1], v);
    }
  }

  lemma AppendedGather<V>(x: Matrix<V>, mask: Mask, v: V)
    requires SameShape(x, mask)
    ensures SameShape(AppendColumn(x, v), AppendColumn(mask, false))
    ensures Gather(AppendColumn(x, v), AppendColumn(mask, false)) == Gather(x, mask)
    ensures Total(AppendColumn(mask, false)) == Total(mask)
  {
    AppendedGatherRows(x, mask, v, |x|);
  }
}
