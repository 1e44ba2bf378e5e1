/** Boolean-mask indexing of a whole matrix, as numpy does it in row-major order:
    `x[mask]` gathers the marked cells into a flat sequence and `x[mask] = v`
    scatters a flat sequence back.  The imputer uses the first to record one
    sample per round and the second to write the averages into the result. */
module Flatten {
  import opened Grid

  /** Number of set entries among the first `n` entries of `bs`. */
  function CountUpTo(bs: seq<bool>, n: nat): nat
    requires n <= |bs|
  {
    if n == 0 then 0 else CountUpTo(bs, n - 1) + (if bs[n - 1] then 1 else 0)
  }

  /** Number of set entries of `bs`. */
  function Count(bs: seq<bool>): nat
  {
    CountUpTo(bs, |bs|)
  }

  /** Counting never decreases, and a set entry at `j` is counted strictly before `n`. */
  lemma {:induction false} CountMonotone(bs: seq<bool>, j: nat, n: nat)
    requires j <= n <= |bs|
    ensures CountUpTo(bs, j) <= CountUpTo(bs, n)
    ensures j < n && bs[j] ==> CountUpTo(bs, j) < CountUpTo(bs, n)
  {
    if j < n {
      CountMonotone(bs, j, n - 1);
    }
  }

  /** Number of set cells in the rows above row `r`. */
  function Offset(mask: Mask, r: nat): nat
    requires r <= |mask|
  {
    if r == 0 then 0 else Offset(mask, r - 1) + Count(mask[r - 1])
  }

  /** Number of set cells of the whole mask (`mask.sum()`). */
  function Total(mask: Mask): nat
  {
    Offset(mask, |mask|)
  }

  lemma {:induction false} OffsetMonotone(mask: Mask, r: nat, n: nat)
    requires r <= n <= |mask|
    ensures Offset(mask, r) <= Offset(mask, n)
  {
    if r < n {
      OffsetMonotone(mask, r, n - 1);
    }
  }

  /** Row-major position of cell (r, c) among the set cells of `mask`. */
  function FlatIndex(mask: Mask, r: nat, c: nat): nat
    requires r < |mask| && c <= |mask[r]|
  {
    Offset(mask, r) + CountUpTo(mask[r], c)
  }

  /** A set cell's flat position lies inside its own row's block, hence below `Total`. */
  lemma FlatIndexBound(mask: Mask, r: nat, c: nat)
    requires r < |mask| && c < |mask[r]| && mask[r][c]
    ensures Offset(mask, r) <= FlatIndex(mask, r, c) < Offset(mask, r + 1) <= Total(mask)
  {
    CountMonotone(mask[r], c, |mask[r]|);
    OffsetMonotone(mask, r + 1, |mask|);
  }

  /** The entries of `row` at set positions of `bs` among its first `n`, left to right. */
  function RowGather<V>(row: seq<V>, bs: seq<bool>, n: nat): (g: seq<V>)
    requires |bs| == |row| && n <= |bs|
    ensures |g| == CountUpTo(bs, n)
    ensures forall j :: 0 <= j < n && bs[j] ==> CountUpTo(bs, j) < |g| && g[CountUpTo(bs, j)] == row[j]
  {
    if n == 0 then []
    else
      var g := RowGather(row, bs, n - 1);
      assert forall j :: 0 <= j < n - 1 && bs[j] ==> CountUpTo(bs, j) < |g| by {
        forall j | 0 <= j < n - 1 && bs[j]
          ensures CountUpTo(bs, j) < |g|
        {
          CountMonotone(bs, j, n - 1);
        }
      }
      if bs[n - 1] then g + [row[n - 1]] else g
  }

  /** `x[mask]` restricted to the first `n` rows. */
  function GatherRows<V>(x: Matrix<V>, mask: Mask, n: nat): (g: seq<V>)
    requires SameShape(x, mask) && n <= |x|
    ensures |g| == Offset(mask, n)
    ensures forall r, c :: 0 <= r < n && 0 <= c < |mask[r]| && mask[r][c] ==>
      FlatIndex(mask, r, c) < |g| && g[FlatIndex(mask, r, c)] == x[r][c]
  {
    if n == 0 then []
    else
      var before := GatherRows(x, mask, n - 1);
      var last := RowGather(x[n - 1], mask[n - 1], |mask[n - 1]|);
      assert forall r, c :: 0 <= r < n && 0 <= c < |mask[r]| && mask[r][c] ==>
        FlatIndex(mask, r, c) < Offset(mask, r + 1) <= Offset(mask, n) by {
        forall r, c | 0 <= r < n && 0 <= c < |mask[r]| && mask[r][c]
          ensures FlatIndex(mask, r, c) < Offset(mask, r + 1) <= Offset(mask, n)
        {
          FlatIndexBound(mask, r, c);
          OffsetMonotone(mask, r + 1, n);
        }
      }
      before + last
  }

  /** `x[mask]`: the cells `mask` marks, row by row and left to right within a row. */
  function Gather<V>(x: Matrix<V>, mask: Mask): (g: seq<V>)
    requires SameShape(x, mask)
    ensures |g| == Total(mask)
    ensures forall r, c :: 0 <= r < |mask| && 0 <= c < |mask[r]| && mask[r][c] ==>
      FlatIndex(mask, r, c) < |g| && g[FlatIndex(mask, r, c)] == x[r][c]
  {
    GatherRows(x, mask, |x|)
  }

  /** `x[mask] = v` on a copy of `x`: the k-th marked cell in row-major order receives
      `v[k]`; every unmarked cell keeps its value. */
  function Scatter<V>(x: Matrix<V>, mask: Mask, v: seq<V>): (y: Matrix<V>)
    requires SameShape(x, mask) && |v| == Total(mask)
    ensures SameShape(y, x)
    ensures forall r, c :: 0 <= r < |y| && 0 <= c < |y[r]| && !mask[r][c] ==> y[r][c] == x[r][c]
    ensures forall r, c :: 0 <= r < |y| && 0 <= c < |y[r]| && mask[r][c] ==>
      FlatIndex(mask, r, c) < |v| && y[r][c] == v[FlatIndex(mask, r, c)]
  {
    assert forall r, c :: 0 <= r < |x| && 0 <= c < |x[r]| && mask[r][c] ==> FlatIndex(mask, r, c) < |v| by {
      forall r, c | 0 <= r < |x| && 0 <= c < |x[r]| && mask[r][c]
        ensures FlatIndex(mask, r, c) < |v|
      {
        FlatIndexBound(mask, r, c);
      }
    }
    seq(|x|, r requires 0 <= r < |x| =>
      seq(|x[r]|, c requires 0 <= c < |x[r]| =>
        if mask[r][c] then v[FlatIndex(mask, r, c)] else x[r][c]))
  }

  /** A row whose marked cells hold the consecutive block of `v` starting at `o`
      gathers to exactly that block. */
  lemma {:induction false} RowGatherBlock<V>(row: seq<V>, bs: seq<bool>, v: seq<V>, o: nat, n: nat)
    requires |bs| == |row| && n <= |bs| && o + Count(bs) <= |v|
    requires forall j :: 0 <= j < |bs| && bs[j] ==> o + CountUpTo(bs, j) < |v| && row[j] == v[o + CountUpTo(bs, j)]
    ensures o + CountUpTo(bs, n) <= |v|
    ensures RowGather(row, bs, n) == v[o .. o + CountUpTo(bs, n)]
  {
    CountMonotone(bs, n, |bs|);
    if n > 0 {
      RowGatherBlock(row, bs, v, o, n - 1);
    }
  }

  /** Scattering `v` and gathering again yields `v`: the assignment `x[mask] = v`
      is read back unchanged by `x[mask]`. */
  lemma GatherScatter<V>(x: Matrix<V>, mask: Mask, v: seq<V>)
    requires SameShape(x, mask) && |v| == Total(mask)
    ensures Gather(Scatter(x, mask, v), mask) == v
  {
    var y := Scatter(x, mask, v);
    GatherScatterRows(y, mask, v, |y|);
  }

  lemma {:induction false} GatherScatterRows<V>(y: Matrix<V>, mask: Mask, v: seq<V>, n: nat)
    requires SameShape(y, mask) && |v| == Total(mask) && n <= |y|
    requires forall r, c :: 0 <= r < |y| && 0 <= c < |y[r]| && mask[r][c] ==>
      FlatIndex(mask, r, c) < |v| && y[r][c] == v[FlatIndex(mask, r, c)]
    ensures Offset(mask, n) <= |v|
    ensures GatherRows(y, mask, n) == v[..Offset(mask, n)]
  {
    OffsetMonotone(mask, n, |mask|);
    if n > 0 {
      GatherScatterRows(y, mask, v, n - 1);
      var o := Offset(mask, n - 1);
      RowGatherBlock(y[n - 1], mask[n - 1], v, o, |mask[n - 1]|);
      assert v[..o] + v[o .. Offset(mask, n)] == v[..Offset(mask, n)];
    }
  }

  /** Gathering the marked cells and scattering them back restores the matrix. */
  lemma ScatterGather<V>(x: Matrix<V>, mask: Mask)
    requires SameShape(x, mask)
    ensures Scatter(x, mask, Gather(x, mask)) == x
  {
    var y := Scatter(x, mask, Gather(x, mask));
    forall r | 0 <= r < |x|
      ensures y[r] == x[r]
    {
    }
  }
}
