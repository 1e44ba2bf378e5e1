/** `imputed_arrays.mean(axis=0)`: the per-position mean of a stack of equally long
    samples, over exact reals. */
module Averaging {

  function Sum(vs: seq<real>): real
  {
    if |vs| == 0 then 0.0 else Sum(vs[..|vs| - 1]) + vs[|vs| - 1]
  }

  function Mean(vs: seq<real>): real
    requires |vs| > 0
  {
    Sum(vs) / (|vs| as real)
  }

  /** Entry `k` of every sample, in sample order. */
  function Column(samples: seq<seq<real>>, k: nat): (col: seq<real>)
    requires forall s :: 0 <= s < |samples| ==> k < |samples[s]|
    ensures |col| == |samples|
  {
    seq(|samples|, s requires 0 <= s < |samples| => samples[s][k])
  }

  /** The mean of every position over a non-empty stack of samples of length `n`. */
  function CellMeans(samples: seq<seq<real>>, n: nat): (means: seq<real>)
    requires |samples| > 0 && forall s :: 0 <= s < |samples| ==> |samples[s]| == n
    ensures |means| == n
  {
    seq(n, k requires 0 <= k < n => Mean(Column(samples, k)))
  }

  /** A sum of values between `lo` and `hi` lies between the count times each. */
  lemma {:induction false} SumBetween(vs: seq<real>, lo: real, hi: real)
    requires forall i :: 0 <= i < |vs| ==> lo <= vs[i] <= hi
    ensures (|vs| as real) * lo <= Sum(vs) <= (|vs| as real) * hi
  {
    if |vs| > 0 {
      SumBetween(vs[..|vs| - 1], lo, hi);
    }
  }

  /** The mean of values between `lo` and `hi` lies between them; in particular the
      mean of equal values is that value. */
  lemma MeanBetween(vs: seq<real>, lo: real, hi: real)
    requires |vs| > 0 && forall i :: 0 <= i < |vs| ==> lo <= vs[i] <= hi
    ensures lo <= Mean(vs) <= hi
  {
    SumBetween(vs, lo, hi);
    var n := |vs| as real;
    assert Mean(vs) * n == Sum(vs);
  }
}
