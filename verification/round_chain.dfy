/** The chain of rounds the driver runs: from the initialised matrix, round after
    round, stopping at the first error, with the flattened missing cells recorded
    after every round past the burn-in.  Stated for any round that keeps the shape
    and the observed cells, so that the properties of the chain follow from those of
    a single round. */
module RoundChain {
  import opened Outcomes
  import opened Grid
  import opened Flatten
  import opened MiceTypes
  import opened Averaging

  /** One round as the driver applies it: the matrix and the round's number in, the
      matrix after the round or an error out. */
  type Advance = (Matrix<real>, nat) -> Result<Matrix<real>, MiceError>

  /** The matrix after the first `k` rounds from `start`, or the first error. */
  function Chain(start: Matrix<real>, advance: Advance, k: nat): Result<Matrix<real>, MiceError>
  {
    if k == 0 then Success(start)
    else
      var prev :- Chain(start, advance, k - 1);
      advance(prev, k - 1)
  }

  /** A round keeps the shape and the value of every observed cell. */
  ghost predicate KeepsObservedCells(advance: Advance, mask: Mask, width: nat)
  {
    forall m: Matrix<real>, round: nat :: Conforms(m, mask, width) && advance(m, round).Success? ==>
      Conforms(advance(m, round).value, mask, width) && AgreeUnmasked(m, advance(m, round).value, mask)
  }

  /** Whether a round fails is decided by `fails` alone, and its error satisfies `blame`. */
  ghost predicate FailsExactly(advance: Advance, mask: Mask, width: nat, fails: bool, blame: MiceError -> bool)
  {
    forall m: Matrix<real>, round: nat :: Conforms(m, mask, width) ==>
      && (advance(m, round).Failure? <==> fails)
      && (advance(m, round).Failure? ==> blame(advance(m, round).error))
  }

  /** A round writes into every missing cell of the first `cols` columns a value
      observed in the same column. */
  ghost predicate WritesObserved(advance: Advance, mask: Mask, width: nat, cols: nat)
  {
    forall m: Matrix<real>, round: nat, i: nat, j: nat ::
      (&& Conforms(m, mask, width) && advance(m, round).Success? && Conforms(advance(m, round).value, mask, width)
       && i < |m| && j < cols && j < width && mask[i][j]) ==>
      IsObservedValue(m, mask, j, advance(m, round).value[i][j])
  }

  /** A chain that survives `k` rounds survived every earlier one. */
  lemma {:induction false} ChainSuccessBefore(start: Matrix<real>, advance: Advance, k: nat, k': nat)
    requires Chain(start, advance, k).Success? && k' <= k
    ensures Chain(start, advance, k').Success?
  {
    if k' < k {
      ChainSuccessBefore(start, advance, k - 1, k');
    }
  }

  /** Once a round fails, the chain stays at that error. */
  lemma {:induction false} ChainFailureSticks(start: Matrix<real>, advance: Advance, k: nat, k': nat)
    requires Chain(start, advance, k).Failure? && k <= k'
    ensures Chain(start, advance, k') == Chain(start, advance, k)
  {
    if k < k' {
      ChainFailureSticks(start, advance, k, k' - 1);
    }
  }

  /** Rounds that keep the observed cells keep them along the whole chain. */
  lemma {:induction false} ChainKeeps(start: Matrix<real>, advance: Advance, mask: Mask, width: nat, k: nat)
    requires KeepsObservedCells(advance, mask, width) && Conforms(start, mask, width)
    requires Chain(start, advance, k).Success?
    ensures Conforms(Chain(start, advance, k).value, mask, width)
    ensures AgreeUnmasked(start, Chain(start, advance, k).value, mask)
  {
    if k > 0 {
      ChainKeeps(start, advance, mask, width, k - 1);
    }
  }

  /** With rounds whose failure is decided in advance, the chain after `k` rounds is an
      error exactly when `k > 0` and rounds fail. */
  lemma {:induction false} ChainFailure(start: Matrix<real>, advance: Advance, mask: Mask, width: nat, fails: bool, blame: MiceError -> bool, k: nat)
    requires KeepsObservedCells(advance, mask, width) && FailsExactly(advance, mask, width, fails, blame)
    requires Conforms(start, mask, width)
    ensures Chain(start, advance, k).Failure? <==> k > 0 && fails
    ensures Chain(start, advance, k).Failure? ==> blame(Chain(start, advance, k).error)
  {
    if k > 0 {
      ChainFailure(start, advance, mask, width, fails, blame, k - 1);
      if Chain(start, advance, k - 1).Success? {
        ChainKeeps(start, advance, mask, width, k - 1);
      }
    }
  }

  /** With rounds that draw observed values, a missing cell that starts with a value
      observed in its column keeps holding one along the whole chain. */
  lemma {:induction false} ChainDrawsObserved(start: Matrix<real>, advance: Advance, mask: Mask, width: nat, cols: nat, k: nat, i: nat, j: nat)
    requires KeepsObservedCells(advance, mask, width) && WritesObserved(advance, mask, width, cols)
    requires Conforms(start, mask, width) && Chain(start, advance, k).Success?
    requires i < |start| && j < cols && j < width && mask[i][j]
    requires IsObservedValue(start, mask, j, start[i][j])
    ensures (ChainKeeps(start, advance, mask, width, k);
      IsObservedValue(start, mask, j, Chain(start, advance, k).value[i][j]))
  {
    ChainKeeps(start, advance, mask, width, k);
    if k > 0 {
      ChainSuccessBefore(start, advance, k, k - 1);
      ChainKeeps(start, advance, mask, width, k - 1);
      var prev := Chain(start, advance, k - 1).value;
      var v := Chain(start, advance, k).value[i][j];
      assert IsObservedValue(prev, mask, j, v);
      ObservedTransfer(prev, start, mask, width, j, v);
    }
  }

  /** The samples recorded in the first `n` rounds past a burn-in of `burnIn` rounds,
      in round order: `x[mask]` after each of them. */
  function Kept(start: Matrix<real>, advance: Advance, mask: Mask, width: nat, burnIn: nat, n: nat): (samples: seq<seq<real>>)
    requires KeepsObservedCells(advance, mask, width) && Conforms(start, mask, width)
    requires Chain(start, advance, burnIn + n).Success?
    ensures |samples| == n
  {
    seq(n, s requires 0 <= s < n =>
      ChainSuccessBefore(start, advance, burnIn + n, burnIn + s + 1);
      ChainKeeps(start, advance, mask, width, burnIn + s + 1);
      Gather(Chain(start, advance, burnIn + s + 1).value, mask))
  }

  /** Sample `s` is `x[mask]` after round `burnIn + s + 1`; it has one value per
      missing cell. */
  lemma KeptSample(start: Matrix<real>, advance: Advance, mask: Mask, width: nat, burnIn: nat, n: nat, s: nat)
    requires KeepsObservedCells(advance, mask, width) && Conforms(start, mask, width)
    requires Chain(start, advance, burnIn + n).Success? && s < n
    ensures Chain(start, advance, burnIn + s + 1).Success?
    ensures (ChainKeeps(start, advance, mask, width, burnIn + s + 1);
      Kept(start, advance, mask, width, burnIn, n)[s] == Gather(Chain(start, advance, burnIn + s + 1).value, mask))
    ensures |Kept(start, advance, mask, width, burnIn, n)[s]| == Total(mask)
  {
    ChainSuccessBefore(start, advance, burnIn + n, burnIn + s + 1);
    ChainKeeps(start, advance, mask, width, burnIn + s + 1);
  }

  /** The values cell `(i, j)` holds after each of the first `n` rounds past the
      burn-in, in round order. */
  function History(start: Matrix<real>, advance: Advance, mask: Mask, width: nat, burnIn: nat, n: nat, i: nat, j: nat)
    : (history: seq<real>)
    requires KeepsObservedCells(advance, mask, width) && Conforms(start, mask, width)
    requires Chain(start, advance, burnIn + n).Success? && i < |start| && j < width
    ensures |history| == n
  {
    seq(n, s requires 0 <= s < n =>
      ChainSuccessBefore(start, advance, burnIn + n, burnIn + s + 1);
      ChainKeeps(start, advance, mask, width, burnIn + s + 1);
      Chain(start, advance, burnIn + s + 1).value[i][j])
  }

  /** Entry `s` of a cell's history is its value after round `burnIn + s + 1`. */
  lemma HistoryAt(start: Matrix<real>, advance: Advance, mask: Mask, width: nat, burnIn: nat, n: nat, i: nat, j: nat, s: nat)
    requires KeepsObservedCells(advance, mask, width) && Conforms(start, mask, width)
    requires Chain(start, advance, burnIn + n).Success? && i < |start| && j < width && s < n
    ensures Chain(start, advance, burnIn + s + 1).Success?
    ensures (ChainKeeps(start, advance, mask, width, burnIn + s + 1);
      History(start, advance, mask, width, burnIn, n, i, j)[s] == Chain(start, advance, burnIn + s + 1).value[i][j])
  {
    ChainSuccessBefore(start, advance, burnIn + n, burnIn + s + 1);
    ChainKeeps(start, advance, mask, width, burnIn + s + 1);
  }

  /** Every kept sample has one value per missing cell. */
  lemma KeptLengths(start: Matrix<real>, advance: Advance, mask: Mask, width: nat, burnIn: nat, n: nat)
    requires KeepsObservedCells(advance, mask, width) && Conforms(start, mask, width)
    requires Chain(start, advance, burnIn + n).Success?
    ensures forall s :: 0 <= s < n ==> |Kept(start, advance, mask, width, burnIn, n)[s]| == Total(mask)
  {
    forall s | 0 <= s < n
      ensures |Kept(start, advance, mask, width, burnIn, n)[s]| == Total(mask)
    {
      KeptSample(start, advance, mask, width, burnIn, n, s);
    }
  }

  /** Sample `s` holds the missing cell `(i, j)` at the cell's row-major rank among the
      missing cells, with the value it had after round `burnIn + s + 1`. */
  lemma KeptCell(start: Matrix<real>, advance: Advance, mask: Mask, width: nat, burnIn: nat, n: nat, s: nat, i: nat, j: nat)
    requires KeepsObservedCells(advance, mask, width) && Conforms(start, mask, width)
    requires Chain(start, advance, burnIn + n).Success? && s < n
    requires i < |start| && j < width && mask[i][j]
    ensures Chain(start, advance, burnIn + s + 1).Success?
    ensures (KeptSample(start, advance, mask, width, burnIn, n, s); ChainKeeps(start, advance, mask, width, burnIn + s + 1);
      FlatIndexBound(mask, i, j);
      Kept(start, advance, mask, width, burnIn, n)[s][FlatIndex(mask, i, j)] == Chain(start, advance, burnIn + s + 1).value[i][j])
  {
    KeptSample(start, advance, mask, width, burnIn, n, s);
    FlatIndexBound(mask, i, j);
  }

  /** Reading the same flat position of every kept sample gives the history of the
      missing cell stored there. */
  lemma KeptColumn(start: Matrix<real>, advance: Advance, mask: Mask, width: nat, burnIn: nat, n: nat, i: nat, j: nat)
    requires KeepsObservedCells(advance, mask, width) && Conforms(start, mask, width)
    requires Chain(start, advance, burnIn + n).Success?
    requires i < |start| && j < width && mask[i][j]
    ensures (KeptLengths(start, advance, mask, width, burnIn, n); FlatIndexBound(mask, i, j);
      Column(Kept(start, advance, mask, width, burnIn, n), FlatIndex(mask, i, j)) == History(start, advance, mask, width, burnIn, n, i, j))
  {
    KeptLengths(start, advance, mask, width, burnIn, n);
    FlatIndexBound(mask, i, j);
    forall s | 0 <= s < n
      ensures Kept(start, advance, mask, width, burnIn, n)[s][FlatIndex(mask, i, j)] == History(start, advance, mask, width, burnIn, n, i, j)[s]
    {
      KeptCell(start, advance, mask, width, burnIn, n, s, i, j);
      HistoryAt(start, advance, mask, width, burnIn, n, i, j, s);
    }
  }

  /** One more round past the burn-in adds its sample at the end. */
  lemma KeptGrows(start: Matrix<real>, advance: Advance, mask: Mask, width: nat, burnIn: nat, n: nat)
    requires KeepsObservedCells(advance, mask, width) && Conforms(start, mask, width)
    requires Chain(start, advance, burnIn + n + 1).Success?
    ensures Chain(start, advance, burnIn + n).Success?
    ensures (ChainKeeps(start, advance, mask, width, burnIn + n + 1);
      Kept(start, advance, mask, width, burnIn, n + 1)
        == Kept(start, advance, mask, width, burnIn, n) + [Gather(Chain(start, advance, burnIn + n + 1).value, mask)])
  {
    ChainSuccessBefore(start, advance, burnIn + n + 1, burnIn + n);
    ChainKeeps(start, advance, mask, width, burnIn + n + 1);
  }

  /** The loop of `multiple_imputations`: `burnIn + n` rounds in place, recording
      `x[mask]` after each round past the burn-in.  It fails exactly when the chain
      does, with the chain's error, and otherwise returns the kept samples. */
  method RunRounds(start: Matrix<real>, advance: Advance, mask: Mask, width: nat, burnIn: nat, n: nat)
    returns (r: Result<seq<seq<real>>, MiceError>)
    requires KeepsObservedCells(advance, mask, width) && Conforms(start, mask, width)
    ensures r.Success? <==> Chain(start, advance, burnIn + n).Success?
    ensures r.Failure? ==> r.error == Chain(start, advance, burnIn + n).error
    ensures r.Success? ==> r.value == Kept(start, advance, mask, width, burnIn, n)
  {
    var x := start;
    var samples: seq<seq<real>> := [];
    var m := 0;
    while m < burnIn + n
      invariant m <= burnIn + n
      invariant Chain(start, advance, m) == Success(x)
      invariant Conforms(x, mask, width)
      invariant m <= burnIn ==> samples == []
      invariant m > burnIn ==> samples == Kept(start, advance, mask, width, burnIn, m - burnIn)
    {
      var next := advance(x, m);
      assert Chain(start, advance, m + 1) == next;
      if next.Failure? {
        ChainFailureSticks(start, advance, m + 1, burnIn + n);
        return Failure(next.error);
      }
      x := next.value;
      if m >= burnIn {
        KeptGrows(start, advance, mask, width, burnIn, m - burnIn);
        samples := samples + [Gather(x, mask)];
      }
      m := m + 1;
    }
    r := Success(samples);
  }
}
