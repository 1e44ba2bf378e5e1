/** The driver (`multiple_imputations`): plan the visit order, append the column of
    ones, initialise, run `n_burn_in + n_imputations` rounds and keep the flattened
    missing cells after every round past the burn-in; and `complete`, which writes
    the per-cell mean of the kept samples into a copy of the input. */
module Driver {
  import opened Outcomes
  import opened Grid
  import opened Flatten
  import opened Ordering
  import opened MiceTypes
  import opened VisitOrder
  import opened Initializer
  import opened RoundExecutor
  import opened RoundChain
  import opened Augment
  import opened Averaging

  /** Column `c` of the input has an observed cell. */
  predicate HasObserved(X: Matrix<Entry>, c: nat)
  {
    exists r :: 0 <= r < |X| && c < |X[r]| && X[r][c].Num?
  }

  /** What input validation lets through: a `width`-column matrix none of whose
      columns is entirely missing. */
  predicate Validated(X: Matrix<Entry>, width: nat)
  {
    HasWidth(X, width) && forall c :: 0 <= c < width ==> HasObserved(X, c)
  }

  /** The width of the working matrix: the input's, plus the column of ones. */
  function WorkWidth(width: nat, cfg: Config): nat
  {
    width + if cfg.addOnes then 1 else 0
  }

  /** The working mask: the input's missing mask, plus an all-false column. */
  function WorkMask(X: Matrix<Entry>, cfg: Config): Mask
  {
    if cfg.addOnes then AppendColumn(IsNan(X), false) else IsNan(X)
  }

  /** The working matrix before initialisation: the input, plus the column of ones. */
  function WorkStart(X: Matrix<Entry>, cfg: Config): Matrix<real>
  {
    if cfg.addOnes then AppendColumn(Numeric(X), 1.0) else Numeric(X)
  }

  /** The working matrix and mask share one shape, and every visited column of the
      working mask has an observed cell. */
  lemma WorkShape(X: Matrix<Entry>, width: nat, cfg: Config, visit: seq<nat>)
    requires Validated(X, width) && AllBelow(visit, width)
    ensures Conforms(WorkStart(X, cfg), WorkMask(X, cfg), WorkWidth(width, cfg))
    ensures AllBelow(visit, WorkWidth(width, cfg)) && Anchored(WorkMask(X, cfg), visit)
    ensures forall i, j :: 0 <= i < |X| && 0 <= j < width ==> (WorkMask(X, cfg)[i][j] <==> X[i][j].NaN?)
  {
    var mask0 := IsNan(X);
    var mask := WorkMask(X, cfg);
    forall k | 0 <= k < |visit|
      ensures HasColumn(mask, visit[k]) && ColumnCount(mask, visit[k]) < |mask|
    {
      var c := visit[k];
      assert HasObserved(X, c);
      var r :| 0 <= r < |X| && c < |X[r]| && X[r][c].Num?;
      UnsetBelowRows(mask0, c, r, |mask0|);
      if cfg.addOnes {
        AppendedRank(mask0, false, c, |mask0|);
      }
    }
  }

  /** The working matrix after `initialize`. */
  function Start(X: Matrix<Entry>, width: nat, cfg: Config, chance: Chance, visit: seq<nat>): (x: Matrix<real>)
    requires Validated(X, width) && AllBelow(visit, width)
    ensures Conforms(x, WorkMask(X, cfg), WorkWidth(width, cfg))
  {
    WorkShape(X, width, cfg, visit);
    Initialize(WorkStart(X, cfg), WorkMask(X, cfg), WorkWidth(width, cfg), visit, chance)
  }

  /** `perform_imputation_round` on the working matrix (a matrix of another shape,
      which the driver never produces, is left as it is). */
  function ImputerRound(X: Matrix<Entry>, width: nat, cfg: Config, reg: Regressor, chance: Chance, visit: seq<nat>): (advance: Advance)
    requires Validated(X, width) && AllBelow(visit, width)
  {
    WorkShape(X, width, cfg, visit);
    var mask := WorkMask(X, cfg);
    var w := WorkWidth(width, cfg);
    (m: Matrix<real>, round: nat) =>
      if Conforms(m, mask, w) then Round(m, mask, w, visit, cfg, reg, chance, round) else Success(m)
  }

  /** The working matrix after initialisation and `k` rounds, or the first error. */
  function State(X: Matrix<Entry>, width: nat, cfg: Config, reg: Regressor, chance: Chance, visit: seq<nat>, k: nat)
    : Result<Matrix<real>, MiceError>
    requires Validated(X, width) && AllBelow(visit, width)
  {
    Chain(Start(X, width, cfg, chance, visit), ImputerRound(X, width, cfg, reg, chance, visit), k)
  }

  /** The update of some visited column fails (no other column to predict from, or
      no neighbour to draw from), so every round fails. */
  predicate RoundFails(X: Matrix<Entry>, width: nat, cfg: Config, visit: seq<nat>)
    requires Validated(X, width) && AllBelow(visit, width)
  {
    WorkShape(X, width, cfg, visit);
    exists k :: 0 <= k < |visit| && StepFails(WorkMask(X, cfg), WorkWidth(width, cfg), visit[k], cfg)
  }

  /** `e` is the error of the first visited column whose update fails. */
  predicate Blames(X: Matrix<Entry>, width: nat, cfg: Config, visit: seq<nat>, e: MiceError)
    requires Validated(X, width) && AllBelow(visit, width)
  {
    WorkShape(X, width, cfg, visit);
    exists k :: 0 <= k < |visit| && FirstFailure(WorkMask(X, cfg), WorkWidth(width, cfg), visit, cfg, k)
      && e == StepError(WorkWidth(width, cfg), visit[k])
  }

  /** A one-column input without the column of ones and with a missing cell fails:
      the update of its only column has no other column to select as predictors. */
  lemma OneColumnFails(X: Matrix<Entry>, cfg: Config, visit: seq<nat>, r: nat)
    requires Validated(X, 1) && IsPermutation(visit, 1) && !cfg.addOnes
    requires r < |X| && X[r][0].NaN?
    ensures RoundFails(X, 1, cfg, visit)
    ensures forall e :: Blames(X, 1, cfg, visit, e) <==> e == NoPredictors(0)
  {
    WorkShape(X, 1, cfg, visit);
    var mask := WorkMask(X, cfg);
    assert visit[0] == 0;
    RankBelowCount(mask, 0, r, |mask|);
    assert StepFails(mask, 1, visit[0], cfg);
    assert FirstFailure(mask, 1, visit, cfg, 0);
  }

  /** The imputer's round keeps the shape and every observed cell. */
  lemma ImputerRoundKeeps(X: Matrix<Entry>, width: nat, cfg: Config, reg: Regressor, chance: Chance, visit: seq<nat>)
    requires Validated(X, width) && AllBelow(visit, width)
    ensures KeepsObservedCells(ImputerRound(X, width, cfg, reg, chance, visit), WorkMask(X, cfg), WorkWidth(width, cfg))
  {
    WorkShape(X, width, cfg, visit);
  }

  /** The imputer's round fails exactly when some visited column cannot be updated,
      and then names such a column. */
  lemma ImputerRoundFails(X: Matrix<Entry>, width: nat, cfg: Config, reg: Regressor, chance: Chance, visit: seq<nat>)
    requires Validated(X, width) && AllBelow(visit, width)
    ensures FailsExactly(ImputerRound(X, width, cfg, reg, chance, visit), WorkMask(X, cfg), WorkWidth(width, cfg),
      RoundFails(X, width, cfg, visit), e => Blames(X, width, cfg, visit, e))
  {
    WorkShape(X, width, cfg, visit);
  }

  /** In `pmm` mode, with every column visited, the imputer's round writes into each
      missing cell of an input column a value observed in that column. */
  lemma ImputerRoundDrawsObserved(X: Matrix<Entry>, width: nat, cfg: Config, reg: Regressor, chance: Chance, visit: seq<nat>)
    requires Validated(X, width) && IsPermutation(visit, width) && cfg.imputeType == "pmm"
    ensures WritesObserved(ImputerRound(X, width, cfg, reg, chance, visit), WorkMask(X, cfg), WorkWidth(width, cfg), width)
  {
    WorkShape(X, width, cfg, visit);
    var advance := ImputerRound(X, width, cfg, reg, chance, visit);
    var mask := WorkMask(X, cfg);
    var w := WorkWidth(width, cfg);
    forall m: Matrix<real>, round: nat, i: nat, j: nat |
      (&& Conforms(m, mask, w) && advance(m, round).Success? && Conforms(advance(m, round).value, mask, w)
       && i < |m| && j < width && j < w && mask[i][j])
      ensures IsObservedValue(m, mask, j, advance(m, round).value[i][j])
    {
      var r := Round(m, mask, w, visit, cfg, reg, chance, round);
      assert advance(m, round) == r;
      assert j in visit;
    }
  }

  /** Whether a run fails depends on the mask alone: the state after `k` rounds is an
      error exactly when `k > 0` and some visited column cannot be updated, and the
      error names such a column. */
  lemma StateFailure(X: Matrix<Entry>, width: nat, cfg: Config, reg: Regressor, chance: Chance, visit: seq<nat>, k: nat)
    requires Validated(X, width) && AllBelow(visit, width)
    ensures State(X, width, cfg, reg, chance, visit, k).Failure? <==> k > 0 && RoundFails(X, width, cfg, visit)
    ensures State(X, width, cfg, reg, chance, visit, k).Failure? ==>
      Blames(X, width, cfg, visit, State(X, width, cfg, reg, chance, visit, k).error)
  {
    ImputerRoundKeeps(X, width, cfg, reg, chance, visit);
    ImputerRoundFails(X, width, cfg, reg, chance, visit);
    ChainFailure(Start(X, width, cfg, chance, visit), ImputerRound(X, width, cfg, reg, chance, visit),
      WorkMask(X, cfg), WorkWidth(width, cfg), RoundFails(X, width, cfg, visit), e => Blames(X, width, cfg, visit, e), k);
  }

  /** A state the run reaches has the working shape and the observed cells of the
      working matrix. */
  lemma StateKeeps(X: Matrix<Entry>, width: nat, cfg: Config, reg: Regressor, chance: Chance, visit: seq<nat>, k: nat)
    requires Validated(X, width) && AllBelow(visit, width)
    requires State(X, width, cfg, reg, chance, visit, k).Success?
    ensures Conforms(State(X, width, cfg, reg, chance, visit, k).value, WorkMask(X, cfg), WorkWidth(width, cfg))
    ensures (WorkShape(X, width, cfg, visit);
      AgreeUnmasked(WorkStart(X, cfg), State(X, width, cfg, reg, chance, visit, k).value, WorkMask(X, cfg)))
  {
    WorkShape(X, width, cfg, visit);
    ImputerRoundKeeps(X, width, cfg, reg, chance, visit);
    ChainKeeps(Start(X, width, cfg, chance, visit), ImputerRound(X, width, cfg, reg, chance, visit),
      WorkMask(X, cfg), WorkWidth(width, cfg), k);
  }

  /** A run that survives `k` rounds survived every earlier one. */
  lemma StateSuccessBefore(X: Matrix<Entry>, width: nat, cfg: Config, reg: Regressor, chance: Chance, visit: seq<nat>, k: nat, k': nat)
    requires Validated(X, width) && AllBelow(visit, width)
    requires State(X, width, cfg, reg, chance, visit, k).Success? && k' <= k
    ensures State(X, width, cfg, reg, chance, visit, k').Success?
  {
    ChainSuccessBefore(Start(X, width, cfg, chance, visit), ImputerRound(X, width, cfg, reg, chance, visit), k, k');
  }

  /** Through initialisation and every round, each observed cell keeps its input value
      and the column of ones stays all ones. */
  lemma StateFrame(X: Matrix<Entry>, width: nat, cfg: Config, reg: Regressor, chance: Chance, visit: seq<nat>, k: nat)
    requires Validated(X, width) && AllBelow(visit, width)
    requires State(X, width, cfg, reg, chance, visit, k).Success?
    ensures (StateKeeps(X, width, cfg, reg, chance, visit, k);
      forall i, j :: 0 <= i < |X| && 0 <= j < width && X[i][j].Num? ==>
        State(X, width, cfg, reg, chance, visit, k).value[i][j] == X[i][j].value)
    ensures (StateKeeps(X, width, cfg, reg, chance, visit, k);
      cfg.addOnes ==> forall i :: 0 <= i < |X| ==> State(X, width, cfg, reg, chance, visit, k).value[i][width] == 1.0)
  {
    WorkShape(X, width, cfg, visit);
    StateKeeps(X, width, cfg, reg, chance, visit, k);
  }

  /** A value observed in an input column of the working matrix is a value the input
      holds in an observed cell of that column. */
  lemma ObservedInInput(X: Matrix<Entry>, width: nat, cfg: Config, visit: seq<nat>, j: nat, v: real)
    requires Validated(X, width) && AllBelow(visit, width) && j < width
    requires (WorkShape(X, width, cfg, visit); IsObservedValue(WorkStart(X, cfg), WorkMask(X, cfg), j, v))
    ensures exists o :: 0 <= o < |X| && X[o][j] == Num(v)
  {
    WorkShape(X, width, cfg, visit);
    var o :| 0 <= o < |X| && !WorkMask(X, cfg)[o][j] && WorkStart(X, cfg)[o][j] == v;
    assert X[o][j] == Num(v);
  }

  /** In `pmm` mode no value is invented: after initialisation and every round, each
      missing cell holds a value observed in the same column of the input. */
  lemma PmmDrawsObserved(X: Matrix<Entry>, width: nat, cfg: Config, reg: Regressor, chance: Chance, visit: seq<nat>, k: nat, i: nat, j: nat)
    requires Validated(X, width) && IsPermutation(visit, width) && cfg.imputeType == "pmm"
    requires State(X, width, cfg, reg, chance, visit, k).Success?
    requires i < |X| && j < width && X[i][j].NaN?
    ensures (StateKeeps(X, width, cfg, reg, chance, visit, k);
      exists o :: 0 <= o < |X| && X[o][j] == Num(State(X, width, cfg, reg, chance, visit, k).value[i][j]))
  {
    WorkShape(X, width, cfg, visit);
    StateKeeps(X, width, cfg, reg, chance, visit, k);
    var start := Start(X, width, cfg, chance, visit);
    var mask := WorkMask(X, cfg);
    var w := WorkWidth(width, cfg);
    assert j in visit;
    ImputerRoundKeeps(X, width, cfg, reg, chance, visit);
    ImputerRoundDrawsObserved(X, width, cfg, reg, chance, visit);
    assert IsObservedValue(WorkStart(X, cfg), mask, j, start[i][j]);
    ObservedTransfer(WorkStart(X, cfg), start, mask, w, j, start[i][j]);
    ChainDrawsObserved(start, ImputerRound(X, width, cfg, reg, chance, visit), mask, w, width, k, i, j);
    var v := State(X, width, cfg, reg, chance, visit, k).value[i][j];
    ObservedTransfer(start, WorkStart(X, cfg), mask, w, j, v);
    ObservedInInput(X, width, cfg, visit, j, v);
  }

  /** The samples `multiple_imputations` keeps: `X_filled[missing_mask]` after each
      round past the burn-in. */
  function Samples(X: Matrix<Entry>, width: nat, cfg: Config, reg: Regressor, chance: Chance, visit: seq<nat>): (samples: seq<seq<real>>)
    requires Validated(X, width) && AllBelow(visit, width)
    requires State(X, width, cfg, reg, chance, visit, cfg.nBurnIn + cfg.nImputations).Success?
    ensures |samples| == cfg.nImputations
    ensures forall s :: 0 <= s < |samples| ==> |samples[s]| == Total(IsNan(X))
  {
    ImputerRoundKeeps(X, width, cfg, reg, chance, visit);
    WorkShape(X, width, cfg, visit);
    WorkTotal(X, cfg);
    KeptLengths(Start(X, width, cfg, chance, visit), ImputerRound(X, width, cfg, reg, chance, visit),
      WorkMask(X, cfg), WorkWidth(width, cfg), cfg.nBurnIn, cfg.nImputations);
    Kept(Start(X, width, cfg, chance, visit), ImputerRound(X, width, cfg, reg, chance, visit),
      WorkMask(X, cfg), WorkWidth(width, cfg), cfg.nBurnIn, cfg.nImputations)
  }

  /** The column of ones adds no missing cell. */
  lemma WorkTotal(X: Matrix<Entry>, cfg: Config)
    ensures Total(WorkMask(X, cfg)) == Total(IsNan(X))
  {
    if cfg.addOnes {
      AppendedGather(Numeric(X), IsNan(X), 0.0);
    }
  }

  /** What `multiple_imputations` returns: the kept samples and the input's mask. */
  datatype Imputations = Imputations(samples: seq<seq<real>>, mask: Mask)

  /** The rounds of `multiple_imputations` for a given visit order: they fail exactly
      when some round runs and some visited column has no neighbour to draw from, and
      otherwise yield the samples kept past the burn-in. */
  method RunImputer(X: Matrix<Entry>, width: nat, cfg: Config, reg: Regressor, chance: Chance, visit: seq<nat>)
    returns (r: Result<seq<seq<real>>, MiceError>)
    requires Validated(X, width) && AllBelow(visit, width)
    ensures r.Failure? <==> cfg.nBurnIn + cfg.nImputations > 0 && RoundFails(X, width, cfg, visit)
    ensures r.Failure? ==> Blames(X, width, cfg, visit, r.error)
    ensures r.Success? ==> State(X, width, cfg, reg, chance, visit, cfg.nBurnIn + cfg.nImputations).Success?
    ensures r.Success? ==> r.value == Samples(X, width, cfg, reg, chance, visit)
  {
    WorkShape(X, width, cfg, visit);
    ImputerRoundKeeps(X, width, cfg, reg, chance, visit);
    StateFailure(X, width, cfg, reg, chance, visit, cfg.nBurnIn + cfg.nImputations);
    r := RunRounds(Start(X, width, cfg, chance, visit), ImputerRound(X, width, cfg, reg, chance, visit),
      WorkMask(X, cfg), WorkWidth(width, cfg), cfg.nBurnIn, cfg.nImputations);
  }

  /** The mask `multiple_imputations` returns, with the column of ones stripped, is the
      input's own. */
  lemma StrippedMask(X: Matrix<Entry>, cfg: Config)
    ensures cfg.addOnes ==> DropLastColumn(WorkMask(X, cfg)) == IsNan(X)
  {
    if cfg.addOnes {
      DropAppended(IsNan(X), false);
    }
  }

  /** `multiple_imputations`.  An unknown visit order is rejected before anything else;
      otherwise the run fails exactly when some round runs and some visited column
      has no neighbour to draw from.  On success there is one sample per round past
      the burn-in, each with one value per missing cell, and the mask returned is the
      input's own, without the column of ones. */
  method MultipleImputations(X: Matrix<Entry>, width: nat, cfg: Config, reg: Regressor, chance: Chance)
    returns (r: Result<Imputations, MiceError>)
    requires Validated(X, width)
    ensures var order := VisitIndices(cfg.visitSequence, IsNan(X), width);
      order.Failure? ==> r == Failure(InvalidVisitOrder(cfg.visitSequence))
    ensures var order := VisitIndices(cfg.visitSequence, IsNan(X), width);
      order.Success? ==> (r.Failure? <==> cfg.nBurnIn + cfg.nImputations > 0 && RoundFails(X, width, cfg, order.value))
    ensures var order := VisitIndices(cfg.visitSequence, IsNan(X), width);
      order.Success? && r.Failure? ==> Blames(X, width, cfg, order.value, r.error)
    ensures r.Success? ==> r.value.mask == IsNan(X) && |r.value.samples| == cfg.nImputations
    ensures r.Success? ==> forall s :: 0 <= s < |r.value.samples| ==> |r.value.samples[s]| == Total(IsNan(X))
    ensures var order := VisitIndices(cfg.visitSequence, IsNan(X), width);
      r.Success? ==> State(X, width, cfg, reg, chance, order.value, cfg.nBurnIn + cfg.nImputations).Success?
    ensures var order := VisitIndices(cfg.visitSequence, IsNan(X), width);
      r.Success? ==> r.value.samples == Samples(X, width, cfg, reg, chance, order.value)
  {
    var visit :- VisitIndices(cfg.visitSequence, IsNan(X), width);
    var samples :- RunImputer(X, width, cfg, reg, chance, visit);
    StrippedMask(X, cfg);
    var mask := WorkMask(X, cfg);
    if cfg.addOnes {
      mask := DropLastColumn(mask);
    }
    r := Success(Imputations(samples, mask));
  }

  /** The values the missing cell `(i, j)` holds after each round past the burn-in,
      in round order. */
  function CellHistory(X: Matrix<Entry>, width: nat, cfg: Config, reg: Regressor, chance: Chance, visit: seq<nat>, i: nat, j: nat)
    : (history: seq<real>)
    requires Validated(X, width) && AllBelow(visit, width)
    requires State(X, width, cfg, reg, chance, visit, cfg.nBurnIn + cfg.nImputations).Success?
    requires i < |X| && j < width
    ensures |history| == cfg.nImputations
  {
    WorkShape(X, width, cfg, visit);
    ImputerRoundKeeps(X, width, cfg, reg, chance, visit);
    History(Start(X, width, cfg, chance, visit), ImputerRound(X, width, cfg, reg, chance, visit),
      WorkMask(X, cfg), WorkWidth(width, cfg), cfg.nBurnIn, cfg.nImputations, i, j)
  }

  /** Entry `s` of a cell's history is its value after round `n_burn_in + s + 1`. */
  lemma HistoryStep(X: Matrix<Entry>, width: nat, cfg: Config, reg: Regressor, chance: Chance, visit: seq<nat>, i: nat, j: nat, s: nat)
    requires Validated(X, width) && AllBelow(visit, width)
    requires State(X, width, cfg, reg, chance, visit, cfg.nBurnIn + cfg.nImputations).Success?
    requires i < |X| && j < width && s < cfg.nImputations
    ensures State(X, width, cfg, reg, chance, visit, cfg.nBurnIn + s + 1).Success?
    ensures (StateKeeps(X, width, cfg, reg, chance, visit, cfg.nBurnIn + s + 1);
      CellHistory(X, width, cfg, reg, chance, visit, i, j)[s] == State(X, width, cfg, reg, chance, visit, cfg.nBurnIn + s + 1).value[i][j])
  {
    WorkShape(X, width, cfg, visit);
    ImputerRoundKeeps(X, width, cfg, reg, chance, visit);
    HistoryAt(Start(X, width, cfg, chance, visit), ImputerRound(X, width, cfg, reg, chance, visit),
      WorkMask(X, cfg), WorkWidth(width, cfg), cfg.nBurnIn, cfg.nImputations, i, j, s);
    StateKeeps(X, width, cfg, reg, chance, visit, cfg.nBurnIn + s + 1);
  }

  /** Reading position `FlatIndex(mask, i, j)` of every sample gives the history of the
      missing cell `(i, j)`: the flattened samples line up with the cells they came
      from, and the column of ones shifts nothing. */
  lemma HistoryInSamples(X: Matrix<Entry>, width: nat, cfg: Config, reg: Regressor, chance: Chance, visit: seq<nat>, i: nat, j: nat)
    requires Validated(X, width) && AllBelow(visit, width)
    requires State(X, width, cfg, reg, chance, visit, cfg.nBurnIn + cfg.nImputations).Success?
    requires i < |X| && j < width && X[i][j].NaN?
    ensures (FlatIndexBound(IsNan(X), i, j);
      Column(Samples(X, width, cfg, reg, chance, visit), FlatIndex(IsNan(X), i, j))
        == CellHistory(X, width, cfg, reg, chance, visit, i, j))
  {
    WorkShape(X, width, cfg, visit);
    ImputerRoundKeeps(X, width, cfg, reg, chance, visit);
    FlatIndexBound(IsNan(X), i, j);
    if cfg.addOnes {
      AppendedFlatIndex(IsNan(X), i, j);
    }
    KeptColumn(Start(X, width, cfg, chance, visit), ImputerRound(X, width, cfg, reg, chance, visit),
      WorkMask(X, cfg), WorkWidth(width, cfg), cfg.nBurnIn, cfg.nImputations, i, j);
  }

  /** `X_filled[missing_mask] = imputations.mean(axis=0)` on a copy of the input: every
      observed cell is kept, and every missing cell receives the mean of the values
      the samples hold at its flat position. */
  function FillMeans(X: Matrix<Entry>, samples: seq<seq<real>>): (filled: Matrix<Entry>)
    requires |samples| > 0 && forall s :: 0 <= s < |samples| ==> |samples[s]| == Total(IsNan(X))
    ensures SameShape(filled, X)
    ensures forall i, j :: 0 <= i < |X| && 0 <= j < |X[i]| && X[i][j].Num? ==> filled[i][j] == X[i][j]
    ensures forall i, j :: 0 <= i < |X| && 0 <= j < |X[i]| && X[i][j].NaN? ==>
      FlatIndex(IsNan(X), i, j) < Total(IsNan(X)) &&
      filled[i][j] == Num(Mean(Column(samples, FlatIndex(IsNan(X), i, j))))
  {
    var means := CellMeans(samples, Total(IsNan(X)));
    Scatter(X, IsNan(X), seq(|means|, k requires 0 <= k < |means| => Num(means[k])))
  }

  /** `complete`: with at least one imputation kept, the input with every missing cell
      replaced by the mean, over the rounds past the burn-in, of the values that cell
      held; observed cells are untouched.  It fails exactly as `multiple_imputations`
      does. */
  method Complete(X: Matrix<Entry>, width: nat, cfg: Config, reg: Regressor, chance: Chance)
    returns (r: Result<Matrix<Entry>, MiceError>)
    requires Validated(X, width) && cfg.nImputations > 0
    ensures var order := VisitIndices(cfg.visitSequence, IsNan(X), width);
      order.Failure? ==> r == Failure(InvalidVisitOrder(cfg.visitSequence))
    ensures var order := VisitIndices(cfg.visitSequence, IsNan(X), width);
      order.Success? ==> (r.Failure? <==> RoundFails(X, width, cfg, order.value))
    ensures var order := VisitIndices(cfg.visitSequence, IsNan(X), width);
      order.Success? && r.Failure? ==> Blames(X, width, cfg, order.value, r.error)
    ensures r.Success? ==> SameShape(r.value, X)
    ensures r.Success? ==> forall i, j :: 0 <= i < |X| && 0 <= j < |X[i]| && X[i][j].Num? ==> r.value[i][j] == X[i][j]
    ensures var order := VisitIndices(cfg.visitSequence, IsNan(X), width);
      r.Success? ==> && order.Success?
                     && State(X, width, cfg, reg, chance, order.value, cfg.nBurnIn + cfg.nImputations).Success?
                     && forall i, j :: 0 <= i < |X| && 0 <= j < width && X[i][j].NaN? ==>
                          r.value[i][j] == Num(Mean(CellHistory(X, width, cfg, reg, chance, order.value, i, j)))
  {
    var imp :- MultipleImputations(X, width, cfg, reg, chance);
    ghost var visit := VisitIndices(cfg.visitSequence, IsNan(X), width).value;
    var filled := FillMeans(X, imp.samples);
    forall i, j | 0 <= i < |X| && 0 <= j < width && X[i][j].NaN?
      ensures filled[i][j] == Num(Mean(CellHistory(X, width, cfg, reg, chance, visit, i, j)))
    {
      HistoryInSamples(X, width, cfg, reg, chance, visit, i, j);
    }
    r := Success(filled);
  }

  /** In `pmm` mode a completed cell is a mean of values observed in its column, so it
      lies within any bounds that hold for all of that column's observed values. */
  lemma PmmMeanWithinObserved(X: Matrix<Entry>, width: nat, cfg: Config, reg: Regressor, chance: Chance, visit: seq<nat>,
                              i: nat, j: nat, lo: real, hi: real)
    requires Validated(X, width) && IsPermutation(visit, width) && cfg.imputeType == "pmm" && cfg.nImputations > 0
    requires State(X, width, cfg, reg, chance, visit, cfg.nBurnIn + cfg.nImputations).Success?
    requires i < |X| && j < width && X[i][j].NaN?
    requires forall o :: 0 <= o < |X| && X[o][j].Num? ==> lo <= X[o][j].value <= hi
    ensures lo <= Mean(CellHistory(X, width, cfg, reg, chance, visit, i, j)) <= hi
  {
    var history := CellHistory(X, width, cfg, reg, chance, visit, i, j);
    forall s | 0 <= s < |history|
      ensures lo <= history[s] <= hi
    {
      HistoryStep(X, width, cfg, reg, chance, visit, i, j, s);
      PmmDrawsObserved(X, width, cfg, reg, chance, visit, cfg.nBurnIn + s + 1, i, j);
    }
    MeanBetween(history, lo, hi);
  }
}
