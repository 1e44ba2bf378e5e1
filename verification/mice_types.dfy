/** The imputer's settings and its collaborators: the regression model and the
    random number source, both supplied by the caller as functions. */
module MiceTypes {
  import opened Outcomes
  import opened Grid

  /** Which predictor subsetting rule the round fits on: the code's own, which loses
      the column of ones (`AsWrittenRule`, the imputer's behaviour), or the corrected
      one that keeps it (`CorrectedRule`).  Every property of the round and of the
      driver is proved for both. */
  datatype PredictorRule = AsWrittenRule | CorrectedRule

  /** The constructor arguments of the imputer, plus the predictor rule.
      `nNearestColumns` is `None` for the unbounded default (`np.infty`).  The
      progress flag `verbose` is left out: it only prints. */
  datatype Config = Config(
    visitSequence: string,
    nImputations: nat,
    nBurnIn: nat,
    nPmmNeighbors: nat,
    imputeType: string,
    addOnes: bool,
    nNearestColumns: Option<nat>,
    predictorRule: PredictorRule)

  /** Names one column update: position `step` of the visit order in round `round`.
      Random draws are indexed by it, so that every update may draw afresh. */
  datatype Draw = Draw(round: nat, step: nat)

  /** A predictive distribution for one row. */
  datatype Gaussian = Gaussian(mean: real, variance: real)

  /** What the regression model is fitted on and then asked about for one column:
      the predictor columns and the target column on the observed rows, and the
      predictor columns on the missing rows. */
  datatype Design = Design(trainInputs: Matrix<real>, trainTarget: seq<real>, queryInputs: Matrix<real>)

  /** The regression model, refitted on a design before each use, answering for one row:
      `predictDist` gives `predict_dist` for query row i, `predictDrawn` gives
      `predict(random_draw=True)` for query row i under the coefficient draw of one
      update, and `predictBest` gives `predict(random_draw=False)` for training row j. */
  datatype Regressor = Regressor(
    predictDist: (Design, nat) -> Gaussian,
    predictDrawn: (Design, Draw, nat) -> real,
    predictBest: (Design, nat) -> real)

  /** The random choices.  `initial(step, k)` picks the observed value copied into the
      k-th missing cell of the column at `step` during initialisation; `priority` ranks
      candidate predictor columns for a draw without replacement; `neighbour` picks
      one of the nearest observed rows for the k-th missing cell; `normal` is the
      normal draw for the k-th missing cell.  The `initial` and `neighbour` indices are
      reduced modulo the number of choices, so every legal choice is reachable; the
      `priority` values are ranked, so every ordered choice of columns is reachable. */
  datatype Chance = Chance(
    initial: (nat, nat) -> nat,
    priority: (Draw, nat) -> real,
    neighbour: (Draw, nat) -> nat,
    normal: (Draw, nat, Gaussian) -> real)

  /** `v` occurs in an observed cell of column `c`. */
  predicate IsObservedValue(x: Matrix<real>, mask: Mask, c: nat, v: real)
    requires |x| == |mask| && HasColumn(x, c) && HasColumn(mask, c)
  {
    exists r :: 0 <= r < |x| && !mask[r][c] && x[r][c] == v
  }

  /** Every column the imputer visits has at least one observed cell. */
  predicate Anchored(mask: Mask, visit: seq<nat>)
  {
    forall i :: 0 <= i < |visit| ==> HasColumn(mask, visit[i]) && ColumnCount(mask, visit[i]) < |mask|
  }

  /** A value observed in column `c` of `x` is observed there in any matrix that
      agrees with `x` on the observed cells. */
  lemma ObservedTransfer(x: Matrix<real>, y: Matrix<real>, mask: Mask, width: nat, c: nat, v: real)
    requires Conforms(x, mask, width) && Conforms(y, mask, width) && c < width
    requires AgreeUnmasked(x, y, mask) && IsObservedValue(x, mask, c, v)
    ensures IsObservedValue(y, mask, c, v)
  {
    var r :| 0 <= r < |x| && !mask[r][c] && x[r][c] == v;
    assert y[r][c] == v;
  }
}
