/** One imputation round (`perform_imputation_round`): the columns are visited in
    order, and each visited column with missing cells is refitted on the current
    matrix and has its missing cells overwritten, in place, before the next column
    is visited. */
module RoundExecutor {
  import opened Outcomes
  import opened Grid
  import opened Ordering
  import opened MiceTypes
  import opened Predictors
  import opened Pmm

  /** The regression design for column `c` on predictor columns `cols`: the predictors
      and the target on the observed rows, and the predictors on the missing rows. */
  function BuildDesign(x: Matrix<real>, mask: Mask, width: nat, c: nat, cols: seq<nat>): (d: Design)
    requires Conforms(x, mask, width) && c < width && forall i :: 0 <= i < |cols| ==> cols[i] < width
    ensures |d.trainInputs| == |d.trainTarget| == |mask| - ColumnCount(mask, c)
    ensures |d.queryInputs| == ColumnCount(mask, c)
    ensures forall k :: 0 <= k < |d.trainTarget| ==> IsObservedValue(x, mask, c, d.trainTarget[k])
  {
    Design(
      SubMatrix(x, ObservedRows(mask, c), cols),
      ObservedValues(x, mask, c),
      SubMatrix(x, MissingRows(mask, c), cols))
  }

  /** Because `c` is not a predictor of itself, the design for column `c` does not
      depend on what the missing cells of column `c` currently hold. */
  lemma DesignIgnoresOwnMissingCells(x: Matrix<real>, x': Matrix<real>, mask: Mask, width: nat, c: nat, cols: seq<nat>)
    requires Conforms(x, mask, width) && Conforms(x', mask, width) && c < width
    requires forall i :: 0 <= i < |cols| ==> cols[i] < width && cols[i] != c
    requires forall r, j :: 0 <= r < |x| && 0 <= j < width && (j != c || !mask[r][j]) ==> x[r][j] == x'[r][j]
    ensures BuildDesign(x, mask, width, c, cols) == BuildDesign(x', mask, width, c, cols)
  {
    ObservedValuesAgree(x, x', mask, c);
    SubMatrixAgree(x, x', ObservedRows(mask, c), cols, c);
    SubMatrixAgree(x, x', MissingRows(mask, c), cols, c);
  }

  /** Two matrices that agree outside column `c` give the same sub-matrix on columns other than `c`. */
  lemma SubMatrixAgree(x: Matrix<real>, x': Matrix<real>, rows: seq<nat>, cols: seq<nat>, c: nat)
    requires |x| == |x'| && forall k :: 0 <= k < |rows| ==> rows[k] < |x|
    requires forall i, j :: 0 <= i < |x| && 0 <= j < |cols| ==> cols[j] < |x[i]| && cols[j] < |x'[i]| && cols[j] != c
    requires forall i, j :: 0 <= i < |x| && 0 <= j < |x[i]| && j != c ==> j < |x'[i]| && x[i][j] == x'[i][j]
    ensures SubMatrix(x, rows, cols) == SubMatrix(x', rows, cols)
  {
    forall k | 0 <= k < |rows|
      ensures SubMatrix(x, rows, cols)[k] == SubMatrix(x', rows, cols)[k]
    {
    }
  }

  /** `brr.predict(X_missing, random_draw=True)`: one prediction per missing row. */
  function DrawnPredictions(reg: Regressor, d: Design, draw: Draw): (p: seq<real>)
    ensures |p| == |d.queryInputs|
  {
    seq(|d.queryInputs|, i requires 0 <= i < |d.queryInputs| => reg.predictDrawn(d, draw, i))
  }

  /** `brr.predict(X_observed, random_draw=False)`: one prediction per observed row. */
  function BestPredictions(reg: Regressor, d: Design): (p: seq<real>)
    ensures |p| == |d.trainInputs|
  {
    seq(|d.trainInputs|, j requires 0 <= j < |d.trainInputs| => reg.predictBest(d, j))
  }

  /** `np.random.normal(mus, np.sqrt(sigmas_squared))` on `brr.predict_dist(X_missing)`. */
  function NormalDraws(reg: Regressor, d: Design, draw: Draw, chance: Chance): (v: seq<real>)
    ensures |v| == |d.queryInputs|
  {
    seq(|d.queryInputs|, i requires 0 <= i < |d.queryInputs| => chance.normal(draw, i, reg.predictDist(d, i)))
  }

  /** The predictor columns and design for the update of column `c` under `draw`,
      on the configured predictor rule. */
  function DesignFor(x: Matrix<real>, mask: Mask, width: nat, c: nat, cfg: Config, chance: Chance, draw: Draw): (d: Design)
    requires Conforms(x, mask, width) && c < width
    ensures |d.trainInputs| == |d.trainTarget| == |mask| - ColumnCount(mask, c)
    ensures |d.queryInputs| == ColumnCount(mask, c)
  {
    BuildDesign(x, mask, width, c, PredictorColumns(cfg, width, c, draw, chance))
  }

  /** The update of column `c` fails: the column has missing cells, and either the
      matrix has no other column to select as predictors, or predictive mean matching
      has no neighbour to choose (`k = 0`).  The outcome depends on the mask, the
      width and the settings alone. */
  predicate StepFails(mask: Mask, width: nat, c: nat, cfg: Config)
    requires HasColumn(mask, c) && ColumnCount(mask, c) < |mask|
  {
    && 0 < ColumnCount(mask, c)
    && (|| width == 1
        || (cfg.imputeType == "pmm" && NeighbourCount(cfg.nPmmNeighbors, |mask| - ColumnCount(mask, c)) == 0))
  }

  /** The error a failing update of column `c` raises: the predictor selection fails
      first, before the mode is looked at. */
  function StepError(width: nat, c: nat): MiceError
  {
    if width == 1 then NoPredictors(c) else NoNeighbours(c)
  }

  /** The values predictive mean matching writes into the missing cells of column `c`,
      in row order: each is a value observed in the column, taken from a row whose
      best prediction is among the `k` nearest to the missing row's drawn prediction.
      Selecting the predictors fails first when there is no other column. */
  function PmmStepValues(x: Matrix<real>, mask: Mask, width: nat, c: nat, cfg: Config, reg: Regressor, chance: Chance, draw: Draw)
    : (r: Result<seq<real>, MiceError>)
    requires Conforms(x, mask, width) && c < width && 0 < ColumnCount(mask, c) < |mask|
    ensures r.Failure? <==> width == 1 || NeighbourCount(cfg.nPmmNeighbors, |mask| - ColumnCount(mask, c)) == 0
    ensures r.Failure? ==> r.error == StepError(width, c)
    ensures r.Success? ==> |r.value| == ColumnCount(mask, c)
    ensures r.Success? ==> forall k :: 0 <= k < |r.value| ==> IsObservedValue(x, mask, c, r.value[k])
    ensures r.Success? ==> var d := DesignFor(x, mask, width, c, cfg, chance, draw);
      forall k :: 0 <= k < |r.value| ==>
        FromNearDonor(r.value[k], DrawnPredictions(reg, d, draw)[k], BestPredictions(reg, d), d.trainTarget,
          NeighbourCount(cfg.nPmmNeighbors, |mask| - ColumnCount(mask, c)))
  {
    if width == 1 then Failure(NoPredictors(c))
    else
      var d := DesignFor(x, mask, width, c, cfg, chance, draw);
      var vals :- PmmValues(DrawnPredictions(reg, d, draw), BestPredictions(reg, d), d.trainTarget,
        cfg.nPmmNeighbors, c, draw, chance);
      assert forall k :: 0 <= k < |vals| ==> vals[k] in d.trainTarget by {
        forall k | 0 <= k < |vals|
          ensures vals[k] in d.trainTarget
        {
          PmmValuesObserved(DrawnPredictions(reg, d, draw), BestPredictions(reg, d), d.trainTarget,
            cfg.nPmmNeighbors, c, draw, chance, k);
        }
      }
      Success(vals)
  }

  /** The values the update of column `c` writes into its missing cells, in row order:
      predictive mean matching for `pmm`, a normal draw around the predictive
      distribution for `col`; `None` for any other mode, which writes nothing.  In
      every mode the predictors are selected first, which fails when there is no
      other column. */
  function StepValues(x: Matrix<real>, mask: Mask, width: nat, c: nat, cfg: Config, reg: Regressor, chance: Chance, draw: Draw)
    : (r: Result<Option<seq<real>>, MiceError>)
    requires Conforms(x, mask, width) && c < width && 0 < ColumnCount(mask, c) < |mask|
    ensures r.Failure? <==> StepFails(mask, width, c, cfg)
    ensures r.Failure? ==> r.error == StepError(width, c)
    ensures r.Success? ==> (r.value.Some? <==> cfg.imputeType == "pmm" || cfg.imputeType == "col")
    ensures r.Success? && r.value.Some? ==> |r.value.value| == ColumnCount(mask, c)
    ensures r.Success? && cfg.imputeType == "pmm" ==> forall k :: 0 <= k < ColumnCount(mask, c) ==>
      IsObservedValue(x, mask, c, r.value.value[k])
    ensures cfg.imputeType == "col" && width > 1 ==>
      r == Success(Some(NormalDraws(reg, DesignFor(x, mask, width, c, cfg, chance, draw), draw, chance)))
  {
    if cfg.imputeType == "pmm" then
      var vals :- PmmStepValues(x, mask, width, c, cfg, reg, chance, draw);
      Success(Some(vals))
    else if width == 1 then Failure(NoPredictors(c))
    else if cfg.imputeType == "col" then
      Success(Some(NormalDraws(reg, DesignFor(x, mask, width, c, cfg, chance, draw), draw, chance)))
    else
      Success(None)
  }

  /** The update of one column (one iteration of the loop over `visit_indices`). */
  function Step(x: Matrix<real>, mask: Mask, width: nat, c: nat, cfg: Config, reg: Regressor, chance: Chance, draw: Draw)
    : (r: Result<Matrix<real>, MiceError>)
    requires Conforms(x, mask, width) && c < width && ColumnCount(mask, c) < |mask|
    ensures r.Failure? <==> StepFails(mask, width, c, cfg)
    ensures r.Failure? ==> r.error == StepError(width, c)
    ensures r.Success? ==> Conforms(r.value, mask, width)
    ensures r.Success? ==> forall i, j :: 0 <= i < |x| && 0 <= j < width && (j != c || !mask[i][j]) ==>
      r.value[i][j] == x[i][j]
    ensures cfg.imputeType != "pmm" && cfg.imputeType != "col" && r.Success? ==> r.value == x
  {
    if ColumnCount(mask, c) == 0 then Success(x)
    else
      var vals :- StepValues(x, mask, width, c, cfg, reg, chance, draw);
      if vals.None? then Success(x)
      else Success(AssignColumn(x, mask, c, vals.value))
  }

  /** In `pmm` mode every missing cell of the updated column receives a value observed
      in that column. */
  lemma PmmStepObserved(x: Matrix<real>, mask: Mask, width: nat, c: nat, cfg: Config, reg: Regressor, chance: Chance, draw: Draw, i: nat)
    requires Conforms(x, mask, width) && c < width && ColumnCount(mask, c) < |mask|
    requires cfg.imputeType == "pmm" && !StepFails(mask, width, c, cfg)
    requires i < |x| && mask[i][c]
    ensures IsObservedValue(x, mask, c, Step(x, mask, width, c, cfg, reg, chance, draw).value[i][c])
  {
    RankBelowCount(mask, c, i, |mask|);
    var vals := StepValues(x, mask, width, c, cfg, reg, chance, draw).value.value;
    assert Step(x, mask, width, c, cfg, reg, chance, draw).value[i][c] == vals[RankUpTo(mask, c, i)];
  }

  /** In `pmm` mode the missing cell in row `i` of the updated column, the k-th missing
      cell, receives the observed value of a row whose best prediction is among the
      nearest to the k-th drawn prediction of the design built for this update. */
  lemma PmmStepNearDonor(x: Matrix<real>, mask: Mask, width: nat, c: nat, cfg: Config, reg: Regressor, chance: Chance, draw: Draw, i: nat)
    requires Conforms(x, mask, width) && c < width && ColumnCount(mask, c) < |mask|
    requires cfg.imputeType == "pmm" && !StepFails(mask, width, c, cfg)
    requires i < |x| && mask[i][c]
    ensures var d := DesignFor(x, mask, width, c, cfg, chance, draw);
      var k := RankUpTo(mask, c, i);
      && k < |d.queryInputs|
      && FromNearDonor(Step(x, mask, width, c, cfg, reg, chance, draw).value[i][c], DrawnPredictions(reg, d, draw)[k],
           BestPredictions(reg, d), d.trainTarget, NeighbourCount(cfg.nPmmNeighbors, |mask| - ColumnCount(mask, c)))
  {
    RankBelowCount(mask, c, i, |mask|);
    var vals := StepValues(x, mask, width, c, cfg, reg, chance, draw).value.value;
    assert Step(x, mask, width, c, cfg, reg, chance, draw).value[i][c] == vals[RankUpTo(mask, c, i)];
  }

  /** The `col` mode writes, into the k-th missing cell of column `c`, the normal draw
      around the k-th predictive distribution. */
  lemma ColStepDraws(x: Matrix<real>, mask: Mask, width: nat, c: nat, cfg: Config, reg: Regressor, chance: Chance, draw: Draw, i: nat)
    requires Conforms(x, mask, width) && c < width && ColumnCount(mask, c) < |mask|
    requires cfg.imputeType == "col" && width > 1 && i < |x| && mask[i][c]
    ensures var d := DesignFor(x, mask, width, c, cfg, chance, draw);
      var k := RankUpTo(mask, c, i);
      && Step(x, mask, width, c, cfg, reg, chance, draw).Success?
      && Step(x, mask, width, c, cfg, reg, chance, draw).value[i][c] == chance.normal(draw, k, reg.predictDist(d, k))
  {
    RankBelowCount(mask, c, i, |mask|);
    var d := DesignFor(x, mask, width, c, cfg, chance, draw);
    var k := RankUpTo(mask, c, i);
    var vals := NormalDraws(reg, d, draw, chance);
    assert StepValues(x, mask, width, c, cfg, reg, chance, draw) == Success(Some(vals));
    assert Step(x, mask, width, c, cfg, reg, chance, draw) == Success(AssignColumn(x, mask, c, vals));
  }

  /** A column update as the round applies it: the current matrix, the column and the
      draw in, the updated matrix or an error out. */
  type Update = (Matrix<real>, nat, Draw) -> Result<Matrix<real>, MiceError>

  /** The imputer's column update, `Step`, as an `Update` (inputs outside its
      precondition, which the round never produces, are left unchanged). */
  function ColumnUpdate(mask: Mask, width: nat, cfg: Config, reg: Regressor, chance: Chance): (upd: Update)
    ensures forall m: Matrix<real>, c: nat, d: Draw :: Admissible(m, mask, width, c) ==>
      upd(m, c, d) == Step(m, mask, width, c, cfg, reg, chance, d)
  {
    (m: Matrix<real>, c: nat, d: Draw) =>
      if Admissible(m, mask, width, c) then Step(m, mask, width, c, cfg, reg, chance, d) else Success(m)
  }

  /** `m` is a matrix of the round's shape and `c` a column of it with an observed cell. */
  predicate Admissible(m: Matrix<real>, mask: Mask, width: nat, c: nat)
  {
    Conforms(m, mask, width) && c < width && ColumnCount(mask, c) < |mask|
  }

  /** The matrix after the first `n` updates of round `round`, applied in place in visit
      order, or the first error. */
  function Steps(upd: Update, x: Matrix<real>, mask: Mask, width: nat, visit: seq<nat>, round: nat, n: nat): (r: Result<Matrix<real>, MiceError>)
    requires Framed(upd, mask, width) && Conforms(x, mask, width) && Visitable(mask, width, visit) && n <= |visit|
    ensures r.Success? ==> Conforms(r.value, mask, width)
  {
    if n == 0 then Success(x)
    else
      var prev :- Steps(upd, x, mask, width, visit, round, n - 1);
      assert Admissible(prev, mask, width, visit[n - 1]);
      upd(prev, visit[n - 1], Draw(round, n - 1))
  }

  /** The update keeps the shape and changes only the missing cells of its own column. */
  ghost predicate Framed(upd: Update, mask: Mask, width: nat)
  {
    forall m: Matrix<real>, c: nat, d: Draw :: Admissible(m, mask, width, c) && upd(m, c, d).Success? ==>
      && Conforms(upd(m, c, d).value, mask, width)
      && forall i, j :: 0 <= i < |m| && 0 <= j < width && (j != c || !mask[i][j]) ==> upd(m, c, d).value[i][j] == m[i][j]
  }

  /** The update fails exactly on the columns `fails` names, with the error `errorOf` gives. */
  ghost predicate FailsOn(upd: Update, mask: Mask, width: nat, fails: nat -> bool, errorOf: nat -> MiceError)
  {
    forall m: Matrix<real>, c: nat, d: Draw :: Admissible(m, mask, width, c) ==>
      && (upd(m, c, d).Failure? <==> fails(c))
      && (upd(m, c, d).Failure? ==> upd(m, c, d).error == errorOf(c))
  }

  /** The update writes into each missing cell of its column a value observed in that column. */
  ghost predicate DrawsObserved(upd: Update, mask: Mask, width: nat)
  {
    forall m: Matrix<real>, c: nat, d: Draw, i: nat ::
      (&& Admissible(m, mask, width, c) && upd(m, c, d).Success? && Conforms(upd(m, c, d).value, mask, width)
       && 0 <= i < |m| && mask[i][c]) ==>
      IsObservedValue(m, mask, c, upd(m, c, d).value[i][c])
  }

  /** The imputer's update keeps the frame. */
  lemma ColumnUpdateFramed(mask: Mask, width: nat, cfg: Config, reg: Regressor, chance: Chance)
    ensures Framed(ColumnUpdate(mask, width, cfg, reg, chance), mask, width)
  {
  }

  /** The imputer's update fails exactly where `StepFails` says. */
  lemma ColumnUpdateFails(mask: Mask, width: nat, cfg: Config, reg: Regressor, chance: Chance)
    requires HasWidth(mask, width)
    ensures FailsOn(ColumnUpdate(mask, width, cfg, reg, chance), mask, width,
      (c: nat) => c < width && ColumnCount(mask, c) < |mask| && StepFails(mask, width, c, cfg),
      (c: nat) => StepError(width, c))
  {
  }

  /** In `pmm` mode the imputer's update draws observed values. */
  lemma ColumnUpdateDrawsObserved(mask: Mask, width: nat, cfg: Config, reg: Regressor, chance: Chance)
    requires cfg.imputeType == "pmm"
    ensures DrawsObserved(ColumnUpdate(mask, width, cfg, reg, chance), mask, width)
  {
    var upd := ColumnUpdate(mask, width, cfg, reg, chance);
    forall m: Matrix<real>, c: nat, d: Draw, i: nat | Admissible(m, mask, width, c) && upd(m, c, d).Success? && Conforms(upd(m, c, d).value, mask, width)
      && 0 <= i < |m| && mask[i][c]
      ensures IsObservedValue(m, mask, c, upd(m, c, d).value[i][c])
    {
      PmmStepObserved(m, mask, width, c, cfg, reg, chance, d, i);
    }
  }

  /** Every visited column is a column of the round's shape with an observed cell. */
  predicate Visitable(mask: Mask, width: nat, visit: seq<nat>)
  {
    HasWidth(mask, width) && AllBelow(visit, width) && Anchored(mask, visit)
  }

  /** The first `n` updates fail exactly when one of them fails, with that update's
      error; whether they do depends on the mask, not on the matrix. */
  lemma {:induction false} StepsFailure(upd: Update, fails: nat -> bool, errorOf: nat -> MiceError, x: Matrix<real>, mask: Mask, width: nat, visit: seq<nat>, round: nat, n: nat)
    requires Framed(upd, mask, width) && FailsOn(upd, mask, width, fails, errorOf)
    requires Conforms(x, mask, width) && Visitable(mask, width, visit) && n <= |visit|
    ensures var r := Steps(upd, x, mask, width, visit, round, n);
      r.Failure? <==> exists k :: 0 <= k < n && fails(visit[k])
    ensures var r := Steps(upd, x, mask, width, visit, round, n);
      r.Failure? ==> exists k :: 0 <= k < n && FirstFailing(fails, visit, k) && r.error == errorOf(visit[k])
  {
    if n > 0 {
      StepsFailure(upd, fails, errorOf, x, mask, width, visit, round, n - 1);
      var prev := Steps(upd, x, mask, width, visit, round, n - 1);
      if prev.Success? {
        assert Admissible(prev.value, mask, width, visit[n - 1]);
        assert forall k :: 0 <= k < n - 1 ==> !fails(visit[k]);
        if upd(prev.value, visit[n - 1], Draw(round, n - 1)).Failure? {
          assert FirstFailing(fails, visit, n - 1);
        }
      } else {
        var k :| 0 <= k < n - 1 && FirstFailing(fails, visit, k) && prev.error == errorOf(visit[k]);
      }
    }
  }

  /** `visit[k]` is the first visited column that `fails` names. */
  predicate FirstFailing(fails: nat -> bool, visit: seq<nat>, k: nat)
    requires k < |visit|
  {
    fails(visit[k]) && forall p :: 0 <= p < k ==> !fails(visit[p])
  }

  /** Updates change only missing cells, and only in the columns visited so far. */
  lemma {:induction false} StepsFrame(upd: Update, x: Matrix<real>, mask: Mask, width: nat, visit: seq<nat>, round: nat, n: nat, i: nat, j: nat)
    requires Framed(upd, mask, width) && Conforms(x, mask, width) && Visitable(mask, width, visit) && n <= |visit|
    requires Steps(upd, x, mask, width, visit, round, n).Success?
    requires i < |x| && j < width && (!mask[i][j] || j !in visit[..n])
    ensures Steps(upd, x, mask, width, visit, round, n).value[i][j] == x[i][j]
  {
    if n > 0 {
      EarlierVisited(visit, n, j);
      var prev := Steps(upd, x, mask, width, visit, round, n - 1).value;
      assert Admissible(prev, mask, width, visit[n - 1]);
      StepsFrame(upd, x, mask, width, visit, round, n - 1, i, j);
    }
  }

  /** With an update that draws observed values, every missing cell of a column visited
      so far holds a value observed in that column. */
  lemma {:induction false} StepsDrawObserved(upd: Update, x: Matrix<real>, mask: Mask, width: nat, visit: seq<nat>, round: nat, n: nat, i: nat, j: nat)
    requires Framed(upd, mask, width) && DrawsObserved(upd, mask, width)
    requires Conforms(x, mask, width) && Visitable(mask, width, visit) && n <= |visit|
    requires Steps(upd, x, mask, width, visit, round, n).Success?
    requires i < |x| && j < width && mask[i][j] && j in visit[..n]
    ensures IsObservedValue(x, mask, j, Steps(upd, x, mask, width, visit, round, n).value[i][j])
  {
    EarlierVisited(visit, n, j);
    var prev := Steps(upd, x, mask, width, visit, round, n - 1).value;
    var c := visit[n - 1];
    assert Admissible(prev, mask, width, c);
    var y := upd(prev, c, Draw(round, n - 1)).value;
    if j == c {
      var o :| 0 <= o < |prev| && !mask[o][c] && prev[o][c] == y[i][c];
      StepsFrame(upd, x, mask, width, visit, round, n - 1, o, c);
    } else {
      StepsDrawObserved(upd, x, mask, width, visit, round, n - 1, i, j);
    }
  }

  /** Updates happen in place: the update at position `k` is applied to the matrix left
      by the updates before it, and, with every column visited once, the values the
      update at position `p < k` wrote into its column are still there. */
  lemma {:induction false} UpdateSeesEarlierWrites(upd: Update, x: Matrix<real>, mask: Mask, width: nat, visit: seq<nat>, round: nat, p: nat, k: nat, i: nat)
    requires Framed(upd, mask, width) && Conforms(x, mask, width) && Visitable(mask, width, visit) && Distinct(visit)
    requires p < k < |visit| && i < |x|
    requires Steps(upd, x, mask, width, visit, round, k + 1).Success?
    ensures Steps(upd, x, mask, width, visit, round, k).Success?
    ensures Steps(upd, x, mask, width, visit, round, k + 1) == upd(Steps(upd, x, mask, width, visit, round, k).value, visit[k], Draw(round, k))
    ensures Steps(upd, x, mask, width, visit, round, p + 1).Success?
    ensures Steps(upd, x, mask, width, visit, round, k).value[i][visit[p]] == Steps(upd, x, mask, width, visit, round, p + 1).value[i][visit[p]]
  {
    if k > p + 1 {
      UpdateSeesEarlierWrites(upd, x, mask, width, visit, round, p, k - 1, i);
      var before := Steps(upd, x, mask, width, visit, round, k - 1).value;
      assert Admissible(before, mask, width, visit[k - 1]);
      assert visit[k - 1] != visit[p];
    }
  }

  /** With every column visited once, after the first `n` updates each cell of the
      column visited at position `p < n` holds what the update at `p` wrote. */
  lemma StepsKeepWrite(upd: Update, x: Matrix<real>, mask: Mask, width: nat, visit: seq<nat>, round: nat, n: nat, p: nat, i: nat)
    requires Framed(upd, mask, width) && Conforms(x, mask, width) && Visitable(mask, width, visit) && Distinct(visit)
    requires p < n <= |visit| && i < |x|
    requires Steps(upd, x, mask, width, visit, round, n).Success?
    ensures Steps(upd, x, mask, width, visit, round, p).Success?
    ensures var before := Steps(upd, x, mask, width, visit, round, p).value;
      && upd(before, visit[p], Draw(round, p)).Success?
      && Steps(upd, x, mask, width, visit, round, n).value[i][visit[p]] == upd(before, visit[p], Draw(round, p)).value[i][visit[p]]
  {
    if p + 1 < n {
      UpdateSeesEarlierWrites(upd, x, mask, width, visit, round, p, n - 1, i);
      var last := Steps(upd, x, mask, width, visit, round, n - 1).value;
      assert Admissible(last, mask, width, visit[n - 1]);
      assert visit[n - 1] != visit[p];
    }
  }

  /** One round: `perform_imputation_round`.  Observed cells and unvisited columns keep
      their values; in `pmm` mode every missing cell of a visited column holds a value
      observed in that column; the round fails exactly when the update of a visited
      column fails. */
  function Round(x: Matrix<real>, mask: Mask, width: nat, visit: seq<nat>, cfg: Config, reg: Regressor, chance: Chance, round: nat)
    : (r: Result<Matrix<real>, MiceError>)
    requires Conforms(x, mask, width) && AllBelow(visit, width) && Anchored(mask, visit)
    ensures r.Failure? <==> exists k :: 0 <= k < |visit| && StepFails(mask, width, visit[k], cfg)
    ensures r.Failure? ==> exists k :: 0 <= k < |visit| && FirstFailure(mask, width, visit, cfg, k) && r.error == StepError(width, visit[k])
    ensures r.Success? ==> Conforms(r.value, mask, width) && AgreeUnmasked(x, r.value, mask)
    ensures r.Success? ==> forall i, j :: 0 <= i < |x| && 0 <= j < width && j !in visit ==> r.value[i][j] == x[i][j]
    ensures r.Success? && cfg.imputeType == "pmm" ==> forall i, j :: 0 <= i < |x| && 0 <= j < width && mask[i][j] && j in visit ==>
      IsObservedValue(x, mask, j, r.value[i][j])
  {
    RoundFailure(x, mask, width, visit, cfg, reg, chance, round);
    RoundFrame(x, mask, width, visit, cfg, reg, chance, round);
    RoundDrawsObserved(x, mask, width, visit, cfg, reg, chance, round);
    Steps(ColumnUpdate(mask, width, cfg, reg, chance), x, mask, width, visit, round, |visit|)
  }

  lemma RoundFailure(x: Matrix<real>, mask: Mask, width: nat, visit: seq<nat>, cfg: Config, reg: Regressor, chance: Chance, round: nat)
    requires Conforms(x, mask, width) && AllBelow(visit, width) && Anchored(mask, visit)
    ensures var r := Steps(ColumnUpdate(mask, width, cfg, reg, chance), x, mask, width, visit, round, |visit|);
      && (r.Failure? <==> exists k :: 0 <= k < |visit| && StepFails(mask, width, visit[k], cfg))
      && (r.Failure? ==> exists k :: 0 <= k < |visit| && FirstFailure(mask, width, visit, cfg, k) && r.error == StepError(width, visit[k]))
  {
    var upd := ColumnUpdate(mask, width, cfg, reg, chance);
    var fails := (c: nat) => c < width && ColumnCount(mask, c) < |mask| && StepFails(mask, width, c, cfg);
    var errorOf := (c: nat) => StepError(width, c);
    ColumnUpdateFramed(mask, width, cfg, reg, chance);
    ColumnUpdateFails(mask, width, cfg, reg, chance);
    StepsFailure(upd, fails, errorOf, x, mask, width, visit, round, |visit|);
    assert forall k :: 0 <= k < |visit| ==> (fails(visit[k]) <==> StepFails(mask, width, visit[k], cfg));
    var r := Steps(upd, x, mask, width, visit, round, |visit|);
    if r.Failure? {
      var k :| 0 <= k < |visit| && FirstFailing(fails, visit, k) && r.error == errorOf(visit[k]);
      assert FirstFailure(mask, width, visit, cfg, k);
    }
  }

  /** `visit[k]` is the first visited column whose update fails. */
  predicate FirstFailure(mask: Mask, width: nat, visit: seq<nat>, cfg: Config, k: nat)
    requires k < |visit| && Anchored(mask, visit)
  {
    StepFails(mask, width, visit[k], cfg) && forall p :: 0 <= p < k ==> !StepFails(mask, width, visit[p], cfg)
  }

  lemma RoundFrame(x: Matrix<real>, mask: Mask, width: nat, visit: seq<nat>, cfg: Config, reg: Regressor, chance: Chance, round: nat)
    requires Conforms(x, mask, width) && AllBelow(visit, width) && Anchored(mask, visit)
    ensures var r := Steps(ColumnUpdate(mask, width, cfg, reg, chance), x, mask, width, visit, round, |visit|);
      r.Success? ==> Conforms(r.value, mask, width)
    ensures var r := Steps(ColumnUpdate(mask, width, cfg, reg, chance), x, mask, width, visit, round, |visit|);
      r.Success? ==> forall i, j :: 0 <= i < |x| && 0 <= j < width && !mask[i][j] ==> r.value[i][j] == x[i][j]
    ensures var r := Steps(ColumnUpdate(mask, width, cfg, reg, chance), x, mask, width, visit, round, |visit|);
      r.Success? ==> forall i, j :: 0 <= i < |x| && 0 <= j < width && j !in visit ==> r.value[i][j] == x[i][j]
  {
    var upd := ColumnUpdate(mask, width, cfg, reg, chance);
    var n := |visit|;
    assert visit[..n] == visit;
    ColumnUpdateFramed(mask, width, cfg, reg, chance);
    var r := Steps(upd, x, mask, width, visit, round, n);
    if r.Success? {
      forall i, j | 0 <= i < |x| && 0 <= j < width && !mask[i][j]
        ensures r.value[i][j] == x[i][j]
      {
        StepsFrame(upd, x, mask, width, visit, round, n, i, j);
      }
      forall i, j | 0 <= i < |x| && 0 <= j < width && j !in visit
        ensures r.value[i][j] == x[i][j]
      {
        StepsFrame(upd, x, mask, width, visit, round, n, i, j);
      }
    }
  }

  lemma RoundDrawsObserved(x: Matrix<real>, mask: Mask, width: nat, visit: seq<nat>, cfg: Config, reg: Regressor, chance: Chance, round: nat)
    requires Conforms(x, mask, width) && AllBelow(visit, width) && Anchored(mask, visit)
    ensures var r := Steps(ColumnUpdate(mask, width, cfg, reg, chance), x, mask, width, visit, round, |visit|);
      r.Success? && cfg.imputeType == "pmm" ==> forall i, j :: 0 <= i < |x| && 0 <= j < width && mask[i][j] && j in visit ==>
        IsObservedValue(x, mask, j, r.value[i][j])
  {
    var upd := ColumnUpdate(mask, width, cfg, reg, chance);
    var n := |visit|;
    assert visit[..n] == visit;
    var r := Steps(upd, x, mask, width, visit, round, n);
    if r.Success? && cfg.imputeType == "pmm" {
      ColumnUpdateFramed(mask, width, cfg, reg, chance);
      ColumnUpdateDrawsObserved(mask, width, cfg, reg, chance);
      forall i, j | 0 <= i < |x| && 0 <= j < width && mask[i][j] && j in visit
        ensures IsObservedValue(x, mask, j, r.value[i][j])
      {
        StepsDrawObserved(upd, x, mask, width, visit, round, n, i, j);
      }
    }
  }

  /** In `pmm` mode, with every column visited once, the round leaves in each missing cell
      of the column visited at position `p` the value the update at `p` wrote there: the
      observed value of a row whose best prediction is among the nearest to the cell's
      drawn prediction, for the design built from the matrix the earlier updates left. */
  lemma RoundNearDonor(x: Matrix<real>, mask: Mask, width: nat, visit: seq<nat>, cfg: Config, reg: Regressor, chance: Chance, round: nat, p: nat, i: nat)
    requires Conforms(x, mask, width) && AllBelow(visit, width) && Anchored(mask, visit) && Distinct(visit)
    requires cfg.imputeType == "pmm" && forall q :: 0 <= q < |visit| ==> !StepFails(mask, width, visit[q], cfg)
    requires p < |visit| && i < |x| && mask[i][visit[p]]
    ensures var before := Steps(ColumnUpdate(mask, width, cfg, reg, chance), x, mask, width, visit, round, p);
      && before.Success?
      && var c := visit[p];
         var d := DesignFor(before.value, mask, width, c, cfg, chance, Draw(round, p));
         var k := RankUpTo(mask, c, i);
         && k < |d.queryInputs|
         && FromNearDonor(Round(x, mask, width, visit, cfg, reg, chance, round).value[i][c], DrawnPredictions(reg, d, Draw(round, p))[k],
              BestPredictions(reg, d), d.trainTarget, NeighbourCount(cfg.nPmmNeighbors, |mask| - ColumnCount(mask, c)))
  {
    var upd := ColumnUpdate(mask, width, cfg, reg, chance);
    var c := visit[p];
    ColumnUpdateFramed(mask, width, cfg, reg, chance);
    RoundFailure(x, mask, width, visit, cfg, reg, chance, round);
    StepsKeepWrite(upd, x, mask, width, visit, round, |visit|, p, i);
    var before := Steps(upd, x, mask, width, visit, round, p).value;
    assert Admissible(before, mask, width, c);
    PmmStepNearDonor(before, mask, width, c, cfg, reg, chance, Draw(round, p), i);
  }
}
