/** The predictor columns the regression for one column is fitted on: every other
    column, or, when the number of nearest columns is capped, a random subset of
    them.  The subset rule appears twice: as the code states it, and as evidently
    intended (the constant column of ones kept as a predictor). */
module Predictors {
  import opened Outcomes
  import opened Ordering
  import opened MiceTypes

  /** `other_cols`: the columns below `width` other than `c`, in ascending order. */
  function OtherColumns(c: nat, width: nat): (cols: seq<nat>)
    requires c < width
    ensures |cols| == width - 1
    ensures forall i, j :: 0 <= i < j < |cols| ==> cols[i] < cols[j]
    ensures forall i :: 0 <= i < |cols| ==> cols[i] < width && cols[i] != c
  {
    seq(width - 1, i requires 0 <= i < width - 1 => if i < c then i else i + 1)
  }

  /** Conversely, every column other than `c` is among the other columns. */
  lemma OtherColumnsComplete(c: nat, width: nat, j: nat)
    requires c < width && j < width && j != c
    ensures j in OtherColumns(c, width)
  {
    var cols := OtherColumns(c, width);
    if j < c {
      assert cols[j] == j;
    } else {
      assert cols[j - 1] == j;
    }
  }

  /** Whether the predictors are subsampled: a cap is set and the number of data
      columns (the width without the column of ones) exceeds it. */
  predicate Subsetting(cfg: Config, width: nat)
  {
    cfg.nNearestColumns.Some? && width - (if cfg.addOnes then 1 else 0) > cfg.nNearestColumns.value
  }

  /** The random ranks of the candidate columns for the update `draw`. */
  function Priorities(cands: seq<nat>, draw: Draw, chance: Chance): (pri: seq<real>)
    ensures |pri| == |cands|
  {
    seq(|cands|, i requires 0 <= i < |cands| => chance.priority(draw, cands[i]))
  }

  /** Strictly increasing sequences have no repeated entries. */
  lemma IncreasingDistinct(s: seq<nat>)
    requires forall i, j :: 0 <= i < j < |s| ==> s[i] < s[j]
    ensures Distinct(s)
  {
  }

  /** The `n` columns drawn without replacement from the candidates `cands`. */
  function Sample(cands: seq<nat>, n: nat, draw: Draw, chance: Chance): (chosen: seq<nat>)
    requires n <= |cands| && Distinct(cands)
    ensures |chosen| == n && Distinct(chosen)
    ensures forall i :: 0 <= i < n ==> chosen[i] in cands
  {
    TakeByPriority(cands, Priorities(cands, draw, chance), n)
  }

  /** The `n` columns drawn from all other columns but the last, which is the column
      of ones when there is one (`other_cols[:-1]`). */
  function SampleButLast(c: nat, width: nat, n: nat, draw: Draw, chance: Chance): (chosen: seq<nat>)
    requires c < width && n < width - 1
    ensures |chosen| == n && Distinct(chosen)
    ensures forall i :: 0 <= i < n ==> chosen[i] != c && chosen[i] < OtherColumns(c, width)[width - 2]
  {
    var others := OtherColumns(c, width);
    var last := |others| - 1;
    IncreasingDistinct(others[..last]);
    var chosen := Sample(others[..last], n, draw, chance);
    assert forall i :: 0 <= i < n ==> chosen[i] != c && chosen[i] < others[last] by {
      forall i | 0 <= i < n
        ensures chosen[i] != c && chosen[i] < others[last]
      {
        var k :| 0 <= k < last && others[..last][k] == chosen[i];
      }
    }
    chosen
  }

  /** The predictor columns as the code computes them: with the column of ones
      present, the sample of `n` is followed by itself minus its last entry
      (`np.append(other_cols, other_cols[:-1])`), so the column of ones is lost. */
  function PredictorsAsWritten(cfg: Config, width: nat, c: nat, draw: Draw, chance: Chance): (cols: seq<nat>)
    requires c < width
    ensures forall i :: 0 <= i < |cols| ==> cols[i] < width && cols[i] != c
    ensures !Subsetting(cfg, width) ==> cols == OtherColumns(c, width)
    ensures Subsetting(cfg, width) && !cfg.addOnes ==>
      |cols| == cfg.nNearestColumns.value && Distinct(cols)
    ensures Subsetting(cfg, width) && cfg.addOnes ==>
      |cols| == (if cfg.nNearestColumns.value == 0 then 0 else 2 * cfg.nNearestColumns.value - 1)
  {
    var others := OtherColumns(c, width);
    if !Subsetting(cfg, width) then others
    else if cfg.addOnes then
      var chosen := SampleButLast(c, width, cfg.nNearestColumns.value, draw, chance);
      chosen + (if |chosen| == 0 then [] else chosen[..|chosen| - 1])
    else
      IncreasingDistinct(others);
      Sample(others, cfg.nNearestColumns.value, draw, chance)
  }

  /** The predictor columns as evidently intended: the sample of `n` followed by the
      last of the other columns, which is the column of ones. */
  function PredictorsCorrected(cfg: Config, width: nat, c: nat, draw: Draw, chance: Chance): (cols: seq<nat>)
    requires c < width
    ensures forall i :: 0 <= i < |cols| ==> cols[i] < width && cols[i] != c
    ensures Distinct(cols)
    ensures !Subsetting(cfg, width) ==> cols == OtherColumns(c, width)
    ensures Subsetting(cfg, width) && !cfg.addOnes ==> |cols| == cfg.nNearestColumns.value
    ensures Subsetting(cfg, width) && cfg.addOnes ==> |cols| == cfg.nNearestColumns.value + 1
  {
    var others := OtherColumns(c, width);
    IncreasingDistinct(others);
    if !Subsetting(cfg, width) then others
    else if cfg.addOnes then
      SampleButLast(c, width, cfg.nNearestColumns.value, draw, chance) + [others[width - 2]]
    else
      Sample(others, cfg.nNearestColumns.value, draw, chance)
  }

  /** The predictor columns the round fits column `c` on, under the configured rule:
      never `c` itself, and every other column unless the predictors are subsampled. */
  function PredictorColumns(cfg: Config, width: nat, c: nat, draw: Draw, chance: Chance): (cols: seq<nat>)
    requires c < width
    ensures forall i :: 0 <= i < |cols| ==> cols[i] < width && cols[i] != c
    ensures !Subsetting(cfg, width) ==> cols == OtherColumns(c, width)
  {
    match cfg.predictorRule
    case AsWrittenRule => PredictorsAsWritten(cfg, width, c, draw, chance)
    case CorrectedRule => PredictorsCorrected(cfg, width, c, draw, chance)
  }

  /** The defect: whenever the predictors are subsampled next to a column of ones,
      the code's predictor set leaves the column of ones out. */
  lemma AsWrittenDropsIntercept(cfg: Config, width: nat, c: nat, draw: Draw, chance: Chance)
    requires c + 1 < width && Subsetting(cfg, width) && cfg.addOnes
    ensures width - 1 !in PredictorsAsWritten(cfg, width, c, draw, chance)
  {
    assert OtherColumns(c, width)[width - 2] == width - 1;
  }

  /** With two or more columns sampled, the code's predictor set repeats its first column. */
  lemma AsWrittenRepeatsColumn(cfg: Config, width: nat, c: nat, draw: Draw, chance: Chance)
    requires c < width && Subsetting(cfg, width) && cfg.addOnes && cfg.nNearestColumns.value >= 2
    ensures var cols := PredictorsAsWritten(cfg, width, c, draw, chance);
      cols[cfg.nNearestColumns.value] == cols[0] && !Distinct(cols)
  {
  }

  /** A concrete instance: three data columns and the column of ones, a cap of one.
      The code fits column 0 on one data column alone; the intended set adds the ones. */
  lemma AsWrittenExample(draw: Draw, chance: Chance)
    ensures var cfg := Config("roman", 1, 0, 5, "col", true, Some(1), AsWrittenRule);
      && |PredictorsAsWritten(cfg, 4, 0, draw, chance)| == 1
      && 3 !in PredictorsAsWritten(cfg, 4, 0, draw, chance)
      && PredictorsCorrected(cfg, 4, 0, draw, chance)[1] == 3
  {
    var cfg := Config("roman", 1, 0, 5, "col", true, Some(1), AsWrittenRule);
    AsWrittenDropsIntercept(cfg, 4, 0, draw, chance);
    CorrectedKeepsIntercept(cfg, 4, 0, draw, chance);
  }

  /** The corrected rule keeps the column of ones as the last predictor whenever it
      subsamples next to one. */
  lemma CorrectedKeepsIntercept(cfg: Config, width: nat, c: nat, draw: Draw, chance: Chance)
    requires c + 1 < width && Subsetting(cfg, width) && cfg.addOnes
    ensures var cols := PredictorsCorrected(cfg, width, c, draw, chance);
      |cols| == cfg.nNearestColumns.value + 1 && cols[cfg.nNearestColumns.value] == width - 1
  {
    var others := OtherColumns(c, width);
    assert others[|others| - 1] == width - 1;
  }

  /** Where no subsampling happens, and where there is no column of ones, the two
      rules agree. */
  lemma CorrectedAgreesElsewhere(cfg: Config, width: nat, c: nat, draw: Draw, chance: Chance)
    requires c < width && (!Subsetting(cfg, width) || !cfg.addOnes)
    ensures PredictorsCorrected(cfg, width, c, draw, chance) == PredictorsAsWritten(cfg, width, c, draw, chance)
  {
  }
}
