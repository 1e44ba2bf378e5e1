/** The initializer (`initialize`): a first fill of every missing cell by drawing,
    with replacement, from the observed values of the same column. */
module Initializer {
  import opened Grid
  import opened Ordering
  import opened MiceTypes

  /** The values drawn for the missing cells of column `c` at visit position `step`:
      `np.random.choice(observed_col, n_missing)`. */
  function InitialDraws(x: Matrix<real>, mask: Mask, c: nat, step: nat, chance: Chance): (vals: seq<real>)
    requires |x| == |mask| && HasColumn(x, c) && HasColumn(mask, c) && ColumnCount(mask, c) < |mask|
    ensures |vals| == ColumnCount(mask, c)
    ensures forall k :: 0 <= k < |vals| ==> IsObservedValue(x, mask, c, vals[k])
  {
    var observed := ObservedValues(x, mask, c);
    seq(ColumnCount(mask, c), k requires 0 <= k < ColumnCount(mask, c) =>
      observed[chance.initial(step, k) % |observed|])
  }

  /** One iteration of the initializer's loop, for column `c`: its missing cells receive
      draws from its observed values; nothing else changes. */
  function InitStep(prev: Matrix<real>, mask: Mask, width: nat, c: nat, step: nat, chance: Chance): (y: Matrix<real>)
    requires Conforms(prev, mask, width) && c < width && ColumnCount(mask, c) < |mask|
    ensures Conforms(y, mask, width)
    ensures forall r, j :: 0 <= r < |y| && 0 <= j < width && (j != c || !mask[r][j]) ==> y[r][j] == prev[r][j]
    ensures forall r :: 0 <= r < |y| && mask[r][c] ==> IsObservedValue(prev, mask, c, y[r][c])
  {
    if ColumnCount(mask, c) > 0 then
      var vals := InitialDraws(prev, mask, c, step, chance);
      var y := AssignColumn(prev, mask, c, vals);
      assert forall r :: 0 <= r < |y| && mask[r][c] ==> IsObservedValue(prev, mask, c, y[r][c]) by {
        forall r | 0 <= r < |y| && mask[r][c]
          ensures IsObservedValue(prev, mask, c, y[r][c])
        {
          assert y[r][c] == vals[RankUpTo(mask, c, r)];
        }
      }
      y
    else
      assert forall r :: 0 <= r < |prev| ==> !mask[r][c] by {
        RanksBelowCount(mask, c);
      }
      prev
  }

  /** The matrix after the first `n` iterations of the initializer's loop. */
  function InitSteps(x: Matrix<real>, mask: Mask, width: nat, visit: seq<nat>, chance: Chance, n: nat): (y: Matrix<real>)
    requires Conforms(x, mask, width) && n <= |visit| && AllBelow(visit, width) && Anchored(mask, visit)
    ensures Conforms(y, mask, width)
  {
    if n == 0 then x
    else
      InitStep(InitSteps(x, mask, width, visit, chance, n - 1), mask, width, visit[n - 1], n - 1, chance)
  }

  /** The loop changes only missing cells, and only in the columns it has visited. */
  lemma {:induction false} InitStepsFrame(x: Matrix<real>, mask: Mask, width: nat, visit: seq<nat>, chance: Chance, n: nat, r: nat, j: nat)
    requires Conforms(x, mask, width) && n <= |visit| && AllBelow(visit, width) && Anchored(mask, visit)
    requires r < |x| && j < width && (!mask[r][j] || j !in visit[..n])
    ensures InitSteps(x, mask, width, visit, chance, n)[r][j] == x[r][j]
  {
    if n > 0 {
      EarlierVisited(visit, n, j);
      InitStepsFrame(x, mask, width, visit, chance, n - 1, r, j);
    }
  }

  /** Every missing cell of a visited column holds a value observed in that column of the input. */
  lemma {:induction false} InitStepsDrawObserved(x: Matrix<real>, mask: Mask, width: nat, visit: seq<nat>, chance: Chance, n: nat, r: nat, j: nat)
    requires Conforms(x, mask, width) && n <= |visit| && AllBelow(visit, width) && Anchored(mask, visit)
    requires r < |x| && j < width && mask[r][j] && j in visit[..n]
    ensures IsObservedValue(x, mask, j, InitSteps(x, mask, width, visit, chance, n)[r][j])
  {
    EarlierVisited(visit, n, j);
    var prev := InitSteps(x, mask, width, visit, chance, n - 1);
    var y := InitSteps(x, mask, width, visit, chance, n);
    if j == visit[n - 1] {
      assert y == InitStep(prev, mask, width, j, n - 1, chance);
      assert IsObservedValue(prev, mask, j, y[r][j]);
      var o :| 0 <= o < |prev| && !mask[o][j] && prev[o][j] == y[r][j];
      InitStepsFrame(x, mask, width, visit, chance, n - 1, o, j);
    } else {
      InitStepsDrawObserved(x, mask, width, visit, chance, n - 1, r, j);
    }
  }

  /** `initialize`: a copy of the input in which every missing cell of every visited
      column holds a value observed in that column; observed cells, and columns the
      visit order skips, are unchanged. */
  function Initialize(x: Matrix<real>, mask: Mask, width: nat, visit: seq<nat>, chance: Chance): (y: Matrix<real>)
    requires Conforms(x, mask, width) && AllBelow(visit, width) && Anchored(mask, visit)
    ensures Conforms(y, mask, width)
    ensures AgreeUnmasked(x, y, mask)
    ensures forall r, j :: 0 <= r < |y| && 0 <= j < width && mask[r][j] && j !in visit ==> y[r][j] == x[r][j]
    ensures forall r, j :: 0 <= r < |y| && 0 <= j < width && mask[r][j] && j in visit ==>
      IsObservedValue(x, mask, j, y[r][j])
  {
    InitializeFrame(x, mask, width, visit, chance);
    InitializeDraws(x, mask, width, visit, chance);
    InitSteps(x, mask, width, visit, chance, |visit|)
  }

  lemma InitializeFrame(x: Matrix<real>, mask: Mask, width: nat, visit: seq<nat>, chance: Chance)
    requires Conforms(x, mask, width) && AllBelow(visit, width) && Anchored(mask, visit)
    ensures var y := InitSteps(x, mask, width, visit, chance, |visit|);
      forall r, j :: 0 <= r < |y| && 0 <= j < width && !mask[r][j] ==> y[r][j] == x[r][j]
    ensures var y := InitSteps(x, mask, width, visit, chance, |visit|);
      forall r, j :: 0 <= r < |y| && 0 <= j < width && j !in visit ==> y[r][j] == x[r][j]
  {
    var n := |visit|;
    assert visit[..n] == visit;
    forall r, j | 0 <= r < |x| && 0 <= j < width && !mask[r][j]
      ensures InitSteps(x, mask, width, visit, chance, n)[r][j] == x[r][j]
    {
      InitStepsFrame(x, mask, width, visit, chance, n, r, j);
    }
    forall r, j | 0 <= r < |x| && 0 <= j < width && j !in visit
      ensures InitSteps(x, mask, width, visit, chance, n)[r][j] == x[r][j]
    {
      InitStepsFrame(x, mask, width, visit, chance, n, r, j);
    }
  }

  lemma InitializeDraws(x: Matrix<real>, mask: Mask, width: nat, visit: seq<nat>, chance: Chance)
    requires Conforms(x, mask, width) && AllBelow(visit, width) && Anchored(mask, visit)
    ensures var y := InitSteps(x, mask, width, visit, chance, |visit|);
      forall r, j :: 0 <= r < |y| && 0 <= j < width && mask[r][j] && j in visit ==> IsObservedValue(x, mask, j, y[r][j])
  {
    var n := |visit|;
    assert visit[..n] == visit;
    forall r, j | 0 <= r < |x| && 0 <= j < width && mask[r][j] && j in visit
      ensures IsObservedValue(x, mask, j, InitSteps(x, mask, width, visit, chance, n)[r][j])
    {
      InitStepsDrawObserved(x, mask, width, visit, chance, n, r, j);
    }
  }

  /** The values standing in missing cells are never read: when the visit order covers
      every column, two inputs that agree on the observed cells initialise identically. */
  lemma InitializeIgnoresMissingCells(x: Matrix<real>, x': Matrix<real>, mask: Mask, width: nat, visit: seq<nat>, chance: Chance)
    requires Conforms(x, mask, width) && Conforms(x', mask, width)
    requires AllBelow(visit, width) && Anchored(mask, visit)
    requires forall j :: 0 <= j < width ==> j in visit
    requires AgreeUnmasked(x, x', mask)
    ensures Initialize(x, mask, width, visit, chance) == Initialize(x', mask, width, visit, chance)
  {
    var n := |visit|;
    assert visit[..n] == visit;
    var y := Initialize(x, mask, width, visit, chance);
    var y' := Initialize(x', mask, width, visit, chance);
    forall r | 0 <= r < |y|
      ensures y[r] == y'[r]
    {
      forall j | 0 <= j < width
        ensures y[r][j] == y'[r][j]
      {
        InitStepsAgree(x, x', mask, width, visit, chance, n, r, j);
      }
    }
  }

  /** After `n` iterations, two inputs that agree on the observed cells agree on every
      observed cell and on every missing cell of a visited column. */
  lemma {:induction false} InitStepsAgree(x: Matrix<real>, x': Matrix<real>, mask: Mask, width: nat, visit: seq<nat>, chance: Chance, n: nat, r: nat, j: nat)
    requires Conforms(x, mask, width) && Conforms(x', mask, width)
    requires n <= |visit| && AllBelow(visit, width) && Anchored(mask, visit)
    requires AgreeUnmasked(x, x', mask)
    requires r < |x| && j < width && (!mask[r][j] || j in visit[..n])
    ensures InitSteps(x, mask, width, visit, chance, n)[r][j] == InitSteps(x', mask, width, visit, chance, n)[r][j]
  {
    if n == 0 {
      assert x[r][j] == x'[r][j];
    } else {
      EarlierVisited(visit, n, j);
      var c := visit[n - 1];
      var prev := InitSteps(x, mask, width, visit, chance, n - 1);
      var prev' := InitSteps(x', mask, width, visit, chance, n - 1);
      assert InitSteps(x, mask, width, visit, chance, n) == InitStep(prev, mask, width, c, n - 1, chance);
      assert InitSteps(x', mask, width, visit, chance, n) == InitStep(prev', mask, width, c, n - 1, chance);
      if j == c && mask[r][j] {
        forall o | 0 <= o < |prev| && !mask[o][c]
          ensures prev[o][c] == prev'[o][c]
        {
          InitStepsAgree(x, x', mask, width, visit, chance, n - 1, o, c);
        }
        InitStepAgree(prev, prev', mask, width, c, n - 1, chance, r);
      } else {
        InitStepsAgree(x, x', mask, width, visit, chance, n - 1, r, j);
        assert prev[r][j] == prev'[r][j];
      }
    }
  }

  /** One iteration reads only the observed cells of the column it fills. */
  lemma InitStepAgree(prev: Matrix<real>, prev': Matrix<real>, mask: Mask, width: nat, c: nat, step: nat, chance: Chance, r: nat)
    requires Conforms(prev, mask, width) && Conforms(prev', mask, width) && c < width && ColumnCount(mask, c) < |mask|
    requires forall o :: 0 <= o < |prev| && !mask[o][c] ==> prev[o][c] == prev'[o][c]
    requires r < |prev| && mask[r][c]
    ensures InitStep(prev, mask, width, c, step, chance)[r][c] == InitStep(prev', mask, width, c, step, chance)[r][c]
  {
    ObservedValuesAgree(prev, prev', mask, c);
    RanksBelowCount(mask, c);
  }
}
