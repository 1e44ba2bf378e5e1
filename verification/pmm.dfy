/** Predictive mean matching: each missing cell of a column takes the actual observed
    value of a donor row, picked at random among the `k` observed rows whose
    predictions lie nearest to the missing cell's own prediction. */
module Pmm {
  import opened Outcomes
  import opened Ordering
  import opened MiceTypes

  function Abs(v: real): (a: real)
    ensures a >= 0.0 && (a == v || a == -v)
  {
    if v < 0.0 then -v else v
  }

  /** One row of `D`: how far the prediction `p` lies from each observed row's prediction. */
  function Distances(p: real, observed: seq<real>): (d: seq<real>)
    ensures |d| == |observed|
  {
    seq(|observed|, j requires 0 <= j < |observed| => Abs(p - observed[j]))
  }

  /** `k = min(n_pmm_neighbors, n_observed - 1)`: never more than the configured number,
      and always leaving at least one observed row out. */
  function NeighbourCount(nPmm: nat, nObserved: nat): (k: nat)
    requires nObserved >= 1
    ensures k <= nPmm && k < nObserved
    ensures k == nPmm || k == nObserved - 1
  {
    if nPmm < nObserved - 1 then nPmm else nObserved - 1
  }

  /** The rows strictly nearer than row `i`. */
  function Closer(dist: seq<real>, i: nat): set<nat>
    requires i < |dist|
  {
    set j: nat | j < |dist| && dist[j] < dist[i]
  }

  /** Row `j` is among the `k` nearest: fewer than `k` rows are strictly nearer. */
  predicate AmongNearest(dist: seq<real>, j: nat, k: nat)
  {
    j < |dist| && |Closer(dist, j)| < k
  }

  /** The donor row: entry `pick` (modulo `k`) of the `k` nearest rows
      (`np.argpartition(D, k, 1)[:, :k]`, then `np.random.choice`).  The nearest rows
      are taken in one fixed tie order, that of a stable sort; the contract holds
      for any choice among tied rows. */
  function Donor(dist: seq<real>, k: nat, pick: nat): (j: nat)
    requires 0 < k <= |dist|
    ensures AmongNearest(dist, j, k)
  {
    var nn := Smallest(dist, k);
    var j := nn[pick % k];
    NearestHaveFewCloser(dist, nn, pick % k);
    j
  }

  /** Only rows among `nn` can be strictly nearer than a member of `nn`, so fewer than
      `|nn|` rows are. */
  lemma NearestHaveFewCloser(dist: seq<real>, nn: seq<nat>, q: nat)
    requires q < |nn| && AllBelow(nn, |dist|)
    requires forall q', x :: 0 <= q' < |nn| && 0 <= x < |dist| && x !in nn ==> dist[nn[q']] <= dist[x]
    ensures |Closer(dist, nn[q])| < |nn|
  {
    var j := nn[q];
    var closer := Closer(dist, j);
    var others := Elements(nn) - {j};
    forall x | x in closer
      ensures x in others
    {
    }
    SubsetCardinality(closer, others);
    ElementsBound(nn);
    assert j in Elements(nn);
    assert |others| == |Elements(nn)| - 1;
  }

  /** With a single neighbour the donor is a nearest row. */
  lemma SingleNeighbourIsNearest(dist: seq<real>, pick: nat, x: nat)
    requires 1 <= |dist| && x < |dist|
    ensures dist[Donor(dist, 1, pick)] <= dist[x]
  {
    var j := Donor(dist, 1, pick);
    assert x !in Closer(dist, j);
  }

  /** `v` is the observed value of a row whose prediction is among the `k` nearest to `p`. */
  ghost predicate FromNearDonor(v: real, p: real, best: seq<real>, target: seq<real>, k: nat)
    requires |best| == |target|
  {
    exists j: nat :: AmongNearest(Distances(p, best), j, k) && v == target[j]
  }

  /** The values predictive mean matching writes into the missing cells of column `c`:
      `drawn` holds the predictions for the missing rows (coefficients drawn at random),
      `best` those for the observed rows (best coefficients), `target` the observed
      values.  With no neighbour to choose from (`k = 0`) the random choice fails. */
  function PmmValues(drawn: seq<real>, best: seq<real>, target: seq<real>, nPmm: nat, c: nat, draw: Draw, chance: Chance)
    : (r: Result<seq<real>, MiceError>)
    requires |best| == |target| && |best| >= 1
    ensures r.Failure? <==> |drawn| > 0 && NeighbourCount(nPmm, |best|) == 0
    ensures r.Failure? ==> r.error == NoNeighbours(c)
    ensures r.Success? ==> |r.value| == |drawn|
    ensures r.Success? ==> forall i :: 0 <= i < |drawn| ==>
      FromNearDonor(r.value[i], drawn[i], best, target, NeighbourCount(nPmm, |best|))
  {
    var k := NeighbourCount(nPmm, |best|);
    if |drawn| == 0 then Success([])
    else if k == 0 then Failure(NoNeighbours(c))
    else
      var vals := seq(|drawn|, i requires 0 <= i < |drawn| =>
        target[Donor(Distances(drawn[i], best), k, chance.neighbour(draw, i))]);
      forall i | 0 <= i < |drawn|
        ensures FromNearDonor(vals[i], drawn[i], best, target, k)
      {
        var j := Donor(Distances(drawn[i], best), k, chance.neighbour(draw, i));
        assert AmongNearest(Distances(drawn[i], best), j, k) && vals[i] == target[j];
      }
      Success(vals)
  }

  /** Every value predictive mean matching writes is one of the observed values. */
  lemma PmmValuesObserved(drawn: seq<real>, best: seq<real>, target: seq<real>, nPmm: nat, c: nat, draw: Draw, chance: Chance, i: nat)
    requires |best| == |target| && |best| >= 1
    requires PmmValues(drawn, best, target, nPmm, c, draw, chance).Success? && i < |drawn|
    ensures PmmValues(drawn, best, target, nPmm, c, draw, chance).value[i] in target
  {
    var vals := PmmValues(drawn, best, target, nPmm, c, draw, chance).value;
    assert FromNearDonor(vals[i], drawn[i], best, target, NeighbourCount(nPmm, |best|));
    var j: nat :| AmongNearest(Distances(drawn[i], best), j, NeighbourCount(nPmm, |best|)) && vals[i] == target[j];
  }
}
