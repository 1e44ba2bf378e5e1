/** The visit-order planner (`get_visit_indices`): the order in which one round
    visits the columns, fixed once per run from the missing mask. */
module VisitOrder {
  import opened Outcomes
  import opened Grid
  import opened Ordering

  /** The missing counts of the columns, as sort keys. */
  function CountKeys(mask: Mask, width: nat): (keys: seq<real>)
    requires HasWidth(mask, width)
    ensures |keys| == width
    ensures forall c :: 0 <= c < width ==> keys[c] == ColumnCount(mask, c) as real
  {
    seq(width, c requires 0 <= c < width => ColumnCount(mask, c) as real)
  }

  /** `np.arange(n_cols - 1, -1, -1)`. */
  function Descending(width: nat): seq<nat>
  {
    seq(width, i requires 0 <= i < width => width - 1 - i)
  }

  /** The column order for policy `choice`, or the error naming an unknown policy. */
  function VisitIndices(choice: string, mask: Mask, width: nat): (r: Result<seq<nat>, MiceError>)
    requires HasWidth(mask, width)
    ensures r.Success? <==> choice == "roman" || choice == "arabic" || choice == "monotone" || choice == "revmonotone"
    ensures r.Failure? ==> r.error == InvalidVisitOrder(choice)
    ensures r.Success? ==> IsPermutation(r.value, width)
    ensures choice == "roman" ==> forall i, j :: 0 <= i < j < width ==> r.value[i] < r.value[j]
    ensures choice == "arabic" ==> forall i, j :: 0 <= i < j < width ==> r.value[i] > r.value[j]
    ensures choice == "monotone" ==> forall i, j :: 0 <= i < j < width ==>
      ColumnCount(mask, r.value[i]) >= ColumnCount(mask, r.value[j])
    ensures choice == "revmonotone" ==> forall i, j :: 0 <= i < j < width ==>
      ColumnCount(mask, r.value[i]) <= ColumnCount(mask, r.value[j])
  {
    var keys := CountKeys(mask, width);
    if choice == "roman" then
      IotaPermutation(width);
      Success(Iota(width))
    else if choice == "arabic" then
      var d := Descending(width);
      forall j: nat | j < width
        ensures j in d
      {
        assert d[width - 1 - j] == j;
      }
      Success(d)
    else if choice == "monotone" then
      var p := ArgSort(keys);
      ReversePermutation(keys, p, width);
      Success(Reverse(p))
    else if choice == "revmonotone" then
      Success(ArgSort(keys))
    else
      Failure(InvalidVisitOrder(choice))
  }

  /** `arabic` is `roman` back to front. */
  lemma ArabicReversesRoman(mask: Mask, width: nat)
    requires HasWidth(mask, width)
    ensures VisitIndices("arabic", mask, width).value == Reverse(VisitIndices("roman", mask, width).value)
  {
  }

  /** `monotone` is `revmonotone` back to front, and conversely. */
  lemma MonotoneReversesRevmonotone(mask: Mask, width: nat)
    requires HasWidth(mask, width)
    ensures VisitIndices("monotone", mask, width).value == Reverse(VisitIndices("revmonotone", mask, width).value)
    ensures VisitIndices("revmonotone", mask, width).value == Reverse(VisitIndices("monotone", mask, width).value)
  {
    ReverseReverse(VisitIndices("revmonotone", mask, width).value);
  }

  /** The policy fixes the order up to ties: under `monotone` the first column has the
      most missing cells and the last the fewest; under `revmonotone` the reverse. */
  lemma MonotoneExtremes(mask: Mask, width: nat, c: nat)
    requires HasWidth(mask, width) && c < width
    ensures ColumnCount(mask, VisitIndices("monotone", mask, width).value[0]) >= ColumnCount(mask, c)
    ensures ColumnCount(mask, VisitIndices("revmonotone", mask, width).value[0]) <= ColumnCount(mask, c)
    ensures ColumnCount(mask, VisitIndices("monotone", mask, width).value[width - 1]) <= ColumnCount(mask, c)
    ensures ColumnCount(mask, VisitIndices("revmonotone", mask, width).value[width - 1]) >= ColumnCount(mask, c)
  {
    var m := VisitIndices("monotone", mask, width).value;
    var v := VisitIndices("revmonotone", mask, width).value;
    assert c in m && c in v;
    var i :| 0 <= i < width && m[i] == c;
    var j :| 0 <= j < width && v[j] == c;
    assert ColumnCount(mask, m[0]) >= ColumnCount(mask, m[i]) >= ColumnCount(mask, m[width - 1]);
    assert ColumnCount(mask, v[0]) <= ColumnCount(mask, v[j]) <= ColumnCount(mask, v[width - 1]);
  }
}
