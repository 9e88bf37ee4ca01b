/** The "Basic Information" metrics: total listings, distinct locations,
    distinct cuisine cells and the largest cost, each falling back to a
    default when its column is absent. */
module Metrics {
  import opened Cells
  import opened Tables
  import opened Seqs

  /** `Series.nunique()`: the number of distinct non-missing values. */
  function NUnique<T(==,!new)>(cells: seq<Option<T>>): (n: nat)
    ensures n == |set x | x in Present(cells)|
    ensures n <= |cells|
    ensures n == 0 <==> forall i :: 0 <= i < |cells| ==> cells[i].None?
  {
    var d := Distinct(Present(cells));
    NoRepeatsCardinality(d);
    assert (set x | x in d) == (set x | x in Present(cells));
    assert d != [] ==> Some(d[0]) in cells;
    |d|
  }

  function LocCells(t: Table): seq<Option<string>> {
    seq(|t.rows|, i requires 0 <= i < |t.rows| => t.rows[i].loc)
  }

  function CuisineCells(t: Table): seq<Option<string>> {
    seq(|t.rows|, i requires 0 <= i < |t.rows| => t.rows[i].cuisine)
  }

  function CostCells(t: Table): seq<Option<real>> {
    seq(|t.rows|, i requires 0 <= i < |t.rows| => t.rows[i].cost)
  }

  /** The largest element of a non-empty sequence. */
  function MaxOf(xs: seq<real>): (m: real)
    requires |xs| > 0
    ensures m in xs
    ensures forall x :: x in xs ==> x <= m
  {
    if |xs| == 1 then xs[0]
    else
      var m := MaxOf(xs[1..]);
      assert xs == [xs[0]] + xs[1..];
      if xs[0] >= m then xs[0] else m
  }

  /** The smallest element of a non-empty sequence. */
  function MinOf(xs: seq<real>): (m: real)
    requires |xs| > 0
    ensures m in xs
    ensures forall x :: x in xs ==> m <= x
  {
    if |xs| == 1 then xs[0]
    else
      var m := MinOf(xs[1..]);
      assert xs == [xs[0]] + xs[1..];
      if xs[0] <= m then xs[0] else m
  }

  /** The "Max Cost" metric: "N/A" without the column, NaN when every
      cost cell is missing, otherwise the largest cost. */
  datatype MaxCost = NotAvailable | NaN | Max(value: real)

  datatype BasicInfo = BasicInfo(
    total: nat,
    uniqueLocations: nat,
    uniqueCuisines: nat,
    maxCost: MaxCost)

  function MaxCostMetric(t: Table): (m: MaxCost)
    ensures m.NotAvailable? <==> Cost !in t.columns
    ensures m.NaN? <==> Cost in t.columns && forall i :: 0 <= i < |t.rows| ==> t.rows[i].cost.None?
    ensures m.Max? ==>
              && (exists i :: 0 <= i < |t.rows| && t.rows[i].cost == Some(m.value))
              && (forall i :: 0 <= i < |t.rows| && t.rows[i].cost.Some? ==> t.rows[i].cost.value <= m.value)
  {
    if Cost !in t.columns then NotAvailable
    else
      var costs := Present(CostCells(t));
      if costs == [] then
        assert forall i :: 0 <= i < |t.rows| ==> CostCells(t)[i] == t.rows[i].cost;
        NaN
      else
        var m := MaxOf(costs);
        assert Some(m) in CostCells(t);
        assert forall i :: 0 <= i < |t.rows| && t.rows[i].cost.Some? ==> t.rows[i].cost.value in costs by {
          forall i | 0 <= i < |t.rows| && t.rows[i].cost.Some? ensures t.rows[i].cost.value in costs {
            assert CostCells(t)[i] == t.rows[i].cost;
          }
        }
        Max(m)
  }

  /** The three metric columns of "Basic Information". */
  function Basics(t: Table): (b: BasicInfo)
    ensures b.total == |t.rows|
    ensures b.uniqueLocations == if Loc in t.columns then |set x | x in Present(LocCells(t))| else 0
    ensures b.uniqueCuisines == if Cuisine in t.columns then |set x | x in Present(CuisineCells(t))| else 0
    ensures b.uniqueLocations <= |t.rows| && b.uniqueCuisines <= |t.rows|
    ensures b.maxCost == MaxCostMetric(t)
  {
    BasicInfo(
      |t.rows|,
      if Loc in t.columns then NUnique(LocCells(t)) else 0,
      if Cuisine in t.columns then NUnique(CuisineCells(t)) else 0,
      MaxCostMetric(t))
  }
}
