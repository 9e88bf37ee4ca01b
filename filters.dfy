/** Row selections of the dashboard: the cost/rating range filter with its
    default slider bounds, the case-insensitive cuisine search ranked by
    dine rating, and the complete-case rows behind the correlation
    heatmap. */
module Filters {
  import opened Cells
  import opened Tables
  import opened Seqs
  import opened Text
  import opened Ranking
  import opened Metrics
  import opened MultiValue

  // ---------------------------------------------------------------------
  // Cost / rating range filter

  /** Python's `int()` on a float: truncation toward zero. */
  function Trunc(x: real): (n: int)
    ensures x >= 0.0 ==> n as real <= x < n as real + 1.0
    ensures x < 0.0 ==> n as real - 1.0 < x <= n as real
  {
    if x >= 0.0 then x.Floor else -((-x).Floor)
  }

  predicate IsIntegral(x: real) {
    x == x.Floor as real
  }

  /** `lo` and `hi` are the smallest and the largest present cost. */
  ghost predicate IsCostRange(t: Table, lo: real, hi: real) {
    && (exists i :: 0 <= i < |t.rows| && t.rows[i].cost == Some(lo))
    && (exists j :: 0 <= j < |t.rows| && t.rows[j].cost == Some(hi))
    && (forall k :: 0 <= k < |t.rows| && t.rows[k].cost.Some? ==> lo <= t.rows[k].cost.value <= hi)
  }

  /** `int(df['Cost (RS)'].min())`, `int(df['Cost (RS)'].max())`: the
      column is read without a presence check, and with every cost missing
      both are NaN and `int()` raises. */
  function SliderBounds(t: Table): (r: Result<(int, int)>)
    ensures Cost !in t.columns ==> r == Err(KeyError([Cost]))
    ensures r.Ok? <==> Cost in t.columns && exists i :: 0 <= i < |t.rows| && t.rows[i].cost.Some?
    ensures Cost in t.columns && !r.Ok? ==> r == Err(ValueError)
    ensures r.Ok? ==> r.value.0 <= r.value.1
    ensures r.Ok? ==> exists lo, hi :: IsCostRange(t, lo, hi) && r.value == (Trunc(lo), Trunc(hi))
  {
    if Cost !in t.columns then Err(KeyError([Cost]))
    else
      var costs := Present(CostCells(t));
      if costs == [] then
        NoCostPresent(t);
        Err(ValueError)
      else
        var lo, hi := MinOf(costs), MaxOf(costs);
        CostBoundsAttained(t, lo, hi);
        Ok((Trunc(lo), Trunc(hi)))
  }

  lemma NoCostPresent(t: Table)
    requires Present(CostCells(t)) == []
    ensures forall i :: 0 <= i < |t.rows| ==> t.rows[i].cost.None?
  {
    forall i | 0 <= i < |t.rows| ensures t.rows[i].cost.None? {
      assert CostCells(t)[i] == t.rows[i].cost;
    }
  }

  lemma CostBoundsAttained(t: Table, lo: real, hi: real)
    requires lo in Present(CostCells(t)) && hi in Present(CostCells(t))
    requires forall x :: x in Present(CostCells(t)) ==> lo <= x <= hi
    ensures Trunc(lo) <= Trunc(hi)
    ensures IsCostRange(t, lo, hi)
    ensures exists i :: 0 <= i < |t.rows| && t.rows[i].cost.Some?
  {
    var cells := CostCells(t);
    var i :| 0 <= i < |cells| && cells[i] == Some(lo);
    var j :| 0 <= j < |cells| && cells[j] == Some(hi);
    forall k | 0 <= k < |t.rows| && t.rows[k].cost.Some? ensures lo <= t.rows[k].cost.value <= hi {
      assert cells[k] == t.rows[k].cost;
      assert t.rows[k].cost.value in Present(cells);
    }
    assert t.rows[i].cost == Some(lo) && t.rows[j].cost == Some(hi);
    TruncMonotone(lo, hi);
  }

  lemma TruncMonotone(a: real, b: real)
    requires a <= b
    ensures Trunc(a) <= Trunc(b)
  {
  }

  /** On a whole number `int()` changes nothing. */
  lemma TruncIntegral(x: real)
    requires IsIntegral(x)
    ensures Trunc(x) as real == x
  {
    if x < 0.0 {
      assert (-x).Floor == -(x.Floor);
    }
  }

  /** `dine_rating.fillna(0)`. */
  function RatingOrZero(r: Row): real {
    if r.dineRating.Some? then r.dineRating.value else 0.0
  }

  /** The mask of lines 158-159. A missing cost compares false (NaN); a
      missing rating counts as 0. */
  predicate InRanges(r: Row, costLo: int, costHi: int, ratingLo: real, ratingHi: real) {
    && r.cost.Some? && costLo as real <= r.cost.value <= costHi as real
    && ratingLo <= RatingOrZero(r) <= ratingHi
  }

  /** `filtered_df`: KeyError when `Cost (RS)` or `dine_rating` is absent;
      otherwise exactly the rows whose cost is present and within the cost
      range and whose rating, 0 when missing, is within the rating range,
      both ranges inclusive, in table order. */
  function RangeFilter(t: Table, costLo: int, costHi: int, ratingLo: real, ratingHi: real): (r: Result<seq<Row>>)
    ensures Cost !in t.columns ==> r == Err(KeyError([Cost]))
    ensures Cost in t.columns && DineRating !in t.columns ==> r == Err(KeyError([DineRating]))
    ensures r.Ok? <==> Cost in t.columns && DineRating in t.columns
    ensures r.Ok? ==> IsSubsequence(r.value, t.rows)
    ensures r.Ok? ==> forall x :: x in r.value ==>
              && x.cost.Some? && costLo as real <= x.cost.value <= costHi as real
              && ratingLo <= (if x.dineRating.Some? then x.dineRating.value else 0.0) <= ratingHi
    ensures r.Ok? ==> forall x ::
              (&& x in t.rows
               && x.cost.Some? && costLo as real <= x.cost.value <= costHi as real
               && ratingLo <= (if x.dineRating.Some? then x.dineRating.value else 0.0) <= ratingHi)
              ==> multiset(r.value)[x] == multiset(t.rows)[x]
  {
    if Cost !in t.columns then Err(KeyError([Cost]))
    else if DineRating !in t.columns then Err(KeyError([DineRating]))
    else Ok(Filter(t.rows, row => InRanges(row, costLo, costHi, ratingLo, ratingHi)))
  }

  /** What lines 160-161 print: nothing when the mask already raised; the
      number of kept rows and then a KeyError when the displayed selection
      names a column the table lacks; or the number of kept rows and the
      first ten of them. */
  datatype FilterOutput =
    | FilterRaised(error: Error)
    | CountThenRaised(count: nat, error: Error)
    | CountAndRows(count: nat, rows: seq<Row>)

  /** Lines 160-161: the count is written before the narrowed table of
      the first ten kept rows, so it survives a KeyError there. */
  function FilteredView(t: Table, costLo: int, costHi: int, ratingLo: real, ratingHi: real): (r: FilterOutput)
    ensures r.FilterRaised? <==> RangeFilter(t, costLo, costHi, ratingLo, ratingHi).Err?
    ensures r.FilterRaised? ==> r.error == RangeFilter(t, costLo, costHi, ratingLo, ratingHi).error
    ensures !r.FilterRaised? ==> r.count == |RangeFilter(t, costLo, costHi, ratingLo, ratingHi).value|
    ensures r.CountAndRows? <==> forall c :: c in [RestName, Loc, DineRating, Cost] ==> c in t.columns
    ensures r.CountAndRows? ==>
              var kept := RangeFilter(t, costLo, costHi, ratingLo, ratingHi).value;
              r.rows == kept[..Min(10, |kept|)]
    ensures r.CountThenRaised? ==> r.error == KeyError(Missing(t, [RestName, Loc, DineRating, Cost]))
  {
    match RangeFilter(t, costLo, costHi, ratingLo, ratingHi)
    case Err(e) => FilterRaised(e)
    case Ok(kept) =>
      match Project(t, kept[..Min(10, |kept|)], [RestName, Loc, DineRating, Cost])
      case Ok(shown) => CountAndRows(|kept|, shown)
      case Err(e) => CountThenRaised(|kept|, e)
  }

  /** A row whose cost is missing is never kept, whatever the ranges. */
  lemma MissingCostNeverKept(t: Table, costLo: int, costHi: int, ratingLo: real, ratingHi: real, x: Row)
    requires RangeFilter(t, costLo, costHi, ratingLo, ratingHi).Ok?
    requires x.cost.None?
    ensures x !in RangeFilter(t, costLo, costHi, ratingLo, ratingHi).value
  {
  }

  /** A row whose rating is missing is kept exactly when its cost is in
      range and 0 lies in the rating range. */
  lemma MissingRatingCountsAsZero(t: Table, costLo: int, costHi: int, ratingLo: real, ratingHi: real, i: int)
    requires RangeFilter(t, costLo, costHi, ratingLo, ratingHi).Ok?
    requires 0 <= i < |t.rows| && t.rows[i].dineRating.None?
    ensures t.rows[i] in RangeFilter(t, costLo, costHi, ratingLo, ratingHi).value <==>
              t.rows[i].cost.Some? && costLo as real <= t.rows[i].cost.value <= costHi as real
              && ratingLo <= 0.0 <= ratingHi
  {
    var x := t.rows[i];
    var r := RangeFilter(t, costLo, costHi, ratingLo, ratingHi).value;
    assert x in multiset(t.rows);
    if x.cost.Some? && costLo as real <= x.cost.value <= costHi as real && ratingLo <= 0.0 <= ratingHi {
      assert x in multiset(r);
    }
  }

  /** With the default slider positions (the truncated minimum and maximum
      cost, ratings 0.0 to 5.0) every row is kept when every cost is a
      present whole number and every rating is missing or within [0, 5]. */
  lemma DefaultRangeKeepsAll(t: Table)
    requires DineRating in t.columns
    requires SliderBounds(t).Ok?
    requires forall i :: 0 <= i < |t.rows| ==> t.rows[i].cost.Some? && IsIntegral(t.rows[i].cost.value)
    requires forall i :: 0 <= i < |t.rows| ==> t.rows[i].dineRating.None? || 0.0 <= t.rows[i].dineRating.value <= 5.0
    ensures var (lo, hi) := SliderBounds(t).value;
      RangeFilter(t, lo, hi, 0.0, 5.0) == Ok(t.rows)
  {
    var (lo, hi) := SliderBounds(t).value;
    DefaultBoundsCoverCosts(t);
    forall k | 0 <= k < |t.rows| ensures InRanges(t.rows[k], lo, hi, 0.0, 5.0) {
      assert lo as real <= t.rows[k].cost.value <= hi as real;
    }
    FilterAll(t.rows, row => InRanges(row, lo, hi, 0.0, 5.0));
  }

  /** When every cost is a present whole number, the default slider
      bounds enclose every cost. */
  lemma DefaultBoundsCoverCosts(t: Table)
    requires SliderBounds(t).Ok?
    requires forall i :: 0 <= i < |t.rows| ==> t.rows[i].cost.Some? && IsIntegral(t.rows[i].cost.value)
    ensures forall k :: 0 <= k < |t.rows| ==>
              SliderBounds(t).value.0 as real <= t.rows[k].cost.value <= SliderBounds(t).value.1 as real
  {
    var (lo, hi) := SliderBounds(t).value;
    var mn, mx :| IsCostRange(t, mn, mx) && (lo, hi) == (Trunc(mn), Trunc(mx));
    var i :| 0 <= i < |t.rows| && t.rows[i].cost == Some(mn);
    var j :| 0 <= j < |t.rows| && t.rows[j].cost == Some(mx);
    TruncIntegral(mn);
    TruncIntegral(mx);
  }

  function Listing(cost: real, rating: real): Row {
    Row(None, None, None, None, None, Some(cost), Some(rating), None, None, None)
  }

  /** The smallest and largest present cost are unique, so they fix the
      slider bounds. */
  lemma SliderBoundsOf(t: Table, lo: real, hi: real)
    requires Cost in t.columns
    requires IsCostRange(t, lo, hi)
    ensures SliderBounds(t) == Ok((Trunc(lo), Trunc(hi)))
  {
    var i :| 0 <= i < |t.rows| && t.rows[i].cost == Some(lo);
    assert t.rows[i].cost.Some?;
    var mn, mx :| IsCostRange(t, mn, mx) && SliderBounds(t).value == (Trunc(mn), Trunc(mx));
    CostRangeUnique(t, lo, hi, mn, mx);
  }

  lemma CostRangeUnique(t: Table, lo: real, hi: real, lo': real, hi': real)
    requires IsCostRange(t, lo, hi) && IsCostRange(t, lo', hi')
    ensures lo == lo' && hi == hi'
  {
    var i :| 0 <= i < |t.rows| && t.rows[i].cost == Some(lo);
    var i' :| 0 <= i' < |t.rows| && t.rows[i'].cost == Some(lo');
    var j :| 0 <= j < |t.rows| && t.rows[j].cost == Some(hi);
    var j' :| 0 <= j' < |t.rows| && t.rows[j'].cost == Some(hi');
    assert lo' <= lo <= lo';
    assert hi' <= hi <= hi';
  }

  /** Costs 100 and 250.5 put the slider at (100, 250). */
  lemma FractionalMaxCostBounds()
    ensures SliderBounds(Table({Cost, DineRating}, [Listing(100.0, 4.0), Listing(250.5, 4.0)])) == Ok((100, 250))
  {
    var t := Table({Cost, DineRating}, [Listing(100.0, 4.0), Listing(250.5, 4.0)]);
    assert t.rows[0].cost == Some(100.0) && t.rows[1].cost == Some(250.5);
    assert IsCostRange(t, 100.0, 250.5);
    SliderBoundsOf(t, 100.0, 250.5);
    assert (250.5).Floor == 250;
  }

  /** Truncating the maximum pushes a fractional top cost out of the
      default range: at (100, 250) only the first of the two listings is
      kept. */
  lemma FractionalMaxCostOutsideDefault()
    ensures RangeFilter(Table({Cost, DineRating}, [Listing(100.0, 4.0), Listing(250.5, 4.0)]), 100, 250, 0.0, 5.0)
            == Ok([Listing(100.0, 4.0)])
  {
    var a, b := Listing(100.0, 4.0), Listing(250.5, 4.0);
    var t := Table({Cost, DineRating}, [a, b]);
    var r := RangeFilter(t, 100, 250, 0.0, 5.0).value;
    assert multiset(t.rows)[a] == 1;
    assert multiset(r)[a] == 1;
    assert multiset(r) == multiset{a} by {
      forall x ensures multiset(r)[x] == multiset{a}[x] {
        if x != a && x in r {
          assert multiset(r)[x] == multiset(t.rows)[x];
          assert x in t.rows;
        }
      }
    }
    assert |r| == |multiset(r)| == 1;
    assert r[0] in multiset(r);
    assert r == [r[0]];
  }

  // ---------------------------------------------------------------------
  // Cuisine search: str.contains(case=False, na=False), sort by
  // dine_rating descending, head(10)

  /** The mask of line 150: the raw cuisine cell contains the selection,
      ignoring case; a missing cell never matches. */
  predicate MatchesCuisine(r: Row, selected: string) {
    r.cuisine.Some? && ContainsIgnoreCase(r.cuisine.value, selected)
  }

  function RatingKey(r: Row): Option<real> {
    r.dineRating
  }

  function SearchMatches(t: Table, selected: string): seq<Row> {
    Filter(t.rows, row => MatchesCuisine(row, selected))
  }

  /** The "Top Restaurants by Selected Cuisine" table for the value the
      select box returned (`None` when it had no options): skipped unless
      both `cuisine` and `name` exist; searching for `None` is a
      TypeError; sorting needs `dine_rating` and the displayed selection
      needs `name`, `loc`, `dine_rating` and `Cost (RS)`, each a KeyError
      when absent. */
  function CuisineSearch(t: Table, selected: Option<string>): (r: Section<seq<Row>>)
    ensures r.Skipped? <==> !(Cuisine in t.columns && Name in t.columns)
    ensures !r.Skipped? && selected.None? ==> r == Failed(TypeError)
    ensures !r.Skipped? && selected.Some? && DineRating !in t.columns ==> r == Failed(KeyError([DineRating]))
    ensures r.Shown? <==>
              && Cuisine in t.columns && Name in t.columns && selected.Some?
              && forall c :: c in [Name, Loc, DineRating, Cost] ==> c in t.columns
    ensures r.Failed? && selected.Some? && DineRating in t.columns ==>
              r.error == KeyError(Missing(t, [Name, Loc, DineRating, Cost]))
  {
    if !(Cuisine in t.columns && Name in t.columns) then Skipped
    else if selected.None? then Failed(TypeError)
    else if DineRating !in t.columns then Failed(KeyError([DineRating]))
    else
      var top := TopK(SearchMatches(t, selected.value), RatingKey, 10);
      match Project(t, top, [Name, Loc, DineRating, Cost])
      case Ok(rows) => Shown(rows)
      case Err(e) => Failed(e)
  }

  /** `st.selectbox` over `options`: the option at the index the user
      picked, the first one (the widget's default) while no pick within
      the list was made, or `None` when there is no option. */
  function SelectBox(options: seq<string>, pick: nat): (s: Option<string>)
    ensures s.None? <==> options == []
    ensures s.Some? ==> s.value in options
    ensures pick < |options| ==> s == Some(options[pick])
  {
    if options == [] then None
    else if pick < |options| then Some(options[pick])
    else Some(options[0])
  }

  /** The select box is empty exactly when every cuisine cell is missing,
      and the search for its `None` then raises TypeError. */
  lemma NoOptionsTypeError(t: Table, pick: nat)
    requires Cuisine in t.columns && Name in t.columns
    requires forall i :: 0 <= i < |t.rows| ==> t.rows[i].cuisine.None?
    ensures CuisineOptions(t) == []
    ensures CuisineSearch(t, SelectBox(CuisineOptions(t), pick)) == Failed(TypeError)
  {
    OptionsEmptyIff(t);
  }

  /** The search result holds min(10, #matches) rows of the table whose raw
      cuisine cell contains the selection case-insensitively, ordered by
      dine rating descending with missing ratings last; no matching row
      left out has a higher rating than a row shown. */
  lemma CuisineSearchSpec(t: Table, selected: string)
    requires CuisineSearch(t, Some(selected)).Shown?
    ensures var r := CuisineSearch(t, Some(selected)).value; var m := SearchMatches(t, selected);
      && |r| == Min(10, |m|)
      && (forall x :: x in r ==> x in t.rows && x.cuisine.Some? && ContainsIgnoreCase(x.cuisine.value, selected))
      && (forall i, j :: 0 <= i < j < |r| ==> AtLeast(r[i].dineRating, r[j].dineRating))
      && multiset(r) <= multiset(m)
      && (forall x, y :: x in multiset(m) - multiset(r) && y in r ==> AtLeast(y.dineRating, x.dineRating))
  {
    var r := CuisineSearch(t, Some(selected)).value;
    var m := SearchMatches(t, selected);
    forall x | x in r ensures x in t.rows && MatchesCuisine(x, selected) {
      assert x in multiset(r);
      assert x in multiset(m);
    }
    forall i, j | 0 <= i < j < |r| ensures AtLeast(r[i].dineRating, r[j].dineRating) {
      assert AtLeast(RatingKey(r[i]), RatingKey(r[j]));
    }
    forall x, y | x in multiset(m) - multiset(r) && y in r ensures AtLeast(y.dineRating, x.dineRating) {
      assert AtLeast(RatingKey(y), RatingKey(x));
    }
  }

  /** The match is against the raw cell: "Chinese" is found in
      "Indo-Chinese". */
  lemma SearchMatchesInsideWords()
    ensures ContainsIgnoreCase("Indo-Chinese", "Chinese")
  {
    var s := "Indo-Chinese";
    InfixContained(s, 5, 12);
    assert s[5..12] == "Chinese";
    ContainsLower(s, "Chinese");
  }

  /** Every entry of the option list finds at least the row it came from,
      so a shown search for it is never empty. */
  lemma SelectedOptionFound(t: Table, selected: string)
    requires selected in CuisineOptions(t)
    requires CuisineSearch(t, Some(selected)).Shown?
    ensures |CuisineSearch(t, Some(selected)).value| >= 1
  {
    OptionMatchesItsRow(t, selected);
    SearchShownTop(t, selected);
  }

  /** A shown search is the top ten matches. */
  lemma SearchShownTop(t: Table, selected: string)
    requires CuisineSearch(t, Some(selected)).Shown?
    ensures CuisineSearch(t, Some(selected)).value == TopK(SearchMatches(t, selected), RatingKey, 10)
  {
  }

  lemma OptionMatchesItsRow(t: Table, selected: string)
    requires selected in CuisineOptions(t)
    ensures SearchMatches(t, selected) != []
  {
    var j :| 0 <= j < |t.rows| && t.rows[j].cuisine.Some?
             && selected in StrippedPieces(t.rows[j].cuisine.value);
    var m := SearchMatches(t, selected);
    StrippedPieceContained(t.rows[j].cuisine.value, selected);
    ContainsLower(t.rows[j].cuisine.value, selected);
    assert t.rows[j] in multiset(t.rows);
    assert MatchesCuisine(t.rows[j], selected);
    assert t.rows[j] in multiset(m);
  }

  // ---------------------------------------------------------------------
  // Correlation input

  /** The candidate columns, in the order of line 164. */
  const CorrelationCandidates: seq<Column> := [DineRating, DeliveryRating, Cost, Votes]

  /** `corr_cols` after line 165: the candidates the table has. */
  function CorrelationColumns(t: Table): seq<Column> {
    Filter(CorrelationCandidates, c => c in t.columns)
  }

  predicate Complete(r: Row, cols: seq<Column>) {
    forall c :: c in cols ==> HasValue(r, c)
  }

  /** `df[corr_cols].dropna()`: the rows with every selected column present
      (the projection to those columns is not represented). */
  function CorrelationRows(t: Table): (r: seq<Row>)
    ensures forall x :: x in r <==> x in t.rows && Complete(x, CorrelationColumns(t))
  {
    var cols := CorrelationColumns(t);
    var r := Filter(t.rows, row => Complete(row, cols));
    assert forall x :: x in r <==> x in multiset(r);
    assert forall x :: x in t.rows <==> x in multiset(t.rows);
    r
  }

  /** `not corr_df.empty`: a frame without columns is empty even when it
      has rows. */
  predicate ShowsHeatmap(t: Table) {
    CorrelationColumns(t) != [] && CorrelationRows(t) != []
  }

  /** The selected columns are exactly the candidates present, in the
      fixed order of line 164. */
  lemma CorrelationColumnsSpec(t: Table)
    ensures var cols := CorrelationColumns(t);
      && IsSubsequence(cols, CorrelationCandidates)
      && (forall c :: c in cols <==> c in CorrelationCandidates && c in t.columns)
  {
    var cols := CorrelationColumns(t);
    forall c ensures c in cols <==> c in CorrelationCandidates && c in t.columns {
      if c in CorrelationCandidates && c in t.columns {
        assert c in multiset(CorrelationCandidates);
        assert c in multiset(cols);
      }
    }
  }

  /** The kept rows are exactly the complete ones, in table order. */
  lemma CorrelationRowsSpec(t: Table)
    ensures var cols := CorrelationColumns(t); var rows := CorrelationRows(t);
      && IsSubsequence(rows, t.rows)
      && (forall x :: multiset(rows)[x] == if Complete(x, cols) then multiset(t.rows)[x] else 0)
  {
  }

  /** The heatmap is drawn iff some candidate column is present and some
      row has every present candidate filled in; otherwise the "not enough
      data" note is shown. */
  lemma HeatmapShownIff(t: Table)
    ensures ShowsHeatmap(t) <==>
              && (exists c :: c in CorrelationCandidates && c in t.columns)
              && (exists x :: x in t.rows && Complete(x, CorrelationColumns(t)))
  {
    SomeCorrelationColumn(t);
    SomeCorrelationRow(t);
  }

  lemma SomeCorrelationColumn(t: Table)
    ensures CorrelationColumns(t) != [] <==> exists c :: c in CorrelationCandidates && c in t.columns
  {
    CorrelationColumnsSpec(t);
    if exists c :: c in CorrelationCandidates && c in t.columns {
      var c :| c in CorrelationCandidates && c in t.columns;
      assert c in CorrelationColumns(t);
    }
  }

  lemma SomeCorrelationRow(t: Table)
    ensures CorrelationRows(t) != [] <==> exists x :: x in t.rows && Complete(x, CorrelationColumns(t))
  {
    var rows := CorrelationRows(t);
    if rows != [] {
      assert rows[0] in rows;
    }
  }
}
