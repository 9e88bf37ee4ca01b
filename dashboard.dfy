/** One run of the whole script on a loaded table. The sections run in
    source order, and the first exception pandas raises ends the run:
    nothing after it is drawn. The basic metrics, the rating histograms,
    the heatmap, the cuisine frequency chart, the scatter plot and the
    closing sections are taken not to raise, so a run either stops in one
    of the stages below or completes. */
module Dashboard {
  import opened Cells
  import opened Tables
  import opened MultiValue
  import opened Filters
  import opened Lookups

  /** The sections that can raise, in the order they run. */
  datatype Stage =
    | PreviewStage    // line 52
    | RestTypeStage   // line 130
    | LocationStage   // line 141
    | SearchStage     // lines 150-152
    | SliderStage     // line 155
    | FilterStage     // lines 159-161

  datatype Run = Aborted(stage: Stage, error: Error) | Completed

  /** The widget values of a run: the index picked in the cuisine select
      box, and the two slider ranges. */
  datatype Widgets = Widgets(pick: nat, costLo: int, costHi: int, ratingLo: real, ratingHi: real)

  /** The position of each stage in the script. */
  function Order(s: Stage): nat {
    match s
    case PreviewStage => 0
    case RestTypeStage => 1
    case LocationStage => 2
    case SearchStage => 3
    case SliderStage => 4
    case FilterStage => 5
  }

  /** The cuisine search with the select box's value. */
  function Search(t: Table, w: Widgets): Section<seq<Row>> {
    CuisineSearch(t, SelectBox(CuisineOptions(t), w.pick))
  }

  function Filtered(t: Table, w: Widgets): FilterOutput {
    FilteredView(t, w.costLo, w.costHi, w.ratingLo, w.ratingHi)
  }

  /** The stage that runs after `s`. */
  function Next(s: Stage): (n: Stage)
    requires s != FilterStage
    ensures Order(n) == Order(s) + 1
  {
    match s
    case PreviewStage => RestTypeStage
    case RestTypeStage => LocationStage
    case LocationStage => SearchStage
    case SearchStage => SliderStage
    case SliderStage => FilterStage
  }

  lemma OrderInjective(a: Stage, b: Stage)
    requires Order(a) == Order(b)
    ensures a == b
  {
  }

  /** The exception stage `s` raises once reached, or `None` when it
      passes. */
  function Outcome(t: Table, w: Widgets, s: Stage): Option<Error> {
    match s
    case PreviewStage =>
      if DataPreview(t).PreviewFailed? then Some(DataPreview(t).error) else None
    case RestTypeStage =>
      if RestTypeAvgCost(t).Failed? then Some(RestTypeAvgCost(t).error) else None
    case LocationStage =>
      if TopLocations(t).Failed? then Some(TopLocations(t).error) else None
    case SearchStage =>
      if Search(t, w).Failed? then Some(Search(t, w).error) else None
    case SliderStage =>
      if SliderBounds(t).Err? then Some(SliderBounds(t).error) else None
    case FilterStage =>
      match Filtered(t, w)
      case FilterRaised(e) => Some(e)
      case CountThenRaised(_, e) => Some(e)
      case CountAndRows(_, _) => None
  }

  /** The script from stage `s` on: the first stage that raises ends the
      run with its exception. */
  function RunFrom(t: Table, w: Widgets, s: Stage): (r: Run)
    ensures r.Completed? <==> forall x :: Order(s) <= Order(x) ==> Outcome(t, w, x).None?
    ensures r.Aborted? ==>
              && Order(s) <= Order(r.stage)
              && Outcome(t, w, r.stage) == Some(r.error)
              && forall x :: Order(s) <= Order(x) < Order(r.stage) ==> Outcome(t, w, x).None?
    decreases 5 - Order(s)
  {
    if Outcome(t, w, s).Some? then Aborted(s, Outcome(t, w, s).value)
    else if s == FilterStage then
      assert forall x :: Order(s) <= Order(x) ==> x == s by {
        forall x | Order(s) <= Order(x) ensures x == s {
          OrderInjective(x, s);
        }
      }
      Completed
    else
      var r := RunFrom(t, w, Next(s));
      assert forall x :: Order(s) <= Order(x) ==> x == s || Order(Next(s)) <= Order(x) by {
        forall x | Order(s) <= Order(x) && Order(x) < Order(Next(s)) ensures x == s {
          OrderInjective(x, s);
        }
      }
      r
  }

  /** The script after the data source was chosen: a run completes exactly
      when no stage raises, and otherwise stops at the first stage that
      raises, with that stage's exception. */
  function RunScript(t: Table, w: Widgets): (r: Run)
    ensures r.Completed? <==> forall s :: Outcome(t, w, s).None?
    ensures r.Aborted? ==>
              && Outcome(t, w, r.stage) == Some(r.error)
              && forall s :: Order(s) < Order(r.stage) ==> Outcome(t, w, s).None?
  {
    RunFrom(t, w, PreviewStage)
  }

  /** The converse of `RunScript`'s contract: a stage that raises after
      every earlier stage passed ends the run with its exception. */
  lemma FirstRaiseEndsRun(t: Table, w: Widgets, s: Stage, e: Error)
    requires Outcome(t, w, s) == Some(e)
    requires forall x :: Order(x) < Order(s) ==> Outcome(t, w, x).None?
    ensures RunScript(t, w) == Aborted(s, e)
  {
    var r := RunScript(t, w);
    assert r.Aborted?;
    assert !(Order(r.stage) < Order(s));
    assert !(Order(s) < Order(r.stage));
    OrderInjective(r.stage, s);
  }

  /** A run stops in the preview exactly when the preview raises. */
  lemma PreviewAbortIff(t: Table, w: Widgets)
    ensures var r := RunScript(t, w);
      r.Aborted? && r.stage == PreviewStage <==> DataPreview(t).PreviewFailed?
  {
    var r := RunScript(t, w);
    if r.Aborted? && r.stage != PreviewStage {
      assert Order(PreviewStage) < Order(r.stage);
    }
  }

  /** A completed run had rest_name, loc, dine_rating and Cost (RS), and
      some present cost. */
  lemma CompletedColumns(t: Table, w: Widgets)
    requires RunScript(t, w).Completed?
    ensures RestName in t.columns && Loc in t.columns && DineRating in t.columns && Cost in t.columns
    ensures exists i :: 0 <= i < |t.rows| && t.rows[i].cost.Some?
  {
    assert Outcome(t, w, SliderStage).None?;
    SliderPassColumns(t, w);
    assert Outcome(t, w, FilterStage).None?;
    FilterPassColumns(t, w);
  }

  lemma SliderPassColumns(t: Table, w: Widgets)
    requires Outcome(t, w, SliderStage).None?
    ensures Cost in t.columns && exists i :: 0 <= i < |t.rows| && t.rows[i].cost.Some?
  {
    assert SliderBounds(t).Ok?;
  }

  lemma FilterPassColumns(t: Table, w: Widgets)
    requires Outcome(t, w, FilterStage).None?
    ensures RestName in t.columns && Loc in t.columns && DineRating in t.columns && Cost in t.columns
  {
    assert Filtered(t, w).CountAndRows?;
  }

  /** The heatmap is on the page: the run got past the filter section and
      `corr_df` is not empty. */
  predicate HeatmapDrawn(t: Table, w: Widgets) {
    RunScript(t, w).Completed? && ShowsHeatmap(t)
  }

  /** A run that reaches the heatmap has `dine_rating` and `Cost (RS)`
      among the correlation columns, so the "no column" case of line 165
      never happens in a run. */
  lemma HeatmapReachedColumns(t: Table, w: Widgets)
    requires RunScript(t, w).Completed?
    ensures DineRating in CorrelationColumns(t) && Cost in CorrelationColumns(t)
  {
    CompletedColumns(t, w);
    CorrelationColumnsSpec(t);
  }

  /** Over a whole run, the heatmap is drawn exactly when the run completes
      and some row has a dine rating, a cost, and a value in each of the
      delivery-rating and votes columns the table has. */
  lemma HeatmapDrawnIff(t: Table, w: Widgets)
    ensures HeatmapDrawn(t, w) <==>
              && RunScript(t, w).Completed?
              && exists x :: x in t.rows && CorrelationReady(t, x)
  {
    if RunScript(t, w).Completed? {
      CompletedColumns(t, w);
      HeatmapReachedColumns(t, w);
      HeatmapShownIff(t);
      assert DineRating in CorrelationCandidates;
      CompleteIffReady(t);
    }
  }

  /** A row that the correlation frame keeps once both ratings columns
      and the cost column are known. */
  predicate CorrelationReady(t: Table, x: Row) {
    && x.dineRating.Some? && x.cost.Some?
    && (DeliveryRating in t.columns ==> x.deliveryRating.Some?)
    && (Votes in t.columns ==> x.votes.Some?)
  }

  lemma CompleteIffReady(t: Table)
    requires DineRating in t.columns && Cost in t.columns
    ensures forall x :: Complete(x, CorrelationColumns(t)) <==> CorrelationReady(t, x)
  {
    var cols := CorrelationColumns(t);
    CorrelationColumnsSpec(t);
    forall x ensures Complete(x, cols) <==> CorrelationReady(t, x) {
      if Complete(x, cols) {
        CompleteIsReady(t, cols, x);
      }
      if CorrelationReady(t, x) {
        ReadyIsComplete(t, cols, x);
      }
    }
  }

  lemma ReadyIsComplete(t: Table, cols: seq<Column>, x: Row)
    requires forall c :: c in cols <==> c in CorrelationCandidates && c in t.columns
    requires CorrelationReady(t, x)
    ensures Complete(x, cols)
  {
    forall c | c in cols ensures HasValue(x, c) {
      assert c in CorrelationCandidates && c in t.columns;
    }
  }

  lemma CompleteIsReady(t: Table, cols: seq<Column>, x: Row)
    requires forall c :: c in cols <==> c in CorrelationCandidates && c in t.columns
    requires DineRating in t.columns && Cost in t.columns
    requires Complete(x, cols)
    ensures CorrelationReady(t, x)
  {
    assert DineRating in CorrelationCandidates && Cost in CorrelationCandidates;
    assert HasValue(x, DineRating) && HasValue(x, Cost);
    if DeliveryRating in t.columns {
      assert DeliveryRating in CorrelationCandidates;
      assert HasValue(x, DeliveryRating);
    }
    if Votes in t.columns {
      assert Votes in CorrelationCandidates;
      assert HasValue(x, Votes);
    }
  }

  /** A table with only a `votes` column stops at the slider bounds with a
      KeyError for `Cost (RS)`, so its heatmap is never drawn although
      `votes` is a correlation candidate. */
  lemma VotesOnlyStopsAtSlider(t: Table, w: Widgets)
    requires t.columns == {Votes}
    ensures RunScript(t, w) == Aborted(SliderStage, KeyError([Cost]))
    ensures !HeatmapDrawn(t, w)
  {
    forall x | Order(x) < Order(SliderStage) ensures Outcome(t, w, x).None? {
      match x
      case PreviewStage => assert DataPreview(t).Plain?;
      case RestTypeStage => assert RestTypeAvgCost(t).Skipped?;
      case LocationStage => assert TopLocations(t).Skipped?;
      case SearchStage => assert Search(t, w).Skipped?;
    }
    assert Outcome(t, w, SliderStage) == Some(KeyError([Cost]));
    FirstRaiseEndsRun(t, w, SliderStage, KeyError([Cost]));
  }

  /** A header-only CSV with `cuisine` and `name` but no `loc` stops at the
      search: the select box has no option, and searching for its `None`
      raises TypeError. */
  lemma HeaderOnlySearchRaises(w: Widgets)
    ensures RunScript(Table({Cuisine, Name}, []), w) == Aborted(SearchStage, TypeError)
  {
    var t := Table({Cuisine, Name}, []);
    HeaderOnlyPassesBeforeSearch(t, w);
    HeaderOnlySearchOutcome(t, w);
    FirstRaiseEndsRun(t, w, SearchStage, TypeError);
  }

  lemma HeaderOnlyPassesBeforeSearch(t: Table, w: Widgets)
    requires t == Table({Cuisine, Name}, [])
    ensures forall x :: Order(x) < Order(SearchStage) ==> Outcome(t, w, x).None?
  {
    forall x | Order(x) < Order(SearchStage) ensures Outcome(t, w, x).None? {
      match x
      case PreviewStage => NoLinkNoPreviewRaise(t, w);
      case RestTypeStage => NoCostNoRestTypeRaise(t, w);
      case LocationStage => NoLocNoLocationRaise(t, w);
    }
  }

  lemma NoLinkNoPreviewRaise(t: Table, w: Widgets)
    requires Link !in t.columns
    ensures Outcome(t, w, PreviewStage).None?
  {
  }

  lemma NoCostNoRestTypeRaise(t: Table, w: Widgets)
    requires Cost !in t.columns
    ensures Outcome(t, w, RestTypeStage).None?
  {
  }

  lemma NoLocNoLocationRaise(t: Table, w: Widgets)
    requires Loc !in t.columns
    ensures Outcome(t, w, LocationStage).None?
  {
  }

  lemma HeaderOnlySearchOutcome(t: Table, w: Widgets)
    requires t == Table({Cuisine, Name}, [])
    ensures Outcome(t, w, SearchStage) == Some(TypeError)
  {
    NoOptionsTypeError(t, w.pick);
  }

  /** With a `link` column but without one of rest_name, loc, dine_rating
      and Cost (RS), the preview raises and nothing after it is drawn. */
  lemma PreviewKeyErrorStopsRun(t: Table, w: Widgets)
    requires Link in t.columns
    requires exists c :: c in [RestName, Loc, DineRating, Cost] && c !in t.columns
    ensures RunScript(t, w) == Aborted(PreviewStage, KeyError(Missing(t, [RestName, Loc, DineRating, Cost])))
    ensures !HeatmapDrawn(t, w)
  {
  }

  /** The cuisine frequency chart is drawn only in a completed run, so a
      table without `Cost (RS)` never shows it. */
  lemma NoCostNoFrequencyChart(t: Table, w: Widgets)
    requires Cost !in t.columns
    ensures !RunScript(t, w).Completed?
  {
  }
}
