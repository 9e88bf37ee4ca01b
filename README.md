# Zomato restaurant dashboard — a Dafny model

`streamlit_app.py` is a single-script Streamlit dashboard for a
Zomato-style CSV of restaurants in Pune. On every rerun the script decides
where its table comes from: an uploaded file, the bundled sample, or
nothing, in which case it stops. Then it draws a series of sections. Most
of them run only when the columns they need are present.

This project models the data logic behind those sections:

- which source is used, and how the "use sample" flag survives reruns
  (`DataSource`, with a `Session` class holding the flag);
- the data preview with its "View Menu" links (`Lookups`);
- the "Basic Information" metrics (`Metrics`);
- the comma-separated `cuisine` and `rest_type` fields:
  - the cuisine option list;
  - the cuisine frequency chart;
  - the average cost per restaurant type;
  - the top locations (`MultiValue`);
- the cost/rating range filter and its default slider bounds, the
  case-insensitive cuisine search, and the rows that feed the correlation
  heatmap (`Filters`);
- the fixed tables for zoom sizes and "foodie vibe" tips (`Lookups`);
- one whole run of the script, in which the first exception ends the page
  (`Dashboard`).

A table is a set of present columns plus a sequence of rows. Every cell is
optional, and `None` stands for a missing value (NaN). The pandas
operations the script chains become functions on sequences:

- `dropna` becomes `Cells.Present`;
- `str.split`, `str.strip` and `str.lower` become `Text.Split`,
  `Text.Strip` and `Text.Lower`;
- `explode` becomes `Seqs.Flatten`;
- `unique` becomes `Seqs.Distinct`;
- a boolean mask becomes `Seqs.Filter`;
- `sort_values(ascending=False).head(k)` becomes `Ranking.TopK`;
- `value_counts().head(k)` becomes `MultiValue.TopCounts`;
- `groupby().mean()` becomes `MultiValue.GroupMeans`.

The script only guards some sections with a check that their column
exists. Where it reads a column without that check, pandas raises. The
model returns that error: `KeyError` naming the absent columns,
`ValueError` for `int()` of NaN or `idxmax()` of an empty series, and
`IndexError` for the first label of an empty series, and `TypeError` for a
substring search for the `None` that an empty select box returns. Each
section function describes the section once it is reached. `Dashboard.RunScript`
runs them in source order and stops at the first error, as the script
does.

Files: `cells.dfy`, `tables.dfy`, `seqs.dfy`, `text.dfy`, `ranking.dfy`,
`metrics.dfy`, `multivalue.dfy`, `filters.dfy`, `lookups.dfy`,
`source.dfy`, `dashboard.dfy`.

## Model

| member | source | states |
|---|---|---|
| DataSource.Choose | streamlit_app.py:29-41 | An upload wins and shows the uploaded table. Otherwise the button loads the sample. Otherwise a remembered flag reloads the sample silently. The script stops exactly when there is no file, no button press and no flag. |
| DataSource.NextUseSample | streamlit_app.py:29-38 | An upload clears the flag, the sample button sets it, and a rerun with neither leaves it unchanged. |
| DataSource.Session.constructor | streamlit_app.py:22-23 | A new session starts with the flag off. |
| DataSource.Session.Rerun | streamlit_app.py:29-41 | One rerun returns the branch `Choose` selects and leaves the flag at `NextUseSample` of the old flag. |
| DataSource.FlagAfterLastDecisive | streamlit_app.py:22-38 | After any sequence of reruns from a fresh session, the sample is in use exactly when the last rerun that had a file or a button press had the press and no file. |
| DataSource.NoButtonNoSample | streamlit_app.py:22-41 | A session that never pressed the button stops on every rerun without a file. |
| Lookups.ZoomSizesGrow | streamlit_app.py:12-19 | The default zoom is "Small" with size (5, 3). Every zoom level has a size. Every figure is wider than tall. Each later option is strictly larger in both dimensions. |
| Lookups.TipBanner | streamlit_app.py:230 | The banner contains the vibe's label and its tip. |
| Lookups.MenuLink | streamlit_app.py:49-51 | A missing link gives "N/A". A present link gives a URL ending in "/menu" whose base is the link minus every trailing '/': the base is a prefix of the link, does not end in '/', and is followed in the link only by '/' characters. |
| Lookups.MenuLinkIgnoresTrailingSlashes | streamlit_app.py:50 | Appending any number of '/' to a link does not change its menu URL. |
| Lookups.DataPreview | streamlit_app.py:47-54 | The preview holds the first ten rows. Without `link` they are shown as they are. With `link`, every row gets the menu cell of its own link, and the selection of rest_name, loc, dine_rating and Cost (RS) fails with a KeyError naming the absent ones. |
| Lookups.PreviewMenuAvailable | streamlit_app.py:49-51 | A preview row shows "N/A" exactly when its link is missing. |
| Metrics.NUnique | streamlit_app.py:76-78 | `nunique` is the number of distinct present values. It is at most the number of rows, and it is 0 exactly when every cell is missing. |
| Metrics.MaxCostMetric | streamlit_app.py:79 | The metric is "N/A" exactly when the cost column is absent, and NaN exactly when every cost is missing. Otherwise it is a cost that occurs and that no other cost exceeds. |
| Metrics.Basics | streamlit_app.py:75-79 | Total is the row count. The unique locations and cuisines are the distinct present values when the column exists and 0 otherwise, and neither exceeds the row count. Max cost is as above. |
| Cells.Present | streamlit_app.py:121 | `dropna` keeps exactly the present values, each as often as it occurs. |
| Text.Lower | streamlit_app.py:180 | Lower-casing keeps the length and leaves no letter A-Z. Each upper-case letter becomes the lower-case letter at the same place in the alphabet, and every other character is unchanged. |
| Text.LowerIdempotent | streamlit_app.py:180 | Lower-casing twice equals lower-casing once. |
| Text.Strip | streamlit_app.py:124 | `strip` returns a contiguous piece of the input. Only whitespace lies outside it, and it neither starts nor ends with whitespace. |
| Text.StripIdempotent | streamlit_app.py:124 | Stripping twice equals stripping once. |
| Text.Split | streamlit_app.py:122 | `split(",")` gives at least one piece. No piece contains the separator, and every character of a piece comes from the input. |
| Text.JoinSplit | streamlit_app.py:122 | Joining the pieces of a split with the separator gives back the input. |
| Text.SplitJoin | streamlit_app.py:122 | Splitting a join of separator-free pieces gives back the pieces. |
| Text.Contains | streamlit_app.py:150 | Substring search holds exactly when the needle starts at some position of the haystack. |
| Text.SplitPieceContained | streamlit_app.py:148 | Every piece of a split, stripped or not, occurs in the input. |
| Text.TrimTrailing | streamlit_app.py:50 | `rstrip(c)` returns a prefix of the input that does not end in `c`, and only `c` characters were removed. |
| Text.LexLessTotal | streamlit_app.py:149 | The string order behind `sorted` is total on distinct strings. |
| Text.LexLessTransitive | streamlit_app.py:149 | The string order behind `sorted` is transitive. |
| Seqs.Filter | streamlit_app.py:158-159 | A boolean mask keeps exactly the elements that satisfy it, each as often as before, in their original order. |
| Seqs.Distinct | streamlit_app.py:148 | `unique` has the same members as its input, with no repeats. |
| Seqs.FlattenMember | streamlit_app.py:123 | A value is in the exploded column exactly when it is in the list of some row. |
| Seqs.FlattenCount | streamlit_app.py:180-182 | Exploding keeps every occurrence: a value's count after `explode` is its total count over the rows. |
| Ranking.SortDesc | streamlit_app.py:151 | The descending sort is a permutation, non-increasing by key, with missing keys last. |
| Ranking.TopK | streamlit_app.py:151 | `head(k)` of the descending sort keeps min(k, n) elements of the input, in non-increasing order. Every element left out ranks at or below every element kept. |
| Tables.Project | streamlit_app.py:152 | Selecting columns succeeds exactly when all of them are present. Otherwise it fails with a KeyError naming exactly the absent ones. |
| MultiValue.StrippedPieceContained | streamlit_app.py:148 | Every stripped comma piece of a cell occurs in that cell. |
| MultiValue.Tally | streamlit_app.py:182 | Before sorting, `value_counts` pairs each distinct value once with its exact count. |
| MultiValue.TopCounts | streamlit_app.py:136 | `value_counts().head(k)` holds min(k, #distinct) distinct values with their exact counts, in non-increasing order of count. No value left out occurs more often than one kept. |
| MultiValue.CuisineFrequency | streamlit_app.py:178-196 | The frequency section is skipped exactly when `cuisine` is absent and never fails. A shown chart has at most 15 entries and is empty exactly when no cleaned piece is left, which is the "no cuisine data" branch. |
| MultiValue.CuisineFrequencySpec | streamlit_app.py:179-182 | The frequency chart holds at most 15 distinct non-empty, lower-case, stripped pieces of present cuisine cells. Each comes with its total number of occurrences over all rows, in non-increasing order, and no piece left off the chart occurs more often. |
| MultiValue.TopCuisineMostFrequent | streamlit_app.py:189-190 | The first entry of the frequency chart, the displayed top cuisine, occurs at least as often as any cleaned piece. |
| MultiValue.OptionsEmptyIff | streamlit_app.py:147-149 | The option list is empty exactly when every cuisine cell is missing, because a present cell, even an empty one, gives at least one piece. |
| MultiValue.CuisineOptions | streamlit_app.py:148-149 | The option list is strictly ascending. A string is in it exactly when it is a stripped comma piece of some present cuisine cell, with case kept and empty pieces included. |
| MultiValue.SortStrings | streamlit_app.py:149 | `sorted` of distinct strings returns the same strings in strictly ascending order. |
| MultiValue.TypeCostPairOrigin | streamlit_app.py:121-124 | Every exploded (type, cost) pair comes from a row where both cells are present. Its type is a stripped piece of that row's type cell and its cost is that row's cost. |
| MultiValue.MeanBetween | streamlit_app.py:125 | A group's mean lies between the smallest and the largest value in it. |
| MultiValue.GroupMeans | streamlit_app.py:125 | `groupby().mean()` has one entry per distinct type. It lists each type once, paired with the sum of its costs divided by their count, and it covers every type of the pairs. |
| MultiValue.RestTypeAvgCost | streamlit_app.py:119-130 | The cost-by-type section is skipped exactly when `Cost (RS)` or `rest_type` is absent. Its only failure is the ValueError of `idxmax()`, and a shown chart has 1 to 10 entries. |
| MultiValue.RestTypeAvgCostRanked | streamlit_app.py:119-130 | A shown cost-by-type chart needs both columns. It lists exactly min(10, number of distinct exploded types) distinct types, at least one, in non-increasing order of mean cost. |
| MultiValue.RestTypeAvgCostFails | streamlit_app.py:121-130 | With both columns present, the chart fails with ValueError exactly when no row has both its type and its cost present. |
| MultiValue.TypeCostPairOfRow | streamlit_app.py:121-124 | Every stripped piece of the type cell of a row with both cells present is exploded into a pair with that row's cost. |
| MultiValue.TypeCostTotals | streamlit_app.py:121-125 | For every type, the number of exploded pairs is the sum over rows with both cells present of how often the type occurs among the row's stripped pieces. The cost total adds each such row's cost that many times. |
| MultiValue.RepeatedTypeCountsTwice | streamlit_app.py:121-125 | "A, A" at 100 and "A" at 400 give the chart [("A", 200)]: a type repeated in one cell counts once per repetition. |
| MultiValue.RestTypeAvgCostEntry | streamlit_app.py:121-125 | Each listed type is a stripped piece of the type cell of a row with a present cost. Its value is the mean over every exploded pair of that type. Equivalently, it is the cost total over the rows divided by the type's count over the rows, both counting each repetition within a cell. |
| MultiValue.RestTypeMeanBetween | streamlit_app.py:125 | A listed mean lies between the smallest and the largest cost paired with its type. |
| MultiValue.RestTypeAvgCostTop | streamlit_app.py:125 | No type left off the chart has a higher mean cost than a listed one. |
| MultiValue.TopLocations | streamlit_app.py:134-141 | The location section is skipped exactly when `loc` is absent. Its only failure is the IndexError of line 141, and a shown chart has 1 to 10 entries. |
| MultiValue.TopLocationsFails | streamlit_app.py:134-141 | With a `loc` column, the location chart fails with IndexError exactly when every location is missing. |
| MultiValue.TopLocationsSpec | streamlit_app.py:134-136 | A shown location chart lists min(10, #distinct locations) distinct locations in non-increasing order of count. |
| MultiValue.TopLocationsCounts | streamlit_app.py:136 | Each listed location is paired with its number of rows. |
| MultiValue.TopLocationFirst | streamlit_app.py:141 | No location has more rows than the first entry, the displayed top location. |
| Filters.Trunc | streamlit_app.py:155 | `int()` truncates toward zero. |
| Filters.SliderBounds | streamlit_app.py:155 | Without the cost column the bounds fail with KeyError. With the column and every cost missing they fail with ValueError. Otherwise they are the truncations of the smallest and the largest present cost, and the lower bound is at most the upper one. |
| Filters.SliderBoundsOf | streamlit_app.py:155 | Any smallest and largest present cost determine the bounds. |
| Filters.RangeFilter | streamlit_app.py:158-159 | The filter raises KeyError without the cost or the rating column. Otherwise it keeps exactly the rows whose cost is present and within the cost range and whose rating, 0 when missing, is within the rating range. Both ranges are inclusive, rows keep their multiplicity, and table order is kept. |
| Filters.FilteredView | streamlit_app.py:158-161 | Nothing is written when the mask raises. Otherwise the count written is the number of kept rows. The table of the first ten kept rows follows exactly when rest_name, loc, dine_rating and Cost (RS) all exist. If not, a KeyError naming the absent ones comes after the count. |
| Filters.MissingCostNeverKept | streamlit_app.py:158 | A row with a missing cost is never kept, whatever the ranges. |
| Filters.MissingRatingCountsAsZero | streamlit_app.py:159 | A row with a missing rating is kept exactly when its cost is in range and 0 lies in the rating range. |
| Filters.DefaultRangeKeepsAll | streamlit_app.py:155-159 | At the default slider positions every row is kept when every cost is a present whole number and every rating is missing or within [0, 5]. |
| Filters.FractionalMaxCostBounds | streamlit_app.py:155 | Costs 100 and 250.5 give the slider bounds (100, 250). |
| Filters.FractionalMaxCostOutsideDefault | streamlit_app.py:156-159 | With those bounds, the default filter drops the 250.5 listing: truncating the maximum cost excludes a fractional top cost. |
| Filters.SelectBox | streamlit_app.py:149 | The select box gives `None` exactly when there is no option. Otherwise it gives an option, the one picked when the pick is within the list. |
| Filters.CuisineSearch | streamlit_app.py:145-152 | The search section is skipped exactly when `cuisine` or `name` is absent. Searching for `None` raises TypeError, and sorting without `dine_rating` raises a KeyError for it. It is shown exactly when a selection exists and name, loc, dine_rating and Cost (RS) all exist. Otherwise, with `dine_rating` present, the KeyError names the absent columns. |
| Filters.NoOptionsTypeError | streamlit_app.py:147-150 | When every cuisine cell is missing from a text-typed `cuisine` column, the option list is empty and the search raises TypeError. |
| Filters.CuisineSearchSpec | streamlit_app.py:150-152 | A shown search result holds min(10, #matches) rows. Each is a row whose raw cuisine cell contains the selection, ignoring case. The rows are ordered by dine rating, descending with missing ratings last, and no match left out has a higher rating than a row shown. |
| Filters.SearchMatchesInsideWords | streamlit_app.py:150 | The match is a substring match on the raw cell, so "Chinese" matches "Indo-Chinese". |
| Filters.SelectedOptionFound | streamlit_app.py:148-151 | Every entry of the option list finds at least the row it came from, so a shown search for it is never empty. |
| Filters.CorrelationColumnsSpec | streamlit_app.py:164-165 | The correlation columns are exactly the candidates the table has, in the fixed candidate order. |
| Filters.CorrelationRows | streamlit_app.py:166 | A row is in the correlation frame exactly when it is a table row with every selected column present. |
| Filters.CorrelationRowsSpec | streamlit_app.py:166 | The correlation rows are exactly the rows with every selected column present, each as often as before, in table order. |
| Filters.HeatmapShownIff | streamlit_app.py:164-176 | Once the heatmap section is reached, the heatmap is drawn exactly when some candidate column exists and some row has all of them present. Otherwise the "not enough data" note is shown. |
| Dashboard.RunScript | streamlit_app.py:44-176 | A run completes exactly when no stage raises: the preview, the cost-by-type chart, the location chart, the cuisine search, the slider bounds and the filtered view. Otherwise it stops at a stage that raises, with that stage's exception, after every earlier stage passed. |
| Dashboard.RunFrom | streamlit_app.py:44-176 | From any stage on, the run completes exactly when no later stage raises, and otherwise stops at the first one that does. |
| Dashboard.FirstRaiseEndsRun | streamlit_app.py:44-176 | Conversely, a stage that raises after every earlier stage passed ends the run with its exception. |
| Dashboard.PreviewAbortIff | streamlit_app.py:47-52 | A run stops in the preview exactly when the preview raises. |
| Dashboard.CompletedColumns | streamlit_app.py:155-161 | A completed run had rest_name, loc, dine_rating and Cost (RS), and at least one present cost. |
| Dashboard.HeatmapReachedColumns | streamlit_app.py:155-165 | In a run that reaches the heatmap, `dine_rating` and `Cost (RS)` are always correlation columns. |
| Dashboard.HeatmapDrawnIff | streamlit_app.py:155-168 | Over a whole run, the heatmap is drawn exactly when the run gets past the filter section and some row has a dine rating, a cost, and a value in each of the delivery-rating and votes columns the table has. |
| Dashboard.VotesOnlyStopsAtSlider | streamlit_app.py:155 | A table with only `votes` stops at line 155 with a KeyError for `Cost (RS)` and never draws the heatmap. |
| Dashboard.HeaderOnlySearchRaises | streamlit_app.py:145-150 | A header-only CSV with `cuisine` and `name` stops at the search with TypeError. |
| Dashboard.PreviewKeyErrorStopsRun | streamlit_app.py:47-52 | With `link` but without one of rest_name, loc, dine_rating and Cost (RS), the run stops at the preview with a KeyError naming the absent ones, and the heatmap is never drawn. |
| Dashboard.NoCostNoFrequencyChart | streamlit_app.py:155-182 | A table without `Cost (RS)` never completes a run, so the cuisine frequency chart after line 178 is never drawn. |

## Left out

- Reading the CSV (`pd.read_csv`) and the file upload itself: the uploaded table and the bundled sample are parameters of `DataSource.Choose`.
- Rendering: page layout, headers, charts, HTML, markdown text and number formatting. The model stops at the values each section would show. `Lookups.DataPreview` yields menu URLs, not the anchor HTML.
- Pearson correlation, histograms, KDE curves and the `mean()` values printed in the rating boxes: these are floating-point numerics. The correlation model stops at the rows and columns passed to `corr()`.
- The random tip at the end (`random.choice`), which is randomness.
- The closing digest's `locals()` fallbacks. They depend on which earlier sections ran, and all the values they print are modelled where they are computed.
- The votes-versus-cost scatter plot, which is pure rendering.
- `MultiValue.TopCounts`, `Ranking.TopK`, `Filters.CuisineSearch`: tie order is not promised. Rows or values with equal keys may come out in any order, as pandas does not fix it either.
- `Filters.MatchesCuisine`: `str.contains` treats the selection as a regular expression. The model treats it as a literal substring, which is what happens for selections without regex metacharacters.
- `Text.Lower`: lower-cases ASCII letters only. Python's full Unicode case mapping is not modelled.
- `Filters.RangeFilter`: the ranges are parameters. The slider widget's own checks (for example, equal minimum and maximum) are not modelled.
- Column types are fixed by the row record. pandas infers them per file, so an all-missing text column read as floats would fail under `.str` with AttributeError, and that failure is not modelled. In particular `Filters.NoOptionsTypeError` holds for a text-typed `cuisine` column, such as that of a header-only file. When rows are present and every cuisine cell is empty, line 148 raises AttributeError before the search. Likewise the `.str.lower()` of line 180 can raise for such a column.
- `Filters.ShowsHeatmap`: the heatmap needs one present candidate column and one complete row. A correlation over a single row is all NaN, but the code still draws it, and the model follows the code.
- `MultiValue.CuisineOptions`: the user's selection is an index parameter of the run, passed through `Filters.SelectBox`.
- Costs, ratings and means are exact reals. The float64 rounding of `mean()` (line 125) and of the comparisons at lines 158-159 is not modelled, so `MultiValue.MeanBetween` and `MultiValue.RestTypeMeanBetween` hold for exact means and not necessarily for float64 ones.
- `Tables.Project`: a selection does not narrow the rows. Every record keeps all its cells and only the KeyError behaviour is modelled.
- `Filters.SelectBox`: the user's pick is an index parameter, and an index beyond the list gives the widget's default, the first option.
- `Dashboard.RunScript`: the basic metrics, rating histograms, heatmap, cuisine frequency chart, scatter plot and closing digest are taken not to raise. Exceptions from plotting libraries are not modelled.
- `DataSource.Session.Rerun`: Streamlit's rerun loop, and the persistence of the uploaded file between reruns, are outside the script. Each rerun's inputs are parameters.
