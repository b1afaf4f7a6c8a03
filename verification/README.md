# evlcharts glue, modelled in Dafny

evlcharts estimates, county by county, how the race, ethnicity and income
make-up of census tracts relates to eviction-filing rates. It then ranks the
counties and draws impact charts. The statistics run in external libraries:
xgboost, sklearn and the impact-chart ensemble. This project models the
deterministic glue around them, which works on lists of strings and table rows:

- **Feature choice** (`variables.py`). `x_cols` puts the income column
  (`B25119_003E_2018`) first. It then lists `frac_<c>` for every column `c`
  of the chosen census group, except that group's total. The group is
  tenure (`B25003`) for renters and race/origin (`B03002`) for the whole
  population. `cofips_name` splits a county code into its state part and
  its county part.
- **County files** (`select.py`). For each requested code, the tracts of
  that county whose renter median income is present and at most $250,000.
  Each goes to `<fips>.csv`.
- **Usable counties** (`filterfips.py`). The requested codes with at least
  `threshold` tracts (default 10) whose target is present, in request order.
  They are printed joined by spaces.
- **Score ranking** (`topscore.py`). One `{FIPS, SCORE}` record per
  parameter file, sorted by score, best first.
- **Bucket aggregation** (`rankbuckets.py`):
  - `load_county` tags each row with the file's stem and its decile number.
  - `main` concatenates the county tables.
  - `large_impact` computes each county's max−min gap per feature. It keeps
    the ten largest gaps over 5.0 per feature and prints their counties,
    sorted and without repeats.
  - `large_impact` then runs a debug block. That block raises `KeyError`
    when the table lacks one of three fixed columns, and `main` then never
    writes the combined table. With the whole-population features this
    always happens.
- **Site grouping** (`rendersite.py`). Counties are ranked by score and the
  optional limit is applied. Each census name is split into COUNTY and
  STATE, the rows are sorted by (STATE, COUNTY), and the entries are grouped
  by state.
- **Chart text and frames** (`plot.py`):
  - the plot id string and the dollar tick labels;
  - the frame with every feature but one zeroed;
  - the axis format and file name of each chart;
  - `dropna` and the `X`/`y` selection;
  - the bucketed-impact table.

Each module sits in its own file and is named after the script it models:
`Variables`, `Select`, `FilterFips`, `TopScore`, `RankBuckets`, `RenderSite`
and `Plot`. They rest on shared modules:

- `Wrappers`: Option and Result. An error is a pandas or YAML `KeyError`.
- `Tables`: tract rows whose numeric cells are `Option<real>`, with `None`
  for NaN.
- `Seqs`: filtering and subsequences.
- `Strings`: Python's `split`, `join`, `strip`, `replace`, `startswith` and
  `str` ordering.
- `Numbers`: the `{n:,.0f}`, `{n}` and `{n:08X}` formats, with parsers that
  read them back.
- `Sorting`: a descending sort by score, a sort by (state, county) pair, and
  `sorted(set(...))`.

Loops that build a list step by step in the source are methods with loop
invariants, proved against a specification function:
- the loops of `select.py`, `filterfips.py` and `topscore.py`;
- the `top_n_by_state` loop of `rendersite.py`.

Pure expressions are functions.

Two facts about the code shape the contracts:
- `sort_values(by="SCORE", ascending=False)` has no tie-break among equal
  scores. `TopScore.TopScores` and `RenderSite.SiteRows` therefore promise
  a sorted permutation and no particular order among ties.
- `x_cols` does not deduplicate. `Variables.XColsDistinct` shows that the
  list has no repeats when the table's columns have none.

## Model

| member | source | states |
|---|---|---|
| Variables.XCols | evlcharts/variables.py:64-84 | The feature list has the 2018-dollar income column first, in both branches. It has one more entry than there are qualifying columns, so it is never empty. |
| Variables.XColsFractions | evlcharts/variables.py:66-82 | Every entry after the first is `frac_` + a column of the table that qualifies. With renters the column starts with B25003 and is not B25003_003E. Otherwise it starts with B03002 and is not B03002_001E. |
| Variables.XColsComplete | evlcharts/variables.py:69-82 | Every qualifying column of the table contributes its `frac_` entry. |
| Variables.XColsOrder | evlcharts/variables.py:69-82 | With `frac_` removed, the entries after the first are exactly the qualifying columns, in the table's column order. |
| Variables.XColsDistinct | evlcharts/variables.py:64-84 | The feature list has no duplicates when the table's columns have none. |
| Variables.BranchesNeverMix | evlcharts/variables.py:8-14 | Neither of the prefixes B25003 and B03002 is a prefix of the other, so no column qualifies in both branches. |
| Variables.FeatureSetsDisjoint | evlcharts/variables.py:64-84 | Renter fractions and whole-population fractions never share an entry. |
| Variables.RaceSpecificRenterGroupsQualify | evlcharts/variables.py:69-73 | The match is a plain prefix test, so `B25003A_003E` qualifies in the renter branch. `B25003_003E` and `B03002_003E` are left out. |
| Variables.SplitFips | evlcharts/variables.py:87-89 | `fips[:2] + fips[2:] == fips`. The state part has two characters when the code has at least two, and a five-character code leaves a three-character county part. |
| Variables.FeatureKeyForms | evlcharts/variables.py:40-61 | Every labelled feature is either the income column or a `frac_` column. |
| Select.SelectCounties | evlcharts/select.py:50-64 | Writes one file per requested code, in order, named `<fips>.csv`, even when no row matches. Each file holds `CountyRows`. With STATE and COUNTY always present in the model's table, the result is an error exactly when a code is requested and the income column is absent. |
| Select.CountyRowsExact | evlcharts/select.py:51-61 | A row is kept iff it is in the table, its STATE is `fips[:2]` and its COUNTY is `fips[2:]`, and its income is present and at most 250,000. |
| Select.CountyRowsOrder | evlcharts/select.py:57-61 | Kept rows are a subsequence of the table, in input order. A kept row keeps every copy of itself. |
| Select.TopCodedIncomeExcluded | evlcharts/select.py:54-61 | A row carrying the top-code 250,001 never reaches an output file. |
| FilterFips.GoodFips | evlcharts/filterfips.py:56-71 | The loop returns exactly the requested codes that pass the threshold test, in order. With STATE and COUNTY always present in the model's table, it fails exactly when a code is requested and the target column is absent. |
| FilterFips.GoodFipsExact | evlcharts/filterfips.py:58-71 | A code is kept iff it is requested and its count of in-county rows with a target is at least the threshold. The result is a subsequence of the request. A code requested twice is kept twice. |
| FilterFips.FewerThanDefaultDropped | evlcharts/filterfips.py:31 | At the default threshold of 10, a county with fewer than ten rows that have a target is dropped. |
| FilterFips.ThresholdMonotone | evlcharts/filterfips.py:68-71 | Raising the threshold only removes codes: the result for a higher threshold is a subsequence of the result for a lower one. |
| FilterFips.MissingTargetsNotCounted | evlcharts/filterfips.py:62-66 | Adding rows whose target is missing changes no county's count and no result. |
| FilterFips.PrintedLineLists | evlcharts/filterfips.py:73 | Splitting the printed line at spaces gives back the kept codes, when at least one was kept and none contains a space. |
| TopScore.ReadRecord | evlcharts/topscore.py:50-53 | A record is read iff `fips` and `xgb.score` are present. Its FIPS is `result["fips"]` and its SCORE is `result["xgb"]["score"]`. |
| TopScore.CollectRecordsSpec | evlcharts/topscore.py:41-53 | Collection succeeds iff every file has both keys, and then holds one record per file, in argument order. Otherwise the error is that of the first file that lacks a key. |
| TopScore.CollectFailurePersists | evlcharts/topscore.py:43-53 | Once a file lacks a key, later files cannot change the outcome. |
| TopScore.TopScores | evlcharts/topscore.py:41-59 | The output is a permutation of the collected records, sorted by SCORE, non-increasing. A missing key is an error before anything is written. No files at all leaves no SCORE column to sort by. The `--fips` argument is not an input. |
| RankBuckets.StemOfCsv | evlcharts/rankbuckets.py:12 | The stem of `<dir>/<county>.csv` is the county, whatever the directory. |
| RankBuckets.LoadCounty | evlcharts/rankbuckets.py:11-26 | The table has one row per file row. Row `i` has COUNTY = the file's stem, DECILE = `i` and the file's values. |
| RankBuckets.LoadCountyColumns | evlcharts/rankbuckets.py:23-24 | The columns become COUNTY, DECILE, then every column of the file in its original order, none dropped. |
| RankBuckets.FeatureListFree | evlcharts/rankbuckets.py:19-23 | No feature name is COUNTY, DECILE or `index`, so files written from the feature list meet `LoadCounty`'s precondition. |
| RankBuckets.Concat | evlcharts/rankbuckets.py:68 | The combined table has the files' feature columns, and its row count is the sum of the files' row counts. When every file has one value per column in each row, so does the combined table. |
| RankBuckets.ConcatPlacement | evlcharts/rankbuckets.py:68 | Row `k` of file `i` sits at the sum of the earlier files' row counts plus `k`, tagged with that file's stem and decile `k`. |
| RankBuckets.Max | evlcharts/rankbuckets.py:32 | The group maximum is one of the values and bounds them all from above. |
| RankBuckets.Min | evlcharts/rankbuckets.py:33 | The group minimum is one of the values and bounds them all from below. |
| RankBuckets.CountyValues | evlcharts/rankbuckets.py:32-33 | The group of a county for a feature holds exactly that feature's values in the county's rows. |
| RankBuckets.GapSpread | evlcharts/rankbuckets.py:32-34 | The gap is never negative, and it bounds the difference of any two of the county's values for the feature. |
| RankBuckets.Counties | evlcharts/rankbuckets.py:32 | The group keys are the table's counties, strictly increasing. |
| RankBuckets.Top | evlcharts/rankbuckets.py:37 | `nlargest(10, ...)` takes the first ten counties of the ranking, or all of them when there are fewer than ten. |
| RankBuckets.RankedMembers | evlcharts/rankbuckets.py:37 | The ranking holds exactly the counties whose gap exceeds 5.0. |
| RankBuckets.TopMember | evlcharts/rankbuckets.py:37 | Every county taken for a feature has a gap over 5.0. |
| RankBuckets.TopDominates | evlcharts/rankbuckets.py:37 | A county over 5.0 that is not taken has a gap no larger than any taken county's. |
| RankBuckets.TopComplete | evlcharts/rankbuckets.py:37 | With at most ten counties over 5.0, all of them are taken. |
| RankBuckets.Tops | evlcharts/rankbuckets.py:36-38 | Entry `j` is the top-county list of feature `j`, one per feature, in feature order. |
| RankBuckets.LargeFips | evlcharts/rankbuckets.py:40 | `large_fips` is strictly increasing, so sorted and without repeats. |
| RankBuckets.LargeImpact | evlcharts/rankbuckets.py:29-53 | The list `large_fips` is always printed. Afterwards the debug block raises `KeyError` exactly when one of its three fixed columns is missing. The error names the first missing one in lookup order. |
| RankBuckets.PopulationFeaturesRaise | evlcharts/rankbuckets.py:44-53 | With the whole-population feature list, the list is printed and then the debug block always raises, on `frac_B25003A_003E`. |
| RankBuckets.LargeImpactListed | evlcharts/rankbuckets.py:36-40 | Every county taken for some feature is in `large_fips`. |
| RankBuckets.LargeImpactSource | evlcharts/rankbuckets.py:36-40 | Every county in `large_fips` was taken for some feature, and its gap there exceeds 5.0. |
| RankBuckets.LargeImpactBound | evlcharts/rankbuckets.py:36-40 | Each feature contributes at most ten counties, so `large_fips` has at most ten per feature. |
| RankBuckets.Main | evlcharts/rankbuckets.py:68-73 | `main` prints `large_fips` of the combined table. It writes the combined table exactly when `large_impact` raises nothing, and otherwise stops with that error. |
| RankBuckets.PopulationRunWritesNothing | evlcharts/rankbuckets.py:68-73 | With whole-population feature files the county list is printed but the combined table is never written. |
| RenderSite.Limit | evlcharts/rendersite.py:52-53 | `iloc[:limit]` keeps a prefix of the ranked rows. With no limit it keeps all of them. A positive limit is clipped at the end. A negative limit counts from the end. |
| RenderSite.LimitKeepsBest | evlcharts/rendersite.py:48-53 | The rows the limit keeps each score at least as high as every row it drops. |
| RenderSite.CountyPart | evlcharts/rendersite.py:60-62 | COUNTY is the stripped text before the first comma. |
| RenderSite.StatePart | evlcharts/rendersite.py:57-59 | STATE is the stripped text after the last comma, whose position `p` is given. |
| RenderSite.NoComma | evlcharts/rendersite.py:57-62 | A name without a comma gives STATE = COUNTY = the whole name, stripped. |
| RenderSite.Named | evlcharts/rendersite.py:55-62 | A named row keeps FIPS and SCORE and carries the STATE and COUNTY of the looked-up name. |
| RenderSite.EntryOf | evlcharts/rendersite.py:69-75 | An entry's name is the row's COUNTY and its image is `./images/impact_charts/` + FIPS. |
| RenderSite.SiteRows | evlcharts/rendersite.py:48-64 | The rows handed to the grouping loop are sorted by (STATE, COUNTY). They are a permutation of the records that the score sort and the limit keep, each named by the census lookup. |
| RenderSite.GroupByState | evlcharts/rendersite.py:66-75 | The loop builds keys exactly in first-appearance order, and each state's list is exactly `StateEntries`: that state's rows' entries, in row order. |
| RenderSite.StatesOfSpec | evlcharts/rendersite.py:66-75 | A state is a key iff some row has it, and no key repeats. |
| RenderSite.StateEntriesSource | evlcharts/rendersite.py:68-75 | Every entry of a state's list comes from a row of that state. |
| RenderSite.StateEntriesHas | evlcharts/rendersite.py:68-75 | Every row's entry is in its own state's list. |
| RenderSite.GroupsCoverRows | evlcharts/rendersite.py:66-75 | Each row lands in exactly one group, so the groups hold as many entries as there are rows. |
| RenderSite.StateEntriesSorted | evlcharts/rendersite.py:64-75 | After the sort by (STATE, COUNTY), each state's list is in non-decreasing county order. |
| RenderSite.RenderSite | evlcharts/rendersite.py:48-75 | The template data are the keys and lists that `GroupByState` builds from `SiteRows`. |
| RenderSite.RenderSiteSpec | evlcharts/rendersite.py:48-75 | The groups hold as many entries as the limit kept, with every kept row under its own state. |
| Plot.PlotIdFields | evlcharts/plot.py:53-54 | The plot id splits at `;` into exactly these four fields: `(f = <feature>`, ` n = <grouped n>`, ` k = <k>`, ` s = <hex seed>)`. |
| Plot.PlotIdReadBack | evlcharts/plot.py:53-54 | n, k and the seed read back from their fields of the id. |
| Plot.PlotIdDefaults | evlcharts/plot.py:230-231 | With k = 50 and seed 0x3423CDF1, every id ends `; k = 50; s = 3423CDF1)`. |
| Numbers.GroupedValue | evlcharts/plot.py:54 | With its commas removed, `{n:,.0f}` reads back as n. |
| Numbers.GroupedShape | evlcharts/plot.py:54 | `{n:,.0f}` is groups of digits separated by commas: the first group has one to three digits and every later one exactly three. |
| Numbers.IntTextRoundTrip | evlcharts/plot.py:54 | `{k}` reads back as k. It is one or more decimal digits, preceded by a single minus sign exactly when k is negative; no other position holds a `-`. |
| Numbers.Hex08Spec | evlcharts/plot.py:54 | `{seed:08X}` has at least eight upper-case hexadecimal digits and reads back as the seed. |
| Plot.DollarLabelSpec | evlcharts/plot.py:84-86 | Every dollar label reads back as its amount. It starts with `(` exactly for negative amounts and never holds a minus sign. |
| Plot.OneFeature | evlcharts/plot.py:92-94 | The zeroed frame has X's columns and X's number of rows. |
| Plot.OneFeatureSpec | evlcharts/plot.py:92-94 | In the zeroed frame, the chosen feature's column equals `X[feature]` and every other column is all 0.0. |
| Plot.ZeroedPrediction | evlcharts/plot.py:96-97 | The linear model's prediction on the zeroed frame is the intercept plus the chosen feature's own term. |
| Plot.ChartSpec | evlcharts/plot.py:122-136 | A feature gets the percent axis iff its name starts with `frac_`. The file name ends `.png` and has no space. A feature without a label raises `KeyError`. |
| Plot.ChartFileNameLabel | evlcharts/plot.py:133-136 | The file name is the label with spaces turned into dashes, plus `.png`. A label without dashes can be read back from it. |
| Plot.OnlyIncomeInDollars | evlcharts/plot.py:122-133 | Among labelled features, only the income column gets the dollar axis. |
| Plot.DropNa | evlcharts/plot.py:211 | `dropna(subset=...)` keeps the columns. It fails exactly when a listed column is absent from the table. |
| Plot.DropNaExact | evlcharts/plot.py:211 | A row survives iff it is in the table and has no missing listed cell. Survivors keep their order. |
| Plot.PrepareData | evlcharts/plot.py:208-228 | X has exactly the `x_cols` columns with one value per column in every row, and y has one value per row of X. The call fails exactly when some x column or the y column is absent. |
| Plot.PrepareDataRows | evlcharts/plot.py:211-228 | Row `i` of X and entry `i` of y are the cells of the `i`-th surviving row of the table. |
| Plot.BucketedTable | evlcharts/plot.py:254-262 | The bucketed table has exactly one column per x column, in `x_cols` order, named by its feature. |
| Plot.BucketedLookup | evlcharts/plot.py:254-262 | Looking a feature up gives that feature's bucketed impact. A name that is not a feature is not a column. |
| Strings.StripShape | evlcharts/rendersite.py:58 | `strip()` returns a slice of its input that neither starts nor ends with whitespace, with only whitespace cut off on either side. |
| Strings.SplitJoin | evlcharts/filterfips.py:73 | Joining parts that do not contain the separator, then splitting at it, gives the parts back. |
| Strings.ReplaceChar | evlcharts/plot.py:136 | `replace(' ', '-')` keeps the length, changes every space to a dash and touches nothing else. |
| Sorting.SortDesc | evlcharts/topscore.py:57 | The score sort returns a permutation of its input, ordered by score, non-increasing. |
| Sorting.SortByPair | evlcharts/rendersite.py:64 | The place sort returns a permutation of its input, ordered by (STATE, COUNTY). |
| Sorting.SortedDistinct | evlcharts/rankbuckets.py:40 | `sorted(list(... .unique()))` holds exactly the input's elements, strictly increasing. |

## Left out

- **Hyperparameter search, the linear fit and the impact-chart ensemble.**
  These are `optimize.py` and `XGBoostImpactModel.fit`,
  `impact_charts` and `bucketed_impact`. They run in xgboost, sklearn and a
  library whose source is not part of this model. The bucketed impact of a
  feature is an input function of `Plot.BucketedTable`.
- **Score helpers.** `xgb_score`, `linreg_score` and
  `_linreg_from_coefficients` are thin wrappers over library models.
  `Plot.Predict` stands only for the linear model's `predict`.
- **Plotting.** The matplotlib axes, text, `savefig` and the float x-limit
  scaling by 1.05 are not modelled. The model keeps only each chart's axis
  format and file name.
- **The `:.2f` formatting of r² in the site entries.** An entry keeps the
  score as a number.
- **The census download in `cofips_name`.** County names are an input
  function, `nameOf`. `maps.py`, `checksite.py` and `countynames.py` are not
  part of this model.
- **I/O.** CSV and YAML reading and writing, argparse, logging, directory
  creation and the `print` output are not modelled. `FilterFips.PrintedLine`
  and the `printed` list of `RankBuckets.LargeImpact` stand for what is
  printed. The table printouts of the debug block are not modelled; only the
  `KeyError` they raise is.
- Plot.DollarLabelSpec: states the label of whole-dollar `int` amounts.
  The rounding of a float tick value by `{d:,.0f}` is not modelled.
- Numbers.Hex08Spec: Hex08 takes a natural number. The sign that `{seed:08X}`
  writes for a negative seed is not modelled; the seed of `main` is
  positive.
- Numbers.GroupedValue: Grouped models `{n:,.0f}` on a whole, non-negative `n`,
  which is what a row count is.
- TopScore.TopScores: The sort is stated as "sorted and a permutation".
  The order pandas gives tied scores is not modelled.
- RenderSite.SiteRows: The sort is stated as "sorted and a permutation".
  The order pandas gives tied scores is not modelled.
- RankBuckets.Top: The order of counties with equal gaps is not
  modelled: the ranking is any sort of the counties over 5.0 by gap,
  largest first. `nlargest(keep="first")` keeps the first-seen county among
  ties.
- Sorting.SortDesc: returns a new sequence. The in-place
  `sort_values(..., inplace=True)` of `topscore.py` is modelled on values.
- Sorting.SortByPair: returns a new sequence. The in-place
  `sort_values(..., inplace=True)` of `rendersite.py` is modelled on values.
- RankBuckets.LoadCounty: it requires that the file has no column named
  COUNTY, DECILE or `index`. pandas would duplicate or overwrite such a
  column. `RankBuckets.FeatureListFree` shows that the files written from
  the feature list never have one.
- RankBuckets.Concat: it requires every file to have the same columns
  and at least one file. The command line demands one, and `pd.concat` of
  zero tables raises. The union of differing headers, with NaN filling, is
  not modelled, and neither is the row index that `pd.concat` carries over
  from each file.
- RankBuckets.LargeImpact: it takes a rectangular table: every row has a
  value for every feature. `RankBuckets.Concat` shows that the combined table is
  rectangular when every file is. The NaN handling of `groupby(...).max()` is not
  modelled.
- RankBuckets.Main: it requires that every file has one value per header
  column in each row, which `pd.read_csv` guarantees. It also carries the
  requirements of `RankBuckets.Concat`.
- RankBuckets.StemOfCsv: it states the stem only for a `<county>.csv`
  file name.
- RankBuckets.Stem: it applies `pathlib`'s suffix rule to the text after the
  last `/`. It does not normalise the end of the path as `pathlib` does: a
  path ending in `/`, `/.` or `//` gives a different stem than
  `Path(...).stem`. A `.` component or a doubled `/` inside the path does
  not change the stem.
- Select.SelectCounties: the tract table always has STATE and COUNTY
  columns, so the `KeyError` that selecting an absent STATE or COUNTY
  column raises is not modelled.
- FilterFips.GoodFips: the tract table always has STATE and COUNTY
  columns, so the `KeyError` that selecting an absent STATE or COUNTY
  column raises is not modelled.
- RenderSite.StatePart: it takes the position of the last comma as an
  argument rather than computing it.
- Plot.DropNa: it covers only `dropna` over the listed subset; the rest
  of the row is not inspected, as in the source.
- Plot.OneFeature: it works on a frame whose cells are all present. X
  has passed `dropna` by then.
- **The linear-model overlay.** Its end points, `nsmallest(1)` and
  `nlargest(1)` of the zeroed frame, are not modelled; only its
  prediction (`Plot.ZeroedPrediction`) is.
- **Numeric columns.** They are modelled as `real`, without floating-point
  rounding, comparison of NaN, or 64-bit integer limits.
