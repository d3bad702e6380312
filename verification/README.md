# Universal EDA Dashboard — analysis engine in Dafny

The Universal EDA Dashboard is a Streamlit page. It loads a CSV or Excel
file into a pandas data frame and shows an exploratory analysis of it. This
project models the analysis part of `Universal_EDA.py`, which has three
pieces:

- **Column classification.** `select_dtypes(include=np.number)` picks the
  numeric columns. `select_dtypes(include=['object', 'category'])` picks the
  categorical ones.
- **The summary.** `generate_summary` builds a dictionary with these
  entries:
  - the shape and the column names;
  - the dtypes;
  - the missing counts and missing percentages;
  - the number of duplicate rows;
  - the numeric summary;
  - the categorical summary: distinct count and top five values per
    object or category column.
- **The charts.** The page draws, in this order:
  1. the missing-value heatmap (line 137);
  2. a histogram per numeric column, then a bar chart per categorical
     column (line 153);
  3. the correlation heatmap (line 154);
  4. a scatter plot per pair of numeric columns (line 155).

Modules and files:

- `frame.dfy` (`Frame`): a data frame is a `Dataset` with a row count and
  an ordered list of `Column`s. Each column has a name, a dtype `Tag` and
  one `Cell` per row; a cell is a value or missing (`None`).
- `classify.dfy` (`Classify`): `SelectDtypes` returns the positions of the
  selected columns in frame order.
- `missing.dfy` (`Missing`): `isnull().sum()`, and `isnull().mean() * 100`
  with numpy's round-half-to-even `round(2)`.
- `duplicates.dfy` (`Duplicates`): `duplicated().sum()`. A row counts when
  its whole tuple equals the tuple of an earlier row, with a missing cell
  equal to a missing cell.
- `value_counts.dfy` (`ValueCounts`): `nunique()`, and
  `value_counts().head(5)` as a stable insertion sort by decreasing
  frequency.
- `summary.dfy`:
  - `Summary`: `GenerateSummary` is a method that fills each entry of the
    summary. Its categorical part is a loop over the object and category
    columns.
  - `SummaryFacts`: what a successful summary promises.
- `charts.dfy`:
  - `Charts`: the four plotting functions as methods returning `ChartSpec`
    descriptions instead of drawing. `plot_bivariate`'s nested loop is
    proved against `Pairs`, the pair enumeration. `PlanCharts` makes the
    four calls in the page's order. `ChartPlan(ds)` is
    `Layout(NumericNames(ds), CategoricalNames(ds))`.
  - `ChartFacts`: counting, order, completeness and distinctness of the
    plan.
- `dashboard.dfy` (`Dashboard`): lines 129–155. The summary comes first,
  then the charts. A failed summary stops the run before any chart.
- `scenarios.dfy` (`Scenarios`): small frames worked through the model.

Some behaviours of the code worth knowing, all kept by the model:

- **Chart order.** The correlation heatmap is drawn after the univariate
  charts, not before them (lines 137 and 153–155).
- **Frame without rows.** The missing percentage is the mean of an empty
  column, which is NaN; it is modelled as `None`.
- **Frame without numeric columns.** `describe()` is called on a frame
  without columns, which raises. `GenerateSummary` therefore fails exactly
  when there is no numeric column, and the page reports the error instead
  of drawing charts (line 157).
- **Duplicates.** With `age` = `25, 30, missing, 25` and `city` =
  `A, B, A, A`, row 3 repeats row 0, so `duplicated().sum()` is 1
  (`Scenarios.AgeCityDuplicates`).

## Model

| member | source | states |
|---|---|---|
| Frame.Names | Universal_EDA.py:11 | `df.columns.tolist()`: one name per column, the i-th being the i-th column's name. |
| Frame.Row | Universal_EDA.py:15 | The row tuple `duplicated()` compares: one cell per column, the c-th being column c's cell at that row. |
| Classify.SelectDtypes | Universal_EDA.py:16 | The positions returned are strictly increasing, so the selection is a subsequence in frame order. Each selected column's dtype is included, and every column with an included dtype is selected. |
| Classify.NumericSelection | Universal_EDA.py:16 | The numeric sub-frame lists the frame's columns at increasing positions. A column is in it if and only if it is in the frame and tagged `Numeric`. |
| Classify.CategoricalSelection | Universal_EDA.py:19 | The categorical selection lists the frame's columns at increasing positions. A column is in it if and only if it is in the frame and tagged `Object` or `Category`. |
| Classify.ClassificationDisjoint | Universal_EDA.py:16-19 | No position and no name is both numeric and categorical. A column of any other dtype is in neither selection. |
| Classify.SelectionsUnique | Universal_EDA.py:16-19 | Both selections of a well-formed frame have unique column names. |
| Missing.NullCount | Universal_EDA.py:13 | The missing count of a column is at most its length. It is 0 exactly when no cell is missing, and equals the length exactly when every cell is missing. |
| Missing.NonMissingCount | Universal_EDA.py:16 | The non-missing count (`describe()`'s `count`) is at most the length. It is 0 exactly when every cell is missing. |
| Missing.NullAndNonMissing | Universal_EDA.py:13-16 | The missing count plus the non-missing count equals the column length. |
| Missing.RoundHalfEven | Universal_EDA.py:14 | Rounds to an integer within one half of the input; at an exact tie the result is even. |
| Missing.Round2 | Universal_EDA.py:14 | `round(2)` gives a whole number of hundredths within half a hundredth of the input. |
| Missing.Share | Universal_EDA.py:14 | The exact share `s` satisfies `s * rows == count * 100`, and lies in [0, 100] when count ≤ rows. |
| Missing.Percentage | Universal_EDA.py:14 | `IsPercentage` holds: NaN exactly for zero rows; otherwise a whole number of hundredths in [0, 100], within half a hundredth of the exact share. |
| Missing.MissingPercentage | Universal_EDA.py:14 | A column's missing percentage is the `IsPercentage` of its missing count over its length. |
| Missing.PercentageExtremes | Universal_EDA.py:14 | The shown percentage is 0.0 exactly when `count * 20000 <= rows`. It is 100.0 exactly when `(rows - count) * 20000 <= rows`. So a few missing cells in a very long column show as 0.0. |
| Duplicates.IsDuplicate | Universal_EDA.py:15 | Row `r` is flagged exactly when some earlier row has an identical tuple of cells. |
| Duplicates.DuplicatesAndDistinct | Universal_EDA.py:15 | Among the first `k` rows, duplicates plus distinct tuples equals `k`. |
| Duplicates.DuplicateBound | Universal_EDA.py:15 | No duplicates among at most one row; at most `k - 1` among `k ≥ 1` rows. |
| Duplicates.DuplicateCountBound | Universal_EDA.py:15 | `duplicated().sum()` is 0 for at most one row and at most `rows - 1` otherwise. When the frame has a column, it equals rows minus distinct tuples. |
| Duplicates.NewCellNotDuplicate | Universal_EDA.py:15 | A row whose cell in some column differs from that cell in every earlier row is not flagged. |
| Duplicates.SameCellsDuplicate | Universal_EDA.py:15 | A row identical in every column to an earlier row is flagged. |
| Duplicates.DuplicatesIn | Universal_EDA.py:15 | The number of flagged rows among the first `k` rows is at most `k`. |
| Duplicates.DuplicateCount | Universal_EDA.py:15 | `duplicated().sum()` is at most the row count, and 0 for a frame without columns, which pandas treats as empty. |
| Duplicates.SingleFlag | Universal_EDA.py:15 | When row `q` is flagged and no other row is, the sum over the first `k` rows is 1 once `q` is among them and 0 before. |
| Duplicates.OneRepeatedRow | Universal_EDA.py:15 | Two identical rows `p < q` among rows that are otherwise pairwise different give a duplicate count of 1, not 2 (0 for a frame without columns). |
| ValueCounts.Frequency | Universal_EDA.py:22 | A value's frequency is at most the non-missing count. It is positive exactly when the value occurs. |
| ValueCounts.Distinct | Universal_EDA.py:21 | The distinct values have no repetition, and hold exactly the values that occur in a non-missing cell. |
| ValueCounts.DistinctOrder | Universal_EDA.py:22 | The distinct values come in order of first appearance: for any two of them, some cell holds the earlier one before any cell holds the later one. This is the tie order the stable sort keeps. |
| ValueCounts.NUnique | Universal_EDA.py:21 | `nunique()` is the size of the set of non-missing values. It is at most the non-missing count. |
| ValueCounts.Counts | Universal_EDA.py:22 | One entry per distinct non-missing value, in the order of `Distinct`, each with its exact frequency. |
| ValueCounts.Insert | Universal_EDA.py:22 | Insertion adds exactly one entry: the length grows by one and the multiset gains `x`. |
| ValueCounts.InsertSorted | Universal_EDA.py:22 | Insertion keeps a list sorted by non-increasing frequency. |
| ValueCounts.SortByFrequency | Universal_EDA.py:22 | The sort returns a permutation (same multiset) with non-increasing frequencies. It keeps the entries free of repetition. |
| ValueCounts.ValueCounts | Universal_EDA.py:22 | `value_counts()` has one entry per distinct non-missing value. Each entry has its exact frequency; no value is missed; values are distinct; the list is most frequent first. |
| ValueCounts.TopValues | Universal_EDA.py:22 | `head(5)` keeps min(5, nunique) entries: distinct occurring values, each with its exact positive frequency, most frequent first. No value left out is more frequent than a kept one. With at most five distinct values, all are kept. |
| Summary.ByName | Universal_EDA.py:12-14 | A per-column `to_dict()` has exactly the column names as keys. With unique names, each key maps to its own column's value. |
| Summary.SummarizeColumns | Universal_EDA.py:12-14 | The dtype, missing-count and missing-percentage dictionaries have exactly one entry per column, each computed from that column. |
| Summary.SummarizeNumeric | Universal_EDA.py:16-17 | The numeric summary has one entry per numeric column: its non-missing count. |
| Summary.SummarizeCategorical | Universal_EDA.py:18-24 | The loop builds one entry per object or category column, keyed by name, holding `nunique` and the top values. |
| Summary.CategoricalStatsOf | Universal_EDA.py:20-23 | The `Unique Values` entry is the number of distinct non-missing values, at most the non-missing count, and `Top Values` has min(5, that number) entries. |
| Summary.GenerateSummary | Universal_EDA.py:8-25 | Fails exactly when there is no numeric column. Otherwise the result `Describes` the frame, with every entry as above and the duplicate count. |
| SummaryFacts.ShapeAndColumns | Universal_EDA.py:10-12 | Shape is (rows, number of columns). The column list is the names in frame order. The three per-column dictionaries have exactly those names as keys, one per column. |
| SummaryFacts.ColumnOf | Universal_EDA.py:12-14 | Every dtype key names a frame column, and its dtype, missing count and missing percentage are that column's. |
| SummaryFacts.MissingStatistics | Universal_EDA.py:13-14 | For every column, missing count ≤ rows. Its percentage is NaN exactly for zero rows; otherwise it is the rounded share, in [0, 100]. |
| SummaryFacts.DuplicateStatistics | Universal_EDA.py:15 | The summary's duplicate count is 0 for at most one row and at most `rows - 1` otherwise. |
| SummaryFacts.NumericEntry | Universal_EDA.py:16-17 | Every numeric-summary key is a `Numeric` column. Its dtype and missing entries agree, and its value is that column's non-missing count. |
| SummaryFacts.CategoricalEntry | Universal_EDA.py:18-23 | Every categorical-summary key is an object or category column. Its entry is that column's `nunique` and top values. |
| SummaryFacts.Classification | Universal_EDA.py:16-19 | A column is in the numeric summary exactly when its dtype is numeric, and in the categorical summary exactly when it is object or category. The two key sets are disjoint. |
| SummaryFacts.SummaryKeys | Universal_EDA.py:12-19 | Every key of the numeric and the categorical summary is also a key of the dtype dictionary. |
| SummaryFacts.ClassifiedName | Universal_EDA.py:16-19 | The same two equivalences for a single column name. |
| SummaryFacts.NumericStatistics | Universal_EDA.py:13-17 | A numeric column's `count` plus its missing count equals the row count. |
| SummaryFacts.CategoricalStatistics | Universal_EDA.py:19-23 | Distinct count plus missing count ≤ rows. There are min(5, distinct count) top values. |
| Charts.PairsBelow | Universal_EDA.py:63-64 | The pairs visited before row `i` have first index < `i` and satisfy `a < b < n`. |
| Charts.Pairs | Universal_EDA.py:63-64 | Every pair the nested loop visits satisfies `a < b < n`. |
| Charts.CorrelationPlan | Universal_EDA.py:33-42 | At most one chart; there is one exactly when there are at least two numeric columns, and it covers exactly those columns in order. |
| Charts.BivariatePlan | Universal_EDA.py:59-70 | No chart for fewer than two numeric columns; every chart is a scatter plot of two numeric columns. Count and order are in `ChartFacts`. |
| Charts.Layout | Universal_EDA.py:137-155 | The plan for given numeric and categorical names starts with the missing heatmap and holds at least one chart per column besides it. Positions are in `ChartFacts.ChartPlanOrder`. |
| Charts.ChartPlan | Universal_EDA.py:137-155 | The plan of a frame starts with the missing heatmap and holds at least one chart per numeric or categorical column besides it. |
| Charts.PlotMissingHeatmap | Universal_EDA.py:27-31 | Exactly one missing-value heatmap. |
| Charts.PlotUnivariate | Universal_EDA.py:44-57 | The histograms of the numeric columns in column order, followed by the bar charts of the categorical columns in column order. |
| Charts.UnivariateLoops | Universal_EDA.py:45-57 | The two loops emit a histogram for the i-th numeric name at position i, then a bar chart for the j-th categorical name, and nothing else. |
| Charts.PlotCorrelationHeatmap | Universal_EDA.py:33-42 | The charts are `CorrelationPlan` of the numeric column names: at most one, present exactly when there are at least two numeric columns, covering exactly those columns in order. |
| Charts.PlotBivariate | Universal_EDA.py:59-70 | The scatter plots are those of the pair enumeration when there are at least two numeric columns, and none otherwise. |
| Charts.ScatterLoop | Universal_EDA.py:63-68 | The nested `i`, `j > i` loop emits the scatter plots of `Pairs(n)` in order. |
| Charts.ScatterRow | Universal_EDA.py:64-68 | The inner `j` loop for row `i` emits, in increasing `j`, the scatter of column `i` against each later column `j`, and nothing else. |
| Charts.PlanCharts | Universal_EDA.py:137-155 | The four calls together produce exactly the chart plan of the frame. |
| ChartFacts.PairsBelowCount | Universal_EDA.py:63-64 | Twice the number of pairs before row `i` is `i * (2n - i - 1)`. |
| ChartFacts.PairsCount | Universal_EDA.py:63-64 | Twice the number of pairs is `n * (n - 1)`, so there are C(n, 2). |
| ChartFacts.PairsBelowComplete | Universal_EDA.py:63-64 | Every pair `a < b < n` with `a < i` is visited before row `i`. |
| ChartFacts.PairsBelowSorted | Universal_EDA.py:63-64 | The pairs are visited in strictly increasing lexicographic order. |
| ChartFacts.BivariateCount | Universal_EDA.py:59-70 | No scatter plot for fewer than two numeric columns; otherwise C(n, 2) of them. |
| ChartFacts.BivariateOrder | Universal_EDA.py:63-67 | The k-th scatter plot pairs columns `a < b`, and the pairs `(a, b)` are strictly increasing in lexicographic order. |
| ChartFacts.BivariateComplete | Universal_EDA.py:63-66 | Every pair of numeric columns `a < b` has its scatter plot. |
| ChartFacts.BivariateDistinct | Universal_EDA.py:63-66 | With distinct column names, no scatter plot pairs a column with itself and none repeats. |
| ChartFacts.BivariateScatters | Universal_EDA.py:59-70 | Every chart of the bivariate step is a scatter plot. |
| ChartFacts.ChartPlanOrder | Universal_EDA.py:137-155 | The plan is: the missing heatmap first and nowhere else; the i-th histogram at 1 + i; the j-th bar chart after all histograms; then the correlation part and the scatter part. |
| ChartFacts.CorrelationLaw | Universal_EDA.py:33-42 | A correlation heatmap is in the plan if and only if there are at least two numeric columns. It is right after the univariate charts and covers exactly the numeric columns. |
| ChartFacts.ScatterCount | Universal_EDA.py:59-70 | The plan holds C(n, 2) scatter plots, all after every other chart and in the bivariate step's order. |
| ChartFacts.ScatterComplete | Universal_EDA.py:63-66 | Every pair of numeric columns `a < b` has its scatter plot in the plan. |
| ChartFacts.ScatterDistinct | Universal_EDA.py:63-66 | On a well-formed frame no scatter plot pairs a column with itself and none repeats. |
| Dashboard.Analyze | Universal_EDA.py:129-155 | The analysis fails (no numeric column to describe) exactly when the summary fails. Otherwise it returns a summary that `Describes` the frame and exactly the chart plan. |
| Scenarios.AgeCityShape | Universal_EDA.py:10-13 | The example frame is well-formed, with 1 missing `age` and no missing `city`. |
| Scenarios.AgeCityDuplicates | Universal_EDA.py:15 | `age` = 25, 30, missing, 25 with `city` = A, B, A, A has one duplicate row. |
| Scenarios.TopOfTwo | Universal_EDA.py:21-22 | With exactly two distinct values, one strictly more frequent, the top values are both, the more frequent first, with their frequencies. |
| Scenarios.AgeCityTopValues | Universal_EDA.py:21-22 | `city` has 2 distinct values and top values `[(A, 3), (B, 1)]`. |
| Scenarios.EmptyXYMissing | Universal_EDA.py:14 | With no rows, the missing percentage is NaN. |
| Scenarios.EmptyXYCharts | Universal_EDA.py:137-155 | The model's chart plan for two numeric columns and no rows: the heatmap, two histograms, the correlation heatmap and one scatter plot. The plan depends on the columns only; what the drawing library does with an empty frame is under "Left out". |
| Scenarios.SingleNumericCharts | Universal_EDA.py:137-155 | One numeric column plus one text column give the heatmap, one histogram and one bar chart: no correlation heatmap and no scatter plot. |
| Scenarios.OnePairRepeatedFlags | Universal_EDA.py:15 | In the five-row frame only row 3, the repeat of row 1, is flagged. |
| Scenarios.OnePairRepeatedDuplicates | Universal_EDA.py:15 | Two identical rows among five count as one duplicate. |
| Scenarios.RoundedShares | Universal_EDA.py:14 | 1 of 3 shows as 33.33, 2 of 3 as 66.67, 1 of 8 as 12.5, and 1 of 40000 as 0.0. |

## Left out

- Loading the upload with `read_csv` or `read_excel`, the sidebar, the page text and the Streamlit widgets and tables are I/O and are not modelled. A frame is given as a `Dataset`.
- Drawing is not modelled: matplotlib and seaborn figures, titles, colour maps and `st.pyplot`. Each chart is the `ChartSpec` that says what it shows.
- The `st.info` messages for too few numeric columns (lines 42 and 70) are not charts and are not modelled; the plan simply has no chart there.
- `describe()` statistics other than `count` (mean, std, min, quartiles, max) are floating-point computations. They are not modelled; the numeric summary keeps the count only.
- The correlation matrix `corr()` is floating point and is not modelled. The correlation heatmap is identified by its columns.
- dtypes are the closed `Tag` set (`Numeric`, `Object`, `Category`, `Other`), not the strings `astype(str)` gives, such as `int64`.
- The summary dictionaries are maps. Python's key insertion order is not kept, but column order is kept in `columns`.
- Categories declared on a `category` column but absent from its cells are not modelled. `value_counts` would list them with frequency 0.
- ValueCounts.TopValues: among values of equal frequency the order is not fixed by the contract. The model keeps first appearance, and pandas does not promise a tie order.
- Missing.Percentage: the share is computed in exact rational arithmetic, not binary floating point. A share that floating point puts just off a rounding tie may round differently.
- The exception handler (lines 157–158) is modelled only for the failure of `describe()` on a frame without numeric columns. Other exceptions from the plotting libraries are not modelled.
- Dashboard.Analyze: for a frame with columns but no rows it returns the full chart plan. On the page, seaborn's `heatmap` of the empty `df.isnull()` (line 29) takes the minimum of an empty array for its colour range and raises, so the handler at line 157 reports an error and no chart is drawn. Drawing is outside the model, so this failure is not modelled (`Scenarios.EmptyXYCharts` is the model's plan, not the page's output).
