# TradeShpere trade pipeline, modelled in Dafny

TradeShpere is a small batch pipeline over a table of trade records. This
project models its computational core and proves properties of the model:

- **Cleaner** (`etl/transform_trades.py`). `load_and_clean` runs after the
  CSV is read. It checks that the eight `REQUIRED` columns are present, or
  fails with the missing ones. It coerces `trade_date`, `notional` and `pnl`,
  so that text the parser rejects becomes missing. It drops every row with a
  missing required field. It then derives `notional_mn`, `year` and `month`.
- **Counterparty summary** (`etl/transform_trades.py`).
  `summarize_counterparty` computes, per counterparty, the total exposure,
  the row count, the P&L total and the P&L mean. The rows are sorted by
  exposure, descending.
- **Analytics** (`notebook/analytics.py`):
  - the daily P&L series, ascending by date;
  - historical VaR: the negated `(1 - alpha)` empirical quantile, with numpy's
    default linear interpolation, over the last `lookback` present values;
  - the exposure tables by counterparty and by asset class;
  - the wide BI extract, with a `YYYY-MM` month label;
  - the long ("melted") Tableau table and its per-key daily aggregate.
- **Dashboard helpers** (`app/dashboard.py`):
  - the sidebar filter `apply_filters`;
  - the period-over-period P&L delta `last_period_delta`;
  - the distinct-count "Total Trades" KPI.

Tables are sequences of records. Money amounts are `real`. Dates are
calendar triples with a four-digit year. A pandas missing value is `None`
of `Option`. How the CSV reader turns text into dates and numbers is not
modelled. Each parser is an arbitrary function `string -> Option<T>`,
passed in as a parameter, and `None` means the text does not parse.

`load_and_clean` works by overwriting and rebinding the data frame step by
step. `LoadAndClean` is therefore a method. It follows the same steps and
is proved against the function `CleanRows`. The other operations are
chains of pandas expressions, so they are modelled as functions.

Files:

- `wrappers.dfy`: `Option` and `Result`.
- `seqs.dfy`: sums, filters with their retained positions, and group keys
  in first-appearance order. It also holds the partition lemma that every
  group-by total rests on, and pandas' `head`/`tail`.
- `sorting.dfy`: the descending sort by a real score, its permutation and
  order facts, and uniqueness of the sorted order when no two scores are
  equal.
- `dates.dfy`: dates, their order, and the `YYYY-MM` label with its round
  trip.
- `transform_trades.dfy`, `analytics.dfy`, `dashboard.dfy`: the three source
  files.

Two points about how VaR is computed:

- `historical_var` drops missing values first and only then takes the last
  `lookback` values (`notebook/analytics.py:16`). `Analytics.VaRWindow`
  does the same.
- The script computes VaR over the *daily* P&L series
  (`notebook/analytics.py:70-74`). Five trades on one date therefore give
  one daily value, and VaR is undefined (`Analytics.SingleDateVaRUndefined`).
  Five daily values -100, -50, 0, 50, 100 give a VaR of 90
  (`Analytics.VaRFiveObservations`).

## Model

| member | source | states |
|---|---|---|
| TransformTrades.AbsentRequired | etl/transform_trades.py:10 | A column is reported missing exactly when it is one of the eight required names and the header lacks it. |
| TransformTrades.LoadAndClean | etl/transform_trades.py:8-20 | Cleaning fails exactly when some required column is absent. The error carries exactly the required names the header lacks. Otherwise the result is the coerced, filtered and derived table. |
| TransformTrades.Coerce | etl/transform_trades.py:13-15 | `errors="coerce"` on one cell: the result is present exactly when the cell is present and its text parses, and it is then the parsed value. |
| TransformTrades.CoerceRow | etl/transform_trades.py:13-15 | Coercing a row leaves the five text cells unchanged and coerces `trade_date`, `notional` and `pnl`, each present exactly when its text parses. |
| TransformTrades.DeriveRow | etl/transform_trades.py:17-19 | A complete coerced row becomes a trade with the same eight values, `notional_mn = notional / 1e6`, and `year`/`month` from the date with `1 <= month <= 12`. |
| TransformTrades.CoerceColumns | etl/transform_trades.py:13-15 | Coercion keeps the row count. Row i becomes row i with its date and numbers parsed, and a cell that is missing or does not parse becomes missing. |
| TransformTrades.DropIncomplete | etl/transform_trades.py:16 | `dropna` keeps exactly the rows whose required fields are all present, and never adds rows. |
| TransformTrades.DeriveFields | etl/transform_trades.py:17-19 | Deriving the extra columns keeps the row count. |
| TransformTrades.CleanRows | etl/transform_trades.py:13-19 | Cleaning never produces more rows than it was given. |
| TransformTrades.CleanRowsExactly | etl/transform_trades.py:13-16 | The cleaned rows are exactly the input rows whose required cells are all present and parse. They keep their original order (strictly increasing positions). Every cell keeps its parsed value and every derived field is computed from them. |
| TransformTrades.CleanRowsWellFormed | etl/transform_trades.py:16-19 | Every cleaned row has `notional_mn = notional / 1e6`, `year` and `month` taken from `trade_date`, and `1 <= month <= 12`. |
| TransformTrades.InvalidRowDropped | etl/transform_trades.py:13-16 | A row with a missing required cell, or with a date or number that does not parse, is dropped without affecting any other row. |
| TransformTrades.UnparseableDateDropped | etl/transform_trades.py:13 | A row whose `trade_date` text does not parse is dropped as if it were absent. |
| TransformTrades.CleanedColumnsPassSchema | etl/transform_trades.py:10-12 | The header of a cleaned table (the required columns plus the derived ones) passes the schema check. |
| TransformTrades.CleanIsIdempotent | etl/transform_trades.py:13-19 | Writing a cleaned table out as text and cleaning it again gives back the same table, derived fields included, whenever the parsers read back what is written. |
| TransformTrades.SummarizeCounterparty | etl/transform_trades.py:29 | The summary is ordered non-increasing by total exposure. |
| TransformTrades.SummaryRowsAggregateGroups | etl/transform_trades.py:23-27 | Each summary row has `trades` equal to the number of rows of its counterparty, counting every row, and at least 1. Its exposure and P&L totals are that counterparty's sums, and `pnl_avg = pnl_total / trades`. |
| TransformTrades.SummaryOf | etl/transform_trades.py:24-27 | The row for a counterparty that occurs carries that counterparty and `trades >= 1`, and its mean times its count is its P&L total. |
| TransformTrades.SummaryCounterpartiesDistinct | etl/transform_trades.py:23 | No counterparty has two summary rows. |
| TransformTrades.SummaryRowsComeFromInput | etl/transform_trades.py:23 | Every summary row belongs to a counterparty that occurs in the input, so no zero-count groups are invented. |
| TransformTrades.SummaryCoversInput | etl/transform_trades.py:23 | Every counterparty in the input has a summary row. |
| TransformTrades.SummaryTotals | etl/transform_trades.py:24-26 | Across the summary, `trades` adds up to the row count, and exposure and P&L add up to the table's `notional_mn` and `pnl` totals. |
| Sorting.SortDesc | etl/transform_trades.py:29 | A descending sort is a permutation of its input and is non-increasing in the score. |
| Sorting.SortedPermutationUnique | notebook/analytics.py:19 | When no two rows share a score, two non-increasing permutations of the same rows are equal. |
| Analytics.TradeDates | notebook/analytics.py:10-12 | The group keys of `groupby("trade_date")` are strictly ascending and are exactly the dates that occur. |
| Analytics.DailyPnl | notebook/analytics.py:9-13 | The daily series is strictly ascending by date. |
| Analytics.DailyPnlGroups | notebook/analytics.py:10-11 | The daily series has a row for exactly the dates that have trades, and each row's total is the sum of that date's `pnl`. |
| Analytics.DailyPnlTotal | notebook/analytics.py:10 | The daily totals add up to the total P&L of all trades. |
| Analytics.PresentValues | notebook/analytics.py:16 | `dropna` keeps exactly the present values and never adds any. |
| Analytics.PresentValuesKeepOrder | notebook/analytics.py:16 | `dropna` keeps the present values in their original order and with their multiplicity: it is exactly the present entries of the series, unwrapped. |
| Seqs.Tail | notebook/analytics.py:16 | `tail(n)` is a suffix: the last `min(n, len)` values for `n >= 0`, and all but the first `min(-n, len)` for negative `n`. |
| Seqs.Head | app/dashboard.py:22-23 | `head(n)` is a prefix: the first `min(n, len)` values for `n >= 0`, and all but the last `min(-n, len)` for negative `n`. |
| Analytics.VaRWindow | notebook/analytics.py:16 | The window is a suffix of the present values, of length `min(lookback, present count)` for a non-negative `lookback`. |
| Analytics.PresentValuesAllPresent | notebook/analytics.py:16 | A series with no missing values passes through `dropna` unchanged. |
| Analytics.SortAsc | notebook/analytics.py:19 | The sorted window is an ascending permutation of the window. |
| Analytics.Position | notebook/analytics.py:19 | The interpolation position `(n-1)q` lies in `[0, n-1]`. |
| Analytics.PositionEnds | notebook/analytics.py:19 | The position is `(n-1)q`; level 0 gives position 0 and level 1 gives `n-1`. |
| Analytics.Interpolate | notebook/analytics.py:19 | At a whole position the result is that order statistic. Between two ascending neighbours it lies between them. |
| Analytics.AscendingEnds | notebook/analytics.py:19 | An ascending permutation of a window starts at its minimum and ends at its maximum. |
| Analytics.Quantile | notebook/analytics.py:19 | The empirical quantile lies between the window's minimum and maximum, and is the minimum at level 0 and the maximum at level 1. |
| Analytics.VaROfWindow | notebook/analytics.py:17-19 | Over a window, VaR is undefined exactly when fewer than 5 values remain. numpy's error for a quantile level outside `[0, 1]` occurs exactly when there are at least 5 values and `1 - alpha` is out of range. |
| Analytics.HistoricalVaR | notebook/analytics.py:15-19 | VaR is undefined exactly when fewer than 5 present values remain after `dropna` and then `tail(lookback)`. The out-of-range error is stated over that same window. |
| Analytics.InterpolateBounds | notebook/analytics.py:19 | Linear interpolation in a sorted sequence stays between its first and last value. |
| Analytics.VaROfWindowBounds | notebook/analytics.py:17-19 | A defined VaR over a window comes from at least 5 values and lies in `[-max, -min]`. |
| Analytics.VaRBounds | notebook/analytics.py:19 | A defined VaR comes from at least 5 values and satisfies `-max <= VaR <= -min` over the window. |
| Analytics.QuantilePermutationInvariant | notebook/analytics.py:19 | The quantile depends only on the multiset of values. |
| Analytics.VaROfWindowPermutationInvariant | notebook/analytics.py:17-19 | VaR over a window depends only on the multiset of its values. |
| Analytics.VaRPermutationInvariant | notebook/analytics.py:16-19 | Two series whose windows hold the same values, in any order, have the same VaR. |
| Analytics.FiveObservationsQuantile | notebook/analytics.py:19 | The 5% quantile of -100, -50, 0, 50, 100 is -90: position 0.2, between -100 and -50. |
| Analytics.VaRFiveObservations | notebook/analytics.py:15-19 | The series -100, -50, 0, 50, 100 at alpha 0.95 with lookback 60 gives VaR 90. |
| Analytics.ExposureBy | notebook/analytics.py:22-27 | An exposure table is ordered non-increasing by `exposure_mn`. |
| Analytics.ExposureKeysDistinct | notebook/analytics.py:22-27 | No key appears in two rows of an exposure table. |
| Analytics.ExposureRowsAggregate | notebook/analytics.py:22-23 | Every exposure row is a key that occurs, carrying that key's `notional_mn` sum. |
| Analytics.ExposureCoversInput | notebook/analytics.py:22 | Every key that occurs has an exposure row. |
| Analytics.ExposureTotal | notebook/analytics.py:22-23 | An exposure table's column adds up to the total `notional_mn`. |
| Analytics.ExposureTables | notebook/analytics.py:21-28 | Both exposure tables are ordered non-increasing by `exposure_mn`. |
| Analytics.ExposureTablesTotals | notebook/analytics.py:21-28 | Both tables returned by `exposure_tables`, by counterparty and by asset class, reconcile with the total `notional_mn`. |
| Analytics.DailySeries | notebook/analytics.py:74 | The series passed to `historical_var` holds each row's daily total, present, in row order. |
| Analytics.PortfolioVaR | notebook/analytics.py:74 | The script's VaR at `alpha = 0.95` never hits numpy's out-of-range level error. |
| Analytics.PortfolioVaRNeedsFiveDates | notebook/analytics.py:70-74 | The script's VaR is undefined exactly when there are fewer than five distinct trade dates. |
| Analytics.OneDateOneRow | notebook/analytics.py:10 | Trades that all fall on one date produce at most one daily row. |
| Analytics.SingleDateVaRUndefined | notebook/analytics.py:70-74 | When every trade falls on one date, the script's VaR is undefined. |
| Analytics.BiExport | notebook/analytics.py:30-34 | The BI extract has one row per trade. |
| Analytics.BiExportFaithful | notebook/analytics.py:30-34 | The BI extract keeps the rows in order with their values unchanged. Each `yyyymm` parses back to that row's year and month. |
| Analytics.BiExportMonthLabels | notebook/analytics.py:33 | Two rows share a month label exactly when they fall in the same year and month. |
| Dates.YearMonth | notebook/analytics.py:33 | The month label has seven characters with a `-` at index 4 (`YYYY-MM`). |
| Dates.YearMonthRoundTrip | notebook/analytics.py:33 | Parsing a month label gives back the date's year and month. |
| Dates.YearMonthSameMonth | notebook/analytics.py:33 | Two dates have the same label exactly when they share year and month. |
| Analytics.MeltMetric | notebook/analytics.py:45-51 | One melt block has one row per trade. Row i carries trade i's dimensions, the metric and that metric's value. |
| Analytics.TableauLongExport | notebook/analytics.py:45-51 | The long table has `3n` rows for `n` trades. |
| Analytics.LongExportLayout | notebook/analytics.py:45-51 | Rows `i`, `n+i` and `2n+i` are trade i under `notional`, `notional_mn` and `pnl`. Each carries trade i's dimensions and that column's value. |
| Analytics.LongExportRow | notebook/analytics.py:45-51 | Row `i` of the input is row `i` of each of the three metric blocks, with the metric's label and value. |
| Analytics.MetricNamesDistinct | notebook/analytics.py:48-49 | Two metrics have the same label exactly when they are the same metric. |
| Analytics.LongExportMetricTotals | notebook/analytics.py:45-51 | The long table's values for one metric add up to that column's total. |
| Analytics.TableauLongDailyAgg | notebook/analytics.py:59-61 | The aggregate has no more rows than its input, and no two rows share a key. |
| Analytics.DailyAggGroups | notebook/analytics.py:59-61 | Every aggregate row is a key that occurs, carrying the sum of that key's values. Every key that occurs has a row. |
| Analytics.DailyAggMetricTotals | notebook/analytics.py:59-61 | Aggregation preserves each metric's value total. |
| Analytics.LongPipelineTotals | notebook/analytics.py:87-88 | Exporting and then aggregating reconciles each metric's value total with the trade table's column total. |
| Dashboard.Passes | app/dashboard.py:49-51 | A row can pass the mask only when `d1 <= d2`. |
| Dashboard.ApplyFilters | app/dashboard.py:47-52 | A filtered row is an input row that passes the mask: the date lies in `[d1, d2]` inclusive, and the counterparty and asset class are on their lists when those are non-empty. Every passing row is kept. |
| Dashboard.ApplyFiltersExactly | app/dashboard.py:47-52 | The filtered table is the order-preserving subsequence of exactly the passing rows, unchanged. |
| Dashboard.EmptyCounterpartyListSelectsAll | app/dashboard.py:50 | An empty counterparty list selects the same rows as the list of every counterparty present. |
| Dashboard.EmptyAssetClassListSelectsAll | app/dashboard.py:51 | An empty asset-class list selects the same rows as the list of every asset class present. |
| Dashboard.EmptyRangeSelectsNothing | app/dashboard.py:48-49 | With `d2` before `d1`, or with no trade date in the range, the filter returns nothing. |
| Dashboard.SortIndex | app/dashboard.py:19 | `sort_index` returns a permutation of the series in ascending date order. |
| Dashboard.PeriodDelta | app/dashboard.py:20-24 | The delta is `None` exactly when the series has fewer than `days + 1` entries. |
| Dashboard.LastPeriodDelta | app/dashboard.py:18-24 | `last_period_delta` is `None` exactly when the series has fewer than `days + 1` entries. |
| Dashboard.DeltaTwoFullPeriods | app/dashboard.py:22-23 | With at least `2*days` entries in date order, the delta is the sum of the last `days` values minus the sum of the `days` values just before them. |
| Dashboard.DeltaOverlappingPeriods | app/dashboard.py:22-23 | With `days+1 <= n < 2*days` entries, the previous window is the first `days` entries, which overlap the current window. |
| Dashboard.DeltaOrderIndependent | app/dashboard.py:19 | For a series with distinct dates, the delta does not depend on the order in which the entries arrive. |
| Dashboard.DailyPnlSeries | app/dashboard.py:105 | The dashboard's series holds each daily row as an entry indexed by its date, in row order. |
| Dashboard.SortIndexOfAscending | app/dashboard.py:19 | Sorting a series whose dates strictly ascend changes nothing. |
| Dashboard.DailyDeltaKeepsDateOrder | app/dashboard.py:104-106 | On the daily P&L series, the dashboard's delta equals the delta over the rows in their given order. |
| Dashboard.TradeIds | app/dashboard.py:97 | The id set holds exactly the trade ids that occur among the rows. |
| Dashboard.TradeIdsAtMostRows | app/dashboard.py:97 | There are never more distinct trade ids than rows. |
| Dashboard.TotalTrades | app/dashboard.py:97 | "Total Trades" is at most the row count and is zero exactly when there are no rows. |
| Dashboard.TotalTradesBound | app/dashboard.py:97 | "Total Trades" never exceeds the row count. It equals the row count exactly when no two rows share a `trade_id`. |
| Dashboard.TotalTradesVersusSummary | app/dashboard.py:97 | "Total Trades" (distinct ids) is at most the summary's total `trades` (every row). The two are equal exactly when the trade ids are distinct. |

## Left out

- `etl/generate_trades.py` is not part of this model. It only samples random
  trades from a seeded generator, over a range of business days that ends
  at the current date.
- File and command-line plumbing is left out: reading and writing CSV
  files, `main`, the argument parser, `mkdir`, the `__main__` blocks and
  the dashboard's `load_all`. `Analytics.PortfolioVaR` models only the VaR
  step of the analytics script. `Analytics.LongPipelineTotals` models only
  the export-then-aggregate step.
- Presentation is left out: Streamlit, Plotly, the sidebar widgets, the
  page and its metric cards, `fmt_mn` and `fmt_cur`.
- The permissiveness of `pd.to_datetime` and `pd.to_numeric` is not
  modelled. Each is an arbitrary parser function. A date is a calendar day
  with a four-digit year, with no time of day.
- Floating point is not modelled. Sums, `/ 1e6`, means, `1 - alpha` and the
  interpolation are exact over `real`, with no IEEE rounding, NaN or
  infinities in data.
- Analytics.VaRFiveObservations: holds exactly over the reals. In floating
  point `1 - 0.95` is not exactly 0.05, so the source's result is only
  close to 90.
- Columns of the input file beyond the eight required ones are not
  modelled. The cleaned table carries only the required and derived
  columns.
- Sorting.SortDesc: pandas' default sort is not stable. An insertion sort
  stands in for it, and only its order by score and its permutation
  property are stated. The order of tied rows is not modelled.
- Group order: pandas sorts group keys, while `Seqs.GroupKeys` lists them
  in order of first appearance. The order matters only for the row order
  of `tableau_long_daily_agg`. The daily P&L and every sorted table are
  ordered explicitly.
- Dashboard.DeltaOrderIndependent: requires distinct dates. Entries with
  equal dates can be ordered either way by the unstable sort, so the
  result then depends on the tie order, which is not modelled.
- TransformTrades.InvalidRowDropped: pandas `to_datetime` infers one date
  format per column from the first non-missing value, while the model
  parses each cell on its own. In pandas a bad row can change how the other
  rows parse: `["not-a-date", "2024-01-05", "01/06/2024"]` may keep two
  dates while `["2024-01-05", "01/06/2024"]` keeps one. The same holds for
  TransformTrades.UnparseableDateDropped.
- TransformTrades.SummarizeCounterparty: models `groupby(...,
  dropna=False)` only on cleaned rows. A cleaned row always has a
  counterparty, so a missing-key group cannot arise.
