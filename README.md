# Macro market data pulls, modelled in Dafny

The system collects three daily market series into one SQLite table,
`market_data(date, eurusd, sp500, treasury)`, keyed by ISO date:

- the EUR/USD close,
- the SPY (S&P 500 proxy) close,
- the 10-year Treasury yield.

The system has three parts:

- **History pull** (`scripts/historical_pull.py`). It reduces three provider responses to date-to-value feeds. FX and SP500 are JSON objects keyed by date. Treasury is a list of `{date, value}` records. Dates before `2001-01-01` are dropped. The feeds are then merged into the table with one full-row `INSERT OR REPLACE` per date, in ascending date order.
- **Daily pull** (`scripts/daily_pull.py`). It extracts one current value per series and writes one full row keyed by today's date.
- **Analysis** (`scripts/pull_analysis.py`, the branch that does not use pandas). It reports:
  - today's row (the last one after sorting by date);
  - the per-series mean of the non-NULL values in the 7-day window ending at today;
  - the per-series year-over-year percentage change against the last row dated 365 or more days earlier.

The Dafny modules follow that structure:

| module | file | what it holds |
|---|---|---|
| `Wrappers` | wrappers.dfy | `Option` and `Result` |
| `Json` | json.dfy | A decoded response (`Value`). Python's `dict.get`, `dict[key]`, truthiness and `float()`. The exceptions they raise become `Error` values. |
| `TextOrder` | text_order.dfy | Python's `<` on `str` (code-point lexicographic). `sorted()` over a set of strings, and the greatest element. |
| `Store` | store.dfy | The table as a class `MarketTable` whose `rows` map is replaced in place by `Upsert`. The merge semantics as functions, with lemmas about order, idempotence and interrupted runs. |
| `Responses` | responses.dfy | The provider's response keys and the "close" lookup. |
| `HistoricalPull` | historical_pull.dfy | The three history normalisers as methods with loops. The history `update_db`. |
| `DailyPull` | daily_pull.dfy | The three `fetch_*_today` extractors and the daily `update_db`. |
| `Stats` | stats.dfy | Sum, mean, least and greatest of a list of reals, with bounds and the mean-times-count identity. |
| `PullAnalysis` | pull_analysis.dfy | `summarize` as written, which can raise. A guarded variant. Lemmas relating the two. |

Values are `real`; a NULL is `None`. Conversion of a string to a number is a parameter, `parse: string -> Option<real>`. So is today's date in the daily pull. In the analysis, dates are day numbers.

Notable behaviours of the code, which the model keeps:

- **Bad history entries.** An FX or SP500 history entry whose close is missing or unparseable makes the whole pull raise. Only the Treasury normaliser skips such entries.
- **Daily FX with no data.** The daily FX extractor has no "no data" outcome: a missing rate raises.
- **Week average.** A series with no value in the week makes the average divide by zero. This is recorded under Findings.
- **Year-over-year change.** A series that is NULL today, with a usable year-old value, makes `None - x` raise. This is recorded under Findings.
- **Whole-row writes.** Both writers replace the whole row. The daily write sets a series it has no value for to NULL, even when a history merge had stored one.

## Model

| member | source | states |
|---|---|---|
| `Json.Get` | scripts/historical_pull.py:40 | `.get(key, default)` succeeds exactly on dicts and yields the default for a missing key |
| `Json.Index` | scripts/daily_pull.py:73 | `x['value']` yields the key's value on a dict holding it; KeyError on a dict without it; TypeError on anything else |
| `Json.Truthy` | scripts/historical_pull.py:78 | The falsy values are exactly None, False, zero and the empty string, list and dict |
| `Json.ToFloat` | scripts/historical_pull.py:82 | `float()` of None, a list or a dict fails |
| `Responses.Close` | scripts/historical_pull.py:44 | Reading a day's close succeeds iff the entry is a dict holding a convertible `4. close`, and yields that value |
| `HistoricalPull.SeriesBody` | scripts/historical_pull.py:40 | A response without the series key iterates as an empty dict; otherwise the key's value must be a dict |
| `HistoricalPull.NormalizeSeries` | scripts/historical_pull.py:40-45 | Succeeds iff every entry dated at or after the cutoff has a usable close. The result's keys are exactly those dates, each mapped to its close. A failure carries the error of some such entry. |
| `HistoricalPull.FxHistory` | scripts/historical_pull.py:40-45 | The FX normaliser under `Time Series FX (Daily)`, with the above properties |
| `HistoricalPull.Sp500History` | scripts/historical_pull.py:57-62 | The SP500 normaliser under `Time Series (Daily)`, with the above properties |
| `HistoricalPull.MissingSeriesIsEmpty` | scripts/historical_pull.py:57 | A response lacking the series key normalises to the empty feed, without error |
| `HistoricalPull.TreasuryEntryKept` | scripts/historical_pull.py:77-84 | A kept record is a dict with a non-empty string date at or after the cutoff and a convertible value, and is kept with exactly that date and value |
| `HistoricalPull.TreasuryEntryKeptWhen` | scripts/historical_pull.py:77-82 | Conversely, a dict with a non-empty string date at or after the cutoff and a convertible value is kept with that date and value |
| `HistoricalPull.TreasuryEntryRaises` | scripts/historical_pull.py:77-78 | A record makes the loop raise iff it is not a dict or its date is truthy but not a string |
| `HistoricalPull.TreasuryEntry` | scripts/historical_pull.py:77-78 | A record raises only with AttributeError (exactly when it is not a dict) or with the TypeError of comparing a non-string date |
| `HistoricalPull.TreasuryItems` | scripts/historical_pull.py:74-77 | `.get` on a response that is not a dict raises. A missing `data` key iterates as an empty list and a list as its elements. A scalar is not iterable. An empty dict or string yields nothing; a non-empty one yields strings, whose `.get` raises. |
| `HistoricalPull.Entries` | scripts/historical_pull.py:76-84 | Each list element is classified (skip, keep or raise) independently, position by position |
| `HistoricalPull.CollectedLastWins` | scripts/historical_pull.py:76-84 | After the loop, a date is in the dict iff some kept record carries it. Its value is the one of the LAST such record. |
| `HistoricalPull.CollectTreasury` | scripts/historical_pull.py:75-85 | Raises iff some record raises, with the first such record's error. Otherwise it yields exactly the kept dates, with last-wins values. |
| `HistoricalPull.TreasuryHistory` | scripts/historical_pull.py:74-85 | `fetch_treasury_history` after the HTTP call, with the above properties |
| `HistoricalPull.UpsertEach` | scripts/historical_pull.py:92-96 | Upserting the dates of `ds` in order leaves the table `Replayed` over `ds` and appends `ds` to the write log |
| `HistoricalPull.UpdateDb` | scripts/historical_pull.py:88-98 | The new table is the old one merged with the feeds. The keys become the old keys plus the union of feed dates. Other rows are unchanged. The writes happen in ascending date order, once per date. |
| `Store.Slot` | scripts/historical_pull.py:95 | A feed's slot for a date is NULL exactly when the feed lacks the date |
| `Store.MergeFeeds` | scripts/historical_pull.py:91-96 | Merged keys are the old keys plus the union of the feed dates. Each merged date's row holds each feed's value or NULL. Other rows are unchanged. |
| `Store.ReplayedRows` | scripts/historical_pull.py:92-96 | Upserting the dates of any sequence, in order, equals one map update over the set of those dates |
| `Store.ReplayAll` | scripts/historical_pull.py:92-96 | Upserting every date of the union, in ANY order, yields the merge result |
| `Store.ReplaySorted` | scripts/historical_pull.py:92 | The script's order, the sorted union, yields the merge result |
| `Store.Overwritten` | scripts/historical_pull.py:94 | Rows upserted before a later batch covering the same dates leave no trace |
| `Store.MergeIdempotent` | scripts/historical_pull.py:91-96 | Re-running a merge with the same feeds changes nothing |
| `Store.RerunAfterInterruption` | scripts/historical_pull.py:92-96 | A merge stopped after any prefix of its writes, then re-run in full, ends as a single full merge |
| `Store.MarketTable.Upsert` | scripts/daily_pull.py:80-83 | INSERT OR REPLACE replaces the whole row for the date and nothing else, and logs the write |
| `TextOrder.LessTransitive` | scripts/historical_pull.py:92 | The string order `sorted()` uses is transitive |
| `TextOrder.LessTotal` | scripts/historical_pull.py:92 | Two distinct strings are always ordered one way or the other |
| `TextOrder.SortedKeys` | scripts/historical_pull.py:92 | `sorted(set)` is strictly ascending and holds exactly the set's elements |
| `TextOrder.Greatest` | scripts/daily_pull.py:57 | The last element of the sorted keys is a key, and every key is at most it |
| `DailyPull.FxToday` | scripts/daily_pull.py:41-42 | Succeeds iff the rate object and its exchange-rate field exist and convert; yields that value |
| `DailyPull.Sp500Today` | scripts/daily_pull.py:54-58 | No value iff the series is missing or empty. Otherwise it yields the close at the greatest date key, and fails iff that close is unusable. |
| `DailyPull.TreasuryToday` | scripts/daily_pull.py:70-73 | No value iff the `data` value is missing or falsy. When it is a non-empty list whose first record is a dict holding a convertible `value`, the result is exactly that value; when that value does not convert it fails. Any value returned is the FIRST record's. |
| `DailyPull.UpdateDb` | scripts/daily_pull.py:76-85 | The new table is the old one with today's row set to `(fx, spx, tsy)`, NULLs written as given. Every other row is unchanged. One write is logged. |
| `DailyPull.UpdateDbIdempotent` | scripts/daily_pull.py:80-83 | On the new state `UpdateDb` promises (`old[today := row]`), a second run with the same values leaves the table as after the first |
| `DailyPull.DailyOverwritesMergedRow` | scripts/daily_pull.py:81-82 | A daily write with no SP500 value turns a history-merged SP500 value for today into NULL |
| `PullAnalysis.SinceMembers` | scripts/pull_analysis.py:53 | The week filter keeps exactly the rows dated at or after its bound, in their order |
| `PullAnalysis.UntilMembers` | scripts/pull_analysis.py:62 | The year-ago filter keeps exactly the rows dated at or before its bound, in their order |
| `PullAnalysis.Since` | scripts/pull_analysis.py:53 | Every row kept is dated at or after the bound, and no rows are added |
| `PullAnalysis.Until` | scripts/pull_analysis.py:62 | Every row kept is dated at or before the bound, and no rows are added |
| `PullAnalysis.WeekAfterFirst` | scripts/pull_analysis.py:53 | When only the first row of a sorted history is older than six days before today, the window is all the other rows |
| `PullAnalysis.Latest` | scripts/pull_analysis.py:51-52 | Today's row is a row of the data, and over date-sorted data it has the greatest date |
| `PullAnalysis.Week` | scripts/pull_analysis.py:53 | The window holds exactly the rows dated within six days of today, and keeps sorted data sorted |
| `PullAnalysis.WeekContainsLatest` | scripts/pull_analysis.py:53-55 | The window holds exactly the rows within six days of today and always contains today's row, so the `if week_data:` branch is always taken |
| `PullAnalysis.PresentMembers` | scripts/pull_analysis.py:56 | The non-NULL column values are exactly the values some row holds; there are none iff every slot is NULL |
| `PullAnalysis.Present` | scripts/pull_analysis.py:56 | The non-NULL column values are at most as many as the rows |
| `PullAnalysis.PresentIndicesValues` | scripts/pull_analysis.py:56 | The non-NULL column values are as many as the rows holding one, and entry `k` is the value of the `k`-th such row |
| `PullAnalysis.PresentIndicesOrdered` | scripts/pull_analysis.py:56 | Those rows are taken in row order, each once |
| `PullAnalysis.PresentIndicesCover` | scripts/pull_analysis.py:56 | Every row with a non-NULL value contributes it |
| `PullAnalysis.PresentAppend` | scripts/pull_analysis.py:56 | Collecting the non-NULL values of two runs of rows gives the first run's values followed by the second's |
| `PullAnalysis.PresentFull` | scripts/pull_analysis.py:56 | With no NULL slot, the values collected are the rows' values, one per row, in order |
| `Stats.SumAppend` | scripts/pull_analysis.py:56 | `sum` over two runs of values is the sum of their sums |
| `Stats.SumBounds` | scripts/pull_analysis.py:56 | A sum lies between count × minimum and count × maximum |
| `Stats.Lowest` | scripts/pull_analysis.py:56 | The smallest value is one of the values and at most each of them |
| `Stats.Highest` | scripts/pull_analysis.py:56 | The largest value is one of the values and at least each of them |
| `Stats.MeanBounds` | scripts/pull_analysis.py:56 | The mean lies between the smallest and the largest value |
| `Stats.MeanTimesCount` | scripts/pull_analysis.py:56 | The mean times the number of values is their sum |
| `PullAnalysis.Average` | scripts/pull_analysis.py:56-58 | As written: raises ZeroDivisionError for that series iff the column has no non-NULL value in the window. Otherwise it is the mean of exactly those values, within their range. |
| `PullAnalysis.AverageIsSumOverCount` | scripts/pull_analysis.py:56 | A successful average equals the sum of the non-NULL values divided by their count |
| `PullAnalysis.AverageOrAbsent` | scripts/pull_analysis.py:56-58 | Guarded: absent iff every slot in the window is NULL. Otherwise it is the mean of the non-NULL values, within their range. |
| `PullAnalysis.AveragesOrAbsent` | scripts/pull_analysis.py:56-58 | Each of the three guarded averages is `AverageOrAbsent` of its series |
| `PullAnalysis.WeekAverages` | scripts/pull_analysis.py:55-58 | The three averages as written raise iff some series has no value in the window, naming such a series. Otherwise each slot holds that series' `Average`. |
| `PullAnalysis.YearAgo` | scripts/pull_analysis.py:61-64 | Absent iff no row is dated 365+ days before today. Otherwise it is a row so dated, and over sorted data the latest such one. |
| `PullAnalysis.Change` | scripts/pull_analysis.py:65-67 | As written: no change when the comparison value is NULL or 0. Raises iff today's value is NULL against a usable comparison value. A result `c` satisfies `ago × (1 + c/100) = today`. |
| `PullAnalysis.ChangeSign` | scripts/pull_analysis.py:65 | Against a positive comparison value the change is positive, zero or negative as today is above, at or below it |
| `PullAnalysis.ChangeOrAbsent` | scripts/pull_analysis.py:65-67 | Guarded: absent iff either value is NULL or the comparison is 0. Satisfies the same round trip. Agrees with `Change` wherever that succeeds. |
| `PullAnalysis.YearOverYear` | scripts/pull_analysis.py:65-67 | The three changes as written raise iff some series is NULL today against a usable comparison value; otherwise each is `Change` |
| `PullAnalysis.Summarize` | scripts/pull_analysis.py:32-69 | As written: no data iff there are no rows; a report holds today's row |
| `PullAnalysis.SummarizeDividesByZero` | scripts/pull_analysis.py:55-58 | It raises ZeroDivisionError iff some series has no value in the week window, and the series named is such a one |
| `PullAnalysis.SummarizeSubtractsNone` | scripts/pull_analysis.py:61-67 | It raises on `None - x` iff every average succeeds, a row is 365+ days old, and some series is NULL today while that row's value for it is non-NULL and non-zero. The series named is NULL today. |
| `PullAnalysis.SummarizeReports` | scripts/pull_analysis.py:50-69 | In a report every average is that series' `Average` over the window. The year-over-year part is absent iff no row is 365+ days old; otherwise each change is `Change` against the year-old row. |
| `PullAnalysis.SummarizeGuarded` | scripts/pull_analysis.py:50-69 | Guarded: no data iff there are no rows; a report holds today's row |
| `PullAnalysis.SummarizeGuardedReports` | scripts/pull_analysis.py:50-58 | With data, the guarded summary always reports, and each average is `AverageOrAbsent` over the window |
| `PullAnalysis.SummarizeGuardedNoYear` | scripts/pull_analysis.py:61-63 | Its year-over-year part is absent iff no row is 365+ days old |
| `PullAnalysis.SummarizeGuardedChanges` | scripts/pull_analysis.py:64-67 | Otherwise each change is `ChangeOrAbsent` of today's value against the year-old row's |
| `PullAnalysis.WeekAveragesAgree` | scripts/pull_analysis.py:56-58 | Where the written averages succeed they equal the guarded ones |
| `PullAnalysis.YearOverYearAgrees` | scripts/pull_analysis.py:65-67 | Where the written changes succeed they equal the guarded ones |
| `PullAnalysis.GuardedAgreesWhereWrittenSucceeds` | scripts/pull_analysis.py:50-69 | Wherever `summarize` as written succeeds, the guarded summary is identical |
| `PullAnalysis.WeekWithoutSp500Raises` | scripts/pull_analysis.py:57 | A one-row history with NULL sp500 raises ZeroDivisionError for SP500; the guarded average is absent |
| `PullAnalysis.AbsentTodayInChangeRaises` | scripts/pull_analysis.py:66 | Over a history whose latest row has NULL sp500 and a year-old row with a value, the script as written raises on `None - x` |
| `PullAnalysis.AbsentTodayGuardedIsAbsent` | scripts/pull_analysis.py:61-67 | Over the same history the guarded summary has a year-over-year part whose SP500 change is absent |
| `PullAnalysis.WeekAverageSkipsAbsent` | scripts/pull_analysis.py:53-56 | Over a history with an old row (FX 100) and a week with FX 1, NULL, 3, NULL, 5, NULL, NULL, the window drops the old row and the FX average is 3: NULL days are skipped, not counted as zero |
| `PullAnalysis.YearAgoIsNearestPrior` | scripts/pull_analysis.py:61-65 | Without an exact 365-day match, the nearest earlier row is used for the change |

## Left out

- **I/O and environment.** HTTP requests, `raise_for_status`, JSON decoding and the API-key check are not modelled, nor is any `main` function or printing. The model starts from a decoded response (`Json.Value`).
- **SQLite.** Connections, commit and close are not modelled. `create_db`'s schema is not modelled; `Store.MarketTable.constructor` is a fresh empty table.
- **The pandas branch.** The pandas branches of `load_data` and `summarize`, and `scripts/visualize_market.py`, are not part of this model.
- **Clock and date parsing.** `date.today()` and `strptime` are replaced by parameters: the daily pull takes today's ISO string, and the analysis takes day numbers. Converting an ISO string to a day number is not modelled.
- **Sorting in `load_data`.** It is not modelled as an operation. Its result, date-sorted rows, is the hypothesis `Ascending(data)` in the contracts that need it.
- **Floating point.** Values are exact reals. Rounding, NaN and infinities are not modelled. How a string converts with `float()` is the parameter `parse`. JSON integers and floats are both `Number`.
- `HistoricalPull.NormalizeSeries`: when several entries fail, the contract says only that the error is SOME failing entry's. Which one it is depends on the response's key order, and that order is not modelled (decoded objects are maps).
- `HistoricalPull.UpdateDb`: a crash partway through is modelled by `Store.RerunAfterInterruption` over the write log. Transactions and the timing of the commit are not modelled.

## Findings

| source | as written | input that shows it | evidently intended | confidence | as-written member | corrected member |
|---|---|---|---|---|---|---|
| scripts/pull_analysis.py:56-58 | Each week average divides by the count of non-NULL values with no guard | One row `(day 0, eurusd 1.1, sp500 NULL, treasury 4.0)`: the SP500 average divides by zero | The average is absent for a series with no value in the window, as the pandas branch's `mean()` gives | not executed | `PullAnalysis.Average`, `PullAnalysis.WeekWithoutSp500Raises` | `PullAnalysis.AverageOrAbsent`, `PullAnalysis.SummarizeGuarded` |
| scripts/pull_analysis.py:65-67 | Only the comparison value is guarded; a NULL today value is subtracted | Rows on days 0, 398 and 400, with sp500 400.0, 500.0 and NULL: the SP500 change on day 400 raises TypeError | The change is absent when either value is NULL | not executed | `PullAnalysis.Change`, `PullAnalysis.AbsentTodayInChangeRaises` | `PullAnalysis.ChangeOrAbsent`, `PullAnalysis.AbsentTodayGuardedIsAbsent` |
