# glib trading helpers in Dafny

This project models the core of `glib`, a small Python library of pandas helpers for trading research:

- **Backtest.** Two trade simulators turn a table of bars carrying a position signal into a trade ledger. The pip-based one is `trade_simulation`; the share-based one is `stock_trade_simulation`. Each simulator:
  - numbers the runs of equal signals (`value_grp`);
  - drops the run that is still open at the end of the table;
  - groups every closed run into one trade record (type, open and close time, open and close price, length);
  - prices the records, keeps the side it trades, and adds a running equity column.
- **AsianPnL.** Asian-handicap settlement of football bets:
  - the result of one bet against a line (`__asian_result__`);
  - the value, line and odds used for each of the modes home, away, over and under (`__calc_row_pnl__`);
  - the pnl and cumulative-pnl columns of a match table (`calc_pnl`).
- **Tools.** Resampling a candle table to a coarser timeframe:
  - every column of a time bucket is reduced by the candle rule (`timeframe_resampler_candle`): first open, highest high, lowest low, last close, summed volume;
  - buckets with a missing value are dropped (`timeframe_resampler`).

The Dafny modules follow that structure:

- `Common`: the option and result types, the error kinds, a table as column names plus rows, and the schema check `FirstMissing`.
- `Series`: `sum`, `cumsum`, `max` and `min` over a column.
- `Segmentation`: the run numbering. It has two forms:
  - the group-by definition of the trade records, `Grouped`;
  - a single-pass scan, `CompleteSegments`, proved equal to it.
- `Backtest`: the two simulators.
- `AsianPnL`: the settlement.
- `Tools`: the resampler.

Where the Python code changes state step by step (the running totals), the model is a method with a loop. That method is proved equal to a function, and the properties are proved about the function. The rest of the model is functions and lemmas.

Modelling choices:

- Prices, odds and amounts are exact `real`s.
- Goals are integers.
- Timestamps are integers in a fixed unit. A resampling frequency is a positive bucket width in that unit.
- A failed `assert` or a missing column becomes a `Failure` value. The row data stays unchanged.

## Model

| member | source | states |
|---|---|---|
| Common.FirstMissing | glib/__init__.py:87-92 | the column check fails exactly when some required column is absent, and it names the first absent one in the order checked |
| Segmentation.IdsStep | glib/__init__.py:96 | the first row is in run 1, and each later row's run number grows by one exactly when its signal differs from the previous row's |
| Segmentation.IdsMonotone | glib/__init__.py:59 | run numbers never decrease down the table |
| Segmentation.SameIdIffSteadySignal | glib/__init__.py:96 | two rows share a run number if and only if the signal stays the same from the first to the second |
| Segmentation.IdsCover | glib/__init__.py:96 | every run number from 1 up to a row's number is used by some row, so the groups are numbered without gaps |
| Segmentation.FinalRunDropped | glib/__init__.py:101-102 | a row is removed as part of the last, still open run exactly when the signal stays the same from that row to the end of the table |
| Segmentation.Grouped | glib/__init__.py:96-112 | the grouped table has one record per signal change, i.e. one per closed run |
| Segmentation.ClosedRunIsTrade | glib/__init__.py:105-112 | every closed run of equal signals is the record at its run number, with the run's signal as type; it opens at the first row's time and close, closes at the time and close of the row after the run, and its length is the run's row count |
| Segmentation.TradeIsClosedRun | glib/__init__.py:105-112 | conversely, every record is the record of a closed run, namely the rows with its group number |
| Segmentation.GroupIsClosedRun | glib/__init__.py:96-102 | the rows of every group number below the last one form a closed run |
| Segmentation.RunIsGroup | glib/__init__.py:68-75 | a closed run is a group whose first/last/size aggregation gives the run's record, and the next row starts the next group |
| Segmentation.GroupSpan | glib/__init__.py:69-74 | for a contiguous group, `first()` picks its first row, `last()` its last row and `size()` its row count |
| Segmentation.GroupedEnds | glib/__init__.py:60-63 | a record's open time and price come from its first row, and its close time and price from the row after its last row |
| Segmentation.ConsecutiveTrades | glib/__init__.py:60-63 | each record closes at the time and price at which the next record opens |
| Segmentation.CompleteSegments | glib/__init__.py:59-75 | the single left-to-right scan that closes a run at each signal change returns exactly the group-by records |
| Backtest.Select | glib/__init__.py:77 | the filter keeps exactly the records whose type it accepts, and never more records than it is given |
| Backtest.SelectAppend | glib/__init__.py:77 | filtering a concatenation is the concatenation of the filtered parts, so the kept records stay in table order |
| Backtest.SelectSingleton | glib/__init__.py:77 | a single record is kept exactly when its type is accepted; with SelectAppend this fixes the order and the repeats of the kept records |
| Backtest.EquitySnoc | glib/__init__.py:78 | appending a trade whose equity is the previous equity plus its pnl keeps the equity column equal to the cumsum of the pnl column |
| Backtest.PipLedgerColumns | glib/__init__.py:76-78 | the pip ledger has one row per record holding a position, in order, priced at `(close - open) * type * 10**digit * pip_profit - commission`, with equity the cumulative sum of the pnl column |
| Backtest.PipLedgerMembers | glib/__init__.py:77 | a record appears in the pip ledger if and only if its type is not 0 |
| Backtest.SettlePips | glib/__init__.py:76-78 | the running-equity loop builds exactly the pip ledger |
| Backtest.PipPnlSign | glib/__init__.py:76 | before commission, a buy gains exactly when the price rose and a sell gains exactly when it fell |
| Backtest.PipPnlMirror | glib/__init__.py:76 | reversing the type on the same prices negates the gross pnl |
| Backtest.Pow10 | glib/__init__.py:76 | `10**digit` is positive for every integer digit, and at least 1 when digit is not negative |
| Backtest.ExampleGrouped | glib/__init__.py:59-75 | on signals 0,0,1,1,1,-1,-1 the flat run and the buy run are recorded and the open sell run is dropped |
| Backtest.PipExample | glib/__init__.py:76-78 | on that table the one buy trade from 11 to 12 at one digit is worth 10 pips, and equity 10 |
| Backtest.TradeSimulation | glib/__init__.py:55-82 | a missing signal, time or close column fails naming it, an empty table fails, and otherwise the result is the pip ledger of the grouped records |
| Backtest.RoundHalfEven | glib/__init__.py:115 | the rounded value lies within one half of the input, and ties go to the even neighbour |
| Backtest.RoundHalfEvenUnique | glib/__init__.py:115 | those two properties determine the rounded value |
| Backtest.RoundCents | glib/__init__.py:115 | `round(x, 2)` is within half a cent of x |
| Backtest.WholeCentsUnchanged | glib/__init__.py:115 | an amount already in whole cents is unchanged by rounding to the cent |
| Backtest.RoundCentsNonNegative | glib/__init__.py:115 | rounding to the cent keeps a non-negative amount non-negative |
| Backtest.FeeNonNegative | glib/__init__.py:115 | the commission column is never negative when price, shares and both rates are not |
| Backtest.StockLedgerColumns | glib/__init__.py:113-118 | the share ledger has one row per buy record, in order, with the shares, `(close - open) * shares` profit, the rounded commission, pnl = profit - commission, and equity the cumulative sum of pnl |
| Backtest.StockLedgerMembers | glib/__init__.py:117 | a record appears in the share ledger if and only if its type is 1 |
| Backtest.SettleShares | glib/__init__.py:113-118 | the running-equity loop builds exactly the share ledger |
| Backtest.StockTradeSimulation | glib/__init__.py:85-122 | a missing one of the six asserted columns fails naming the first, an empty table fails, and otherwise the result is the share ledger of the grouped records |
| Series.SumSnoc | glib/__init__.py:78 | the sum of a column with one more value is the previous sum plus that value |
| Series.CumSum | glib/__init__.py:179 | entry i of `cumsum` is the sum of entries 0 to i |
| Series.CumSumSnoc | glib/__init__.py:179 | appending a value appends the previous total plus that value to the running totals |
| Series.Max | glib/__init__.py:27 | `max` of a non-empty column is one of its values and no value exceeds it |
| Series.Min | glib/__init__.py:28 | `min` of a non-empty column is one of its values and no value is below it |
| AsianPnL.NonWinsIgnoreOdds | glib/__init__.py:132-147 | a margin under +0.25 settles independently of the odds: a full loss below -0.25, a half loss at -0.25, a push between |
| AsianPnL.ResultBounds | glib/__init__.py:132-147 | with odds of at least 1 a bet wins at most `odd - 1` and loses at most the stake; it loses exactly when the margin is -0.25 or less, and (for odds above 1) wins exactly when the margin is +0.25 or more |
| AsianPnL.ResultMonotone | glib/__init__.py:132-147 | a larger value never settles worse against the same line and odds |
| AsianPnL.QuarterLineSplits | glib/__init__.py:132-147 | on whole goals, a quarter line settles as half the stake on each of the two neighbouring half and whole lines |
| AsianPnL.HalfLineSettlesFully | glib/__init__.py:132-147 | on whole goals, a half line never pushes: a full win or a full loss |
| AsianPnL.WholeLineSettlesFully | glib/__init__.py:132-147 | on whole goals, a whole line is a full win, a push on a tie with the line, or a full loss |
| AsianPnL.OppositeSides | glib/__init__.py:132-147 | backing the negated value against the negated line wins exactly when the original loses, pushes exactly when it pushes, and loses in full exactly when the original wins in full |
| AsianPnL.ModesMirror | glib/__init__.py:157-167 | under bets the negated total against the negated goal line at its own odds, and away bets the negated home margin against the negated home line |
| AsianPnL.OppositeModesSettleOpposite | glib/__init__.py:151-169 | when all odds exceed 1, over and under on a row settle in opposite directions, and so do home and away |
| AsianPnL.OtherModesAreAway | glib/__init__.py:166-167 | a mode other than home, over and under is settled as away |
| AsianPnL.QuarterHandicapExample | glib/__init__.py:151-169 | a home side giving 0.75 and winning the rest of the match 2-1 half wins, and three goals against a 2.5 line win over and lose under |
| AsianPnL.SettledColumns | glib/__init__.py:177-179 | each output row keeps its match, its pnl is the settlement of its bet in the mode, and its cumulative pnl is the sum of the settlements up to it |
| AsianPnL.CalcPnl | glib/__init__.py:174-180 | a mode outside home, away, over and under fails; otherwise every row is settled and carries its running total |
| Tools.ReduceColumn | glib/__init__.py:24-32 | a column reduces to a value exactly when the bucket is not empty and the column is one the rule names |
| Tools.CandleRule | glib/__init__.py:25-30 | open takes the first value, high the largest, low the smallest, close the last, and volume the sum |
| Tools.BucketCandle | glib/__init__.py:24-32 | a bucket's candle opens at its first row's open, closes at its last row's close, has as high and low the extreme values of its rows, and as volume the rows' total volume |
| Tools.ReduceBucket | glib/__init__.py:46 | a bucket yields a row exactly when it is not empty and every column can be reduced, and that row is stamped with the bucket's start |
| Tools.BucketMembers | glib/__init__.py:45-46 | a bucket holds exactly the rows whose time falls into its interval |
| Tools.BucketBounds | glib/__init__.py:46 | each time lies in the bucket `[k * width, (k + 1) * width)` it is assigned to |
| Tools.DropnaMembers | glib/__init__.py:46 | `dropna` keeps exactly the present values |
| Tools.DropnaAscending | glib/__init__.py:46 | `dropna` keeps the time order of the bins |
| Tools.ResampleSound | glib/__init__.py:46-49 | every output row is the candle of some non-empty bucket |
| Tools.ResampleComplete | glib/__init__.py:46-49 | the bucket of every input row yields a candle exactly when every column can be reduced, and that candle is in the output |
| Tools.IrreducibleColumnEmptiesResult | glib/__init__.py:24-32 | a column the candle rule does not name (other than time) empties the result |
| Tools.ResampleAscending | glib/__init__.py:46-49 | the output rows are in strictly increasing time order |
| Tools.ResampleOnBoundaries | glib/__init__.py:46-47 | every output time is the start of a bucket, a multiple of the width |
| Tools.ResamplePreservesWellFormed | glib/__init__.py:24-32 | if every input row has low <= open, close <= high, so does every output candle |
| Tools.ResampleIdentity | glib/__init__.py:35-51 | resampling time-ordered rows that already sit on bucket starts returns them unchanged |
| Tools.TableIdentity | glib/__init__.py:35-51 | a table that passes the column checks, has only reducible columns and is already at the target timeframe comes back unchanged |
| Tools.ResampleTable | glib/__init__.py:35-51 | a missing time, open, high, low or close column fails naming the first one; otherwise the table keeps its columns and its rows are the resampled rows, in increasing time order |
| Tools.ResampleAsWritten | glib/__init__.py:46 | the code as written fails on every table that passes the column checks, because `self` is undefined in the static method |
| Tools.AsWrittenNeverResamples | glib/__init__.py:24-46 | a one-row daily candle table raises in the code as written, and the intended operation returns it unchanged |

## Left out

- The indicator helpers at the top of the module and the packaging script: they are outside this core.
- Floating-point rounding and NaN are not modelled. Prices, odds and amounts are exact reals. `10**digit` is exact even for a negative digit. A missing value is an `Option`.
- pandas internals are not modelled: indexes, dtypes, `reset_index`, column order inside a row, and copies. Tables are a list of column names plus typed rows.
- Timestamp parsing (`pd.to_datetime`) and pandas frequency strings are not modelled. Times are integers, and a frequency is a positive bucket width.
- Buckets are the intervals `[k * width, (k + 1) * width)` counted from time 0. pandas starts fixed-frequency bins at midnight of the first row's day (its default origin). The two agree when the width divides a day, as with 1D, 1H or 15min. They differ for widths such as 7min, 5H or 2D, and this model does not capture that origin. Calendar frequencies such as months are not modelled either.
- Tools.Resample: rows inside a bucket are taken in input order. pandas sorts by the index, which agrees whenever the input is already ordered by time. The identity lemmas assume that order.
- Tools.Candle: only the time and the five candle columns are carried. Any other column is modelled by name only: it cannot be reduced, and so it empties the result, as it does in Python (where the rule returns `None` and `dropna` removes the row). Its values are not represented.
- Tools.ReduceBucket: the volume field is computed even when the table has no volume column. The table keeps only its own columns, so the field is never shown.
- Backtest.TradeSimulation: the Python function writes its helper columns into the caller's frame, mutating the argument. The model returns a new ledger and leaves the input unchanged.
- Backtest.TradeSimulation: only `signal` is asserted in the source; a missing `time` or `close` column raises at first use. Both are modelled as the same `MissingColumn` failure, checked in the order signal, time, close.
- Backtest.PipLedgerColumns: the ledger filters the records before pricing them, while pandas prices every record and then filters. The two agree because each pnl depends only on its own record.
- An empty input table makes `df.iloc[-1]` raise. It is modelled as an `EmptyInput` failure.
- The module has no import statements at all, so `pd`, `np`, `ta` and `pandas_ta` are unbound. As written, `pd.DataFrame` (lines 68 and 105) and `pd.to_datetime` (line 44) would raise `NameError`. The model assumes these names are bound to pandas, numpy and the two indicator packages. Calls into pandas and numpy are modelled by their documented results: `cumsum`, `max`, `min`, `sum`, `first`/`last`/`size` of a group, and half-to-even `round`.
- AsianPnL.CalcPnl: the rows are typed match rows, so a table that lacks a column the row settlement reads is not modelled. Such columns are `gh`, `ga`, `ghf` and `gaf`, and the mode's line and odds column. In Python that raises `KeyError` out of `apply` (lines 152-167, 178).
- Default arguments are not modelled; every parameter is passed explicitly. The defaults in the source are:
  - `digit=1`, `pip_profit=1` and `commission=0` for trade_simulation;
  - `shares=1`, `commission=0.5` and `vat=7.0` for stock_trade_simulation;
  - `signal='home'` for `__calc_row_pnl__` and calc_pnl;
  - `timeframe='1D'` for timeframe_resampler.
- Tools.FirstBucket: its contract states only that it bounds the buckets of the rows from below, not that it is the least such bucket.
- Tools.LastBucket: its contract states only that it bounds the buckets of the rows from above, not that it is the greatest such bucket.
- Tools.Dropna: its contract states only a length bound; membership and order are stated by DropnaMembers and DropnaAscending.

## Findings

| source | as written | input that shows it | evidently intended | confidence | as-written member | corrected member |
|---|---|---|---|---|---|---|
| glib/__init__.py:46 (and :24) | the static method `timeframe_resampler` passes `self.timeframe_resampler_candle` to `apply`, but no `self` exists, so every call that passes the column checks raises `NameError`; the candle function also declares an extra `self` parameter | a one-row table with columns time, open, high, low, close and the time on a day boundary, resampled daily | each column of each time bucket is reduced by the candle rule, empty buckets are dropped and the table keeps its columns (for this input: the same table back) | not executed | Tools.AsWrittenNeverResamples | Tools.ResampleTable |
