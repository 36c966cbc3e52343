# generate_features: a verified model of the FX feature and label builder

The repository trains and serves a classifier that predicts whether a
currency pair's one-minute close will be higher five minutes later. Training
(`src/train.py`) and inference (`src/predict.py`) both turn a table of candles
into model inputs through `generate_features` in `src/features.py`. This
project models that function and proves what each output row holds.

`generate_features` does the following:

1. It sorts the candles by `event_time`, working on a copy.
2. It adds these columns:
   - `sma_20`, a 20-close rolling mean;
   - `rsi`, a hand-rolled 14-delta RSI;
   - `returns`, the step return (`pct_change`);
   - `lag_returns_1..3`, the returns shifted by 1, 2 and 3;
   - `target`, a 0/1 label comparing each close with the close five rows later.
3. It drops every row that still holds a NaN.

The model follows the same two passes:

- `Features.Annotate` computes every column as a sequence of `Option<real>`, with `None` standing for NaN.
- `Features.DropNa` keeps the complete rows in order.

Modules:

- `Wrappers`: the `Option` type.
- `Candles`:
  - the candle record, with a positive `Price` close;
  - the `event_time` order. The key is an ISO-8601 string, written at `src/data_loader.py:29` and read back as text, so pandas compares it code point by code point; `KeyLe` models that order.
  - `SortByTime`, a sort by that key.
- `Series`: the pandas column operations used here. These are `diff`, `where`, unary minus, `rolling(w).mean()`, `shift`, `pct_change`, and `>` followed by `astype(int)`. Each follows pandas' NaN rules.
- `Features`: the columns, the two passes and `GenerateFeatures`.
- `Stats`: sums and means of real sequences. Reference definitions use them.
- `ColumnFacts`:
  - what each column holds at sorted position `i`, stated against reference definitions on the closes alone (trailing means, up and down moves, this code's simple-mean RSI, close ratios);
  - that every column except `target` depends only on the closes up to `i`, and that from position 19 on no column depends on the closes more than 19 positions back.
- `PipelineFacts`: which rows survive, in what order and with which values; how many there are; why a run on a prefix of the candles gives the same features; and why a run on a suffix, as inference's newest 100 candles are within training's newest 5000 (`src/predict.py:15-19`, `src/train.py:17`), gives the whole run's last rows.

The code differs from the system's documented design in several places. In each case this model follows the code:

- Duplicate timestamps raise no error. The sort simply runs.
- The last five rows get `target = 0` rather than a missing label, because a comparison with NaN is false. So `target` never removes a row.
- When the mean loss and the mean gain are both zero, the RSI is NaN (numpy's 0/0), not 100. The row is then dropped.
- Returns are undefined only at position 0. So `lag_returns_k` is undefined for the first `k + 1` rows, not the first `k`.
- With no flat RSI window, N candles give max(0, N − 19) rows, starting at sorted position 19. The documented design's counts are N − 25 for training and N − 20 for inference.

## Model

| member | source | states |
|---|---|---|
| Candles.SortByTime | src/features.py:6 | `sort_values('event_time')`: the result is in ascending `event_time` order, has the input's length and is a permutation of the input |
| Candles.Insert | src/features.py:6 | inserting one candle into a sorted sequence keeps it sorted and adds exactly that candle |
| Candles.SortByTimeOfSorted | src/features.py:6 | sorting a table that is already in `event_time` order returns it unchanged |
| Candles.SortedPermutationUnique | src/features.py:6 | two sorted permutations of the same candles are equal when the keys are distinct |
| Candles.AnySortedArrangementIsSortByTime | src/features.py:6 | with distinct timestamps, every ascending arrangement of the input is the one `SortByTime` produces, so the choice of sort algorithm does not matter |
| Candles.DistinctKeysPermutation | src/features.py:6 | reordering the candles keeps the timestamps distinct |
| Candles.KeyLePrefixFirst | src/features.py:6 | `KeyLe`, the `event_time` comparison, puts a string no later than any string it is a prefix of, as Python's `str` order does |
| Candles.KeyLeReflexive | src/features.py:6 | `KeyLe` is reflexive |
| Candles.KeyLeAntisymmetric | src/features.py:6 | `KeyLe` is antisymmetric: two keys each no later than the other are equal |
| Candles.KeyLeTransitive | src/features.py:6 | `KeyLe` is transitive |
| Candles.KeyLeTotal | src/features.py:6 | `KeyLe` is total: any two keys are ordered one way or the other |
| Series.Diff | src/features.py:13 | `diff()`: one entry per input entry; `Features.Delta` applies it to the closes, and its values there are stated by `ColumnFacts.DeltaAt` |
| Series.Where | src/features.py:14-15 | `where(cond, 0)`: one entry per input entry; on the deltas it gives the up moves and the negated down moves (`ColumnFacts.GainInput`, `ColumnFacts.LossInput`) |
| Series.Negate | src/features.py:15 | unary minus: one entry per input entry; on the kept falls it gives the down move sizes (`ColumnFacts.LossInput`) |
| Series.RollingMean | src/features.py:10 | `rolling(w).mean()`: one entry per input entry; its values are stated by `ColumnFacts.RollingMeanOfLift` |
| Series.Shift | src/features.py:24-27 | `shift(k)`: one entry per input entry; its values on the returns and closes are stated by `ColumnFacts.LagAt` and `ColumnFacts.TargetAt` |
| Series.PctChange | src/features.py:20 | `pct_change()`: one entry per close; its values are stated by `ColumnFacts.StepReturns` |
| Series.GreaterThan | src/features.py:27 | `(a > b).astype(int)`: one entry per position; its values on the shifted closes are stated by `ColumnFacts.TargetAt` |
| Features.Sma20 | src/features.py:10 | the `sma_20` column, one entry per close; its value at each position is stated by `ColumnFacts.SmaAt` |
| Features.Gain | src/features.py:13-14 | the `gain` column, one entry per close; its value is stated by `ColumnFacts.GainAt` |
| Features.Loss | src/features.py:13-15 | the `loss` column, one entry per close; its value is stated by `ColumnFacts.LossAt` |
| Features.RsiOf | src/features.py:16-17 | the RSI at one position is defined iff both means are and their sum is positive; it then lies in [0, 100], and it is exactly 100 iff the gain is positive and the loss zero (numpy's `g/0 = inf`) |
| Features.Rsi | src/features.py:16-17 | the `rsi` column, one entry per close; its value is stated by `ColumnFacts.RsiMatchesReference` and `ColumnFacts.RsiAt` |
| Features.Returns | src/features.py:20 | the `returns` column, one entry per close; its values are stated by `ColumnFacts.StepReturns` |
| Features.LagReturns | src/features.py:23-24 | the `lag_returns_k` column, one entry per close; its value is stated by `ColumnFacts.LagAt` |
| Features.Target | src/features.py:27 | the `target` column, one entry per close; its value is stated by `ColumnFacts.TargetAt` |
| Features.GainLossNonNegative | src/features.py:13-15 | every present entry of `gain` and `loss` is non-negative |
| Features.Annotate | src/features.py:6-27 | the first pass has one row per sorted candle, in the same order |
| Features.KeptIndices | src/features.py:30 | the positions `dropna` keeps are strictly increasing, in range, and each holds a complete row |
| Features.CompleteIgnoresTarget | src/features.py:30 | `Features.Complete`, the per-row NaN test of `dropna`, looks only at the six derived feature columns: changing a row's `target` never changes whether it is kept |
| Features.CompleteRowsKept | src/features.py:30 | every complete row is among the kept positions, which is the converse of `KeptIndices` |
| Features.DropNa | src/features.py:30 | output row `j` is the `j`-th complete row with its columns unwrapped, and there is one output row per kept position |
| Features.DropNaCandles | src/features.py:30 | every row `dropna` keeps carries a candle of its input |
| Features.GenerateFeatures | src/features.py:4-32 | at most as many rows as candles, and every output candle comes from the input table |
| ColumnFacts.RollingMeanOfLift | src/features.py:10 | `rolling(w).mean()` on a column without NaN is the mean of the `w` entries ending at `i` once the window is full, and NaN before that |
| ColumnFacts.SmaAt | src/features.py:10 | `sma_20[i]` is the mean of `close[i-19..i]` for `i >= 19` and NaN before |
| ColumnFacts.SmaWithinWindow | src/features.py:10 | a defined `sma_20` lies between the lowest and the highest close of its window |
| ColumnFacts.DeltaAt | src/features.py:13 | `Features.Delta`, `delta = close.diff()`, is NaN at position 0 and the close-to-close change `close[j] - close[j-1]` at every later position |
| ColumnFacts.GainInput | src/features.py:13-14 | `delta.where(delta > 0, 0)` is exactly the sequence of upward moves, with the NaN first delta becoming 0 |
| ColumnFacts.LossInput | src/features.py:13-15 | `-delta.where(delta < 0, 0)` is exactly the sequence of downward move sizes, with the NaN first delta becoming 0 |
| ColumnFacts.GainAt | src/features.py:13-14 | `gain[i]` is the mean of the 14 upward moves ending at `i` for `i >= 13`, and NaN before |
| ColumnFacts.LossAt | src/features.py:13-15 | `loss[i]` is the mean of the 14 downward move sizes ending at `i` for `i >= 13`, and NaN before |
| ColumnFacts.RsiAt | src/features.py:16-17 | the RSI is NaN before 13; it is exactly 100 for zero loss and positive gain; it is NaN for zero loss and zero gain; otherwise it is `100 - 100/(1 + g/l)` and lies in [0, 100) |
| ColumnFacts.RsiAlgebra | src/features.py:17 | `100 - 100/(1 + g/l)` equals `100 g / (g + l)` for a positive loss |
| ColumnFacts.RsiClosedForm | src/features.py:16-17 | the RSI is defined iff the window is full and `g + l > 0`; it then equals `100 g/(g + l)`, lies in [0, 100], and is exactly 100 iff the loss is zero |
| ColumnFacts.RsiMatchesReference | src/features.py:16-17 | the RSI column equals, at every position, an independent reference: this code's simple-mean RSI `100 g/(g + l)` (plain 14-move means, not Wilder's smoothing), defined from position 13 on with the move into position 0 counted as 0, unless the window is flat |
| ColumnFacts.NoGainIff | src/features.py:14 | the mean gain is non-negative, and zero iff the close never rose within the 14 deltas |
| ColumnFacts.NoLossIff | src/features.py:15 | the mean loss is non-negative, and zero iff the close never fell within the 14 deltas |
| ColumnFacts.RsiUndefinedIffFlat | src/features.py:16-17 | both means are zero iff the close stayed flat across the window |
| ColumnFacts.RsiDefinedIff | src/features.py:16-17 | the RSI is defined at `i` iff `i >= 13` and the close moved within the 14 deltas ending at `i` |
| ColumnFacts.RisingWindowSaturates | src/features.py:16-17 | a close that rose at every delta of the window gives an RSI of exactly 100 |
| ColumnFacts.FallingWindowBottoms | src/features.py:16-17 | a close that fell at every delta of the window gives an RSI of exactly 0 |
| ColumnFacts.StepReturns | src/features.py:20 | the `returns` column is NaN at position 0 and holds `Some` of the `j`-th step return at position `j + 1`, so the step returns are exactly its defined entries |
| ColumnFacts.CompoundReturnsRebuildsCloses | src/features.py:20 | compounding the first close by the defined entries of `returns` (`StepReturns`) gives back every close, so the column loses nothing but the starting price |
| ColumnFacts.LagAt | src/features.py:23-24 | `lag_returns_k[i]` is `returns[i-k]`; it is defined iff `i >= k + 1`, and then equals `close[i-k]/close[i-k-1] - 1` |
| ColumnFacts.TargetAt | src/features.py:27 | `target[i]` is 0 or 1, and it is 1 iff `close[i+5]` exists and is strictly higher than `close[i]`, so the last five rows get 0 |
| ColumnFacts.TargetExample | src/features.py:27 | for closes `[1.0, 1.1, 1.05, 1.2, 1.3, 1.25, 0.9]`, the first label is 1, the second is 0 and the last is 0 |
| ColumnFacts.SmaPrefix | src/features.py:10 | `sma_20[i]` is the same on any prefix of the closes that contains `i` |
| ColumnFacts.WindowsPrefix | src/features.py:13-15 | the 14-delta up and down windows ending at `i` are the same on any prefix that contains `i` |
| ColumnFacts.RsiPrefix | src/features.py:13-17 | `rsi[i]` is the same on any prefix of the closes that contains `i` |
| ColumnFacts.ReturnsPrefix | src/features.py:20 | `returns[i]` is the same on any prefix of the closes that contains `i` |
| ColumnFacts.LagPrefix | src/features.py:23-24 | `lag_returns_k[i]` is the same on any prefix of the closes that contains `i` |
| ColumnFacts.SmaSuffix | src/features.py:10 | `sma_20` at position `i >= 19` of a later slice `c[p..]` equals `sma_20` at `p + i` of the whole |
| ColumnFacts.WindowsSuffix | src/features.py:13-15 | the 14-delta windows at position `i >= 14` of a later slice are the whole's at `p + i` |
| ColumnFacts.RsiSuffix | src/features.py:13-17 | `rsi` at position `i >= 14` of a later slice equals `rsi` at `p + i` of the whole |
| ColumnFacts.ReturnsSuffix | src/features.py:20 | `returns` at position `i >= 1` of a later slice equals `returns` at `p + i` of the whole |
| ColumnFacts.LagSuffix | src/features.py:23-24 | `lag_returns_k` at position `i >= k + 1` of a later slice equals its value at `p + i` of the whole |
| ColumnFacts.TargetSuffix | src/features.py:27 | `target` at every position `i` of a later slice equals `target` at `p + i` of the whole, since the slice runs to the end |
| PipelineFacts.CompleteIff | src/features.py:10-30 | row `i` survives `dropna` iff `i >= 19` and its 14-delta RSI window is not flat; `target` never removes a row |
| PipelineFacts.KeptFromPosition | src/features.py:30 | when exactly the rows from `m` on are complete, `dropna` keeps positions `m, m+1, ...` and nothing else |
| PipelineFacts.KeptBound | src/features.py:30 | when no row before `m` is complete, at most `max(0, N - m)` rows are kept |
| PipelineFacts.SuffixKept | src/features.py:30 | when exactly the rows from `m` on are complete, the output is the candles from position `m` on |
| PipelineFacts.DropNaPrefix | src/features.py:30 | filtering a prefix of the rows gives a prefix of the filtered rows |
| PipelineFacts.DropNaIgnoresTarget | src/features.py:27-30 | rows that differ only in `target` are kept at the same positions with the same features |
| PipelineFacts.AnnotatePrefix | src/features.py:10-24 | every feature column of row `i` is the same when computed on any prefix of the sorted candles that contains row `i` |
| PipelineFacts.PrefixConsistency | src/features.py:4-32 | on a sorted table, running on the first `k` candles gives a prefix of the full run's rows, with identical candles and feature values |
| PipelineFacts.DropNaAppend | src/features.py:30 | filtering two blocks of rows one after the other is filtering them together |
| PipelineFacts.NoneCompleteDropped | src/features.py:30 | rows none of which is complete are all dropped |
| PipelineFacts.WarmUpDropped | src/features.py:10-30 | the rows before position 19 never survive: fewer than 20 candles give nothing, and otherwise the output is the filtered rows from 19 on |
| PipelineFacts.AnnotateSuffix | src/features.py:6-27 | row `i >= 19` of the first pass over a later slice `s[p..]` is row `p + i` of the whole, every column alike |
| PipelineFacts.AnnotatedTail | src/features.py:6-27 | from position 19 on, the first pass over a later slice is the whole's first pass from `p + 19` on |
| PipelineFacts.FilteredTail | src/features.py:30 | filtering a tail of the rows gives the last rows of the filtered whole |
| PipelineFacts.SuffixRows | src/features.py:6-30 | both passes over a later slice `s[p..]` keep exactly the whole's complete rows from position `p + 19` on, and these are the whole's last output rows |
| PipelineFacts.SuffixConsistency | src/features.py:4-32 | on a sorted table, running on the later candles `s[p..]` (inference's newest 100 within training's newest 5000) returns exactly the full run's rows from sorted position `p + 19` on, every column and `target` alike, and they are the full run's last rows; fewer than 20 candles in the slice give none |
| PipelineFacts.AtMostOneRowPerFullWindow | src/features.py:10-30 | N candles give at most max(0, N - 19) rows, so fewer than 20 candles give none |
| PipelineFacts.CompletePositions | src/features.py:10-30 | with no flat RSI window from position 19 on, exactly the rows from 19 on are complete |
| PipelineFacts.SortedRowCount | src/features.py:10-30 | on a sorted table with no flat RSI window from position 19 on, the kept rows are exactly the candles from position 19 on |
| PipelineFacts.RowCount | src/features.py:4-32 | with no flat RSI window, N candles give exactly max(0, N - 19) rows: the sorted candles from position 19 on, in order |
| PipelineFacts.CompleteRowSma | src/features.py:10 | a complete row is at position 19 or later, and its `sma_20` is the mean of the last 20 closes |
| PipelineFacts.CompleteRowRsi | src/features.py:16-17 | a complete row's RSI is the reference RSI at its position |
| PipelineFacts.CompleteRowReturns | src/features.py:20-24 | a complete row is at position 4 or later, and its four return columns are the close ratios at its position and the three before |
| PipelineFacts.RowTarget | src/features.py:27 | every row's label is 0 or 1, and it is 1 iff the close five rows later exists and is higher |
| PipelineFacts.CompleteRowMatches | src/features.py:10-27 | every complete row, once unwrapped, holds all of its reference values |
| PipelineFacts.SurvivingRowValues | src/features.py:4-32 | output row `j` is the sorted candle at some position `i`; every column equals its reference value computed from the closes at `i` |
| PipelineFacts.NonFlatRowKept | src/features.py:10-30 | every sorted position from 19 on whose RSI window is not flat is kept, which is the converse of `SurvivingRowValues` |
| PipelineFacts.OutputAscending | src/features.py:6-30 | the output rows are in ascending `event_time` order, and with distinct input timestamps no two rows share one |
| PipelineFacts.AnySortedArrangementGivesSameRows | src/features.py:6-32 | with distinct timestamps, running the column and filter passes on any ascending arrangement of the candles gives exactly the output of `GenerateFeatures` |

## Left out

- File, database and network I/O are not modelled. This covers `src/data_loader.py` (download, environment settings, batched upsert), `src/train.py` (fetch, model fitting, the chronological train/test split, saving the model) and `src/predict.py` (fetch, model loading, prediction, the insert of prediction records).
- Arithmetic is exact over the reals, not IEEE floating point. NaN is `None`. Infinity appears only in the RSI's zero-loss case, where it becomes an explicit case split that yields 100.
- Closes are positive reals (`Price`), as the candle data model requires. With a zero close, `pct_change` would produce infinities, and that case is not modelled. NaN in the input columns is not modelled either.
- `open_price`, `high_price`, `low_price`, `volume`, `id` and `pair_name` are carried through the rows unchanged. None of the computed columns reads them, but `dropna()` at `src/features.py:30` checks them too.
- Features.GenerateFeatures: takes a table that has the candle columns and no NaN in any of them. Two cases are therefore not captured. First, an empty fetch gives a `pd.DataFrame` with no columns (`src/predict.py:21`, `src/train.py:18`), so `sort_values('event_time')` raises `KeyError`, while the model returns no rows. Second, a NaN in any column of the table, including `open_price`, `volume`, `id` or any other column `select("*")` returns, makes `dropna()` drop that row, while the model keeps it.
- Candles.SortByTime: a stable insertion sort stands in for pandas' default quicksort, which is not stable. With duplicate timestamps, pandas may order equal-key rows differently. With distinct timestamps the two agree (`AnySortedArrangementIsSortByTime`). With duplicates, the model fixes one of the orders pandas may produce.
- Features.RsiOf: requires non-negative mean gain and loss. Both columns always satisfy this, as `Features.GainLossNonNegative` proves, so the requirement excludes no input that `generate_features` can produce.
- The copy made at `src/features.py:6` is implicit. The model works on values, so the caller's table cannot change.
- The optional extended indicators are not part of this model: EMA, MACD, Bollinger bands, ATR, and configurable windows and horizons. They do not appear in `src/features.py`. The windows 20 and 14, the lag count 3 and the horizon 5 are the source's literals.
- PipelineFacts.RowCount: gives the exact row count only when no 14-delta RSI window from position 19 on is flat. A flat window removes its row, and `PipelineFacts.AtMostOneRowPerFullWindow` still bounds the count.
