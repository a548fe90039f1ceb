# Quant stock screener: scoring and ranking core in Dafny

This project models the scoring and ranking pipeline of the `quant_investor`
stock screener. Each ticker gets factor scores from its own price history and
fundamentals, and the ranker orders the tickers by score. The model covers:

- **momentum** (`compute_momentum`): a trailing-window price return per ticker.
  A ticker with no Close column, too few closes or a zero start close is
  omitted.
- **technical scoring** (`compute_technical_scores`): signals read from the
  latest row once indicators are added (SMA, EMA crossover, RSI, MACD), plus
  their weighted composite. It also models the column checks of
  `add_technical_indicators`: keep-first de-duplication of column labels and
  the early return when a required column is missing.
- **fundamental scoring** (`compute_fundamental_scores`): four piecewise
  scorers (P/E, dividend yield, P/B, ROE) and their 0.3/0.3/0.2/0.2 composite.
  It also covers the percent conversion of the dividend yield.
- **ranking** (`rank_by_score`): a stable descending sort followed by a Python
  slice `[:top_n]`.
- **Alpha Vantage adapter rules**: the period-to-outputsize mapping, the `.L`
  symbol rewrites, the title-case / select / rename of the price columns, and
  the Date-column rename.

A Python dict and a pandas column index both keep insertion order. Both are
modelled as sequences of `(key, value)` pairs (module `Keyed`). `Get` returns
the first match; `Set` overwrites in place or appends; `KeepFirst` is the
keep-first de-duplication. Prices and scores are exact `real`s. A NaN cell is
`None`.

The loops of the source are methods: `ComputeMomentum`,
`ComputeTechnicalScores` and `ComputeFundamentalScores`. Each is proved equal
to a function over the input dict, and the properties are proved about those
functions. The pure expressions are functions with their own contracts, and
the ranker is a function.

Modules and files:

- `options.dfy`, `keyed.dfy`: shared datatypes and dict/frame operations.
- `momentum.dfy`: factors.py.
- `technical.dfy`: technical.py.
- `fundamentals.dfy`: fundamentals.py.
- `rank.dfy`: rank.py.
- `alpha_vantage.dfy`: providers/alpha_vantage.py.

Some behaviours of the code are easy to misread; the model states each one:

- **Momentum window.** The window counts the latest bar
  (`closes.iloc[-window]`). So `[100, 110]` with window 1 gives 0, not 0.10;
  window 2 gives 0.10 (`Momentum.WindowCountsLatestBar`).
- **Negative `top_n`.** A negative `top_n = -k` does not give an empty list:
  it is a Python slice that drops the last `k` entries
  (`Ranking.RankNegative`).
- **Prefix property.** The result for n is a prefix of the result for m ≥ n
  only when n and m are on the same side of 0. With five entries, `top_n
  = -1` gives four entries and `top_n = 0` gives none. `Ranking.RankPrefix`
  states it for that case.
- **Idempotence.** Ranking twice is idempotent for `top_n ≥ 0`
  (`Ranking.RankIdempotent`). A negative `top_n` drops `k` more entries each
  time (`Ranking.RankNegativeTwice`).

## Model

| member | source | states |
|---|---|---|
| `Momentum.WindowReturn` | src/quant_investor/factors.py:14-20 | present iff there is a Close column, at least `window` closes and a non-zero start close `closes[n-window]`; then `end == start * (1 + r)`, `window == 1` gives 0, for a positive start the return is positive iff the price rose, and it is at least -1 when the end price is not negative |
| `Momentum.ComputeMomentum` | src/quant_investor/factors.py:6-21 | the loop over tickers builds exactly `MomentumScores`: one entry per ticker whose window return exists, in input order |
| `Momentum.MomentumScores` | src/quant_investor/factors.py:12-21 | at most one entry per input ticker |
| `Momentum.MomentumScoresConcat` | src/quant_investor/factors.py:13-20 | the scores of two consecutive runs of tickers are the concatenation of their scores: each ticker is scored on its own |
| `Momentum.MomentumLookup` | src/quant_investor/factors.py:13-20 | for a dict of tickers, looking up a ticker in the result gives its window return, and nothing for a ticker that is not in the input |
| `Momentum.MomentumKeys` | src/quant_investor/factors.py:13-20 | the result's tickers are a subsequence of the input's (input order, only input tickers), with no ticker twice |
| `Momentum.WindowReturnScaled` | src/quant_investor/factors.py:17-20 | multiplying every close by a positive constant leaves the window return unchanged, including whether it exists |
| `Momentum.MomentumScaleInvariant` | src/quant_investor/factors.py:13-20 | rescaling one ticker's closes by a positive constant leaves the whole result unchanged, for that ticker and every other |
| `Momentum.WindowCountsLatestBar` | src/quant_investor/factors.py:15-20 | `[100, 110]` gives 0 with window 1 and 0.1 with window 2, `[50, 45]` gives -0.1 with window 2, and window 3 omits `[100, 110]` |
| `Keyed.Get` | src/quant_investor/technical.py:100 | `d.get(k)` / the first column labelled `k`: nothing exactly when `k` is absent, otherwise a value stored under `k` |
| `Keyed.Set` | src/quant_investor/technical.py:51 | after `df[k] = v` the label `k` names `v`; the frame grows by one exactly when `k` was new |
| `Keyed.KeepFirst` | src/quant_investor/technical.py:19-20 | the de-duplicated frame has no label twice and has exactly the labels of the input |
| `Keyed.KeepFirstSpec` | src/quant_investor/technical.py:19-20 | keep-first de-duplication leaves no label twice, keeps every label, keeps labels in input order, and each label names its first column of the input |
| `Keyed.KeepFirstIdempotent` | src/quant_investor/technical.py:19-20 | de-duplication changes nothing when labels are already distinct, and applying it twice equals applying it once |
| `Keyed.SetGet` | src/quant_investor/technical.py:51-53 | after `df[k] = v` the label `k` names `v` and every other label names what it named before |
| `Keyed.SetKeys` | src/quant_investor/technical.py:51-53 | `df[k] = v` adds no label but `k`, grows the frame by one exactly when `k` was new, and keeps labels distinct |
| `Technical.WithIndicators` | src/quant_investor/technical.py:16-26 | when a required column is missing, the frame is returned with only its de-duplicated labels: no indicator column is added |
| `Technical.MissingFrom` | src/quant_investor/technical.py:23-24 | a column is reported missing iff it is required and absent from the frame |
| `Technical.SetAllSpec` | src/quant_investor/technical.py:51-66 | assigning the indicator columns one after another: each indicator label names its new value, every other label keeps its value, and labels stay distinct |
| `Technical.IndicatorColumnsDistinct` | src/quant_investor/technical.py:51-66 | the nine indicator columns are SMA_20, SMA_50, SMA_200, EMA_12, EMA_26, RSI, MACD, MACD_signal and MACD_diff, in that order, with no label twice |
| `Technical.WithIndicatorsSpec` | src/quant_investor/technical.py:16-66 | after `add_technical_indicators` labels are distinct; a label is present iff it was in the frame or it is an indicator label and no required column was missing; indicator values override the frame's, and every other label keeps its first column |
| `Technical.WithIndicatorsClose` | src/quant_investor/technical.py:16-66 | adding indicators never changes the Close column: it is present iff it was, with the first Close value |
| `Technical.RequiredHasClose` | src/quant_investor/technical.py:23-26 | a frame that passes the required-columns check has a Close column |
| `Technical.NoIndicatorCell` | src/quant_investor/technical.py:23-26 | when a required column is missing, no indicator column is added |
| `Technical.IndicatorCells` | src/quant_investor/technical.py:51-66 | each indicator label the scorer reads names that indicator's latest value |
| `Technical.IndicatorCell` | src/quant_investor/technical.py:51-66 | when the required columns are present, each indicator value is readable from the frame with indicators |
| `Technical.RelativeGap` | src/quant_investor/technical.py:100-115 | for a positive average, `price == avg * (1 + r)` and the sign of `r` is the sign of `price - avg`; a non-positive average gives 0 |
| `Technical.RsiSignal` | src/quant_investor/technical.py:118-131 | always in [-0.4, 0.5]; on [30, 70] it is `(rsi - 50) / 50`, below 30 it is 0.5, above 70 it is -0.3 |
| `Technical.RsiBoundaries` | src/quant_investor/technical.py:123-131 | RSI 30 gives -0.4 and just below 30 gives 0.5; RSI 70 gives 0.4 and just above 70 gives -0.3 |
| `Technical.MacdGap` | src/quant_investor/technical.py:134-140 | a zero signal line gives 0; otherwise `macd - signal == abs(signal) * r`, so the sign of `r` is the sign of `macd - signal` |
| `Technical.SmaSignal` | src/quant_investor/technical.py:100-106 | a signal exactly when the SMA column exists and is not NaN; for a positive SMA it is positive iff the close is above it and negative iff below; 0 for a non-positive SMA |
| `Technical.EmaSignal` | src/quant_investor/technical.py:109-115 | a signal exactly when both EMA columns exist; for a positive EMA26 (NaN read as 0) `ema12 == ema26 * (1 + r)`, otherwise 0 |
| `Technical.RsiOf` | src/quant_investor/technical.py:118-131 | a signal exactly when the RSI column exists and is not NaN, always in [-0.4, 0.5] |
| `Technical.MacdOf` | src/quant_investor/technical.py:134-140 | a signal exactly when both MACD columns exist; 0 when the signal line is 0, otherwise positive iff MACD is above its signal line |
| `Technical.Composite` | src/quant_investor/technical.py:143-149 | no signal at all gives 0, and five equal signals give that value |
| `Technical.LatestScores` | src/quant_investor/technical.py:96-150 | EMA and MACD signals exist iff their columns exist, the RSI signal is in [-0.4, 0.5], and the composite is the weighted sum of the signals that were set |
| `Technical.ScoreRow` | src/quant_investor/technical.py:89-90 | scores exist exactly when the frame has a row and a non-NaN Close cell |
| `Technical.TechnicalScoresOf` | src/quant_investor/technical.py:84-158 | at most one entry per input ticker |
| `Technical.ScoreTicker` | src/quant_investor/technical.py:87-90 | a ticker is scored iff its frame has a row and a Close column |
| `Technical.ScoreTickerLatest` | src/quant_investor/technical.py:87-97 | a scored ticker's scores are read from the latest row of its frame with indicators, at its Close price |
| `Technical.ScoreLatestRow` | src/quant_investor/technical.py:96-150 | filling the signal keys one guard at a time, then the composite, yields exactly `LatestScores` of the row |
| `Technical.ScoreFrame` | src/quant_investor/technical.py:87-152 | one pass of the loop body gives the ticker's scores, or none when the frame is empty or has no Close |
| `Technical.ComputeTechnicalScores` | src/quant_investor/technical.py:78-158 | the loop over tickers builds exactly `TechnicalScoresOf`: one entry per scored ticker, in input order |
| `Technical.TechnicalLookup` | src/quant_investor/technical.py:86-152 | for a dict of tickers, looking up a ticker in the result gives that ticker's own scores |
| `Technical.TechnicalKeys` | src/quant_investor/technical.py:84-158 | the result's tickers are a subsequence of the input's, with no ticker twice |
| `Technical.SignalsFollowIndicators` | src/quant_investor/technical.py:99-140 | with all required columns, a scored ticker has `sma20`/`sma50` signals iff the SMA is not NaN, always EMA and MACD signals (NaN read as 0), and an RSI signal iff RSI is not NaN, each computed by its rule |
| `Technical.LatestSignals` | src/quant_investor/technical.py:99-140 | reading a latest row that holds the indicator values gives each signal by its rule |
| `Technical.MissingColumnsScoreZero` | src/quant_investor/technical.py:23-26 | a ticker missing a required column but having Close, whose frame carries no indicator-named column of its own, is still scored, with no signal and a composite of 0 |
| `Technical.CompositeIsWeightedAverage` | src/quant_investor/technical.py:143-149 | missing signals count as 0; equal signals give that value (weights sum to 1); signals within a range containing 0 give a composite within it |
| `Fundamentals.PercentYield` | src/quant_investor/fundamentals.py:32-40 | an absent yield stays absent; a raw yield below 1 is multiplied by 100, and one of at least 1 is kept |
| `Fundamentals.FractionalYieldFullScore` | src/quant_investor/fundamentals.py:32-40 | a fractional yield between 0.02 and 0.06 becomes 2-6 percent and scores 1 |
| `Fundamentals.PercentYieldAmbiguous` | src/quant_investor/fundamentals.py:35-38 | 0.5 becomes 50 while 2 stays 2; a converted yield of at least 1 is not converted again |
| `Fundamentals.PeScore` | src/quant_investor/fundamentals.py:91-101 | in [0, 1], and 1 exactly at P/E 17.5; 0.5 when absent or below 10; on [10, 25] the shortfall is proportional to the distance from 17.5; above 25 it is `1 - (pe - 25) / 50` below 75 and 0 from 75 on |
| `Fundamentals.PeSymmetric` | src/quant_investor/fundamentals.py:94-95 | P/E scores are symmetric about 17.5 on [10, 25] |
| `Fundamentals.PeHighPenalty` | src/quant_investor/fundamentals.py:98-99 | above 25 a higher P/E never scores higher |
| `Fundamentals.PeJumpAbove25` | src/quant_investor/fundamentals.py:94-99 | P/E 25 scores 4/7, but any P/E in (25, 26] scores at least 0.98 |
| `Fundamentals.DividendScore` | src/quant_investor/fundamentals.py:104-114 | at most 1; 0.3 when absent; 1 iff the yield is in [2, 6]; half the yield below 2; in [0.7, 1) above 6, `1 - (y - 6) / 10` on (6, 9] and 0.7 from 9 on; not negative for a non-negative yield |
| `Fundamentals.DividendMonotone` | src/quant_investor/fundamentals.py:107-112 | the score does not decrease with the yield up to 6 and does not increase above 6 |
| `Fundamentals.PbScore` | src/quant_investor/fundamentals.py:117-127 | in [0, 1]; 0.5 when absent or not positive; for a positive P/B it is 1 iff P/B ≤ 1; on [1, 3] it falls linearly; above 3 it is below 0.5, `0.5 - (pb - 3) / 10` below 8 and 0 from 8 on |
| `Fundamentals.PbNonIncreasing` | src/quant_investor/fundamentals.py:120-125 | for positive P/B, the score never rises with P/B within (0, 3] or within (3, ∞) |
| `Fundamentals.PbJumpAbove3` | src/quant_investor/fundamentals.py:122-125 | P/B 3 scores 0, but any P/B in (3, 3.1] scores at least 0.49 |
| `Fundamentals.RoeScore` | src/quant_investor/fundamentals.py:130-144 | 0.5 when absent; otherwise in [0.1, 1], 1 iff ROE ≥ 20, 0.8 on [15, 20), 0.6 on [10, 15), 0.4 on [0, 10), and 0.1 iff ROE is negative |
| `Fundamentals.RoeMonotone` | src/quant_investor/fundamentals.py:133-142 | a higher ROE never scores lower |
| `Fundamentals.ScoreMetrics` | src/quant_investor/fundamentals.py:90-153 | each of the four scores is its own scorer applied to its own metric; the composite is the 0.3/0.3/0.2/0.2 weighted sum of the four scores, at most 1, and not negative unless the yield is negative |
| `Fundamentals.Composite` | src/quant_investor/fundamentals.py:146-153 | four scores in [0, 1] give a composite in [0, 1]; four equal scores give that score |
| `Fundamentals.AllAbsentScore` | src/quant_investor/fundamentals.py:146-153 | a ticker with every metric absent scores 0.5, 0.3, 0.5, 0.5 and a composite of exactly 0.44 |
| `Fundamentals.BatchRange` | src/quant_investor/fundamentals.py:77-85 | the default pair when no ticker reports the metric, otherwise a reported minimum and maximum that bound every reported value |
| `Fundamentals.ComputeBatchRanges` | src/quant_investor/fundamentals.py:77-85 | computes the four ranges with defaults (10, 30), (0, 10), (0, 5) and (-10, 30) |
| `Fundamentals.FundamentalScoresOf` | src/quant_investor/fundamentals.py:87-155 | one entry per input ticker, in input order, each holding the scores of that ticker's own metrics |
| `Fundamentals.ScoreTickerMetrics` | src/quant_investor/fundamentals.py:88-153 | filling the four scores and the composite for one ticker yields `ScoreMetrics` of its metrics |
| `Fundamentals.ScoreEach` | src/quant_investor/fundamentals.py:87-155 | the loop over tickers builds exactly `FundamentalScoresOf` |
| `Fundamentals.ComputeFundamentalScores` | src/quant_investor/fundamentals.py:69-157 | computes the unused batch ranges, then returns exactly `FundamentalScoresOf` |
| `Fundamentals.FundamentalKeys` | src/quant_investor/fundamentals.py:87-155 | the result has exactly the input's tickers, in input order: none is omitted |
| `Fundamentals.FundamentalLookup` | src/quant_investor/fundamentals.py:87-155 | looking up a ticker in the result gives the scores of its own metrics, and nothing for a ticker not in the input |
| `Fundamentals.ScoresAreLocal` | src/quant_investor/fundamentals.py:77-155 | replacing one ticker's metrics changes no other ticker's scores, since the batch ranges are never read |
| `Ranking.Insert` | src/quant_investor/rank.py:9 | inserting one entry grows the list by exactly one |
| `Ranking.SortDesc` | src/quant_investor/rank.py:9 | the sort keeps the number of entries |
| `Ranking.RankByScore` | src/quant_investor/rank.py:4-9 | the result has `min(top_n, len)` entries for `top_n ≥ 0` and `max(0, len + top_n)` for a negative `top_n` |
| `Ranking.InsertElements` | src/quant_investor/rank.py:9 | inserting adds exactly the new entry: same multiset plus that entry |
| `Ranking.InsertSorted` | src/quant_investor/rank.py:9 | inserting into a list sorted by descending score keeps it sorted |
| `Ranking.InsertWithScore` | src/quant_investor/rank.py:9 | the new entry goes before every entry of equal score, so equal-score entries keep their input order |
| `Ranking.SortDescSpec` | src/quant_investor/rank.py:9 | the sort is descending by score, a permutation of its input, and stable: for every score the entries with that score are in input order |
| `Ranking.SortDescOfSorted` | src/quant_investor/rank.py:9 | sorting a list already sorted by descending score returns it unchanged |
| `Ranking.SortedDistinct` | src/quant_investor/rank.py:9 | sorting keeps the same tickers and keeps them distinct |
| `Ranking.InsertKeys` | src/quant_investor/rank.py:9 | inserting adds exactly the new ticker and keeps tickers distinct when it was new |
| `Ranking.PySlice` | src/quant_investor/rank.py:9 | `s[:n]` is a prefix of `s` of length `min(n, len)` for `n ≥ 0` and `max(0, len + n)` for negative `n`; all of `s` when `n ≥ len` |
| `Ranking.RankSortedEntries` | src/quant_investor/rank.py:9 | the result is descending by score, every pair is an input entry, and no ticker appears twice |
| `Ranking.RankLength` | src/quant_investor/rank.py:5-9 | for `top_n ≥ 0` the length is `min(top_n, len)`; `top_n = 0` or empty input gives `[]`; `top_n ≥ len` gives all entries, sorted |
| `Ranking.RankStable` | src/quant_investor/rank.py:9 | with `top_n ≥ len`, the entries of each score are in input order |
| `Ranking.PySliceMonotone` | src/quant_investor/rank.py:9 | for counts on the same side of 0, a larger count slices at least as many entries |
| `Ranking.RankPrefix` | src/quant_investor/rank.py:9 | for counts on the same side of 0, the result for n is a prefix of the result for m ≥ n |
| `Ranking.RankIdempotent` | src/quant_investor/rank.py:9 | for `top_n ≥ 0`, ranking the result again with the same `top_n` returns it unchanged |
| `Ranking.RankNegative` | src/quant_investor/rank.py:9 | `top_n = -k` returns every sorted entry except the last `k` |
| `Ranking.PySliceTwice` | src/quant_investor/rank.py:9 | slicing with `-k` twice drops `2k` entries from the end |
| `Ranking.RankNegativeTwice` | src/quant_investor/rank.py:9 | ranking twice with `top_n = -k` drops `2k` entries, so a negative `top_n` is not idempotent |
| `Ranking.RankExamples` | src/quant_investor/rank.py:4-9 | A 1, B 2, C 1 ranks as B, A, C with `top_n = 10`; as `[]` with 0; as B, A with -1 |
| `AlphaVantage.PeriodToOutputsize` | src/quant_investor/providers/alpha_vantage.py:33-40 | "full" iff the period is 1y, 2y, 5y, 10y or max, otherwise "compact" |
| `AlphaVantage.OutputsizeExamples` | src/quant_investor/providers/alpha_vantage.py:39-40 | 1y and max give "full"; 6mo, the empty string and the upper-case 1Y give "compact" |
| `AlphaVantage.Contains` | src/quant_investor/providers/alpha_vantage.py:64 | Python's substring `in`: true iff the pattern occurs at some position |
| `AlphaVantage.Replace` | src/quant_investor/providers/alpha_vantage.py:64 | replacing by something no longer than the pattern never lengthens the string, and by something no shorter never shortens it; `ReplaceFirstOccurrence` with `ReplaceIdentity` gives the every-occurrence rule |
| `AlphaVantage.AvSymbol` | src/quant_investor/providers/alpha_vantage.py:64 | the service symbol maps back to the ticker by replacing ".LSE" with ".L", and is never shorter than the ticker |
| `AlphaVantage.FallbackSymbol` | src/quant_investor/providers/alpha_vantage.py:111 | the fallback symbol is the ".LSE" rewrite with ".LSE" removed, and is never longer than the ticker |
| `AlphaVantage.ReplaceIdentity` | src/quant_investor/providers/alpha_vantage.py:64 | `replace` leaves a string with no occurrence unchanged, and replacing a pattern by itself changes nothing |
| `AlphaVantage.ReplaceFirstOccurrence` | src/quant_investor/providers/alpha_vantage.py:64 | when `pat` first occurs after the prefix `a`, `replace` keeps `a`, puts `repl` in its place and goes on replacing in the rest, so every non-overlapping occurrence is replaced |
| `AlphaVantage.AvSymbolIsReplace` | src/quant_investor/providers/alpha_vantage.py:64 | the service symbol is every ".L" replaced by ".LSE": the `in` guard changes nothing |
| `AlphaVantage.LseReplaced` | src/quant_investor/providers/alpha_vantage.py:64 | replacing ".LSE" in the rewritten symbol is the same as replacing ".L" in the ticker |
| `AlphaVantage.SymbolRewrites` | src/quant_investor/providers/alpha_vantage.py:109-111 | the ".LSE" rewrite round-trips to the ticker, and the fallback symbol is the service symbol with ".LSE" removed |
| `AlphaVantage.LondonTicker` | src/quant_investor/providers/alpha_vantage.py:111 | for a base with no dot, `BASE.L` becomes `BASE.LSE` for the service and `BASE` for the fallback |
| `AlphaVantage.LondonExample` | src/quant_investor/providers/alpha_vantage.py:64 | BARC.L gives BARC.LSE, and BARC as the fallback |
| `AlphaVantage.OtherTickerExamples` | src/quant_investor/providers/alpha_vantage.py:64 | AAPL is unchanged |
| `AlphaVantage.InnerLondonExample` | src/quant_investor/providers/alpha_vantage.py:64 | X.LA becomes X.LSEA: an inner ".L" is replaced too, not only a suffix |
| `AlphaVantage.Lower` | src/quant_investor/providers/alpha_vantage.py:100 | `lower()` maps each letter to lower case and keeps every other character |
| `AlphaVantage.TitleFrom` | src/quant_investor/providers/alpha_vantage.py:78 | title-casing keeps the length; `TitleFromChars` gives the per-character rule |
| `AlphaVantage.Title` | src/quant_investor/providers/alpha_vantage.py:78 | `title()` keeps the length; `TitleSpec` gives the per-character rule |
| `AlphaVantage.TitleSpec` | src/quant_investor/providers/alpha_vantage.py:78 | `title()` keeps the length; a character that is not a letter is kept, a letter that starts a word (first, or after a non-letter) is upper-cased and any other letter is lower-cased; it is idempotent and changes only letter case |
| `AlphaVantage.TitleFromChars` | src/quant_investor/providers/alpha_vantage.py:78 | character by character: non-letters kept, a letter after a non-letter upper-cased, a letter after a letter lower-cased |
| `AlphaVantage.TitleFromSpec` | src/quant_investor/providers/alpha_vantage.py:78 | title-casing from any state is idempotent and changes only letter case |
| `AlphaVantage.TitleFromConcat` | src/quant_investor/providers/alpha_vantage.py:78 | title-casing works left to right: the second part depends on the first only through whether it ends in a letter |
| `AlphaVantage.TitleLowerRun` | src/quant_investor/providers/alpha_vantage.py:78 | lower-case letters that follow a letter are kept |
| `AlphaVantage.TitleLowerWord` | src/quant_investor/providers/alpha_vantage.py:78 | a lower-case word gets a capital first letter and is otherwise kept |
| `AlphaVantage.TitleTwoWords` | src/quant_investor/providers/alpha_vantage.py:78 | two lower-case words separated by a space are title-cased word by word |
| `AlphaVantage.TitleLowerWords` | src/quant_investor/providers/alpha_vantage.py:78 | two lower-case words separated by a space each get a capital first letter |
| `AlphaVantage.TitleExamples` | src/quant_investor/providers/alpha_vantage.py:78 | "close" becomes "Close" |
| `AlphaVantage.TitleAdjustedClose` | src/quant_investor/providers/alpha_vantage.py:78-86 | "adjusted close" becomes "Adjusted Close", the key the mapping renames to "Close" |
| `AlphaVantage.TitleColumns` | src/quant_investor/providers/alpha_vantage.py:78 | every label is title-cased in place and the columns keep their order and values |
| `AlphaVantage.ColumnsNamed` | src/quant_investor/providers/alpha_vantage.py:92 | `df[[name]]` selects exactly the columns labelled `name`, and some column iff the label is present |
| `AlphaVantage.Mapped` | src/quant_investor/providers/alpha_vantage.py:81-88 | a label is mapped to "Close" exactly when it is Close or Adjusted Close; every label but Adjusted Close keeps its name |
| `AlphaVantage.SelectFrom` | src/quant_investor/providers/alpha_vantage.py:91-92 | every selected column is a column of the frame whose label is among the keys |
| `AlphaVantage.Select` | src/quant_investor/providers/alpha_vantage.py:91-92 | every selected column is a frame column with a known label; for a frame without duplicated labels, the selected labels are exactly the known names present in the frame, in the fixed key order |
| `AlphaVantage.FilterPresent` | src/quant_investor/providers/alpha_vantage.py:91 | `[k for k in keys if k in names]`: a label is kept iff it is among both |
| `AlphaVantage.SelectedLabels` | src/quant_investor/providers/alpha_vantage.py:91-92 | for a frame without duplicated labels, the selected labels are exactly the keys present in the frame, in key order |
| `AlphaVantage.Rename` | src/quant_investor/providers/alpha_vantage.py:93 | every column is relabelled by the mapping in place, keeping its value and position |
| `AlphaVantage.StandardColumns` | src/quant_investor/providers/alpha_vantage.py:78-93 | every label of the result is Open, High, Low, Close or Volume |
| `AlphaVantage.RenamedLabels` | src/quant_investor/providers/alpha_vantage.py:93 | renaming columns with known labels leaves only the five standard labels |
| `AlphaVantage.SelectFromElements` | src/quant_investor/providers/alpha_vantage.py:91-92 | selection keeps exactly the frame's columns whose label is a known name |
| `AlphaVantage.StandardColumnsSpec` | src/quant_investor/providers/alpha_vantage.py:78-93 | after title-case, selection and renaming, every column is a known column of the frame and every label is Open, High, Low, Close or Volume |
| `AlphaVantage.MappedKnown` | src/quant_investor/providers/alpha_vantage.py:81-88 | every known name is mapped to one of the five standard labels |
| `AlphaVantage.ColumnsNamedDistinct` | src/quant_investor/providers/alpha_vantage.py:92 | in a frame without duplicated labels, a label selects its one column or none |
| `AlphaVantage.SelectFromDistinct` | src/quant_investor/providers/alpha_vantage.py:91-92 | two frames with distinct labels holding the same columns select the same columns for any key list |
| `AlphaVantage.SelectOrderIndependent` | src/quant_investor/providers/alpha_vantage.py:91-92 | the selected columns follow the fixed key order, whatever the order of the frame's columns |
| `AlphaVantage.RenameConcat` | src/quant_investor/providers/alpha_vantage.py:93 | renaming works column by column: it distributes over concatenation |
| `AlphaVantage.RenamedColumnsNamed` | src/quant_investor/providers/alpha_vantage.py:93 | the columns selected under one name are all found under its mapped name, first one first |
| `AlphaVantage.GetRenamedSelectFrom` | src/quant_investor/providers/alpha_vantage.py:91-93 | after selection and renaming, a label names the first selected column, in key order, that was renamed to it |
| `AlphaVantage.CloseAfterRename` | src/quant_investor/providers/alpha_vantage.py:86-93 | after renaming and keep-first de-duplication, "Close" is the raw close when present, else the adjusted close |
| `AlphaVantage.CloseFirstMapped` | src/quant_investor/providers/alpha_vantage.py:81-91 | in the fixed key order, the first column renamed to "Close" is Close if present, else Adjusted Close |
| `AlphaVantage.FirstMappedClose` | src/quant_investor/providers/alpha_vantage.py:85-87 | among Close, Adjusted Close and Volume, the first renamed to "Close" is Close if present, else Adjusted Close |
| `AlphaVantage.Relabel` | src/quant_investor/providers/alpha_vantage.py:101 | `rename(columns={pat: repl})` relabels every column labelled `pat` and keeps every value and position |
| `AlphaVantage.DateRename` | src/quant_investor/providers/alpha_vantage.py:97-101 | the rename keeps the number of columns and every value in place; a frame that has Date is unchanged |
| `AlphaVantage.DateRenameSpec` | src/quant_investor/providers/alpha_vantage.py:97-101 | values and positions are kept; "Date" is present afterwards iff it was, or the first label contains "date" when lower-cased; in that case the first column is "Date"; a frame with "Date" or with no column is unchanged; the rename is idempotent |
| `AlphaVantage.DateColumnRenamed` | src/quant_investor/providers/alpha_vantage.py:97-101 | a first column "date" becomes "Date" |
| `AlphaVantage.IndexColumnKept` | src/quant_investor/providers/alpha_vantage.py:97-101 | a first column "index" is not renamed |

## Left out

- Network and I/O are not modelled. This covers `fetch_data` in data.py and in
  both providers, the yfinance lookups of `fetch_fundamentals`
  (fundamentals.py:20-30, 42-64), the Alpha Vantage client calls, the 12-second
  sleeps, the API-key environment lookup, and the warning messages. The model
  takes their results as inputs.
- Indicator series (SMA, EMA, RSI, MACD) come from the `ta` library, which is
  not part of this model. Their latest values are inputs (`Indicators`), with
  `None` for NaN. The `try` around lines 44-69 of technical.py and the
  Date `set_index`/`reset_index` around it are left out. Moving Date into the
  index and back can move the Date column to the front, and the model keeps
  the column order unchanged.
- The `isinstance` checks on Close (technical.py:28-36) are left out. After
  keep-first de-duplication Close is always a single column.
- The exception path of `compute_technical_scores` (lines 154-156) is left out.
  In exact arithmetic nothing in the try block raises. NaN and infinity
  propagation through Python floats is left out too, such as a NaN Close or a
  NaN close in momentum. Cells are exact reals, and the price cells of a frame
  are never NaN.
- `Momentum.WindowReturn` and `Momentum.ComputeMomentum` require `window ≥ 1`.
  For `window ≤ 0` the source indexes `closes.iloc[-window]` from the front or
  raises `IndexError`; that path is not modelled. The default window is 30.
- `Ranking.RankByScore` always takes `topN` explicitly; the default
  `top_n=5` of rank.py:4 is not modelled as a default argument.
- Momentum does not model `df.get("Close")` returning several columns when a
  frame has duplicated Close labels. Its input is one Close series or none.
- `BaseDataProvider.normalize_dataframe` and pandas `reset_index` are not part
  of this model. The Date rename is modelled on the column labels after the
  reset.
- `AlphaVantage.Lower` and `AlphaVantage.TitleSpec` model ASCII case mapping
  only. Python's `lower()` and `title()` also map non-ASCII letters.
- Column contents are generic values. Only labels, order and which column is
  kept are modelled.
- The ranker's sort is an insertion sort, a reference definition of Python's
  stable sort. It is specified by its result (descending, a permutation,
  stable), not by Timsort's steps.
- `compute_composite_score` and the scoring weights are imported by the UI but
  not defined in the source. The Streamlit app and the CLI are not part of
  this model.
- ROE is compared in whatever unit the data source gives, with no conversion,
  as in the code.
