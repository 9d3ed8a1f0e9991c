# SMA crossover back-test, modelled in Dafny

The script back-tests a simple-moving-average crossover strategy over a series of daily
closes. It computes a 20-day and a 50-day rolling mean of the close. From row 20 on, the
signal is +1 where the short mean is above the long one and -1 otherwise. Before that the
signal is 0. Each row's strategy return is that row's percent price change times the
signal of the previous row. The performance figures are then read off the strategy
returns: the cumulative return (compounded), the drawdown from the running peak of the
equity curve, the maximum drawdown, and the win rate.

The model follows the same pipeline, one module per stage:

- `Options` holds the `Option` type. A pandas NaN is `None`.
- `Sums` holds sums and means of real sequences.
- `MovingAverage` holds `Sma`. It is a running window sum divided by the width, and it is
  proved equal to the mean of the window.
- `SignalGenerator` holds the Signal column. `AssignSignals` is a method that fills an
  array in place, as the script writes into the frame: first zeros, then the slice from
  row `shortWindow` on.
- `ReturnCalculator` holds `pct_change`, `shift(1)` and the strategy return.
- `PerformanceAnalyzer` holds `cumprod`, `cummax`, the drawdown, `min` and the win rate.
  All of them follow pandas' NaN rules.
- `Backtest` holds the script end to end (`Run`), its windows 20 and 50, and the
  end-to-end properties.

Prices are exact reals, not floats. Some of the code's behaviour may look unintended; the
model follows the code:

- A tie between the two averages gives -1, not 0. `np.where(a > b, 1, -1)` has no
  third case.
- The rows where the long average is still NaN (rows 20 to 48) also give -1, not 0,
  because a comparison with NaN is false.
- The win rate is `(Strategy_Return > 0).mean()` over all rows. The NaN in row 0 counts
  as "not a win", and so does a zero return. So constant prices give a win rate of 0.
- The script checks no configuration and has no "insufficient data" outcome. Lines 14 to
  31 raise no error on a close series of any length; only the printing afterwards fails
  on an empty series. With at most shortWindow + 1 rows the long average is NaN
  throughout and every strategy return is NaN or 0. With fewer than longWindow rows the
  script already trades short on the NaN long average: every row after shortWindow earns
  minus its price change, so the curves and the win rate are not NaN or 0 in general.
- The drawdown divides by the running peak of the equity. A peak of exactly 0 means an
  equity of 0 was reached at that row or an earlier one, and every later equity is 0 times further
  factors, so the script computes 0 / 0 = NaN there. The model's `None` for a zero
  divisor (`PerformanceAnalyzer.Ratio`) reproduces that NaN. It arises only after a strategy
  return of exactly -100%, which the drawdown lemmas exclude (`FactorsPositive`).

## Model

| member | source | states |
|---|---|---|
| MovingAverage.RollingSum | sma_crossover/script.py:14-15 | the running sum kept by the rolling mean (add the new close, drop the one w rows back) is the sum of the closes in the current window |
| MovingAverage.Sma | sma_crossover/script.py:14-15 | the w-row rolling mean has one entry per close, and it is NaN exactly on the first w-1 rows |
| MovingAverage.SmaIsMean | sma_crossover/script.py:14-15 | the w-row rolling mean is NaN for the first w-1 rows and, from then on, the mean of the last w closes |
| MovingAverage.SmaCausal | sma_crossover/script.py:14-15 | the rolling mean of a truncated history is the truncated rolling mean (it never looks at later closes) |
| MovingAverage.SmaOfConstant | sma_crossover/script.py:14-15 | on constant closes every defined rolling mean equals the constant |
| MovingAverage.MeanOfNewerPart | sma_crossover/script.py:14-15 | appending entries that are all strictly larger than every older one gives a newer part whose mean is above the mean of the whole |
| MovingAverage.RecentPartAboveMean | sma_crossover/script.py:14-15 | in a strictly increasing window the mean of the most recent s closes is above the mean of the whole window |
| MovingAverage.SmaShortAboveLong | sma_crossover/script.py:14-15 | on strictly increasing closes, once both windows are full, both averages are defined and the short one is strictly above the long one |
| SignalGenerator.Where | sma_crossover/script.py:19-21 | `np.where(a > b, 1, -1)`: each entry is 1 exactly when a is defined and strictly above a defined b, and -1 exactly otherwise (NaN and ties included) |
| SignalGenerator.Signals | sma_crossover/script.py:18-21 | the column of zeros overwritten from row k on has one entry per row, holds only -1, 0 and 1, and is 0 exactly before row k |
| SignalGenerator.SignalsOf | sma_crossover/script.py:14-21 | the Signal column of a close series holds only -1, 0 and 1 and is 0 exactly on the rows before shortWindow |
| SignalGenerator.SignalAt | sma_crossover/script.py:18-21 | the Signal column is 0 before row shortWindow; from then on it is 1 exactly when the short average is defined and strictly above a defined long average, and -1 exactly otherwise |
| SignalGenerator.AssignSignals | sma_crossover/script.py:18-21 | writing zeros into the whole column and then the crossover comparison into the rows from shortWindow on leaves exactly the Signal column |
| SignalGenerator.SignalShortDuringLongWarmup | sma_crossover/script.py:18-21 | between row shortWindow and row longWindow-2 the long average is NaN, so the signal is -1 for any prices |
| SignalGenerator.SignalAfterWarmup | sma_crossover/script.py:14-21 | once both windows are full the signal is 1 exactly when the mean of the last shortWindow closes exceeds the mean of the last longWindow closes, and -1 on a tie or below |
| SignalGenerator.SignalsCausal | sma_crossover/script.py:14-21 | the Signal column of a truncated history is the truncated Signal column |
| SignalGenerator.SignalNoLookAhead | sma_crossover/script.py:14-21 | two histories that agree up to row t give the same signal at row t |
| SignalGenerator.SignalOnRisingPrices | sma_crossover/script.py:14-21 | on strictly increasing closes the signal from row shortWindow on is -1 while the long average is NaN and 1 afterwards |
| SignalGenerator.SignalOnConstantPrices | sma_crossover/script.py:14-21 | on constant closes the signal from row shortWindow on is -1, because equal averages are not "above" |
| ReturnCalculator.PctChange | sma_crossover/script.py:24 | `pct_change()` has one entry per close, is NaN exactly in row 0, and on positive closes never falls to -1 or below |
| ReturnCalculator.PctChangeAt | sma_crossover/script.py:24 | from row 1 on, the percent change is the close divided by the previous close, minus 1 |
| ReturnCalculator.Shift | sma_crossover/script.py:25 | `shift(1)` is NaN exactly in row 0 and from row 1 on holds the previous row's value |
| ReturnCalculator.Times | sma_crossover/script.py:25 | the element-wise product is defined exactly where both factors are defined |
| ReturnCalculator.StrategyReturns | sma_crossover/script.py:25 | `Return * Signal.shift(1)` is defined exactly from row 1 on where the row's return is defined |
| ReturnCalculator.StrategyReturnsOf | sma_crossover/script.py:24-25 | the strategy return of a positive close series is defined on every row but row 0 |
| ReturnCalculator.LaggedProductAt | sma_crossover/script.py:25 | for any columns, row t > 0 of `ret * signal.shift(1)` is the row's return times the signal of row t-1 |
| ReturnCalculator.StrategyReturnAt | sma_crossover/script.py:24-25 | row 0 of the strategy return is NaN; row t > 0 is the close's percent change at t times the signal of row t-1 |
| ReturnCalculator.StrategyFlatDuringWarmup | sma_crossover/script.py:24-25 | rows 1 to shortWindow trade on the previous row's signal of 0 and earn exactly 0 |
| ReturnCalculator.PctChangeCausal | sma_crossover/script.py:24 | the percent change of a truncated history is the truncated percent change |
| ReturnCalculator.ShiftCausal | sma_crossover/script.py:25 | shifting a truncated column gives the truncated shift |
| ReturnCalculator.TimesCausal | sma_crossover/script.py:25 | the product of two truncated columns is the truncated product |
| ReturnCalculator.StrategyReturnsCausal | sma_crossover/script.py:24-25 | the strategy returns of a truncated history are the truncated strategy returns |
| ReturnCalculator.StrategyNoLookAhead | sma_crossover/script.py:24-25 | two histories that agree up to row t give the same strategy return at row t: the return of row t uses only the signal of row t-1 |
| PerformanceAnalyzer.Growth | sma_crossover/script.py:28 | `1 + r` is defined exactly where r is, and there it is one more than the return |
| PerformanceAnalyzer.CumProdFrom | sma_crossover/script.py:28 | the single pass of `cumprod()` is NaN exactly where its input is NaN |
| PerformanceAnalyzer.CumProdFromAt | sma_crossover/script.py:28 | the single pass started with a running product acc gives, at each defined row, acc times the product of every defined entry up to that row |
| PerformanceAnalyzer.CumProd | sma_crossover/script.py:28 | `cumprod()` is NaN exactly where its input is NaN |
| PerformanceAnalyzer.CumProdAt | sma_crossover/script.py:28 | cumprod is NaN on NaN rows; on other rows it is the product of the defined factors up to and including that row (NaNs are skipped, not propagated) |
| PerformanceAnalyzer.CumProdFromCausal | sma_crossover/script.py:28 | the cumulative product of a prefix is the prefix of the cumulative product |
| PerformanceAnalyzer.CumMaxFrom | sma_crossover/script.py:29 | the single pass of `cummax()` is NaN exactly where its input is NaN, and elsewhere at least the row's own value and the best value carried in |
| PerformanceAnalyzer.CumMaxFromAt | sma_crossover/script.py:29 | at a defined row the single pass bounds every defined entry so far, and equals one of them or the best value carried in |
| PerformanceAnalyzer.CumMax | sma_crossover/script.py:29 | `cummax()` is NaN exactly where its input is NaN, and elsewhere at least the row's own value |
| PerformanceAnalyzer.CumMaxAt | sma_crossover/script.py:29 | cummax is NaN exactly on NaN rows; elsewhere it is at least every defined value so far and equal to one of them |
| PerformanceAnalyzer.CumMaxFromCausal | sma_crossover/script.py:29 | the running maximum of a prefix is the prefix of the running maximum |
| PerformanceAnalyzer.Equity | sma_crossover/script.py:28 | the equity curve `(1 + r).cumprod()` is defined exactly where the return is |
| PerformanceAnalyzer.CumulativeReturn | sma_crossover/script.py:28 | the cumulative return is defined exactly where the return is, and there it is the equity minus 1 |
| PerformanceAnalyzer.CumulativeReturnIsEquity | sma_crossover/script.py:28 | on a defined row one plus the cumulative return is the equity |
| PerformanceAnalyzer.EquityAt | sma_crossover/script.py:28 | the equity curve at a defined row is the compounded growth (1 + r) of all defined strategy returns so far, and the cumulative return is that minus 1 |
| PerformanceAnalyzer.DefinedProductConcat | sma_crossover/script.py:28 | compounding over two consecutive stretches is the product of the two compounded factors |
| PerformanceAnalyzer.EquitySplit | sma_crossover/script.py:28 | between two defined rows j < t the equity at t is the equity at j times the compounded growth of rows j+1 to t |
| PerformanceAnalyzer.Telescope | sma_crossover/script.py:28 | the product of the consecutive ratios of a positive series is the ratio of its last entry to its first |
| PerformanceAnalyzer.GrowthIsPriceRatio | sma_crossover/script.py:24-28 | when the returns of rows j+1 to t are the percent changes of a positive series, their growth factors are its consecutive ratios |
| PerformanceAnalyzer.EquityLikePrices | sma_crossover/script.py:24-28 | when the returns of rows j+1 to t are the percent changes of a positive series p, the equity at t is the equity at j times p[t] / p[j] |
| PerformanceAnalyzer.CompoundsLikePrices | sma_crossover/script.py:24-28 | under the same condition both the equity and one plus the cumulative return grow by p[t] / p[j] from row j to row t |
| PerformanceAnalyzer.EquityPositive | sma_crossover/script.py:28 | when every growth factor is positive the equity curve is positive |
| PerformanceAnalyzer.EquityBelowPeak | sma_crossover/script.py:29 | on a defined row both the equity and its running peak are defined and the equity is at most the peak |
| PerformanceAnalyzer.EquityNonDecreasing | sma_crossover/script.py:28 | with no losing row the equity curve never falls |
| PerformanceAnalyzer.Drawdown | sma_crossover/script.py:29 | the drawdown curve has one entry per row and is only defined on rows whose return is defined |
| PerformanceAnalyzer.DrawdownAt | sma_crossover/script.py:29 | with positive growth factors, on a defined row t there is a peak row k <= t whose equity is positive and at least every equity up to t, and the drawdown at t is the equity at t over the equity at k, minus 1 |
| PerformanceAnalyzer.DrawdownNonPositive | sma_crossover/script.py:29 | with positive growth factors the drawdown is defined exactly on defined rows and is never above 0 |
| PerformanceAnalyzer.MinDefined | sma_crossover/script.py:30 | `min()` skipping NaN: NaN exactly when every entry is NaN, otherwise a lower bound of the defined entries that is one of them |
| PerformanceAnalyzer.MaxDrawdown | sma_crossover/script.py:30 | `drawdown.min()` is NaN exactly when every drawdown entry is NaN, so in particular when no return is defined; a defined value is the drawdown of some defined row and no row's drawdown is below it |
| PerformanceAnalyzer.MaxDrawdownNonPositive | sma_crossover/script.py:29-30 | with positive growth factors the maximum drawdown is NaN exactly when every strategy return is NaN, and otherwise at most 0 |
| PerformanceAnalyzer.NoDrawdownWithoutLosses | sma_crossover/script.py:29 | with no losing row the drawdown is 0 on every defined row |
| PerformanceAnalyzer.MaxDrawdownWithoutLosses | sma_crossover/script.py:29-30 | with no losing row the maximum drawdown is 0 when any return is defined and NaN otherwise |
| PerformanceAnalyzer.Wins | sma_crossover/script.py:31 | `r > 0` as a float column: 1 exactly on rows with a defined, strictly positive return and 0 exactly on all others |
| PerformanceAnalyzer.WinRate | sma_crossover/script.py:31 | the win rate is NaN exactly on an empty column |
| PerformanceAnalyzer.SumOfWins | sma_crossover/script.py:31 | the sum of the win indicators is the number of rows with a strictly positive return |
| PerformanceAnalyzer.WinRateIsFraction | sma_crossover/script.py:31 | the win rate is NaN exactly on an empty column; otherwise it is the number of rows with a strictly positive return over the number of all rows (NaN rows included), and lies in [0, 1] |
| PerformanceAnalyzer.FlatReturns | sma_crossover/script.py:28-31 | when every defined strategy return is 0, the cumulative return is 0 on defined rows, the maximum drawdown is 0 when something is defined, and the win rate is 0 on a non-empty column |
| PerformanceAnalyzer.CurvesCausal | sma_crossover/script.py:28-29 | equity, cumulative return and drawdown of a prefix of the returns are the prefixes of those curves |
| Backtest.Analyze | sma_crossover/script.py:28-31 | the report's curves are aligned with the returns, the cumulative return is defined exactly where the return is, the maximum drawdown is NaN exactly when the whole drawdown curve is NaN (so when no return is defined) and otherwise a value of the curve below all of it, and the win rate is NaN only on an empty column |
| Backtest.Run | sma_crossover/script.py:14-31 | every column of the frame is aligned with the closes and equals its definition, the Signal column (written in place) only holds -1, 0 and 1, the win rate lies in [0, 1], and with positive growth factors the maximum drawdown is at most 0 |
| Backtest.BacktestCausal | sma_crossover/script.py:14-29 | truncating the closes after n rows leaves the first n rows of the signal, strategy return, cumulative return and drawdown unchanged |
| Backtest.NoLookAhead | sma_crossover/script.py:14-29 | two close histories that agree up to row t give the same signal, strategy return, cumulative return and drawdown at row t |
| Backtest.ConstantPricesEarnNothing | sma_crossover/script.py:24-25 | on constant closes every strategy return from row 1 on is exactly 0 |
| Backtest.ConstantSignals | sma_crossover/script.py:14-21 | on constant closes the signal is -1 on every row from shortWindow on |
| Backtest.ConstantReturns | sma_crossover/script.py:24-25 | on constant closes the strategy return is NaN in row 0 and exactly 0 on every later row |
| Backtest.FlatAfterFirstRow | sma_crossover/script.py:28-31 | a return column that is NaN in row 0 and 0 afterwards has cumulative return 0 from row 1 on and win rate 0 (NaN on no rows) |
| Backtest.NoDrawdownAfterFirstRow | sma_crossover/script.py:29-30 | the same column has maximum drawdown 0 on two or more rows and NaN on fewer |
| Backtest.ConstantPrices | sma_crossover/script.py:14-31 | on constant closes the signal is -1 from row shortWindow on, every strategy return from row 1 is 0, the cumulative return is 0, the maximum drawdown is 0 (NaN on fewer than two rows), and the win rate is 0 (NaN on no rows) |
| Backtest.RisingShortRow | sma_crossover/script.py:14-25 | on strictly increasing closes a row after shortWindow and before longWindow is defined and loses: it holds the short position -1 |
| Backtest.RisingLongRow | sma_crossover/script.py:14-25 | on strictly increasing closes a row from longWindow on earns exactly its percent price change, and that is a win |
| Backtest.RisingRow | sma_crossover/script.py:14-25 | both cases together for one row after shortWindow |
| Backtest.RisingPrices | sma_crossover/script.py:14-25 | on strictly increasing closes the signal is -1 while the long average warms up and 1 afterwards; every row after shortWindow and before longWindow is defined and negative; every row from longWindow on equals the percent price change and is a win |
| Backtest.RisingReturnsArePriceChanges | sma_crossover/script.py:14-25 | on strictly increasing closes every strategy return from row longWindow up to row t is p[i] / p[i-1] - 1 |
| Backtest.RisingEquity | sma_crossover/script.py:14-28 | on strictly increasing closes, for rows longWindow-1 <= j < t, the equity and one plus the cumulative return at t are their values at j times p[t] / p[j]: after the warm-up the strategy compounds exactly like the closes |
| Backtest.ScriptWindows | sma_crossover/script.py:11-25 | with the script's windows of 20 and 50 days the signal is 0 on rows 0 to 19 and -1 on rows 20 to 48, and rows 1 to 20 earn 0 |

## Left out

- Downloading the closes (`yf.download`, lines 1 and 8): the closes are an input to `Run`, taken to be strictly positive, as real prices are. The ticker and the date range are not modelled.
- Printing the figures, `iloc[-1]` and the percent formatting (lines 33-37): output only. The model returns the whole cumulative-return curve. On an empty close series `cumulative_return.iloc[-1]` (line 35) raises an IndexError; the model's report then simply holds empty curves and NaN figures.
- Plotting (lines 39-53): output only.
- Floating point: the model computes in exact reals. NaN is `None`. Rounding, and the compensated summation pandas uses in its rolling mean, are not modelled.
- The dates index of the frame is not modelled: rows are positions 0, 1, 2, ...
