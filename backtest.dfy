/**
 * The back-test as the script runs it: the close column gains the two SMA columns, the
 * Signal column, the Return and Strategy_Return columns, and the performance figures are
 * read off the strategy returns.
 */
module Backtest {

  import opened Options
  import opened Sums
  import opened MovingAverage
  import opened SignalGenerator
  import opened ReturnCalculator
  import opened PerformanceAnalyzer

  /** The windows the script is configured with. */
  const ShortWindow: nat := 20
  const LongWindow: nat := 50

  /** The table's columns after the script has added its own, one entry per trading day. */
  datatype Frame = Frame(
    close: seq<real>,
    smaShort: seq<Option<real>>,
    smaLong: seq<Option<real>>,
    signal: seq<int>,
    ret: seq<Option<real>>,
    strategyReturn: seq<Option<real>>)

  /** Every column has one entry per close. */
  predicate Aligned(f: Frame)
  {
    && |f.smaShort| == |f.close|
    && |f.smaLong| == |f.close|
    && |f.signal| == |f.close|
    && |f.ret| == |f.close|
    && |f.strategyReturn| == |f.close|
  }

  /** The performance figures: both curves, their minimum drawdown and the win rate. */
  datatype Report = Report(
    cumulativeReturn: seq<Option<real>>,
    drawdown: seq<Option<real>>,
    maxDrawdown: Option<real>,
    winRate: Option<real>)

  /**
   * Lines 28-31 of the script: the cumulative return is defined exactly on rows with a
   * return, the maximum drawdown is missing exactly when the whole drawdown curve is,
   * and is otherwise a value the curve takes and lies below all of it, and the win rate
   * is missing only for an empty column.
   */
  function Analyze(r: seq<Option<real>>): (rep: Report)
    ensures |rep.cumulativeReturn| == |r| && |rep.drawdown| == |r|
    ensures forall t {:trigger rep.cumulativeReturn[t]} :: 0 <= t < |r| ==> (rep.cumulativeReturn[t].Some? <==> r[t].Some?)
    ensures rep.maxDrawdown.Some? ==> exists t :: 0 <= t < |r| && rep.drawdown[t] == rep.maxDrawdown
    ensures rep.maxDrawdown.Some? ==>
              forall t :: 0 <= t < |r| && rep.drawdown[t].Some? ==> rep.maxDrawdown.value <= rep.drawdown[t].value
    ensures rep.maxDrawdown.None? <==> forall t :: 0 <= t < |r| ==> rep.drawdown[t].None?
    ensures (forall t :: 0 <= t < |r| ==> r[t].None?) ==> rep.maxDrawdown.None?
    ensures rep.winRate.None? <==> |r| == 0
  {
    Report(CumulativeReturn(r), Drawdown(r), MaxDrawdown(r), WinRate(r))
  }

  /**
   * Runs the back-test on a close series. The Signal column is filled in place; every
   * other column is computed from the ones before it.
   */
  method Run(close: seq<real>, shortWindow: nat, longWindow: nat) returns (frame: Frame, report: Report)
    requires Positive(close) && 0 < shortWindow < longWindow
    ensures Aligned(frame) && frame.close == close
    ensures frame.smaShort == Sma(close, shortWindow) && frame.smaLong == Sma(close, longWindow)
    ensures frame.signal == SignalsOf(close, shortWindow, longWindow)
    ensures frame.ret == PctChange(close)
    ensures frame.strategyReturn == StrategyReturnsOf(close, shortWindow, longWindow)
    ensures report == Analyze(frame.strategyReturn)
    ensures forall t :: 0 <= t < |close| ==> frame.signal[t] in {-1, 0, 1}
    ensures report.winRate.Some? ==> 0.0 <= report.winRate.value <= 1.0
    ensures FactorsPositive(frame.strategyReturn) && report.maxDrawdown.Some? ==> report.maxDrawdown.value <= 0.0
  {
    var smaShort := Sma(close, shortWindow);
    var smaLong := Sma(close, longWindow);
    var column := new int[|close|];
    AssignSignals(column, smaShort, smaLong, shortWindow);
    var signal := column[..];
    var ret := PctChange(close);
    var strategy := StrategyReturns(ret, signal);
    frame := Frame(close, smaShort, smaLong, signal, ret, strategy);
    report := Analyze(strategy);
    forall t | 0 <= t < |close|
      ensures signal[t] in {-1, 0, 1}
    {
      SignalAt(smaShort, smaLong, shortWindow, t);
    }
    WinRateIsFraction(strategy);
    if FactorsPositive(strategy) {
      MaxDrawdownNonPositive(strategy);
    }
  }

  /**
   * Truncating the close history after n rows leaves the first n rows of the signal,
   * the strategy return, the cumulative return and the drawdown unchanged.
   */
  lemma BacktestCausal(p: seq<real>, shortWindow: nat, longWindow: nat, n: nat)
    requires Positive(p) && 0 < shortWindow < longWindow && n <= |p|
    ensures Positive(p[..n])
    ensures SignalsOf(p[..n], shortWindow, longWindow) == SignalsOf(p, shortWindow, longWindow)[..n]
    ensures StrategyReturnsOf(p[..n], shortWindow, longWindow) == StrategyReturnsOf(p, shortWindow, longWindow)[..n]
    ensures Analyze(StrategyReturnsOf(p[..n], shortWindow, longWindow)).cumulativeReturn
         == Analyze(StrategyReturnsOf(p, shortWindow, longWindow)).cumulativeReturn[..n]
    ensures Analyze(StrategyReturnsOf(p[..n], shortWindow, longWindow)).drawdown
         == Analyze(StrategyReturnsOf(p, shortWindow, longWindow)).drawdown[..n]
  {
    SignalsCausal(p, shortWindow, longWindow, n);
    StrategyReturnsCausal(p, shortWindow, longWindow, n);
    CurvesCausal(StrategyReturnsOf(p, shortWindow, longWindow), n);
  }

  /**
   * No look-ahead: two close histories that agree up to row t give the same signal,
   * strategy return, cumulative return and drawdown at row t.
   */
  lemma NoLookAhead(p: seq<real>, q: seq<real>, shortWindow: nat, longWindow: nat, t: nat)
    requires Positive(p) && Positive(q) && 0 < shortWindow < longWindow
    requires t < |p| && t < |q| && p[..t + 1] == q[..t + 1]
    ensures SignalsOf(p, shortWindow, longWindow)[t] == SignalsOf(q, shortWindow, longWindow)[t]
    ensures StrategyReturnsOf(p, shortWindow, longWindow)[t] == StrategyReturnsOf(q, shortWindow, longWindow)[t]
    ensures Analyze(StrategyReturnsOf(p, shortWindow, longWindow)).cumulativeReturn[t]
         == Analyze(StrategyReturnsOf(q, shortWindow, longWindow)).cumulativeReturn[t]
    ensures Analyze(StrategyReturnsOf(p, shortWindow, longWindow)).drawdown[t]
         == Analyze(StrategyReturnsOf(q, shortWindow, longWindow)).drawdown[t]
  {
    var n := t + 1;
    SignalNoLookAhead(p, q, shortWindow, longWindow, t);
    var rp, rq := StrategyReturnsOf(p, shortWindow, longWindow), StrategyReturnsOf(q, shortWindow, longWindow);
    StrategyReturnsCausal(p, shortWindow, longWindow, n);
    StrategyReturnsCausal(q, shortWindow, longWindow, n);
    assert rp[..n] == rq[..n];
    CurvesCausal(rp, n);
    CurvesCausal(rq, n);
    assert CumulativeReturn(rp)[t] == CumulativeReturn(rp)[..n][t];
    assert CumulativeReturn(rq)[t] == CumulativeReturn(rq)[..n][t];
    assert Drawdown(rp)[t] == Drawdown(rp)[..n][t];
    assert Drawdown(rq)[t] == Drawdown(rq)[..n][t];
  }

  /** Constant closes: every strategy return from row 1 on is exactly 0. */
  lemma ConstantPricesEarnNothing(p: seq<real>, c: real, shortWindow: nat, longWindow: nat, t: nat)
    requires c > 0.0 && forall i :: 0 <= i < |p| ==> p[i] == c
    requires 0 < shortWindow < longWindow && 1 <= t < |p|
    ensures Positive(p)
    ensures StrategyReturnsOf(p, shortWindow, longWindow)[t] == Some(0.0)
  {
    RatioAtPeak(c);
    StrategyReturnAt(p, shortWindow, longWindow, t);
  }

  /**
   * Constant closes: from row shortWindow on every signal is -1 (equal averages are not
   * "above"), every strategy return from row 1 on is 0, so the cumulative return and the
   * maximum drawdown are 0 and the win rate is 0 rather than undefined.
   */
  lemma ConstantPrices(p: seq<real>, c: real, shortWindow: nat, longWindow: nat)
    requires c > 0.0 && forall i :: 0 <= i < |p| ==> p[i] == c
    requires 0 < shortWindow < longWindow
    ensures Positive(p)
    ensures forall t :: shortWindow <= t < |p| ==> SignalsOf(p, shortWindow, longWindow)[t] == -1
    ensures forall t :: 1 <= t < |p| ==> StrategyReturnsOf(p, shortWindow, longWindow)[t] == Some(0.0)
    ensures forall t :: 1 <= t < |p| ==> Analyze(StrategyReturnsOf(p, shortWindow, longWindow)).cumulativeReturn[t] == Some(0.0)
    ensures Analyze(StrategyReturnsOf(p, shortWindow, longWindow)).maxDrawdown == if |p| >= 2 then Some(0.0) else None
    ensures Analyze(StrategyReturnsOf(p, shortWindow, longWindow)).winRate == if |p| >= 1 then Some(0.0) else None
  {
    ConstantSignals(p, c, shortWindow, longWindow);
    ConstantReturns(p, c, shortWindow, longWindow);
    FlatAfterFirstRow(StrategyReturnsOf(p, shortWindow, longWindow));
    NoDrawdownAfterFirstRow(StrategyReturnsOf(p, shortWindow, longWindow));
  }

  /** A return column that is NaN in row 0 and 0 afterwards: no gain and no win. */
  lemma FlatAfterFirstRow(r: seq<Option<real>>)
    requires forall t :: 0 <= t < |r| ==> r[t] == if t == 0 then None else Some(0.0)
    ensures forall t :: 1 <= t < |r| ==> CumulativeReturn(r)[t] == Some(0.0)
    ensures WinRate(r) == if |r| >= 1 then Some(0.0) else None
  {
    FlatReturns(r);
  }

  /** The same column has no drawdown: 0 once a return is defined, NaN before. */
  lemma NoDrawdownAfterFirstRow(r: seq<Option<real>>)
    requires forall t :: 0 <= t < |r| ==> r[t] == if t == 0 then None else Some(0.0)
    ensures MaxDrawdown(r) == if |r| >= 2 then Some(0.0) else None
  {
    if |r| >= 2 {
      MaxDrawdownWithoutLosses(r);
      assert r[1].Some?;
    } else {
      assert forall t :: 0 <= t < |r| ==> r[t].None?;
    }
  }

  lemma ConstantSignals(p: seq<real>, c: real, shortWindow: nat, longWindow: nat)
    requires c > 0.0 && forall i :: 0 <= i < |p| ==> p[i] == c
    requires 0 < shortWindow < longWindow
    ensures forall t :: shortWindow <= t < |p| ==> SignalsOf(p, shortWindow, longWindow)[t] == -1
  {
    forall t | shortWindow <= t < |p|
      ensures SignalsOf(p, shortWindow, longWindow)[t] == -1
    {
      SignalOnConstantPrices(p, c, shortWindow, longWindow, t);
    }
  }

  lemma ConstantReturns(p: seq<real>, c: real, shortWindow: nat, longWindow: nat)
    requires c > 0.0 && forall i :: 0 <= i < |p| ==> p[i] == c
    requires 0 < shortWindow < longWindow
    ensures Positive(p)
    ensures forall t :: 0 <= t < |p| ==> StrategyReturnsOf(p, shortWindow, longWindow)[t] == if t == 0 then None else Some(0.0)
  {
    forall t | 0 <= t < |p|
      ensures StrategyReturnsOf(p, shortWindow, longWindow)[t] == if t == 0 then None else Some(0.0)
    {
      if t == 0 {
        StrategyReturnAt(p, shortWindow, longWindow, 0);
      } else {
        ConstantPricesEarnNothing(p, c, shortWindow, longWindow, t);
      }
    }
  }

  lemma RisingRatio(before: real, after: real)
    requires 0.0 < before < after
    ensures after / before - 1.0 > 0.0
  {
    var q := after / before;
    assert q * before == after;
    assert (q - 1.0) * before == after - before;
  }

  /**
   * One row of a strictly rising close series, after row shortWindow: while the long
   * average warms up the position is short and the row loses; afterwards the position is
   * long and the row earns exactly the price change.
   */
  lemma RisingRow(p: seq<real>, shortWindow: nat, longWindow: nat, t: nat)
    requires Positive(p) && StrictlyIncreasing(p)
    requires 0 < shortWindow < longWindow && shortWindow < t < |p|
    ensures StrategyReturnsOf(p, shortWindow, longWindow)[t].Some?
    ensures t < longWindow ==> StrategyReturnsOf(p, shortWindow, longWindow)[t].value < 0.0
    ensures t >= longWindow ==> StrategyReturnsOf(p, shortWindow, longWindow)[t] == PctChange(p)[t]
    ensures t >= longWindow ==> IsWin(StrategyReturnsOf(p, shortWindow, longWindow)[t])
  {
    if t < longWindow {
      RisingShortRow(p, shortWindow, longWindow, t);
    } else {
      RisingLongRow(p, shortWindow, longWindow, t);
    }
  }

  /** While the long average warms up, the short position loses on every rising row. */
  lemma RisingShortRow(p: seq<real>, shortWindow: nat, longWindow: nat, t: nat)
    requires Positive(p) && StrictlyIncreasing(p)
    requires 0 < shortWindow < t < longWindow && t < |p|
    ensures StrategyReturnsOf(p, shortWindow, longWindow)[t].Some?
    ensures StrategyReturnsOf(p, shortWindow, longWindow)[t].value < 0.0
  {
    assert p[t - 1] < p[t];
    StrategyReturnAt(p, shortWindow, longWindow, t);
    SignalOnRisingPrices(p, shortWindow, longWindow, t - 1);
    RisingRatio(p[t - 1], p[t]);
  }

  /** Once both windows are full, the long position earns exactly the rising price change. */
  lemma RisingLongRow(p: seq<real>, shortWindow: nat, longWindow: nat, t: nat)
    requires Positive(p) && StrictlyIncreasing(p)
    requires 0 < shortWindow < longWindow <= t < |p|
    ensures StrategyReturnsOf(p, shortWindow, longWindow)[t] == PctChange(p)[t]
    ensures IsWin(StrategyReturnsOf(p, shortWindow, longWindow)[t])
  {
    assert p[t - 1] < p[t];
    RisingRatio(p[t - 1], p[t]);
    StrategyReturnAt(p, shortWindow, longWindow, t);
    SignalOnRisingPrices(p, shortWindow, longWindow, t - 1);
    PctChangeAt(p, t);
    LongPosition(StrategyReturnsOf(p, shortWindow, longWindow)[t], PctChange(p)[t],
                 p[t] / p[t - 1] - 1.0, SignalsOf(p, shortWindow, longWindow)[t - 1]);
  }

  /**
   * A rewriting step for the solver: a long position (+1) earns the row's change x
   * unchanged, and a positive x is a win.
   */
  lemma LongPosition(earned: Option<real>, change: Option<real>, x: real, position: int)
    requires earned == Some(Mul(x, position as real)) && change == Some(x) && position == 1
    ensures earned == change
    ensures x > 0.0 ==> IsWin(earned)
  {
  }

  /**
   * Strictly rising closes: -1 while the long average warms up and +1 once both windows
   * are full. So rows shortWindow+1 .. longWindow-1 are short and lose, and every row from
   * longWindow on earns the (positive) price change.
   */
  lemma RisingPrices(p: seq<real>, shortWindow: nat, longWindow: nat)
    requires Positive(p) && StrictlyIncreasing(p)
    requires 0 < shortWindow < longWindow
    ensures forall t :: shortWindow <= t < |p| && t + 1 < longWindow ==> SignalsOf(p, shortWindow, longWindow)[t] == -1
    ensures forall t :: longWindow - 1 <= t < |p| ==> SignalsOf(p, shortWindow, longWindow)[t] == 1
    ensures forall t :: shortWindow < t < |p| && t < longWindow ==>
              StrategyReturnsOf(p, shortWindow, longWindow)[t].Some? && StrategyReturnsOf(p, shortWindow, longWindow)[t].value < 0.0
    ensures forall t :: longWindow <= t < |p| ==> StrategyReturnsOf(p, shortWindow, longWindow)[t] == PctChange(p)[t]
    ensures forall t :: longWindow <= t < |p| ==> IsWin(StrategyReturnsOf(p, shortWindow, longWindow)[t])
  {
    forall t | shortWindow <= t < |p|
      ensures SignalsOf(p, shortWindow, longWindow)[t] == if t + 1 < longWindow then -1 else 1
    {
      SignalOnRisingPrices(p, shortWindow, longWindow, t);
    }
    forall t | shortWindow < t < |p|
      ensures StrategyReturnsOf(p, shortWindow, longWindow)[t].Some?
      ensures t < longWindow ==> StrategyReturnsOf(p, shortWindow, longWindow)[t].value < 0.0
      ensures t >= longWindow ==> StrategyReturnsOf(p, shortWindow, longWindow)[t] == PctChange(p)[t]
      ensures t >= longWindow ==> IsWin(StrategyReturnsOf(p, shortWindow, longWindow)[t])
    {
      RisingRow(p, shortWindow, longWindow, t);
    }
  }

  /**
   * Strictly rising closes compound like the closes themselves once both windows are
   * full: for rows longWindow - 1 <= j < t, the equity at row t is the equity at row j
   * times p[t] / p[j], and so is one plus the cumulative return. With j = longWindow - 1
   * this is the cumulative return of the raw series from the end of the warm-up on.
   */
  lemma RisingEquity(p: seq<real>, shortWindow: nat, longWindow: nat, j: nat, t: nat)
    requires Positive(p) && StrictlyIncreasing(p)
    requires 0 < shortWindow < longWindow && longWindow - 1 <= j < t < |p|
    ensures EquityGrowsBy(StrategyReturnsOf(p, shortWindow, longWindow), j, t, p[t] / p[j])
  {
    RisingReturnsArePriceChanges(p, shortWindow, longWindow, t);
    CompoundsLikePrices(StrategyReturnsOf(p, shortWindow, longWindow), p, j, t);
  }

  /** Once both windows are full, a rising series' strategy returns are its price changes. */
  lemma RisingReturnsArePriceChanges(p: seq<real>, shortWindow: nat, longWindow: nat, t: nat)
    requires Positive(p) && StrictlyIncreasing(p)
    requires 0 < shortWindow < longWindow <= t < |p|
    ensures forall i {:trigger StrategyReturnsOf(p, shortWindow, longWindow)[i]} :: longWindow <= i <= t ==>
              StrategyReturnsOf(p, shortWindow, longWindow)[i] == Some(p[i] / p[i - 1] - 1.0)
  {
    forall i | longWindow <= i <= t
      ensures StrategyReturnsOf(p, shortWindow, longWindow)[i] == Some(p[i] / p[i - 1] - 1.0)
    {
      RisingRow(p, shortWindow, longWindow, i);
    }
  }

  /**
   * With the script's windows of 20 and 50 days: rows 0 ..= 19 hold no position, rows
   * 20 ..= 48 are short (the 50-day average is not yet defined), and rows 1 ..= 20 earn 0.
   */
  lemma ScriptWindows(p: seq<real>)
    requires Positive(p)
    ensures forall t :: 0 <= t < |p| && t < ShortWindow ==> SignalsOf(p, ShortWindow, LongWindow)[t] == 0
    ensures forall t :: ShortWindow <= t < |p| && t < LongWindow - 1 ==> SignalsOf(p, ShortWindow, LongWindow)[t] == -1
    ensures forall t :: 1 <= t < |p| && t <= ShortWindow ==> StrategyReturnsOf(p, ShortWindow, LongWindow)[t] == Some(0.0)
  {
    forall t | 0 <= t < |p| && t < ShortWindow
      ensures SignalsOf(p, ShortWindow, LongWindow)[t] == 0
    {
      SignalAt(Sma(p, ShortWindow), Sma(p, LongWindow), ShortWindow, t);
    }
    forall t | ShortWindow <= t < |p| && t < LongWindow - 1
      ensures SignalsOf(p, ShortWindow, LongWindow)[t] == -1
    {
      SignalShortDuringLongWarmup(p, ShortWindow, LongWindow, t);
    }
    forall t | 1 <= t < |p| && t <= ShortWindow
      ensures StrategyReturnsOf(p, ShortWindow, LongWindow)[t] == Some(0.0)
    {
      StrategyFlatDuringWarmup(p, ShortWindow, LongWindow, t);
    }
  }
}
