/**
 * Per-row returns: the close's percent change, and the strategy return, which is the
 * percent change times the previous row's signal (`Signal.shift(1)`).
 */
module ReturnCalculator {

  import opened Options
  import opened Sums
  import opened SignalGenerator

  predicate Positive(p: seq<real>)
  {
    forall i :: 0 <= i < |p| ==> p[i] > 0.0
  }

  /**
   * `pct_change()`: p[t] / p[t-1] - 1, NaN exactly in the first row. On positive closes a
   * row never loses more than everything: the change is above -1.
   */
  function PctChange(p: seq<real>): (r: seq<Option<real>>)
    requires Positive(p)
    ensures |r| == |p|
    ensures forall t :: 0 <= t < |p| ==> (r[t].None? <==> t == 0)
    ensures forall t :: 0 < t < |p| ==> r[t].value > -1.0
  {
    seq(|p|, t requires 0 <= t < |p| => if t == 0 then None else Some(p[t] / p[t - 1] - 1.0))
  }

  /** `shift(1)` of an integer column: the previous row's value as a float, NaN in the first row. */
  function Shift(x: seq<int>): (r: seq<Option<real>>)
    ensures |r| == |x|
    ensures forall t {:trigger r[t]} :: 0 <= t < |x| ==> (r[t].None? <==> t == 0)
    ensures forall t {:trigger r[t]} :: 0 < t < |x| ==> r[t].value == x[t - 1] as real
  {
    seq(|x|, t requires 0 <= t < |x| => if t == 0 then None else Some(x[t - 1] as real))
  }

  /** Element-wise product of two float columns; NaN wherever either side is NaN. */
  function Times(a: seq<Option<real>>, b: seq<Option<real>>): (r: seq<Option<real>>)
    requires |a| == |b|
    ensures |r| == |a|
    ensures forall t {:trigger r[t]} :: 0 <= t < |a| ==> (r[t].Some? <==> a[t].Some? && b[t].Some?)
  {
    seq(|a|, t requires 0 <= t < |a| => if a[t].Some? && b[t].Some? then Some(Mul(a[t].value, b[t].value)) else None)
  }

  /** `Return * Signal.shift(1)`: NaN in the first row and wherever the row's return is NaN. */
  function StrategyReturns(ret: seq<Option<real>>, signal: seq<int>): (r: seq<Option<real>>)
    requires |ret| == |signal|
    ensures |r| == |ret|
    ensures forall t {:trigger r[t]} :: 0 <= t < |ret| ==> (r[t].Some? <==> t > 0 && ret[t].Some?)
  {
    Times(ret, Shift(signal))
  }

  /** The strategy return of a close series for the two windows: defined on every row but the first. */
  function StrategyReturnsOf(p: seq<real>, shortWindow: nat, longWindow: nat): (r: seq<Option<real>>)
    requires Positive(p) && 0 < shortWindow < longWindow
    ensures |r| == |p|
    ensures forall t :: 0 <= t < |p| ==> (r[t].Some? <==> t > 0)
  {
    StrategyReturns(PctChange(p), SignalsOf(p, shortWindow, longWindow))
  }

  /**
   * The one-row lag: undefined in row 0; from row 1 on, the row's price change weighted by
   * the position taken at the previous row's close.
   */
  lemma StrategyReturnAt(p: seq<real>, shortWindow: nat, longWindow: nat, t: nat)
    requires Positive(p) && 0 < shortWindow < longWindow && t < |p|
    ensures t == 0 ==> StrategyReturnsOf(p, shortWindow, longWindow)[t] == None
    ensures t > 0 ==> StrategyReturnsOf(p, shortWindow, longWindow)[t]
                      == Some(Mul(p[t] / p[t - 1] - 1.0, SignalsOf(p, shortWindow, longWindow)[t - 1] as real))
  {
    var ret, signal := PctChange(p), SignalsOf(p, shortWindow, longWindow);
    if t > 0 {
      var x := p[t] / p[t - 1] - 1.0;
      assert ret[t] == Some(x);
      LaggedProductAt(ret, signal, t, x);
    } else {
      assert StrategyReturns(ret, signal)[0].None?;
    }
  }

  /** Row t > 0 of `ret * signal.shift(1)` for any columns: the row's return x times the previous signal. */
  lemma LaggedProductAt(ret: seq<Option<real>>, signal: seq<int>, t: nat, x: real)
    requires |ret| == |signal| && 0 < t < |ret| && ret[t] == Some(x)
    ensures StrategyReturns(ret, signal)[t] == Some(Mul(x, signal[t - 1] as real))
  {
    var shifted := Shift(signal);
    assert shifted[t] == Some(signal[t - 1] as real);
    assert Times(ret, shifted)[t] == Some(Mul(x, signal[t - 1] as real));
  }

  /** Row t > 0 of `pct_change()`: the close's ratio to the previous close, minus 1. */
  lemma PctChangeAt(p: seq<real>, t: nat)
    requires Positive(p) && 0 < t < |p|
    ensures PctChange(p)[t] == Some(p[t] / p[t - 1] - 1.0)
  {
  }

  /** Rows 1 ..= shortWindow act on a flat (0) position and so earn exactly 0. */
  lemma StrategyFlatDuringWarmup(p: seq<real>, shortWindow: nat, longWindow: nat, t: nat)
    requires Positive(p) && 0 < shortWindow < longWindow
    requires 1 <= t <= shortWindow && t < |p|
    ensures StrategyReturnsOf(p, shortWindow, longWindow)[t] == Some(0.0)
  {
    SignalAt(MovingAverage.Sma(p, shortWindow), MovingAverage.Sma(p, longWindow), shortWindow, t - 1);
  }

  /** Causality: the strategy returns of a truncated history are the truncated returns. */
  lemma StrategyReturnsCausal(p: seq<real>, shortWindow: nat, longWindow: nat, n: nat)
    requires Positive(p) && 0 < shortWindow < longWindow && n <= |p|
    ensures Positive(p[..n])
    ensures StrategyReturnsOf(p[..n], shortWindow, longWindow) == StrategyReturnsOf(p, shortWindow, longWindow)[..n]
  {
    PctChangeCausal(p, n);
    SignalsCausal(p, shortWindow, longWindow, n);
    var signal := SignalsOf(p, shortWindow, longWindow);
    ShiftCausal(signal, n);
    TimesCausal(PctChange(p), Shift(signal), n);
  }

  /** The percent change of a truncated history is the truncated percent change. */
  lemma PctChangeCausal(p: seq<real>, n: nat)
    requires Positive(p) && n <= |p|
    ensures Positive(p[..n])
    ensures PctChange(p[..n]) == PctChange(p)[..n]
  {
    var q := p[..n];
    assert Positive(q);
    forall t | 0 < t < n
      ensures PctChange(q)[t] == PctChange(p)[t]
    {
      assert q[t] == p[t] && q[t - 1] == p[t - 1];
    }
  }

  /** Shifting a truncated column gives the truncated shift. */
  lemma ShiftCausal(x: seq<int>, n: nat)
    requires n <= |x|
    ensures Shift(x[..n]) == Shift(x)[..n]
  {
  }

  /** The product of two truncated columns is the truncated product. */
  lemma TimesCausal(a: seq<Option<real>>, b: seq<Option<real>>, n: nat)
    requires |a| == |b| && n <= |a|
    ensures Times(a[..n], b[..n]) == Times(a, b)[..n]
  {
    forall t | 0 <= t < n
      ensures Times(a[..n], b[..n])[t] == Times(a, b)[t]
    {
      assert a[..n][t] == a[t] && b[..n][t] == b[t];
    }
  }

  /** No look-ahead: two histories that agree up to row t give the same strategy return at t. */
  lemma StrategyNoLookAhead(p: seq<real>, q: seq<real>, shortWindow: nat, longWindow: nat, t: nat)
    requires Positive(p) && Positive(q) && 0 < shortWindow < longWindow
    requires t < |p| && t < |q| && p[..t + 1] == q[..t + 1]
    ensures StrategyReturnsOf(p, shortWindow, longWindow)[t] == StrategyReturnsOf(q, shortWindow, longWindow)[t]
  {
    StrategyReturnsCausal(p, shortWindow, longWindow, t + 1);
    StrategyReturnsCausal(q, shortWindow, longWindow, t + 1);
  }
}
