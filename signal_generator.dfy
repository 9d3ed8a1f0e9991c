/**
 * The Signal column: 0 for the first shortWindow rows, then +1 where the short SMA is
 * above the long SMA and -1 otherwise. A comparison with a missing (NaN) average is false,
 * so a missing long average and a tie both give -1.
 */
module SignalGenerator {

  import opened Options
  import opened MovingAverage

  /** `a > b` on two possibly-NaN floats: false as soon as either side is NaN. */
  predicate Above(a: Option<real>, b: Option<real>)
  {
    a.Some? && b.Some? && a.value > b.value
  }

  /** `np.where(a > b, 1, -1)` element by element: 1 where a is above b, -1 everywhere else. */
  function Where(a: seq<Option<real>>, b: seq<Option<real>>): (r: seq<int>)
    requires |a| == |b|
    ensures |r| == |a|
    ensures forall i {:trigger r[i]} :: 0 <= i < |a| ==> (r[i] == 1 <==> Above(a[i], b[i])) && (r[i] == -1 <==> !Above(a[i], b[i]))
  {
    seq(|a|, i requires 0 <= i < |a| => if Above(a[i], b[i]) then 1 else -1)
  }

  /**
   * A column of zeros overwritten from row k on by the crossover comparison: every entry is
   * a position -1, 0 or 1, and it is 0 (flat) exactly before row k.
   */
  function Signals(smaShort: seq<Option<real>>, smaLong: seq<Option<real>>, k: nat): (r: seq<int>)
    requires |smaShort| == |smaLong|
    ensures |r| == |smaShort|
    ensures forall t :: 0 <= t < |r| ==> r[t] in {-1, 0, 1}
    ensures forall t :: 0 <= t < |r| ==> (r[t] == 0 <==> t < k)
  {
    if |smaShort| <= k then seq(|smaShort|, _ => 0)
    else
      var tail := Where(smaShort[k..], smaLong[k..]);
      var r := seq(k, _ => 0) + tail;
      assert forall t :: k <= t < |r| ==> r[t] == tail[t - k];
      r
  }

  /** Signal of a close series for the two windows: a position per row, flat exactly before row shortWindow. */
  function SignalsOf(p: seq<real>, shortWindow: nat, longWindow: nat): (r: seq<int>)
    requires 0 < shortWindow < longWindow
    ensures |r| == |p|
    ensures forall t :: 0 <= t < |r| ==> r[t] in {-1, 0, 1}
    ensures forall t :: 0 <= t < |r| ==> (r[t] == 0 <==> t < shortWindow)
  {
    Signals(Sma(p, shortWindow), Sma(p, longWindow), shortWindow)
  }

  /** Row by row: 0 before row k; from row k on, +1 exactly when the short average is above. */
  lemma SignalAt(smaShort: seq<Option<real>>, smaLong: seq<Option<real>>, k: nat, t: nat)
    requires |smaShort| == |smaLong| && t < |smaShort|
    ensures t < k ==> Signals(smaShort, smaLong, k)[t] == 0
    ensures t >= k ==> (Signals(smaShort, smaLong, k)[t] == 1 <==> Above(smaShort[t], smaLong[t]))
    ensures t >= k ==> (Signals(smaShort, smaLong, k)[t] == -1 <==> !Above(smaShort[t], smaLong[t]))
  {
    if k < |smaShort| && t >= k {
      assert Signals(smaShort, smaLong, k)[t] == Where(smaShort[k..], smaLong[k..])[t - k];
    }
  }

  /**
   * The Signal column, written in place: first every row is set to 0, then rows
   * shortWindow .. end get the crossover comparison.
   */
  method AssignSignals(signal: array<int>, smaShort: seq<Option<real>>, smaLong: seq<Option<real>>, shortWindow: nat)
    requires signal.Length == |smaShort| == |smaLong|
    modifies signal
    ensures signal[..] == Signals(smaShort, smaLong, shortWindow)
  {
    var n := signal.Length;
    var t := 0;
    while t < n
      invariant 0 <= t <= n
      invariant forall i :: 0 <= i < t ==> signal[i] == 0
    {
      signal[t] := 0;
      t := t + 1;
    }
    t := if shortWindow < n then shortWindow else n;
    while t < n
      invariant t == n || shortWindow <= t < n
      invariant forall i :: 0 <= i < n && (i < shortWindow || t <= i) ==> signal[i] == 0
      invariant forall i :: shortWindow <= i < t ==> signal[i] == if Above(smaShort[i], smaLong[i]) then 1 else -1
    {
      signal[t] := if Above(smaShort[t], smaLong[t]) then 1 else -1;
      t := t + 1;
    }
    forall i | 0 <= i < n
      ensures signal[i] == Signals(smaShort, smaLong, shortWindow)[i]
    {
      SignalAt(smaShort, smaLong, shortWindow, i);
    }
  }

  /**
   * Between row shortWindow and row longWindow - 2 the long average is still NaN, so the
   * signal there is -1 whatever the prices.
   */
  lemma SignalShortDuringLongWarmup(p: seq<real>, shortWindow: nat, longWindow: nat, t: nat)
    requires 0 < shortWindow < longWindow
    requires shortWindow <= t < |p| && t + 1 < longWindow
    ensures SignalsOf(p, shortWindow, longWindow)[t] == -1
  {
    SmaIsMean(p, longWindow, t);
    SignalAt(Sma(p, shortWindow), Sma(p, longWindow), shortWindow, t);
  }

  /**
   * Once both windows are full the signal is +1 exactly when the mean of the last
   * shortWindow closes exceeds the mean of the last longWindow closes; a tie is -1.
   */
  lemma SignalAfterWarmup(p: seq<real>, shortWindow: nat, longWindow: nat, t: nat)
    requires 0 < shortWindow < longWindow
    requires longWindow - 1 <= t < |p|
    ensures SignalsOf(p, shortWindow, longWindow)[t]
         == if Sums.Mean(p[t + 1 - shortWindow..t + 1]) > Sums.Mean(p[t + 1 - longWindow..t + 1]) then 1 else -1
  {
    SmaIsMean(p, shortWindow, t);
    SmaIsMean(p, longWindow, t);
    SignalAt(Sma(p, shortWindow), Sma(p, longWindow), shortWindow, t);
  }

  /** Causality of the column: the signal of a truncated history is the truncated signal. */
  lemma SignalsCausal(p: seq<real>, shortWindow: nat, longWindow: nat, n: nat)
    requires 0 < shortWindow < longWindow && n <= |p|
    ensures SignalsOf(p[..n], shortWindow, longWindow) == SignalsOf(p, shortWindow, longWindow)[..n]
  {
    var ss, sl := Sma(p, shortWindow), Sma(p, longWindow);
    SmaCausal(p, shortWindow, n);
    SmaCausal(p, longWindow, n);
    forall t | 0 <= t < n
      ensures SignalsOf(p[..n], shortWindow, longWindow)[t] == SignalsOf(p, shortWindow, longWindow)[t]
    {
      SignalAt(ss[..n], sl[..n], shortWindow, t);
      SignalAt(ss, sl, shortWindow, t);
    }
  }

  /** No look-ahead: two histories that agree up to row t give the same signal at t. */
  lemma SignalNoLookAhead(p: seq<real>, q: seq<real>, shortWindow: nat, longWindow: nat, t: nat)
    requires 0 < shortWindow < longWindow
    requires t < |p| && t < |q| && p[..t + 1] == q[..t + 1]
    ensures SignalsOf(p, shortWindow, longWindow)[t] == SignalsOf(q, shortWindow, longWindow)[t]
  {
    var n := t + 1;
    SignalsCausal(p, shortWindow, longWindow, n);
    SignalsCausal(q, shortWindow, longWindow, n);
    var sp, sq := SignalsOf(p, shortWindow, longWindow), SignalsOf(q, shortWindow, longWindow);
    assert sp[..n] == sq[..n];
    assert sp[t] == sp[..n][t] && sq[t] == sq[..n][t];
  }

  /** Rising closes: -1 while the long average warms up, +1 from row longWindow - 1 on. */
  lemma SignalOnRisingPrices(p: seq<real>, shortWindow: nat, longWindow: nat, t: nat)
    requires StrictlyIncreasing(p)
    requires 0 < shortWindow < longWindow && shortWindow <= t < |p|
    ensures SignalsOf(p, shortWindow, longWindow)[t] == if t + 1 < longWindow then -1 else 1
  {
    SignalAt(Sma(p, shortWindow), Sma(p, longWindow), shortWindow, t);
    if t + 1 < longWindow {
      SignalShortDuringLongWarmup(p, shortWindow, longWindow, t);
    } else {
      SmaShortAboveLong(p, shortWindow, longWindow, t);
    }
  }

  /** Constant closes: every signal from row shortWindow on is -1, because equal averages are not "above". */
  lemma SignalOnConstantPrices(p: seq<real>, c: real, shortWindow: nat, longWindow: nat, t: nat)
    requires forall i :: 0 <= i < |p| ==> p[i] == c
    requires 0 < shortWindow < longWindow && shortWindow <= t < |p|
    ensures SignalsOf(p, shortWindow, longWindow)[t] == -1
  {
    SignalAt(Sma(p, shortWindow), Sma(p, longWindow), shortWindow, t);
    if t + 1 < longWindow {
      SignalShortDuringLongWarmup(p, shortWindow, longWindow, t);
    } else {
      SmaOfConstant(p, c, shortWindow, t);
      SmaOfConstant(p, c, longWindow, t);
    }
  }
}
