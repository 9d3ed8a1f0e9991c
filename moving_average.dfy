/**
 * Simple moving averages over a close-price series, as `Series.rolling(window=w).mean()`
 * computes them: undefined until w closes are available, then the mean of the last w.
 */
module MovingAverage {

  import opened Options
  import opened Sums

  /** Index of the oldest close in the window of width w that ends at t (0 while the window is filling). */
  function WindowStart(t: nat, w: nat): nat
  {
    if t + 1 >= w then t + 1 - w else 0
  }

  /**
   * The running window sum a rolling mean keeps: the new close enters, the close w steps
   * back leaves. It is the sum of the closes currently in the window.
   */
  function RollingSum(p: seq<real>, w: nat, t: nat): (r: real)
    requires w > 0 && t < |p|
    ensures r == Sum(p[WindowStart(t, w)..t + 1])
  {
    if t == 0 then
      assert p[0..1][..0] == [];
      p[0]
    else
      var lo := WindowStart(t - 1, w);
      assert p[lo..t + 1][..t - lo] == p[lo..t];
      if t >= w then
        SumFront(p[lo..t + 1]);
        assert p[lo..t + 1][1..] == p[lo + 1..t + 1];
        RollingSum(p, w, t - 1) + p[t] - p[t - w]
      else
        RollingSum(p, w, t - 1) + p[t]
  }

  /** Rolling mean with window w: None (NaN) exactly while fewer than w closes are in the window. */
  function Sma(p: seq<real>, w: nat): (r: seq<Option<real>>)
    requires w > 0
    ensures |r| == |p|
    ensures forall t :: 0 <= t < |p| ==> (r[t].None? <==> t + 1 < w)
  {
    seq(|p|, t requires 0 <= t < |p| => if t + 1 < w then None else Some(RollingSum(p, w, t) / w as real))
  }

  /** The SMA is undefined for t < w - 1 and is the mean of closes t-w+1 ..= t afterwards. */
  lemma SmaIsMean(p: seq<real>, w: nat, t: nat)
    requires w > 0 && t < |p|
    ensures t + 1 < w ==> Sma(p, w)[t] == None
    ensures t + 1 >= w ==> Sma(p, w)[t] == Some(Mean(p[t + 1 - w..t + 1]))
  {
  }

  /** Causality: the SMA of a truncated history is the truncated SMA. */
  lemma SmaCausal(p: seq<real>, w: nat, n: nat)
    requires w > 0 && n <= |p|
    ensures Sma(p[..n], w) == Sma(p, w)[..n]
  {
    forall t | 0 <= t < n
      ensures Sma(p[..n], w)[t] == Sma(p, w)[t]
    {
      SmaIsMean(p[..n], w, t);
      SmaIsMean(p, w, t);
      if t + 1 >= w {
        assert p[..n][t + 1 - w..t + 1] == p[t + 1 - w..t + 1];
      }
    }
  }

  /** On a constant series the SMA equals the constant once the window is full. */
  lemma SmaOfConstant(p: seq<real>, c: real, w: nat, t: nat)
    requires forall i :: 0 <= i < |p| ==> p[i] == c
    requires w > 0 && w - 1 <= t < |p|
    ensures Sma(p, w)[t] == Some(c)
  {
    SmaIsMean(p, w, t);
    MeanConstant(p[t + 1 - w..t + 1], c);
  }

  predicate StrictlyIncreasing(p: seq<real>)
  {
    forall i, j :: 0 <= i < j < |p| ==> p[i] < p[j]
  }

  /**
   * The arithmetic core of a crossover on rising prices: if the s most recent closes sum
   * to b (each at least c) and the l - s older ones to a (each below c), the mean of the
   * recent ones exceeds the mean of all l, whose sum is total.
   */
  lemma RecentMeanAbove(a: real, b: real, total: real, c: real, S: real, L: real)
    requires 0.0 < S < L && total == a + b
    requires a < (L - S) * c && S * c <= b
    ensures total / L < b / S
  {
    assert S * a < S * ((L - S) * c);
    assert (L - S) * (S * c) <= (L - S) * b;
    assert S * total < L * b;
    var m, n := total / L, b / S;
    assert total == m * L && b == n * S;
    assert S * L * m < S * L * n;
  }

  /** Appending entries that are all strictly larger than every older one raises the mean above the whole. */
  lemma MeanOfNewerPart(older: seq<real>, recent: seq<real>, c: real)
    requires |older| > 0 && |recent| > 0
    requires forall i :: 0 <= i < |older| ==> older[i] < c
    requires forall i :: 0 <= i < |recent| ==> c <= recent[i]
    ensures Mean(recent) > Mean(older + recent)
  {
    SumConcat(older, recent);
    SumBelow(older, c);
    SumAtLeast(recent, c);
    var S, L := |recent| as real, |older + recent| as real;
    RecentMeanAbove(Sum(older), Sum(recent), Sum(older + recent), c, S, L);
  }

  /**
   * In a strictly increasing window the mean of its s most recent entries is above the
   * mean of the whole window.
   */
  lemma RecentPartAboveMean(w: seq<real>, s: nat)
    requires StrictlyIncreasing(w) && 0 < s < |w|
    ensures Mean(w[|w| - s..]) > Mean(w)
  {
    var mid := |w| - s;
    var older, recent := w[..mid], w[mid..];
    assert w == older + recent;
    var c := w[mid];
    assert forall i :: 0 <= i < |older| ==> older[i] < c;
    assert forall i :: 0 <= i < |recent| ==> c <= recent[i];
    MeanOfNewerPart(older, recent, c);
  }
  /**
   * On a strictly increasing series the shorter average stays strictly above the
   * longer one once both windows are full.
   */
  lemma SmaShortAboveLong(p: seq<real>, s: nat, l: nat, t: nat)
    requires StrictlyIncreasing(p)
    requires 0 < s < l && l - 1 <= t < |p|
    ensures Sma(p, s)[t].Some? && Sma(p, l)[t].Some?
    ensures Sma(p, s)[t].value > Sma(p, l)[t].value
  {
    SmaIsMean(p, s, t);
    SmaIsMean(p, l, t);
    var w := p[t + 1 - l..t + 1];
    assert StrictlyIncreasing(w);
    assert w[|w| - s..] == p[t + 1 - s..t + 1];
    RecentPartAboveMean(w, s);
  }
}
