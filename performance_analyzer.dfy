/**
 * Reductions of the strategy-return column: the compounded equity curve
 * (`(1 + r).cumprod()`), the drawdown curve (equity over its running maximum, minus 1),
 * its minimum, and the win rate (`(r > 0).mean()`). As in pandas, cumprod, cummax and
 * min skip NaN entries, and NaN itself is not "> 0".
 */
module PerformanceAnalyzer {

  import opened Options
  import opened Sums

  /** `1 + r`: a missing return stays missing. */
  function Growth(r: seq<Option<real>>): (g: seq<Option<real>>)
    ensures |g| == |r|
    ensures forall t {:trigger g[t]} :: 0 <= t < |r| ==> (g[t].Some? <==> r[t].Some?)
    ensures forall t {:trigger g[t]} :: 0 <= t < |r| && r[t].Some? ==> g[t].value == 1.0 + r[t].value
  {
    seq(|r|, t requires 0 <= t < |r| => if r[t].Some? then Some(1.0 + r[t].value) else None)
  }

  /** What a row contributes to a skip-NaN product. */
  function Factor(x: Option<real>): real
  {
    if x.Some? then x.value else 1.0
  }

  /** Product of the defined entries of xs (1 if there are none). */
  function DefinedProduct(xs: seq<Option<real>>): real
  {
    if |xs| == 0 then 1.0 else Mul(Factor(xs[0]), DefinedProduct(xs[1..]))
  }

  /** `cumprod()` as a single pass carrying the running product acc: NaN exactly where the input is NaN. */
  function CumProdFrom(xs: seq<Option<real>>, acc: real): (r: seq<Option<real>>)
    ensures |r| == |xs|
    ensures forall t {:trigger r[t]} :: 0 <= t < |xs| ==> (r[t].Some? <==> xs[t].Some?)
  {
    if |xs| == 0 then []
    else if xs[0].Some? then [Some(Mul(acc, xs[0].value))] + CumProdFrom(xs[1..], Mul(acc, xs[0].value))
    else [None] + CumProdFrom(xs[1..], acc)
  }

  function CumProd(xs: seq<Option<real>>): (r: seq<Option<real>>)
    ensures |r| == |xs|
    ensures forall t {:trigger r[t]} :: 0 <= t < |xs| ==> (r[t].Some? <==> xs[t].Some?)
  {
    CumProdFrom(xs, 1.0)
  }

  /**
   * The single pass started with a running product acc yields, at each defined row, acc
   * times the product of every defined entry up to it.
   */
  lemma {:induction false} CumProdFromAt(xs: seq<Option<real>>, acc: real, t: nat)
    requires t < |xs|
    decreases t
    ensures xs[t].None? ==> CumProdFrom(xs, acc)[t] == None
    ensures xs[t].Some? ==> CumProdFrom(xs, acc)[t] == Some(Mul(acc, DefinedProduct(xs[..t + 1])))
  {
    var head := xs[..t + 1];
    assert head[1..] == xs[1..][..t];
    if t > 0 {
      var acc' := if xs[0].Some? then Mul(acc, xs[0].value) else acc;
      CumProdFromTail(xs, acc, t);
      CumProdFromAt(xs[1..], acc', t - 1);
      MulAssociative(acc, Factor(xs[0]), DefinedProduct(head[1..]));
    }
  }

  /** Past the first row, the single pass continues on the tail with the updated product. */
  lemma CumProdFromTail(xs: seq<Option<real>>, acc: real, t: nat)
    requires 0 < t < |xs|
    ensures CumProdFrom(xs, acc)[t]
            == CumProdFrom(xs[1..], if xs[0].Some? then Mul(acc, xs[0].value) else acc)[t - 1]
  {
  }

  /** The running product at a defined row is the product of every defined entry up to it. */
  lemma CumProdAt(xs: seq<Option<real>>, t: nat)
    requires t < |xs|
    ensures CumProd(xs)[t] == if xs[t].Some? then Some(DefinedProduct(xs[..t + 1])) else None
  {
    CumProdFromAt(xs, 1.0, t);
  }

  lemma {:induction false} CumProdFromCausal(xs: seq<Option<real>>, acc: real, n: nat)
    requires n <= |xs|
    ensures CumProdFrom(xs[..n], acc) == CumProdFrom(xs, acc)[..n]
  {
    if n > 0 {
      var tail, m := xs[1..], n - 1;
      var acc' := if xs[0].Some? then Mul(acc, xs[0].value) else acc;
      assert xs[..n][1..] == tail[..m];
      CumProdFromCausal(tail, acc', m);
      assert xs[..n][0] == xs[0];
    }
  }

  /** The larger of the best value so far and v. */
  function Larger(best: Option<real>, v: real): real
  {
    if best.Some? && best.value > v then best.value else v
  }

  /**
   * `cummax()` as a single pass carrying the best value seen so far: NaN exactly where the
   * input is NaN, and elsewhere at least the row's own value and the best value carried in.
   */
  function CumMaxFrom(xs: seq<Option<real>>, best: Option<real>): (r: seq<Option<real>>)
    ensures |r| == |xs|
    ensures forall t {:trigger r[t]} :: 0 <= t < |xs| ==> (r[t].Some? <==> xs[t].Some?)
    ensures forall t {:trigger r[t]} :: 0 <= t < |xs| && xs[t].Some? ==> xs[t].value <= r[t].value
    ensures forall t {:trigger r[t]} :: 0 <= t < |xs| && xs[t].Some? && best.Some? ==> best.value <= r[t].value
  {
    if |xs| == 0 then []
    else if xs[0].Some? then [Some(Larger(best, xs[0].value))] + CumMaxFrom(xs[1..], Some(Larger(best, xs[0].value)))
    else [None] + CumMaxFrom(xs[1..], best)
  }

  function CumMax(xs: seq<Option<real>>): (r: seq<Option<real>>)
    ensures |r| == |xs|
    ensures forall t {:trigger r[t]} :: 0 <= t < |xs| ==> (r[t].Some? <==> xs[t].Some?)
    ensures forall t {:trigger r[t]} :: 0 <= t < |xs| && xs[t].Some? ==> xs[t].value <= r[t].value
  {
    CumMaxFrom(xs, None)
  }

  /** m bounds every defined entry of xs[..t + 1] from above. */
  predicate UpperBoundUpTo(xs: seq<Option<real>>, t: nat, m: real)
    requires t < |xs|
  {
    forall i :: 0 <= i <= t && xs[i].Some? ==> xs[i].value <= m
  }

  /** m is the value of some defined entry of xs[..t + 1]. */
  predicate AttainedUpTo(xs: seq<Option<real>>, t: nat, m: real)
    requires t < |xs|
  {
    exists i :: 0 <= i <= t && xs[i] == Some(m)
  }

  lemma {:induction false} CumMaxFromAt(xs: seq<Option<real>>, best: Option<real>, t: nat)
    requires t < |xs| && xs[t].Some?
    ensures UpperBoundUpTo(xs, t, CumMaxFrom(xs, best)[t].value)
    ensures AttainedUpTo(xs, t, CumMaxFrom(xs, best)[t].value) || best == CumMaxFrom(xs, best)[t]
  {
    var whole := CumMaxFrom(xs, best);
    var m := whole[t].value;
    if t > 0 {
      var best' := if xs[0].Some? then Some(Larger(best, xs[0].value)) else best;
      var tail := xs[1..];
      var rest := CumMaxFrom(tail, best');
      assert whole == [whole[0]] + rest;
      assert whole[t] == rest[t - 1];
      assert tail[t - 1] == xs[t];
      CumMaxFromAt(tail, best', t - 1);
      forall i | 0 <= i <= t && xs[i].Some?
        ensures xs[i].value <= m
      {
        if i > 0 {
          assert xs[i] == tail[i - 1];
        }
      }
      if AttainedUpTo(tail, t - 1, m) {
        var j :| 0 <= j <= t - 1 && tail[j] == Some(m);
        assert xs[j + 1] == Some(m);
      } else if xs[0].Some? && m == xs[0].value {
        assert xs[0] == Some(m);
      }
    }
  }

  /** The running maximum at a defined row bounds, and equals, a defined entry up to that row. */
  lemma CumMaxAt(xs: seq<Option<real>>, t: nat)
    requires t < |xs|
    ensures CumMax(xs)[t].Some? <==> xs[t].Some?
    ensures xs[t].Some? ==> UpperBoundUpTo(xs, t, CumMax(xs)[t].value) && AttainedUpTo(xs, t, CumMax(xs)[t].value)
  {
    if xs[t].Some? {
      CumMaxFromAt(xs, None, t);
    }
  }

  lemma {:induction false} CumMaxFromCausal(xs: seq<Option<real>>, best: Option<real>, n: nat)
    requires n <= |xs|
    ensures CumMaxFrom(xs[..n], best) == CumMaxFrom(xs, best)[..n]
  {
    if n > 0 {
      assert xs[..n][1..] == xs[1..][..n - 1];
      var best' := if xs[0].Some? then Some(Larger(best, xs[0].value)) else best;
      CumMaxFromCausal(xs[1..], best', n - 1);
    }
  }

  /** `(1 + r).cumprod()`: the equity multiple at each row, NaN exactly where the return is NaN. */
  function Equity(r: seq<Option<real>>): (e: seq<Option<real>>)
    ensures |e| == |r|
    ensures forall t {:trigger e[t]} :: 0 <= t < |r| ==> (e[t].Some? <==> r[t].Some?)
  {
    CumProd(Growth(r))
  }

  /** Product of (1 + r[k]) over the defined returns r[k]. */
  function Compounded(r: seq<Option<real>>): real
  {
    DefinedProduct(Growth(r))
  }

  /** `(1 + r).cumprod() - 1`: NaN exactly where the return is NaN, otherwise the equity minus 1. */
  function CumulativeReturn(r: seq<Option<real>>): (c: seq<Option<real>>)
    ensures |c| == |r|
    ensures forall t {:trigger c[t]} :: 0 <= t < |r| ==> (c[t].Some? <==> r[t].Some?)
    ensures forall t {:trigger c[t]} :: 0 <= t < |r| && r[t].Some? ==> c[t].value == Equity(r)[t].value - 1.0
  {
    var e := Equity(r);
    seq(|r|, t requires 0 <= t < |r| => if e[t].Some? then Some(e[t].value - 1.0) else None)
  }

  /** `e.div(m) - 1` for one row; NaN where either side is NaN or the divisor is 0. */
  function Ratio(e: Option<real>, m: Option<real>): Option<real>
  {
    if e.Some? && m.Some? && m.value != 0.0 then Some(e.value / m.value - 1.0) else None
  }

  /** `equity.div(equity.cummax()) - 1`: only defined on rows whose return is defined. */
  function Drawdown(r: seq<Option<real>>): (d: seq<Option<real>>)
    ensures |d| == |r|
    ensures forall t {:trigger d[t]} :: 0 <= t < |r| && d[t].Some? ==> r[t].Some?
  {
    var e := Equity(r);
    var m := CumMax(e);
    seq(|r|, t requires 0 <= t < |r| => Ratio(e[t], m[t]))
  }

  /** `min()` with NaN skipped: None when no entry is defined. */
  function MinDefined(xs: seq<Option<real>>): (r: Option<real>)
    ensures r.None? <==> forall i :: 0 <= i < |xs| ==> xs[i].None?
    ensures r.Some? ==> forall i :: 0 <= i < |xs| && xs[i].Some? ==> r.value <= xs[i].value
    ensures r.Some? ==> exists i :: 0 <= i < |xs| && xs[i] == r
  {
    if |xs| == 0 then None
    else
      var rest := MinDefined(xs[1..]);
      assert forall j :: 0 <= j < |xs| - 1 ==> xs[1..][j] == xs[j + 1];
      if xs[0].None? || (rest.Some? && rest.value < xs[0].value) then rest else xs[0]
  }

  /**
   * `drawdown.min()`: NaN exactly when every drawdown entry is NaN (so whenever no return
   * is defined); otherwise the drawdown of some defined row, and no row's drawdown is smaller.
   */
  function MaxDrawdown(r: seq<Option<real>>): (m: Option<real>)
    ensures m.None? <==> forall t :: 0 <= t < |r| ==> Drawdown(r)[t].None?
    ensures (forall t :: 0 <= t < |r| ==> r[t].None?) ==> m.None?
    ensures m.Some? ==> exists t :: 0 <= t < |r| && r[t].Some? && Drawdown(r)[t] == m
    ensures m.Some? ==> forall t :: 0 <= t < |r| && Drawdown(r)[t].Some? ==> m.value <= Drawdown(r)[t].value
  {
    MinDefined(Drawdown(r))
  }

  /** `r > 0` on a possibly-NaN float. */
  predicate IsWin(x: Option<real>)
  {
    x.Some? && x.value > 0.0
  }

  /** The boolean column `r > 0` as 1.0 / 0.0. */
  function Wins(r: seq<Option<real>>): (w: seq<real>)
    ensures |w| == |r|
    ensures forall t {:trigger w[t]} :: 0 <= t < |r| ==> (w[t] == 1.0 <==> IsWin(r[t])) && (w[t] == 0.0 <==> !IsWin(r[t]))
  {
    seq(|r|, t requires 0 <= t < |r| => if IsWin(r[t]) then 1.0 else 0.0)
  }

  /** `(r > 0).mean()`: over all rows, NaN rows included; NaN for an empty column. */
  function WinRate(r: seq<Option<real>>): (w: Option<real>)
    ensures w.None? <==> |r| == 0
  {
    if |r| == 0 then None else Some(Mean(Wins(r)))
  }

  /** The rows with a defined, strictly positive return. */
  function WinningRows(r: seq<Option<real>>): set<nat>
  {
    set t: nat | t < |r| && IsWin(r[t])
  }

  // ---- equity curve ----

  lemma GrowthPrefix(r: seq<Option<real>>, n: nat)
    requires n <= |r|
    ensures Growth(r[..n]) == Growth(r)[..n]
  {
  }

  /** Row t of the equity curve is the compounded product of the returns up to t. */
  lemma EquityAt(r: seq<Option<real>>, t: nat)
    requires t < |r|
    ensures Equity(r)[t] == if r[t].Some? then Some(Compounded(r[..t + 1])) else None
    ensures CumulativeReturn(r)[t] == if r[t].Some? then Some(Compounded(r[..t + 1]) - 1.0) else None
  {
    CumProdAt(Growth(r), t);
    GrowthPrefix(r, t + 1);
  }

  lemma MulAssociative(x: real, y: real, z: real)
    ensures Mul(x, Mul(y, z)) == Mul(Mul(x, y), z)
  {
  }

  lemma MulPositive(x: real, y: real)
    requires x > 0.0 && y > 0.0
    ensures Mul(x, y) > 0.0
  {
  }

  lemma MulAtLeast(x: real, y: real)
    requires x >= 0.0 && y >= 1.0
    ensures Mul(x, y) >= x
  {
    assert x * y - x == x * (y - 1.0);
  }

  lemma {:induction false} DefinedProductConcat(a: seq<Option<real>>, b: seq<Option<real>>)
    ensures DefinedProduct(a + b) == Mul(DefinedProduct(a), DefinedProduct(b))
  {
    if |a| > 0 {
      assert (a + b)[0] == a[0];
      assert (a + b)[1..] == a[1..] + b;
      DefinedProductConcat(a[1..], b);
      MulAssociative(Factor(a[0]), DefinedProduct(a[1..]), DefinedProduct(b));
    } else {
      assert a + b == b;
    }
  }

  /** Compounding from row j to a later row t: the equity at t is the equity at j times the growth in between. */
  lemma EquitySplit(r: seq<Option<real>>, j: nat, t: nat)
    requires j < t < |r| && r[j].Some? && r[t].Some?
    ensures Equity(r)[j].Some? && Equity(r)[t].Some?
    ensures Equity(r)[t].value == Mul(Equity(r)[j].value, DefinedProduct(Growth(r)[j + 1..t + 1]))
  {
    var g := Growth(r);
    var head, tail := g[..j + 1], g[j + 1..t + 1];
    CumProdAt(g, j);
    CumProdAt(g, t);
    assert g[..t + 1] == head + tail;
    DefinedProductConcat(head, tail);
  }

  lemma RatioChain(a: real, b: real, c: real)
    requires a > 0.0 && b > 0.0
    ensures Mul(b / a, c / b) == c / a
  {
    var x, y := b / a, c / b;
    assert x * a == b && y * b == c;
    assert (x * y) * a == y * (x * a);
  }

  /** The product of the consecutive ratios q[i+1] / q[i] of a positive series is the ratio of its last entry to its first. */
  lemma {:induction false} Telescope(q: seq<real>, g: seq<Option<real>>)
    requires |q| == |g| + 1 && forall i :: 0 <= i < |q| ==> q[i] > 0.0
    requires forall i :: 0 <= i < |g| ==> g[i] == Some(q[i + 1] / q[i])
    ensures DefinedProduct(g) == q[|g|] / q[0]
    decreases |g|
  {
    if |g| == 0 {
      RatioAtPeak(q[0]);
    } else {
      var q', g' := q[1..], g[1..];
      assert forall i :: 0 <= i < |g'| ==> g'[i] == Some(q'[i + 1] / q'[i]);
      Telescope(q', g');
      RatioChain(q[0], q[1], q[|g|]);
    }
  }

  /**
   * From row j to row t the equity curve of r grows by the factor f: both rows are
   * defined, the equity at t is the equity at j times f, and so is one plus the
   * cumulative return.
   */
  predicate EquityGrowsBy(r: seq<Option<real>>, j: nat, t: nat, f: real)
    requires j < t < |r|
  {
    && Equity(r)[j].Some? && Equity(r)[t].Some?
    && Equity(r)[t].value == Equity(r)[j].value * f
    && CumulativeReturn(r)[t].value + 1.0 == (CumulativeReturn(r)[j].value + 1.0) * f
  }

  /**
   * Returns that are the percent changes of a positive price series p over rows j+1 ..= t
   * make the equity grow from row j to row t exactly as the price does: by p[t] / p[j].
   */
  lemma EquityLikePrices(r: seq<Option<real>>, p: seq<real>, j: nat, t: nat)
    requires j < t < |r| && t < |p| && r[j].Some?
    requires forall i :: j <= i <= t ==> p[i] > 0.0
    requires forall i {:trigger r[i]} :: j < i <= t ==> r[i] == Some(p[i] / p[i - 1] - 1.0)
    ensures Equity(r)[j].Some? && Equity(r)[t].Some?
    ensures Equity(r)[t].value == Mul(Equity(r)[j].value, p[t] / p[j])
  {
    assert r[t] == Some(p[t] / p[t - 1] - 1.0);
    EquitySplit(r, j, t);
    var g, q := Growth(r)[j + 1..t + 1], p[j..t + 1];
    GrowthIsPriceRatio(r, p, j, t, g, q);
    Telescope(q, g);
    ScaleByRatio(Equity(r)[j].value, Equity(r)[t].value, q[t - j], q[0], p[t], p[j]);
  }

  /** The growth factors over rows j+1 ..= t are the consecutive price ratios of p[j..t+1]. */
  lemma GrowthIsPriceRatio(r: seq<Option<real>>, p: seq<real>, j: nat, t: nat, g: seq<Option<real>>, q: seq<real>)
    requires j < t < |r| && t < |p|
    requires forall i :: j <= i <= t ==> p[i] > 0.0
    requires forall i {:trigger r[i]} :: j < i <= t ==> r[i] == Some(p[i] / p[i - 1] - 1.0)
    requires g == Growth(r)[j + 1..t + 1] && q == p[j..t + 1]
    ensures |q| == |g| + 1 && forall i :: 0 <= i < |q| ==> q[i] > 0.0
    ensures forall i :: 0 <= i < |g| ==> g[i] == Some(q[i + 1] / q[i])
  {
    forall i | 0 <= i < |g|
      ensures g[i] == Some(q[i + 1] / q[i])
    {
      var k := j + 1 + i;
      assert g[i] == Growth(r)[k];
      assert r[k] == Some(p[k] / p[k - 1] - 1.0);
      assert q[i + 1] == p[k] && q[i] == p[k - 1];
    }
  }

  /** The same growth, stated for the equity and for one plus the cumulative return together. */
  lemma CompoundsLikePrices(r: seq<Option<real>>, p: seq<real>, j: nat, t: nat)
    requires j < t < |r| && t < |p| && r[j].Some?
    requires forall i :: j <= i <= t ==> p[i] > 0.0
    requires forall i {:trigger r[i]} :: j < i <= t ==> r[i] == Some(p[i] / p[i - 1] - 1.0)
    ensures EquityGrowsBy(r, j, t, p[t] / p[j])
  {
    EquityLikePrices(r, p, j, t);
    assert r[t] == Some(p[t] / p[t - 1] - 1.0);
    CumulativeReturnIsEquity(r, j);
    CumulativeReturnIsEquity(r, t);
    ScaleShifted(Equity(r)[j].value, Equity(r)[t].value, CumulativeReturn(r)[j].value, CumulativeReturn(r)[t].value, p[t] / p[j]);
  }

  /** One plus the cumulative return is the equity. */
  lemma CumulativeReturnIsEquity(r: seq<Option<real>>, t: nat)
    requires t < |r| && r[t].Some?
    ensures Equity(r)[t].Some? && CumulativeReturn(r)[t].Some?
    ensures CumulativeReturn(r)[t].value + 1.0 == Equity(r)[t].value
  {
  }

  /** A rewriting step for the solver: substitutes equal terms inside a product with a quotient. */
  lemma ScaleByRatio(e0: real, e1: real, x: real, y: real, x': real, y': real)
    requires y != 0.0 && e1 == Mul(e0, x / y) && x == x' && y == y'
    ensures e1 == Mul(e0, x' / y')
  {
  }

  /** A rewriting step for the solver: scaling an equity by f scales one plus its cumulative return by f. */
  lemma ScaleShifted(e0: real, e1: real, c0: real, c1: real, f: real)
    requires e1 == e0 * f && c0 + 1.0 == e0 && c1 + 1.0 == e1
    ensures c1 + 1.0 == (c0 + 1.0) * f
  {
  }

  /** Every factor 1 + r[t] of a defined return is positive. */
  predicate FactorsPositive(r: seq<Option<real>>)
  {
    forall t :: 0 <= t < |r| && r[t].Some? ==> 1.0 + r[t].value > 0.0
  }

  /** Every defined return is non-negative. */
  predicate NoLosses(r: seq<Option<real>>)
  {
    forall t :: 0 <= t < |r| && r[t].Some? ==> r[t].value >= 0.0
  }

  lemma {:induction false} DefinedProductPositive(xs: seq<Option<real>>)
    requires forall t :: 0 <= t < |xs| && xs[t].Some? ==> xs[t].value > 0.0
    ensures DefinedProduct(xs) > 0.0
  {
    if |xs| > 0 {
      DefinedProductPositive(xs[1..]);
      MulPositive(Factor(xs[0]), DefinedProduct(xs[1..]));
    }
  }

  lemma {:induction false} DefinedProductAtLeastOne(xs: seq<Option<real>>)
    requires forall t :: 0 <= t < |xs| && xs[t].Some? ==> xs[t].value >= 1.0
    ensures DefinedProduct(xs) >= 1.0
  {
    if |xs| > 0 {
      DefinedProductAtLeastOne(xs[1..]);
      var f, rest := Factor(xs[0]), DefinedProduct(xs[1..]);
      MulAtLeast(rest, f);
      assert Mul(f, rest) == Mul(rest, f);
    }
  }

  /** With positive factors the equity curve stays strictly positive. */
  lemma EquityPositive(r: seq<Option<real>>, t: nat)
    requires FactorsPositive(r) && t < |r| && r[t].Some?
    ensures Equity(r)[t].Some? && Equity(r)[t].value > 0.0
  {
    EquityAt(r, t);
    DefinedProductPositive(Growth(r[..t + 1]));
  }

  /** The equity multiple never exceeds its running maximum. */
  lemma EquityBelowPeak(r: seq<Option<real>>, t: nat)
    requires t < |r| && r[t].Some?
    ensures Equity(r)[t].Some? && CumMax(Equity(r))[t].Some?
    ensures Equity(r)[t].value <= CumMax(Equity(r))[t].value
  {
    EquityAt(r, t);
    CumMaxAt(Equity(r), t);
  }

  /** Without losing rows the equity curve never goes down. */
  lemma EquityNonDecreasing(r: seq<Option<real>>, i: nat, j: nat)
    requires NoLosses(r) && i <= j < |r| && r[i].Some? && r[j].Some?
    ensures Equity(r)[i].Some? && Equity(r)[j].Some?
    ensures Equity(r)[i].value <= Equity(r)[j].value
  {
    EquityAt(r, i);
    EquityAt(r, j);
    var g := Growth(r[..j + 1]);
    assert g == Growth(r[..i + 1]) + g[i + 1..];
    DefinedProductConcat(Growth(r[..i + 1]), g[i + 1..]);
    DefinedProductAtLeastOne(Growth(r[..i + 1]));
    DefinedProductAtLeastOne(g[i + 1..]);
    MulAtLeast(Compounded(r[..i + 1]), DefinedProduct(g[i + 1..]));
  }

  // ---- drawdown ----

  lemma RatioNonPositive(e: real, m: real)
    requires 0.0 < e <= m
    ensures e / m - 1.0 <= 0.0
  {
    var q := e / m;
    var d := q - 1.0;
    assert q * m == e;
    assert d * m == e - m;
  }

  lemma RatioAtPeak(m: real)
    requires m != 0.0
    ensures m / m - 1.0 == 0.0
  {
  }

  /**
   * The value of the drawdown on a defined row t: with positive factors there is a peak
   * row k <= t whose equity is positive and at least every equity up to t, and the
   * drawdown is the equity at t over the equity at k, minus 1.
   */
  lemma DrawdownAt(r: seq<Option<real>>, t: nat) returns (k: nat)
    requires FactorsPositive(r) && t < |r| && r[t].Some?
    ensures k <= t && r[k].Some? && Equity(r)[k].Some? && Equity(r)[k].value > 0.0
    ensures forall i :: 0 <= i <= t && Equity(r)[i].Some? ==> Equity(r)[i].value <= Equity(r)[k].value
    ensures Drawdown(r)[t] == Some(Equity(r)[t].value / Equity(r)[k].value - 1.0)
  {
    var e := Equity(r);
    EquityAt(r, t);
    CumMaxAt(e, t);
    var m := CumMax(e)[t].value;
    k :| 0 <= k <= t && e[k] == Some(m);
    EquityPositive(r, k);
    assert Drawdown(r)[t] == Ratio(e[t], CumMax(e)[t]);
  }

  /**
   * With positive factors the drawdown is defined exactly on the rows with a defined
   * return, and is never above 0 there.
   */
  lemma DrawdownNonPositive(r: seq<Option<real>>, t: nat)
    requires FactorsPositive(r) && t < |r|
    ensures Drawdown(r)[t].Some? <==> r[t].Some?
    ensures Drawdown(r)[t].Some? ==> Drawdown(r)[t].value <= 0.0
  {
    EquityAt(r, t);
    CumMaxAt(Equity(r), t);
    if r[t].Some? {
      EquityPositive(r, t);
      EquityBelowPeak(r, t);
      RatioNonPositive(Equity(r)[t].value, CumMax(Equity(r))[t].value);
    }
  }

  /** With positive factors the maximum drawdown is at most 0, and is NaN only when no return is defined. */
  lemma MaxDrawdownNonPositive(r: seq<Option<real>>)
    requires FactorsPositive(r)
    ensures MaxDrawdown(r).None? <==> forall t :: 0 <= t < |r| ==> r[t].None?
    ensures MaxDrawdown(r).Some? ==> MaxDrawdown(r).value <= 0.0
  {
    var d := Drawdown(r);
    forall t | 0 <= t < |r|
      ensures (d[t].Some? <==> r[t].Some?) && (d[t].Some? ==> d[t].value <= 0.0)
    {
      DrawdownNonPositive(r, t);
    }
  }

  /** Without losing rows the running maximum is the current equity, so the drawdown is 0 on every defined row. */
  lemma NoDrawdownWithoutLosses(r: seq<Option<real>>, t: nat)
    requires NoLosses(r) && t < |r|
    ensures Drawdown(r)[t] == if r[t].Some? then Some(0.0) else None
  {
    var e := Equity(r);
    EquityAt(r, t);
    CumMaxAt(e, t);
    if r[t].Some? {
      var m := CumMax(e)[t].value;
      var i :| 0 <= i <= t && e[i] == Some(m);
      EquityAt(r, i);
      EquityNonDecreasing(r, i, t);
      EquityBelowPeak(r, t);
      assert e[t].value == m;
      DefinedProductAtLeastOne(Growth(r[..t + 1]));
      assert m >= 1.0;
      assert Drawdown(r)[t] == Ratio(e[t], CumMax(e)[t]);
      RatioAtPeak(m);
    }
  }

  /** Without losing rows the maximum drawdown is 0, or NaN when no return is defined. */
  lemma MaxDrawdownWithoutLosses(r: seq<Option<real>>)
    requires NoLosses(r)
    ensures MaxDrawdown(r) == if exists t :: 0 <= t < |r| && r[t].Some? then Some(0.0) else None
  {
    var d := Drawdown(r);
    forall t | 0 <= t < |r|
      ensures d[t] == if r[t].Some? then Some(0.0) else None
    {
      NoDrawdownWithoutLosses(r, t);
    }
  }

  lemma {:induction false} DefinedProductOfOnes(xs: seq<Option<real>>)
    requires forall t :: 0 <= t < |xs| && xs[t].Some? ==> xs[t].value == 1.0
    ensures DefinedProduct(xs) == 1.0
  {
    if |xs| > 0 {
      DefinedProductOfOnes(xs[1..]);
    }
  }

  /**
   * A column whose defined returns are all 0: the cumulative return is 0 on every defined
   * row, the maximum drawdown is 0 (NaN if nothing is defined) and the win rate is 0
   * (NaN for an empty column).
   */
  lemma FlatReturns(r: seq<Option<real>>)
    requires forall t :: 0 <= t < |r| && r[t].Some? ==> r[t].value == 0.0
    ensures forall t {:trigger CumulativeReturn(r)[t]} :: 0 <= t < |r| ==> CumulativeReturn(r)[t] == if r[t].Some? then Some(0.0) else None
    ensures MaxDrawdown(r) == if exists t :: 0 <= t < |r| && r[t].Some? then Some(0.0) else None
    ensures WinRate(r) == if |r| > 0 then Some(0.0) else None
  {
    forall t | 0 <= t < |r|
      ensures CumulativeReturn(r)[t] == if r[t].Some? then Some(0.0) else None
    {
      EquityAt(r, t);
      DefinedProductOfOnes(Growth(r[..t + 1]));
    }
    MaxDrawdownWithoutLosses(r);
    WinRateIsFraction(r);
    assert WinningRows(r) == {};
  }

  // ---- causality ----

  /** Truncating the return column truncates the equity, cumulative-return and drawdown curves. */
  lemma CurvesCausal(r: seq<Option<real>>, n: nat)
    requires n <= |r|
    ensures Equity(r[..n]) == Equity(r)[..n]
    ensures CumulativeReturn(r[..n]) == CumulativeReturn(r)[..n]
    ensures Drawdown(r[..n]) == Drawdown(r)[..n]
  {
    var q := r[..n];
    GrowthPrefix(r, n);
    CumProdFromCausal(Growth(r), 1.0, n);
    var e, eq := Equity(r), Equity(q);
    assert eq == e[..n];
    CumMaxFromCausal(e, None, n);
    var m, mq := CumMax(e), CumMax(eq);
    assert mq == m[..n];
    forall t | 0 <= t < n
      ensures CumulativeReturn(q)[t] == CumulativeReturn(r)[t] && Drawdown(q)[t] == Drawdown(r)[t]
    {
      assert eq[t] == e[t] && mq[t] == m[t];
    }
  }

  // ---- win rate ----

  lemma {:induction false} SumOfWins(r: seq<Option<real>>)
    ensures Sum(Wins(r)) == |WinningRows(r)| as real
  {
    if |r| > 0 {
      var n := |r| - 1;
      SumOfWins(r[..n]);
      assert Wins(r)[..n] == Wins(r[..n]);
      if IsWin(r[n]) {
        assert WinningRows(r) == WinningRows(r[..n]) + {n};
      } else {
        assert WinningRows(r) == WinningRows(r[..n]);
      }
    } else {
      assert WinningRows(r) == {};
    }
  }

  /**
   * The win rate is the number of rows with a defined positive return over the number
   * of ALL rows, so it lies in [0, 1]; it is NaN only for an empty column.
   */
  lemma WinRateIsFraction(r: seq<Option<real>>)
    ensures WinRate(r).None? <==> |r| == 0
    ensures |r| > 0 ==> WinRate(r) == Some(|WinningRows(r)| as real / |r| as real)
    ensures WinRate(r).Some? ==> 0.0 <= WinRate(r).value <= 1.0
  {
    if |r| > 0 {
      SumOfWins(r);
      MeanBetween(Wins(r), 0.0, 1.0);
    }
  }
}
