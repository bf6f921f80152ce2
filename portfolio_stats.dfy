/**
  The dashboard figures, recomputed from the whole entry list and the initial balance on
  every render. A figure is `None` when the number the page computes is not finite (NaN or
  an infinity).
*/
module PortfolioStats {
  import opened Wrappers
  import opened TradeMath
  import opened Records

  /** What an entry adds to the net PnL: its stored PnL, an empty one counting as 0. */
  function EntryPnL(t: Trade): (r: Option<real>)
    ensures r.Some? <==> t.calculatedPnL.text == "" || t.calculatedPnL.value.Some?
    ensures r.Some? && r.value != 0.0 ==> r == t.calculatedPnL.value
    ensures t.calculatedPnL.text == "" ==> r == Some(0.0)
  {
    if t.calculatedPnL.text == "" then Some(0.0) else t.calculatedPnL.value
  }

  /** Sum of two numbers, not finite when either is not. */
  function Add(a: Option<real>, b: Option<real>): (r: Option<real>)
    ensures r.Some? <==> a.Some? && b.Some?
    ensures r.Some? ==> r.value == a.value + b.value
  {
    if a.Some? && b.Some? then Some(a.value + b.value) else None
  }

  /** Every entry's stored PnL is a number (or empty). */
  predicate AllPnLKnown(es: seq<Trade>) {
    forall i :: 0 <= i < |es| ==> EntryPnL(es[i]).Some?
  }

  /** Net PnL: the entries' PnL added from the first to the last, starting from 0. */
  function TotalPnL(es: seq<Trade>): (r: Option<real>)
    ensures r.Some? <==> AllPnLKnown(es)
  {
    if es == [] then Some(0.0)
    else Add(TotalPnL(es[..|es| - 1]), EntryPnL(es[|es| - 1]))
  }

  /** Net PnL splits over a concatenation of two entry lists. */
  lemma {:induction false} TotalPnLAppend(a: seq<Trade>, b: seq<Trade>)
    ensures TotalPnL(a + b) == Add(TotalPnL(a), TotalPnL(b))
    decreases |b|
  {
    if b == [] {
      assert a + b == a;
    } else {
      assert (a + b)[..|a + b| - 1] == a + b[..|b| - 1];
      assert (a + b)[|a + b| - 1] == b[|b| - 1];
      TotalPnLAppend(a, b[..|b| - 1]);
    }
  }

  lemma TotalPnLPrepend(t: Trade, es: seq<Trade>)
    ensures TotalPnL([t] + es) == Add(EntryPnL(t), TotalPnL(es))
  {
    TotalPnLAppend([t], es);
    assert [t][..0] == [];
  }

  /** Initial balance plus net PnL. */
  function CurrentBalance(initialBalance: Option<real>, es: seq<Trade>): (r: Option<real>)
    ensures r.Some? <==> initialBalance.Some? && AllPnLKnown(es)
  {
    Add(initialBalance, TotalPnL(es))
  }

  function WinCount(es: seq<Trade>): (n: nat)
    ensures n <= |es|
  {
    if es == [] then 0 else WinCount(es[..|es| - 1]) + (if es[|es| - 1].result == Win then 1 else 0)
  }

  lemma {:induction false} WinCountAppend(a: seq<Trade>, b: seq<Trade>)
    ensures WinCount(a + b) == WinCount(a) + WinCount(b)
    decreases |b|
  {
    if b == [] {
      assert a + b == a;
    } else {
      assert (a + b)[..|a + b| - 1] == a + b[..|b| - 1];
      WinCountAppend(a, b[..|b| - 1]);
    }
  }

  /** Every entry is a Win exactly when the count of wins is the length, and none is when it is 0. */
  lemma {:induction false} WinCountExtremes(es: seq<Trade>)
    ensures WinCount(es) == |es| <==> forall i :: 0 <= i < |es| ==> es[i].result == Win
    ensures WinCount(es) == 0 <==> forall i :: 0 <= i < |es| ==> es[i].result != Win
  {
    if es != [] {
      var init := es[..|es| - 1];
      WinCountExtremes(init);
      assert forall i :: 0 <= i < |init| ==> init[i] == es[i];
    }
  }

  /** Percentage of entries that are wins, before `toFixed(0)`; 0 for an empty journal. */
  function WinRate(es: seq<Trade>): (r: real)
    ensures es == [] ==> r == 0.0
    ensures es != [] ==> r * (|es| as real) == WinCount(es) as real * 100.0
  {
    if |es| > 0 then (WinCount(es) as real / |es| as real) * 100.0 else 0.0
  }

  lemma WinRateBounds(es: seq<Trade>)
    ensures 0.0 <= WinRate(es) <= 100.0
    ensures WinRate(es) == 100.0 <==> es != [] && forall i :: 0 <= i < |es| ==> es[i].result == Win
    ensures WinRate(es) == 0.0 <==> forall i :: 0 <= i < |es| ==> es[i].result != Win
  {
    WinCountExtremes(es);
    if |es| > 0 {
      PercentBounds(WinCount(es) as real, |es| as real);
    }
  }

  lemma PercentBounds(w: real, n: real)
    requires 0.0 <= w <= n && n > 0.0
    ensures 0.0 <= (w / n) * 100.0 <= 100.0
    ensures (w / n) * 100.0 == 100.0 <==> w == n
    ensures (w / n) * 100.0 == 0.0 <==> w == 0.0
  {
    var q := w / n;
    assert q * n == w;
    ProductSign(q, n);
    var d := q - 1.0;
    assert d * n == w - n;
    ProductSign(d, n);
    assert 0.0 <= q <= 1.0;
  }

  /** Adding `x` to one term of a sum adds it to the sum. */
  lemma AddShuffle(x: Option<real>, a: Option<real>, b: Option<real>)
    ensures Add(x, Add(a, b)) == Add(Add(x, a), b) == Add(a, Add(x, b))
  {
  }

  /** The win rate as shown, rounded to a whole percent with halves going up. */
  function WinRatePercent(es: seq<Trade>): (p: int)
    ensures 0 <= p <= 100
    ensures WinRate(es) - 0.5 < p as real <= WinRate(es) + 0.5
  {
    WinRateBounds(es);
    (WinRate(es) + 0.5).Floor
  }

  /**
    Growth in percent of the initial balance, as the page computes it: the balance change
    divided by the initial balance, with no guard, so not finite when that balance is 0.
  */
  function Growth(initialBalance: Option<real>, es: seq<Trade>): (r: Option<real>)
    ensures r.Some? ==> initialBalance.Some? && initialBalance.value != 0.0
    ensures r.Some? ==> CurrentBalance(initialBalance, es).Some?
    ensures r.Some? ==>
      r.value * initialBalance.value == 100.0 * (CurrentBalance(initialBalance, es).value - initialBalance.value)
  {
    match CurrentBalance(initialBalance, es)
    case Some(current) =>
      if initialBalance.value != 0.0 then
        Some(((current - initialBalance.value) / initialBalance.value) * 100.0)
      else None
    case None => None
  }

  /** Growth is net PnL as a percentage of a non-zero initial balance; it is never finite for a balance of 0. */
  lemma GrowthIsPercentOfNet(initialBalance: Option<real>, es: seq<Trade>)
    ensures Growth(initialBalance, es).Some? <==>
      initialBalance.Some? && initialBalance.value != 0.0 && TotalPnL(es).Some?
    ensures Growth(initialBalance, es).Some? ==>
      Growth(initialBalance, es).value == 100.0 * TotalPnL(es).value / initialBalance.value
  {
    if Growth(initialBalance, es).Some? {
      var b, t := initialBalance.value, TotalPnL(es).value;
      assert ((b + t) - b) / b * 100.0 == 100.0 * t / b;
    }
  }

  /** An empty journal has no PnL, no wins, its initial balance, and no growth. */
  lemma EmptyJournal(initialBalance: Option<real>)
    ensures TotalPnL([]) == Some(0.0)
    ensures CurrentBalance(initialBalance, []) == initialBalance
    ensures WinRate([]) == 0.0 && WinRatePercent([]) == 0
    ensures initialBalance.Some? && initialBalance.value != 0.0 ==> Growth(initialBalance, []) == Some(0.0)
  {
  }
}
