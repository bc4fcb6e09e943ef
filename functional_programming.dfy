/**
 * functional_programming.py: the stateless FunctionalProgramming helper
 * class, whose two methods are modelled as functions.
 */
module FunctionalProgramming {

  // ---------------------------------------------------------------------------
  // map(func, iterable)
  // ---------------------------------------------------------------------------

  /**
   * `map(func, iterable)`: the list comprehension `[func(item) for item in
   * iterable]`, built front to back in iteration order.
   */
  function Map<T, U>(f: T -> U, xs: seq<T>): (r: seq<U>)
    ensures |r| == |xs|
    ensures forall i :: 0 <= i < |xs| ==> r[i] == f(xs[i])
    decreases |xs|
  {
    if |xs| == 0 then [] else [f(xs[0])] + Map(f, xs[1..])
  }

  // ---------------------------------------------------------------------------
  // find_maxprofit(prices, min_price, max_profit)
  // ---------------------------------------------------------------------------

  function Min(x: int, y: int): int
  {
    if x < y then x else y
  }

  /**
   * `find_maxprofit`: scan the prices front to back, keeping the lowest price
   * seen so far (`minPrice`) and the best profit so far (`maxProfit`). The
   * profit of the current price is measured before the minimum is updated,
   * so a price is never paired with itself as the buy price.
   */
  function FindMaxProfit(prices: seq<int>, minPrice: int, maxProfit: int): (r: int)
    ensures |prices| == 0 ==> r == maxProfit
    ensures r >= maxProfit
    decreases |prices|
  {
    if |prices| < 1 then
      maxProfit
    else
      var currentPrice := prices[0];
      var maxProfit' := if currentPrice - minPrice > maxProfit then currentPrice - minPrice else maxProfit;
      var minPrice' := if currentPrice < minPrice then currentPrice else minPrice;
      FindMaxProfit(prices[1..], minPrice', maxProfit')
  }

  /** Reference buy price for a sale on day j: the lowest of `mn` and every price before day j. */
  function BuyPrice(prices: seq<int>, mn: int, j: nat): (b: int)
    requires j <= |prices|
    ensures b <= mn
    ensures forall k :: 0 <= k < j ==> b <= prices[k]
    ensures b == mn || exists k :: 0 <= k < j && b == prices[k]
  {
    if j == 0 then mn else Min(BuyPrice(prices, mn, j - 1), prices[j - 1])
  }

  /** Reference profit of selling on day j at the best earlier buy price. */
  function ProfitOn(prices: seq<int>, mn: int, j: nat): int
    requires j < |prices|
  {
    prices[j] - BuyPrice(prices, mn, j)
  }

  /** Buying with the first price folded into the minimum is buying one day later. */
  lemma {:induction false} BuyPriceShift(prices: seq<int>, mn: int, j: nat)
    requires 0 < |prices| && j < |prices|
    ensures BuyPrice(prices, mn, j + 1) == BuyPrice(prices[1..], Min(mn, prices[0]), j)
  {
    if j > 0 {
      BuyPriceShift(prices, mn, j - 1);
      assert prices[1..][j - 1] == prices[j];
    }
  }

  /**
   * `find_maxprofit` returns the larger of `maxProfit` and the best
   * ProfitOn over all days: it is at least every such profit, and it is
   * either `maxProfit` itself or the profit of some day.
   */
  lemma {:induction false} FindMaxProfitIsBest(prices: seq<int>, mn: int, mp: int)
    ensures forall j :: 0 <= j < |prices| ==> FindMaxProfit(prices, mn, mp) >= ProfitOn(prices, mn, j)
    ensures FindMaxProfit(prices, mn, mp) == mp
            || exists j :: 0 <= j < |prices| && FindMaxProfit(prices, mn, mp) == ProfitOn(prices, mn, j)
    decreases |prices|
  {
    if |prices| > 0 {
      var p, rest := prices[0], prices[1..];
      var mp' := if p - mn > mp then p - mn else mp;
      var mn' := if p < mn then p else mn;
      assert mn' == Min(mn, p);
      var r := FindMaxProfit(prices, mn, mp);
      assert r == FindMaxProfit(rest, mn', mp');
      FindMaxProfitIsBest(rest, mn', mp');
      assert ProfitOn(prices, mn, 0) == p - mn;
      forall j | 1 <= j < |prices|
        ensures ProfitOn(prices, mn, j) == ProfitOn(rest, mn', j - 1)
      {
        BuyPriceShift(prices, mn, j - 1);
      }
      if r != mp {
        if r == mp' {
          assert r == ProfitOn(prices, mn, 0);
        } else {
          var k :| 0 <= k < |rest| && r == ProfitOn(rest, mn', k);
          assert r == ProfitOn(prices, mn, k + 1);
        }
      }
    }
  }

  /** The usual call seeds the minimum with the first price and the profit with 0: the result is never negative. */
  lemma FindMaxProfitFromFirstPrice(prices: seq<int>)
    requires |prices| > 0
    ensures FindMaxProfit(prices, prices[0], 0) >= 0
    ensures forall i, j :: 0 <= i < j < |prices| ==> FindMaxProfit(prices, prices[0], 0) >= prices[j] - prices[i]
  {
    var r := FindMaxProfit(prices, prices[0], 0);
    FindMaxProfitIsBest(prices, prices[0], 0);
    forall i, j | 0 <= i < j < |prices|
      ensures r >= prices[j] - prices[i]
    {
      assert r >= ProfitOn(prices, prices[0], j);
      assert BuyPrice(prices, prices[0], j) <= prices[i];
    }
  }
}
