/**
 * The summary that `analyze_ticker` computes over an oldest-first window of
 * prices (main.py:111-117). Prices are exact reals; the source's floats and
 * its `round(x, 2)` on output are not modelled.
 */
module Analytics {
  import opened Wrappers

  /** The smallest price of a non-empty window: no price of the window is smaller. */
  function MinPrice(s: seq<real>): (m: real)
    requires |s| > 0
    ensures forall x :: x in s ==> m <= x
  {
    if |s| == 1 then s[0]
    else
      var rest := MinPrice(s[1..]);
      assert s == [s[0]] + s[1..];
      if s[0] <= rest then s[0] else rest
  }

  /** The minimum is one of the window's prices. */
  lemma {:induction false} MinPriceAttained(s: seq<real>)
    requires |s| > 0
    ensures MinPrice(s) in s
  {
    if |s| > 1 {
      MinPriceAttained(s[1..]);
      assert s == [s[0]] + s[1..];
    }
  }

  /** The largest price of a non-empty window: no price of the window is larger. */
  function MaxPrice(s: seq<real>): (m: real)
    requires |s| > 0
    ensures forall x :: x in s ==> x <= m
  {
    if |s| == 1 then s[0]
    else
      var rest := MaxPrice(s[1..]);
      assert s == [s[0]] + s[1..];
      if s[0] >= rest then s[0] else rest
  }

  /** The maximum is one of the window's prices. */
  lemma {:induction false} MaxPriceAttained(s: seq<real>)
    requires |s| > 0
    ensures MaxPrice(s) in s
  {
    if |s| > 1 {
      MaxPriceAttained(s[1..]);
      assert s == [s[0]] + s[1..];
    }
  }

  /** The total of the window's prices, added from the oldest price on and starting from zero. */
  function Sum(s: seq<real>): real {
    if s == [] then 0.0 else Sum(s[..|s| - 1]) + s[|s| - 1]
  }

  /** The total of two consecutive stretches of prices is the sum of their totals. */
  lemma {:induction false} SumConcat(a: seq<real>, b: seq<real>)
    ensures Sum(a + b) == Sum(a) + Sum(b)
  {
    if b != [] {
      var c := b[..|b| - 1];
      assert (a + b)[..|a + b| - 1] == a + c;
      assert (a + b)[|a + b| - 1] == b[|b| - 1];
      SumConcat(a, c);
    } else {
      assert a + b == a;
    }
  }

  /** A lower bound on every price bounds the sum from below. */
  lemma {:induction false} SumAtLeast(s: seq<real>, lo: real)
    requires forall x :: x in s ==> lo <= x
    ensures lo * |s| as real <= Sum(s)
  {
    if s != [] {
      var init, k := s[..|s| - 1], |s| as real;
      assert forall x :: x in init ==> x in s;
      assert s[|s| - 1] in s;
      SumAtLeast(init, lo);
      assert lo * k == lo * (k - 1.0) + lo;
    }
  }

  /** An upper bound on every price bounds the sum from above. */
  lemma {:induction false} SumAtMost(s: seq<real>, hi: real)
    requires forall x :: x in s ==> x <= hi
    ensures Sum(s) <= hi * |s| as real
  {
    if s != [] {
      var init, k := s[..|s| - 1], |s| as real;
      assert forall x :: x in init ==> x in s;
      assert s[|s| - 1] in s;
      SumAtMost(init, hi);
      assert hi * k == hi * (k - 1.0) + hi;
    }
  }

  /** The total divided by the number of prices: lies between the smallest and the largest price. */
  function MeanPrice(s: seq<real>): (a: real)
    requires |s| > 0
    ensures MinPrice(s) <= a <= MaxPrice(s)
  {
    MeanAtLeastMin(s);
    MeanAtMostMax(s);
    Sum(s) / |s| as real
  }

  /** The mean times the number of prices is their sum. */
  lemma MeanTimesCount(s: seq<real>)
    requires |s| > 0
    ensures MeanPrice(s) * |s| as real == Sum(s)
  {
    DivideTimes(Sum(s), |s| as real);
  }

  lemma DivideTimes(total: real, k: real)
    requires k > 0.0
    ensures (total / k) * k == total
  {
  }

  /** The mean of a window is not below its minimum. */
  lemma MeanAtLeastMin(s: seq<real>)
    requires |s| > 0
    ensures MinPrice(s) <= Sum(s) / |s| as real
  {
    var lo, total, k := MinPrice(s), Sum(s), |s| as real;
    SumAtLeast(s, lo);
    DivideAtLeast(total, k, lo, total / k);
  }

  /** The mean of a window does not exceed its maximum. */
  lemma MeanAtMostMax(s: seq<real>)
    requires |s| > 0
    ensures Sum(s) / |s| as real <= MaxPrice(s)
  {
    var hi, total, k := MaxPrice(s), Sum(s), |s| as real;
    SumAtMost(s, hi);
    DivideAtMost(total, k, hi, total / k);
  }

  /** Dividing `lo * k <= x` by a positive `k`. */
  lemma DivideAtLeast(x: real, k: real, lo: real, a: real)
    requires k > 0.0 && lo * k <= x && a == x / k
    ensures lo <= a
  {
  }

  /** Dividing `x <= hi * k` by a positive `k`. */
  lemma DivideAtMost(x: real, k: real, hi: real, a: real)
    requires k > 0.0 && x <= hi * k && a == x / k
    ensures a <= hi
  {
  }

  /**
   * Percent change from the oldest to the newest price, or none when the
   * oldest price is zero.
   */
  function PctChange(first: real, last: real): (p: Option<real>)
    ensures p.None? <==> first == 0.0
    ensures p.Some? ==> p.value * first == (last - first) * 100.0
  {
    if first != 0.0 then Some((last - first) / first * 100.0) else None
  }

  /** The statistics of one non-empty window, at full precision. */
  datatype Summary = Summary(
    count: nat,
    latest: real,
    low: real,
    high: real,
    mean: real,
    pctChange: Option<real>)

  /** The computation of main.py:111-117 over an oldest-first price list. */
  function Summarize(prices: seq<real>): (r: Summary)
    requires |prices| > 0
    ensures r.count == |prices|
    ensures r.latest == prices[|prices| - 1]
    ensures forall p :: p in prices ==> r.low <= p <= r.high
    ensures r.low <= r.mean <= r.high
    ensures r.mean * |prices| as real == Sum(prices)
    ensures r.pctChange.None? <==> prices[0] == 0.0
    ensures r.pctChange.Some? ==> r.pctChange.value * prices[0] == (r.latest - prices[0]) * 100.0
  {
    MeanTimesCount(prices);
    Summary(
      |prices|,
      prices[|prices| - 1],
      MinPrice(prices),
      MaxPrice(prices),
      MeanPrice(prices),
      PctChange(prices[0], prices[|prices| - 1]))
  }

  /** The reported minimum and maximum are prices of the window. */
  lemma SummaryAttained(prices: seq<real>)
    requires |prices| > 0
    ensures Summarize(prices).low in prices && Summarize(prices).high in prices
  {
    MinPriceAttained(prices);
    MaxPriceAttained(prices);
  }

  /** The worked example: prices 100, 110, 90, 120 from oldest to newest. */
  lemma SummarizeExample()
    ensures Summarize([100.0, 110.0, 90.0, 120.0]) == Summary(4, 120.0, 90.0, 120.0, 105.0, Some(20.0))
  {
    var s := [100.0, 110.0, 90.0, 120.0];
    assert Sum([100.0]) == 100.0 by {
      assert [100.0][..0] == [];
    }
    assert Sum([100.0, 110.0]) == 210.0 by {
      assert [100.0, 110.0][..1] == [100.0];
    }
    assert Sum([100.0, 110.0, 90.0]) == 300.0 by {
      assert [100.0, 110.0, 90.0][..2] == [100.0, 110.0];
    }
    assert Sum(s) == 420.0 by {
      assert s[..3] == [100.0, 110.0, 90.0];
    }
    assert s[1..] == [110.0, 90.0, 120.0];
    assert s[1..][1..] == [90.0, 120.0];
    assert s[1..][1..][1..] == [120.0];
  }
}
