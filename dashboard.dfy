/** The dashboard page: aggregates recomputed from the stored order list on
    every render. */
module Dashboard {
  import opened Collections
  import opened OrderModel
  import Orders

  /** The order counters of the dashboard. */
  datatype DashboardStats = DashboardStats(totalOrders: nat, pendingOrders: nat, completedOrders: nat)

  /** `stats`: the list length and the two status counts. They add up to the
      length, and they agree with the counters of the order manager, which
      reads the same storage slot. */
  function Stats(orders: seq<Order>): (s: DashboardStats)
    ensures s.totalOrders == |orders|
    ensures s.pendingOrders + s.completedOrders == s.totalOrders
    ensures var m := Orders.Stats(orders);
      s.totalOrders == m.total && s.pendingOrders == m.pending && s.completedOrders == m.completed
  {
    StatusPartition(orders);
    DashboardStats(|orders|, |PendingOrders(orders)|, |CompletedOrders(orders)|)
  }

  /** `c / t * 100` lies between 0 and 100 when `c` is at most `t`. */
  lemma PercentageBounds(c: real, t: real)
    requires 0.0 <= c <= t && t > 0.0
    ensures 0.0 <= c / t * 100.0 <= 100.0
    ensures c / t * 100.0 * t == c * 100.0
  {
    assert (c / t) * t == c;
  }

  /** A percentage `c / t * 100` with `c` at most `t` is 0 exactly when `c`
      is 0 and 100 exactly when `c` is `t`. */
  lemma PercentageExtremes(c: real, t: real)
    requires 0.0 <= c <= t && t > 0.0
    ensures c / t * 100.0 == 0.0 <==> c == 0.0
    ensures c / t * 100.0 == 100.0 <==> c == t
  {
    assert (c / t) * t == c;
  }

  /** 100 minus the percentage of `c` in `t` is the percentage of the rest. */
  lemma PercentageComplement(c: real, p: real, t: real)
    requires c + p == t && t > 0.0
    ensures (100.0 - c / t * 100.0) * t == p * 100.0
  {
    assert (c / t) * t == c;
  }

  /** `completionRate` as the exact percentage it is computed from: the share
      of completed orders times 100, or 0 when there are no orders. */
  function CompletionRate(orders: seq<Order>): (rate: real)
    ensures 0.0 <= rate <= 100.0
    ensures |orders| == 0 ==> rate == 0.0
    ensures |orders| > 0 ==> rate * |orders| as real == |CompletedOrders(orders)| as real * 100.0
  {
    var s := Stats(orders);
    if s.totalOrders > 0 then
      PercentageBounds(s.completedOrders as real, s.totalOrders as real);
      s.completedOrders as real / s.totalOrders as real * 100.0
    else 0.0
  }

  /** With at least one order, the rate is 0 exactly when none is completed
      and 100 exactly when all are. */
  lemma CompletionRateExtremes(orders: seq<Order>)
    requires |orders| > 0
    ensures CompletionRate(orders) == 0.0 <==> CompletedOrders(orders) == []
    ensures CompletionRate(orders) == 100.0 <==> PendingOrders(orders) == []
  {
    var s := Stats(orders);
    PercentageExtremes(s.completedOrders as real, s.totalOrders as real);
  }

  /** The exact pending share: 100 minus the exact rate. The page works from
      the printed rate instead (see `PendingBarWidth`). */
  function PendingShare(orders: seq<Order>): (share: real)
    ensures 0.0 <= share <= 100.0
    ensures |orders| == 0 ==> share == 100.0
  {
    100.0 - CompletionRate(orders)
  }

  /** With orders, the pending share is the pending orders' percentage; with
      none it is 100, though no order is pending. */
  lemma PendingShareIsPendingPercentage(orders: seq<Order>)
    ensures |orders| > 0 ==>
      PendingShare(orders) * |orders| as real == |PendingOrders(orders)| as real * 100.0
    ensures |orders| == 0 ==> PendingShare(orders) == 100.0
  {
    var s := Stats(orders);
    if |orders| > 0 {
      PercentageComplement(s.completedOrders as real, s.pendingOrders as real, s.totalOrders as real);
    }
  }

  /** `x.toFixed(1)` in tenths for a percentage `x`: the nearest tenth,
      halves rounded up. */
  function Tenths(x: real): (n: int)
    requires 0.0 <= x <= 100.0
    ensures 0 <= n <= 1000
    ensures n as real - 0.5 <= x * 10.0 < n as real + 0.5
  {
    (x * 10.0 + 0.5).Floor
  }

  /** The rate as the dashboard prints it, in tenths of a percent. */
  function CompletionRateTenths(orders: seq<Order>): (tenths: int)
    ensures 0 <= tenths <= 1000
    ensures |orders| == 0 ==> tenths == 0
    ensures tenths as real - 0.5 <= CompletionRate(orders) * 10.0 < tenths as real + 0.5
  {
    Tenths(CompletionRate(orders))
  }

  /** Three orders of which one is completed print as 33.3%. */
  lemma OneOfThreeCompleted(orders: seq<Order>)
    requires |orders| == 3 && |CompletedOrders(orders)| == 1
    ensures CompletionRateTenths(orders) == 333
  {
    assert CompletionRate(orders) == 1.0 / 3.0 * 100.0;
  }

  /** Subtracting a printed percentage of `t` tenths from 100 and printing
      the difference with one decimal gives exactly the remaining tenths. */
  lemma TenthsOfComplement(t: int)
    requires 0 <= t <= 1000
    ensures Tenths(100.0 - t as real / 10.0) == 1000 - t
  {
    assert (100.0 - t as real / 10.0) * 10.0 + 0.5 == (1000 - t) as real + 0.5;
  }

  /** The printed pending share, in tenths of a percent, computed as the page
      does it: the printed rate is parsed back, subtracted from 100, and the
      difference printed with one decimal again. The two printed figures
      always add up to 100.0. */
  function PendingShareTenths(orders: seq<Order>): (tenths: int)
    ensures 0 <= tenths <= 1000
    ensures tenths + CompletionRateTenths(orders) == 1000
    ensures |orders| == 0 ==> tenths == 1000
  {
    var printed := CompletionRateTenths(orders);
    TenthsOfComplement(printed);
    Tenths(100.0 - printed as real / 10.0)
  }

  /** The width of the pending bar: 100 minus the printed rate parsed back.
      It is the printed pending share, and it lies within half a tenth of
      the exact pending share. */
  function PendingBarWidth(orders: seq<Order>): (width: real)
    ensures width == PendingShareTenths(orders) as real / 10.0
    ensures -0.05 <= width - PendingShare(orders) < 0.05
  {
    100.0 - CompletionRateTenths(orders) as real / 10.0
  }

  /** `orders.slice(-5).reverse()`: the last five orders (all of them when
      there are fewer), most recent first. */
  function RecentOrders(orders: seq<Order>): (r: seq<Order>)
    ensures |r| == if |orders| < 5 then |orders| else 5
    ensures forall k :: 0 <= k < |r| ==> r[k] == orders[|orders| - 1 - k]
  {
    var n := if |orders| < 5 then |orders| else 5;
    Reverse(orders[|orders| - n..])
  }

  /** A newly appended order heads the recent list, and the earlier recent
      orders follow it, the oldest of five dropping out. */
  lemma RecentOrdersAfterAppend(orders: seq<Order>, o: Order)
    ensures RecentOrders(orders + [o])[0] == o
    ensures var before := RecentOrders(orders);
      RecentOrders(orders + [o])[1..] == if |before| < 5 then before else before[..4]
  {
    var after := RecentOrders(orders + [o]);
    var before := RecentOrders(orders);
    var expected := if |before| < 5 then before else before[..4];
    assert |after[1..]| == |expected|;
    forall k | 0 <= k < |expected|
      ensures after[1..][k] == expected[k]
    {
      assert after[k + 1] == (orders + [o])[|orders| - (k + 1)];
    }
  }

  /** `t * k / t` is `k` for a positive count `t`. */
  lemma QuotientOfMultiple(t: int, k: int)
    requires t > 0
    ensures (t * k) as real / t as real == k as real
  {
    assert (t * k) as real == t as real * k as real;
  }

  /** The constant shown as the average order value: 15000 per order times
      the order count, divided by the order count; 0 without orders. */
  function AverageOrderValue(orders: seq<Order>): (v: real)
    ensures v == if |orders| > 0 then 15000.0 else 0.0
  {
    var total := Stats(orders).totalOrders;
    if total > 0 then
      QuotientOfMultiple(total, 15000);
      (total * 15000) as real / total as real
    else 0.0
  }
}
