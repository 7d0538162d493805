/** The order record shared by the order manager, the catalog and the
    dashboard, and the status counts all three derive from a list of orders. */
module OrderModel {
  import opened Collections

  /** An order's status takes exactly two values. */
  datatype Status = Pending | Completed

  /** One order. `id` is the decimal text of a creation clock reading and is
      not assumed to be unique; `timestamp` is that clock reading. */
  datatype Order = Order(id: string, dishName: string, customerName: string, status: Status, timestamp: int)

  /** The status a toggle moves to. */
  function Flip(s: Status): (r: Status)
    ensures r != s
  {
    if s == Pending then Completed else Pending
  }

  predicate IsPending(o: Order)
  {
    o.status == Pending
  }

  predicate IsCompleted(o: Order)
  {
    o.status == Completed
  }

  /** `orders.filter((o) => o.status === "pending")` */
  function PendingOrders(orders: seq<Order>): seq<Order>
  {
    Filter(orders, IsPending)
  }

  /** `orders.filter((o) => o.status === "completed")` */
  function CompletedOrders(orders: seq<Order>): seq<Order>
  {
    Filter(orders, IsCompleted)
  }

  /** The pending and the completed orders split the list: each order is in
      exactly one of the two, so their lengths add up to the list's. */
  lemma StatusPartition(orders: seq<Order>)
    ensures |PendingOrders(orders)| + |CompletedOrders(orders)| == |orders|
    ensures multiset(PendingOrders(orders)) + multiset(CompletedOrders(orders)) == multiset(orders)
    ensures forall k :: 0 <= k < |PendingOrders(orders)| ==> PendingOrders(orders)[k] !in CompletedOrders(orders)
    ensures IsSubsequence(PendingOrders(orders), orders) && IsSubsequence(CompletedOrders(orders), orders)
  {
    FilterPartition(orders, IsPending, IsCompleted);
    FilterIsSubsequence(orders, IsPending);
    FilterIsSubsequence(orders, IsCompleted);
  }

  /** Appending an order adds it to the part of its own status only. */
  lemma StatusCountsAfterAppend(orders: seq<Order>, o: Order)
    ensures |PendingOrders(orders + [o])| == |PendingOrders(orders)| + (if o.status == Pending then 1 else 0)
    ensures |CompletedOrders(orders + [o])| == |CompletedOrders(orders)| + (if o.status == Completed then 1 else 0)
  {
    FilterAppend(orders, o, IsPending);
    FilterAppend(orders, o, IsCompleted);
  }
}
