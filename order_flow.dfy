/** How orders travel between pages through browser storage. The catalog
    page appends its orders under `CatalogOrdersKey`, while the order manager
    and the dashboard read `OrdersKey`; an order added from the catalog
    therefore never reaches either of them. `SharedCatalogAdd` is the add
    that writes to the slot the other pages read. */
module OrderFlow {
  import Collections
  import opened OrderModel
  import opened Storage
  import Menu
  import Orders
  import Dashboard

  /** The catalog's "add to order" on the storage slots, as the page does it. */
  function CatalogAdd(slots: Slots, item: Menu.MenuItem, id: string, timestamp: int): Slots
  {
    Write(slots, CatalogOrdersKey, Menu.AddToOrder(Read(slots, CatalogOrdersKey), item, id, timestamp))
  }

  /** As written, a catalog add leaves the order manager's list and every
      dashboard figure exactly as they were. */
  lemma CatalogAddUnseenByOrderPages(slots: Slots, item: Menu.MenuItem, id: string, timestamp: int)
    ensures Read(CatalogAdd(slots, item, id, timestamp), OrdersKey) == Read(slots, OrdersKey)
    ensures var after := Read(CatalogAdd(slots, item, id, timestamp), OrdersKey);
      Dashboard.Stats(after) == Dashboard.Stats(Read(slots, OrdersKey)) &&
      Dashboard.RecentOrders(after) == Dashboard.RecentOrders(Read(slots, OrdersKey))
  {
  }

  /** Concretely: from empty storage, adding a catalog item leaves the
      dashboard at zero orders. */
  lemma CatalogAddFromEmptyStorage(item: Menu.MenuItem, id: string, timestamp: int)
    ensures Dashboard.Stats(Read(CatalogAdd(map[], item, id, timestamp), OrdersKey)).totalOrders == 0
    ensures |Read(CatalogAdd(map[], item, id, timestamp), CatalogOrdersKey)| == 1
  {
  }

  /** The catalog's "add to order" appending to the list the order manager
      and the dashboard read. */
  function SharedCatalogAdd(slots: Slots, item: Menu.MenuItem, id: string, timestamp: int): Slots
  {
    Write(slots, OrdersKey, Menu.AddToOrder(Read(slots, OrdersKey), item, id, timestamp))
  }

  /** With the shared slot, a catalog add shows up everywhere: the order
      manager lists it among the pending orders, the dashboard counts one
      more pending order and puts it first among the recent orders. */
  lemma SharedCatalogAddReachesOrderPages(slots: Slots, item: Menu.MenuItem, id: string, timestamp: int)
    ensures var before := Read(slots, OrdersKey);
      var after := Read(SharedCatalogAdd(slots, item, id, timestamp), OrdersKey);
      && Dashboard.Stats(after).totalOrders == Dashboard.Stats(before).totalOrders + 1
      && Dashboard.Stats(after).pendingOrders == Dashboard.Stats(before).pendingOrders + 1
      && Dashboard.Stats(after).completedOrders == Dashboard.Stats(before).completedOrders
      && Dashboard.RecentOrders(after)[0] == Menu.WalkInOrder(item, id, timestamp)
      && Orders.FilterOrders(after, Orders.OnlyPending) == Orders.FilterOrders(before, Orders.OnlyPending) + [Menu.WalkInOrder(item, id, timestamp)]
  {
    var before := Read(slots, OrdersKey);
    var o := Menu.WalkInOrder(item, id, timestamp);
    var after := Read(SharedCatalogAdd(slots, item, id, timestamp), OrdersKey);
    assert after == before + [o];
    StatusCountsAfterAppend(before, o);
    Dashboard.RecentOrdersAfterAppend(before, o);
    Orders.FilterOrdersSpec(before);
    Orders.FilterOrdersSpec(after);
    Collections.FilterAppend(before, o, IsPending);
  }
}
