/** The order manager page: adding an order through the form, toggling and
    deleting orders, the status filter and the status counts. The list
    transformations are functions; `OrderManager` holds the page's state
    slots and applies them. */
module Orders {
  import opened Collections
  import opened Text
  import opened OrderModel
  import opened Storage

  /** What the add handler did: appended the new order, or refused the form
      because a required field was missing. */
  datatype AddOutcome = Added(orders: seq<Order>) | MissingFields

  /** The add handler: the dish name must not be blank once trimmed, and the
      customer field must not be the empty string (it is not trimmed, so a
      whitespace-only customer name passes). The stored dish name is trimmed;
      the customer name is kept as typed. */
  function AddOrder(orders: seq<Order>, dishName: string, customerName: string, id: string, timestamp: int): (r: AddOutcome)
    ensures r.MissingFields? <==> IsBlank(dishName) || customerName == ""
    ensures r.Added? ==> |r.orders| == |orders| + 1 && r.orders[..|orders|] == orders
    ensures r.Added? ==> r.orders[|orders|] == Order(id, Trim(dishName), customerName, Pending, timestamp)
  {
    if Trim(dishName) == "" || customerName == "" then MissingFields
    else Added(orders + [Order(id, Trim(dishName), customerName, Pending, timestamp)])
  }

  /** A customer name made only of whitespace is accepted as it is. */
  lemma AddAcceptsBlankCustomer(orders: seq<Order>, dishName: string, customerName: string, id: string, timestamp: int)
    requires !IsBlank(dishName) && customerName != "" && IsBlank(customerName)
    ensures AddOrder(orders, dishName, customerName, id, timestamp).Added?
    ensures AddOrder(orders, dishName, customerName, id, timestamp).orders[|orders|].customerName == customerName
  {
  }

  /** A successful add adds one pending order and leaves the completed count. */
  lemma AddCountsOnePending(orders: seq<Order>, dishName: string, customerName: string, id: string, timestamp: int)
    requires AddOrder(orders, dishName, customerName, id, timestamp).Added?
    ensures var after := AddOrder(orders, dishName, customerName, id, timestamp).orders;
      |PendingOrders(after)| == |PendingOrders(orders)| + 1 &&
      |CompletedOrders(after)| == |CompletedOrders(orders)|
  {
    var after := AddOrder(orders, dishName, customerName, id, timestamp).orders;
    assert after == orders + [after[|orders|]];
    StatusCountsAfterAppend(orders, after[|orders|]);
  }

  /** One order after a toggle of `id`. */
  function ToggleOne(o: Order, id: string): Order
  {
    if o.id == id then o.(status := Flip(o.status)) else o
  }

  /** `orders.map(...)` of the toggle handler: every order whose id is `id`
      changes status, every other order stays as it was. */
  function ToggleStatus(orders: seq<Order>, id: string): (r: seq<Order>)
    ensures |r| == |orders|
    ensures forall k :: 0 <= k < |orders| && orders[k].id == id ==>
      r[k] == orders[k].(status := Flip(orders[k].status))
    ensures forall k :: 0 <= k < |orders| && orders[k].id != id ==> r[k] == orders[k]
  {
    if orders == [] then [] else [ToggleOne(orders[0], id)] + ToggleStatus(orders[1..], id)
  }

  /** Toggling the same id twice gives back the original list. */
  lemma ToggleTwiceRestores(orders: seq<Order>, id: string)
    ensures ToggleStatus(ToggleStatus(orders, id), id) == orders
  {
    var once := ToggleStatus(orders, id);
    var twice := ToggleStatus(once, id);
    forall k | 0 <= k < |orders|
      ensures twice[k] == orders[k]
    {
      if orders[k].id == id {
        assert once[k].status != orders[k].status;
      }
    }
  }

  /** Toggling an id no order carries changes nothing. */
  lemma ToggleAbsentIsNoop(orders: seq<Order>, id: string)
    requires forall k :: 0 <= k < |orders| ==> orders[k].id != id
    ensures ToggleStatus(orders, id) == orders
  {
  }

  /** Toggling never changes which orders exist, only their statuses. */
  lemma ToggleKeepsEverythingButStatus(orders: seq<Order>, id: string)
    ensures forall k :: 0 <= k < |orders| ==>
      ToggleStatus(orders, id)[k].(status := Pending) == orders[k].(status := Pending)
  {
  }

  predicate HasId(o: Order, id: string)
  {
    o.id == id
  }

  /** `orders.filter((order) => order.id !== id)`: no order with `id`
      remains, and every other order is kept. */
  function DeleteOrder(orders: seq<Order>, id: string): (r: seq<Order>)
    ensures |r| <= |orders|
    ensures forall k :: 0 <= k < |r| ==> r[k].id != id && r[k] in orders
    ensures forall k :: 0 <= k < |orders| && orders[k].id != id ==> orders[k] in r
  {
    Filter(orders, o => !HasId(o, id))
  }

  /** Deleting keeps, in order, exactly the orders with another id: none with
      `id` remains and every other order keeps its multiplicity. */
  lemma DeleteSpec(orders: seq<Order>, id: string)
    ensures IsSubsequence(DeleteOrder(orders, id), orders)
    ensures forall k :: 0 <= k < |DeleteOrder(orders, id)| ==> DeleteOrder(orders, id)[k].id != id
    ensures forall o: Order :: o.id != id ==> multiset(DeleteOrder(orders, id))[o] == multiset(orders)[o]
    ensures |DeleteOrder(orders, id)| + |Filter(orders, o => HasId(o, id))| == |orders|
  {
    FilterIsSubsequence(orders, o => !HasId(o, id));
    FilterPartition(orders, o => !HasId(o, id), o => HasId(o, id));
    var kept := DeleteOrder(orders, id);
    var gone := Filter(orders, o => HasId(o, id));
    forall o: Order | o.id != id
      ensures multiset(kept)[o] == multiset(orders)[o]
    {
      assert o !in gone;
    }
  }

  /** Deleting an id no order carries changes nothing. */
  lemma DeleteAbsentIsNoop(orders: seq<Order>, id: string)
    requires forall k :: 0 <= k < |orders| ==> orders[k].id != id
    ensures DeleteOrder(orders, id) == orders
  {
    FilterKeepsAll(orders, o => !HasId(o, id));
  }

  /** Deleting the same id a second time changes nothing. */
  lemma DeleteIdempotent(orders: seq<Order>, id: string)
    ensures DeleteOrder(DeleteOrder(orders, id), id) == DeleteOrder(orders, id)
  {
    DeleteAbsentIsNoop(DeleteOrder(orders, id), id);
  }

  /** The filter buttons: all orders, the pending ones, the completed ones. */
  datatype StatusFilter = All | OnlyPending | OnlyCompleted

  predicate Shows(f: StatusFilter, o: Order)
  {
    match f
    case All => true
    case OnlyPending => o.status == Pending
    case OnlyCompleted => o.status == Completed
  }

  /** `filteredOrders`: the orders the selected filter shows, in list order;
      every shown order is on the list and every listed order the filter
      shows is among them. */
  function FilterOrders(orders: seq<Order>, f: StatusFilter): (r: seq<Order>)
    ensures |r| <= |orders|
    ensures forall k :: 0 <= k < |r| ==> Shows(f, r[k]) && r[k] in orders
    ensures forall k :: 0 <= k < |orders| && Shows(f, orders[k]) ==> orders[k] in r
  {
    Filter(orders, o => Shows(f, o))
  }

  /** "All" shows the whole list; "Pending" and "Completed" show the two
      status parts, which are stable subsequences that split the list. */
  lemma FilterOrdersSpec(orders: seq<Order>)
    ensures FilterOrders(orders, All) == orders
    ensures FilterOrders(orders, OnlyPending) == PendingOrders(orders)
    ensures FilterOrders(orders, OnlyCompleted) == CompletedOrders(orders)
    ensures IsSubsequence(FilterOrders(orders, OnlyPending), orders)
    ensures IsSubsequence(FilterOrders(orders, OnlyCompleted), orders)
    ensures |FilterOrders(orders, OnlyPending)| + |FilterOrders(orders, OnlyCompleted)| == |orders|
    ensures multiset(FilterOrders(orders, OnlyPending)) + multiset(FilterOrders(orders, OnlyCompleted)) == multiset(orders)
  {
    FilterKeepsAll(orders, o => Shows(All, o));
    FilterAgreeing(orders, o => Shows(OnlyPending, o), IsPending);
    FilterAgreeing(orders, o => Shows(OnlyCompleted, o), IsCompleted);
    StatusPartition(orders);
  }

  /** The counters shown above the list. */
  datatype OrderStats = OrderStats(total: nat, pending: nat, completed: nat)

  /** `stats`: the list length and the two status counts, which add up to it. */
  function Stats(orders: seq<Order>): (s: OrderStats)
    ensures s.total == |orders|
    ensures s.pending + s.completed == s.total
    ensures s.pending == |PendingOrders(orders)| && s.completed == |CompletedOrders(orders)|
  {
    StatusPartition(orders);
    OrderStats(|orders|, |PendingOrders(orders)|, |CompletedOrders(orders)|)
  }

  /** The page's state: the filter, the two form fields and whether the form
      dialog is open. The order list itself lives in the storage slot
      `OrdersKey`. */
  class OrderManager {
    const store: LocalStorage
    var filter: StatusFilter
    var dishName: string
    var tableNumber: string
    var dialogOpen: bool

    constructor (store: LocalStorage)
      ensures this.store == store
      ensures filter == All && dishName == "" && tableNumber == "" && !dialogOpen
    {
      this.store := store;
      filter := All;
      dishName := "";
      tableNumber := "";
      dialogOpen := false;
    }

    function Orders(): seq<Order>
      reads this, store
    {
      store.Get(OrdersKey)
    }

    /** The list the page renders under the filter buttons: stored orders
        that the selected filter shows. */
    function Visible(): (r: seq<Order>)
      reads this, store
      ensures forall k :: 0 <= k < |r| ==> Shows(filter, r[k]) && r[k] in Orders()
    {
      FilterOrders(Orders(), filter)
    }

    method SetFilter(f: StatusFilter)
      modifies this
      ensures filter == f
      ensures dishName == old(dishName) && tableNumber == old(tableNumber) && dialogOpen == old(dialogOpen)
    {
      filter := f;
    }

    method EditDishName(s: string)
      modifies this
      ensures dishName == s
      ensures filter == old(filter) && tableNumber == old(tableNumber) && dialogOpen == old(dialogOpen)
    {
      dishName := s;
    }

    method EditCustomerName(s: string)
      modifies this
      ensures tableNumber == s
      ensures filter == old(filter) && dishName == old(dishName) && dialogOpen == old(dialogOpen)
    {
      tableNumber := s;
    }

    method SetDialogOpen(open: bool)
      modifies this
      ensures dialogOpen == open
      ensures filter == old(filter) && dishName == old(dishName) && tableNumber == old(tableNumber)
    {
      dialogOpen := open;
    }

    /** `handleAddOrder`: on a missing field nothing changes (the typed input
        stays for correction); otherwise the new pending order is appended to
        the stored list, the form is cleared and the dialog closes. */
    method HandleAddOrder(id: string, timestamp: int) returns (added: bool)
      modifies this, store
      ensures added <==> !IsBlank(old(dishName)) && old(tableNumber) != ""
      ensures !added ==> unchanged(this) && unchanged(store)
      ensures added ==>
        && store.slots == Write(old(store.slots), OrdersKey, AddOrder(old(Orders()), old(dishName), old(tableNumber), id, timestamp).orders)
        && dishName == "" && tableNumber == "" && !dialogOpen && filter == old(filter)
    {
      var outcome := AddOrder(Orders(), dishName, tableNumber, id, timestamp);
      if outcome.MissingFields? {
        return false;
      }
      store.Set(OrdersKey, outcome.orders);
      dishName := "";
      tableNumber := "";
      dialogOpen := false;
      added := true;
    }

    /** `handleToggleStatus`: the stored list is replaced by its toggle. */
    method HandleToggleStatus(id: string)
      modifies store
      ensures store.slots == Write(old(store.slots), OrdersKey, ToggleStatus(old(Orders()), id))
    {
      store.Set(OrdersKey, ToggleStatus(Orders(), id));
    }

    /** `handleDeleteOrder`: the stored list loses every order with `id`. */
    method HandleDeleteOrder(id: string)
      modifies store
      ensures store.slots == Write(old(store.slots), OrdersKey, DeleteOrder(old(Orders()), id))
    {
      store.Set(OrdersKey, DeleteOrder(Orders(), id));
    }
  }
}
