/** Browser local storage as the pages use it: named slots, each holding a
    list of orders. A slot that was never written reads as the empty list,
    which is the default every page passes. */
module Storage {
  import opened OrderModel

  type Slots = map<string, seq<Order>>

  /** The slot the order manager and the dashboard read and write. */
  const OrdersKey: string := "hatupoitech-orders"

  /** The slot the catalog page appends its orders to. */
  const CatalogOrdersKey: string := "dinesmart-orders"

  /** The value under `key`, or the empty default when there is none. */
  function Read(slots: Slots, key: string): (v: seq<Order>)
    ensures key !in slots ==> v == []
    ensures key in slots ==> v == slots[key]
  {
    if key in slots then slots[key] else []
  }

  /** Stores `v` under `key`, replacing any earlier value. */
  function Write(slots: Slots, key: string, v: seq<Order>): (r: Slots)
    ensures Read(r, key) == v
    ensures forall other :: other != key ==> Read(r, other) == Read(slots, other)
  {
    slots[key := v]
  }

  /** The storage of one browser tab, shared by all pages. */
  class LocalStorage {
    var slots: Slots

    constructor ()
      ensures slots == map[]
    {
      slots := map[];
    }

    function Get(key: string): seq<Order>
      reads this
    {
      Read(slots, key)
    }

    method Set(key: string, v: seq<Order>)
      modifies this
      ensures slots == Write(old(slots), key, v)
      ensures Get(key) == v
      ensures forall other :: other != key ==> Get(other) == old(Get(other))
    {
      slots := Write(slots, key, v);
    }
  }
}
