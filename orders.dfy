/**
 * The order routes a signed-in user calls: list and fetch their own orders,
 * check out (stock check, then append, then stock decrement), merge-update
 * and delete. The caller's id stands for the id the auth token carries.
 */
module Orders {
  import opened Records
  import opened Seqs
  import opened Stock
  import Db

  /** GET /orders: the caller's orders. */
  function ListFor(orders: seq<Order>, userId: int): (r: seq<Order>)
    ensures forall o :: o in r <==> o in orders && o.userId == userId
    ensures forall o :: multiset(r)[o] == if o.userId == userId then multiset(orders)[o] else 0
  {
    Filter(orders, IsUsersOrder(userId))
  }

  /** The listing keeps stored order: an order appended later is listed after the earlier ones. */
  lemma ListForAppend(orders: seq<Order>, o: Order, userId: int)
    ensures ListFor(orders + [o], userId) == ListFor(orders, userId) + (if o.userId == userId then [o] else [])
  {
    FilterAppend(orders, [o], IsUsersOrder(userId));
    assert Filter([o], IsUsersOrder(userId)) == (if o.userId == userId then [o] else []) by {
      assert [o][1..] == [];
    }
  }

  /** GET /orders/:id: the first order with that id that the caller owns. */
  function Get(orders: seq<Order>, id: int, userId: int): (r: Option<Order>)
    ensures r.Some? <==> exists o :: o in orders && o.id == id && o.userId == userId
    ensures r.Some? ==> r.value in orders && r.value.id == id && r.value.userId == userId
    ensures r.Some? ==>
      exists i :: (0 <= i < |orders| && orders[i] == r.value &&
                   forall j :: 0 <= j < i ==> !(orders[j].id == id && orders[j].userId == userId))
  {
    var i := IndexWhere(orders, IsOwnedOrder(id, userId));
    if i < 0 then None else Some(orders[i])
  }

  /** The stock check turns `item` away: its product is missing or has less stock than asked for. */
  predicate IsShort(products: seq<Product>, item: Item) {
    var i := IndexWhere(products, HasProductId(item.id));
    i < 0 || products[i].stock < item.quantity
  }

  function ShortIn(products: seq<Product>): Item -> bool {
    (item: Item) => IsShort(products, item)
  }

  /** The record POST /orders appends; it has no return fields yet. */
  function NewOrder(id: int, userId: int, items: seq<Item>, total: Amount, now: int): Order {
    Order(id, userId, items, total, now, None, None, None, None, None, None, None, None)
  }

  /**
   * POST /orders. Every item is checked against the stock as it stands before
   * the order; the first item that fails is reported and nothing changes.
   * Otherwise the order is appended with id `orders.length + 1` and each item's
   * quantity is taken from its product's stock.
   */
  method Create(st: Db.Store, userId: int, items: seq<Item>, total: Amount, now: int) returns (r: Result<Order>)
    modifies st`orders, st`products
    ensures var bad := IndexWhere(items, ShortIn(old(st.products)));
      bad >= 0 ==>
        && r == Err(BadRequest(InsufficientStock(items[bad].name)))
        && st.orders == old(st.orders)
        && st.products == old(st.products)
    ensures IndexWhere(items, ShortIn(old(st.products))) == -1 ==>
      && r == Ok(NewOrder(|old(st.orders)| + 1, userId, items, total, now))
      && st.orders == old(st.orders) + [r.value]
      && st.products == Adjusted(old(st.products), items, Sale)
  {
    var bad := FindIndex(items, ShortIn(st.products));
    if bad != -1 {
      return Err(BadRequest(InsufficientStock(items[bad].name)));
    }
    var order := NewOrder(|st.orders| + 1, userId, items, total, now);
    st.orders := st.orders + [order];
    Apply(st, items, Sale);
    r := Ok(order);
  }

  /** A product that no item names keeps its record as it was. */
  lemma SaleLeavesUnnamedProducts(products: seq<Product>, items: seq<Item>, k: int)
    requires 0 <= k < |products|
    requires forall j :: 0 <= j < |items| ==> items[j].id != products[k].id
    ensures Adjusted(products, items, Sale)[k] == products[k]
  {
    AdjustedAt(products, items, Sale, k);
    NetDeltaUnnamed(items, products[k].id, Sale);
  }

  /**
   * When the check passes and no two items name the same product, no stock
   * that was non-negative goes below zero.
   */
  lemma DistinctLinesNeverOversell(products: seq<Product>, items: seq<Item>)
    requires IndexWhere(items, ShortIn(products)) == -1
    requires forall i, j :: 0 <= i < j < |items| ==> items[i].id != items[j].id
    requires forall k :: 0 <= k < |products| ==> products[k].stock >= 0
    ensures forall k :: 0 <= k < |products| ==> Adjusted(products, items, Sale)[k].stock >= 0
  {
    forall k | 0 <= k < |products|
      ensures Adjusted(products, items, Sale)[k].stock >= 0
    {
      AdjustedAt(products, items, Sale, k);
      var id := products[k].id;
      if j :| 0 <= j < |items| && items[j].id == id {
        NetDeltaSingle(items, id, Sale, j);
        assert !IsShort(products, items[j]) by {
          assert !ShortIn(products)(items[j]);
        }
      } else {
        NetDeltaUnnamed(items, id, Sale);
      }
    }
  }

  /**
   * Each line is checked against the stock before the order, so two lines for
   * the same product both pass with one unit in stock and leave it at -1.
   */
  lemma DuplicateLinesCanOversell()
    ensures var products := [Product(1, "Widget", Amount("5"), "", 1)];
      var items := [Item(1, "Widget", Amount("5"), 1), Item(1, "Widget", Amount("5"), 1)];
      IndexWhere(items, ShortIn(products)) == -1 && Adjusted(products, items, Sale)[0].stock == -1
  {
    var products := [Product(1, "Widget", Amount("5"), "", 1)];
    var line := Item(1, "Widget", Amount("5"), 1);
    var items := [line, line];
    assert IndexWhere(products, HasProductId(1)) == 0;
    assert !ShortIn(products)(items[0]) && !ShortIn(products)(items[1]);
    AdjustedAt(products, items, Sale, 0);
    assert items[..1] == [line];
    assert NetDelta(items, 1, Sale) == -2 by {
      assert NetDelta(items[..1], 1, Sale) == -1 by {
        assert items[..1][..0] == [];
      }
    }
  }

  /** An order body merged over a stored order: a field is replaced exactly when the body has it. */
  datatype OrderPatch = OrderPatch(
    id: Option<int>,
    userId: Option<int>,
    items: Option<seq<Item>>,
    total: Option<Amount>,
    date: Option<int>,
    shippingAddress: Option<string>,
    paymentInfo: Option<string>,
    returnStatus: Option<string>,
    returnRequestDate: Option<int>,
    returnReason: Option<string>,
    returnDate: Option<int>,
    returnRejectedDate: Option<int>,
    returnNotificationRead: Option<bool>)

  const EmptyPatch := OrderPatch(None, None, None, None, None, None, None, None, None, None, None, None, None)

  function Pick<T>(given: Option<T>, kept: T): T {
    if given.Some? then given.value else kept
  }

  function PickOption<T>(given: Option<T>, kept: Option<T>): Option<T> {
    if given.Some? then given else kept
  }

  /**
   * `{ ...order, ...body }`: every field the body sends replaces the order's,
   * every field it leaves out keeps the order's value. Nothing filters the
   * body's keys, so a body may also rewrite the id, the owner, the lines or
   * the return status. An empty body changes nothing.
   */
  function Merge(o: Order, b: OrderPatch): (r: Order)
    ensures b == EmptyPatch ==> r == o
    ensures (b.id.Some? ==> r.id == b.id.value) && (b.id.None? ==> r.id == o.id)
    ensures (b.userId.Some? ==> r.userId == b.userId.value) && (b.userId.None? ==> r.userId == o.userId)
    ensures (b.items.Some? ==> r.items == b.items.value) && (b.items.None? ==> r.items == o.items)
    ensures (b.total.Some? ==> r.total == b.total.value) && (b.total.None? ==> r.total == o.total)
    ensures (b.date.Some? ==> r.date == b.date.value) && (b.date.None? ==> r.date == o.date)
    ensures (b.shippingAddress.Some? ==> r.shippingAddress == b.shippingAddress) && (b.shippingAddress.None? ==> r.shippingAddress == o.shippingAddress)
    ensures (b.paymentInfo.Some? ==> r.paymentInfo == b.paymentInfo) && (b.paymentInfo.None? ==> r.paymentInfo == o.paymentInfo)
    ensures (b.returnStatus.Some? ==> r.returnStatus == b.returnStatus) && (b.returnStatus.None? ==> r.returnStatus == o.returnStatus)
    ensures (b.returnRequestDate.Some? ==> r.returnRequestDate == b.returnRequestDate) && (b.returnRequestDate.None? ==> r.returnRequestDate == o.returnRequestDate)
    ensures (b.returnReason.Some? ==> r.returnReason == b.returnReason) && (b.returnReason.None? ==> r.returnReason == o.returnReason)
    ensures (b.returnDate.Some? ==> r.returnDate == b.returnDate) && (b.returnDate.None? ==> r.returnDate == o.returnDate)
    ensures (b.returnRejectedDate.Some? ==> r.returnRejectedDate == b.returnRejectedDate) && (b.returnRejectedDate.None? ==> r.returnRejectedDate == o.returnRejectedDate)
    ensures (b.returnNotificationRead.Some? ==> r.returnNotificationRead == b.returnNotificationRead) && (b.returnNotificationRead.None? ==> r.returnNotificationRead == o.returnNotificationRead)
  {
    Order(
      Pick(b.id, o.id),
      Pick(b.userId, o.userId),
      Pick(b.items, o.items),
      Pick(b.total, o.total),
      Pick(b.date, o.date),
      PickOption(b.shippingAddress, o.shippingAddress),
      PickOption(b.paymentInfo, o.paymentInfo),
      PickOption(b.returnStatus, o.returnStatus),
      PickOption(b.returnRequestDate, o.returnRequestDate),
      PickOption(b.returnReason, o.returnReason),
      PickOption(b.returnDate, o.returnDate),
      PickOption(b.returnRejectedDate, o.returnRejectedDate),
      PickOption(b.returnNotificationRead, o.returnNotificationRead))
  }

  /**
   * A PUT that sends only a shipping address changes only the address: the
   * return status, its dates and the read flag are kept.
   */
  lemma AddressOnlyUpdate(o: Order, address: string)
    ensures Merge(o, EmptyPatch.(shippingAddress := Some(address))) == o.(shippingAddress := Some(address))
  {
  }

  /** Sending the same body twice is the same as sending it once. */
  lemma MergeLaws(o: Order, b: OrderPatch)
    ensures Merge(Merge(o, b), b) == Merge(o, b)
  {
  }

  /** PUT /orders/:id: merge the body over the first order with that id that the caller owns. */
  method Update(st: Db.Store, id: int, userId: int, patch: OrderPatch) returns (r: Result<Order>)
    modifies st`orders
    ensures var i := IndexWhere(old(st.orders), IsOwnedOrder(id, userId));
      && (i == -1 ==> r == Err(NotFound) && st.orders == old(st.orders))
      && (i >= 0 ==> st.orders == old(st.orders)[i := Merge(old(st.orders)[i], patch)] && r == Ok(st.orders[i]))
  {
    var i := FindIndex(st.orders, IsOwnedOrder(id, userId));
    if i == -1 {
      return Err(NotFound);
    }
    st.orders := st.orders[i := Merge(st.orders[i], patch)];
    r := Ok(st.orders[i]);
  }

  /** DELETE /orders/:id: splice out the first order with that id that the caller owns. Stock is not touched. */
  method Delete(st: Db.Store, id: int, userId: int) returns (r: Result<()>)
    modifies st`orders
    ensures var i := IndexWhere(old(st.orders), IsOwnedOrder(id, userId));
      && (i == -1 ==> r == Err(NotFound) && st.orders == old(st.orders))
      && (i >= 0 ==> r == Ok(()) && st.orders == RemoveAt(old(st.orders), i))
  {
    var i := FindIndex(st.orders, IsOwnedOrder(id, userId));
    if i == -1 {
      return Err(NotFound);
    }
    st.orders := RemoveAt(st.orders, i);
    r := Ok(());
  }

  /**
   * The id `orders.length + 1` is not fresh once an order has been deleted:
   * after deleting order 1 of [1, 2], the next order gets id 2 again.
   */
  lemma NewIdCanRepeatAfterDelete(o1: Order, o2: Order)
    requires o1.id == 1 && o2.id == 2 && o1.userId == o2.userId
    ensures var left := RemoveAt([o1, o2], IndexWhere([o1, o2], IsOwnedOrder(1, o1.userId)));
      left == [o2] && |left| + 1 == o2.id
  {
    assert IndexWhere([o1, o2], IsOwnedOrder(1, o1.userId)) == 0;
  }
}
