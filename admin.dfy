/**
 * The admin routes. Every one of them runs behind `requireAdmin`, which lets a
 * request through only when the first user with the caller's id is named
 * "admin". Return approval and rejection move an order's `returnStatus` out of
 * "pending"; products are added, restocked and deleted; tickets are resolved
 * and closed.
 */
module Admin {
  import opened Records
  import opened Seqs
  import opened Stock
  import Orders
  import Db

  const AdminName := "admin"

  /** `requireAdmin`: the first user with the caller's id exists and is named "admin". */
  function IsAdmin(users: seq<User>, callerId: int): (r: bool)
    ensures r <==> exists i :: 0 <= i < |users| && users[i].id == callerId && users[i].username == AdminName
                                 && forall j :: 0 <= j < i ==> users[j].id != callerId
  {
    var i := IndexWhere(users, HasUserId(callerId));
    i >= 0 && users[i].username == AdminName
  }

  /** The `requireAdmin` middleware, as the scan it runs. */
  method RequireAdmin(st: Db.Store, callerId: int) returns (ok: bool)
    ensures ok == IsAdmin(st.users, callerId)
  {
    var u := FindIndex(st.users, HasUserId(callerId));
    ok := u != -1 && st.users[u].username == AdminName;
  }

  /** An order whose return request is still "pending". */
  predicate AwaitsDecision(o: Order) {
    o.returnStatus == Some(ReturnPending)
  }

  /** GET /admin/pending-returns: the orders whose return request awaits a decision, in stored order. */
  function PendingReturns(users: seq<User>, callerId: int, orders: seq<Order>): (r: Result<seq<Order>>)
    ensures r == Err(Forbidden) <==> !IsAdmin(users, callerId)
    ensures r.Ok? ==> forall o :: o in r.value <==> o in orders && o.returnStatus == Some(ReturnPending)
    ensures r.Ok? ==> forall o :: multiset(r.value)[o] ==
                                (if o.returnStatus == Some(ReturnPending) then multiset(orders)[o] else 0)
  {
    if !IsAdmin(users, callerId) then Err(Forbidden)
    else Ok(Filter(orders, AwaitsDecision))
  }

  /** The listing keeps stored order: a later pending return is listed last. */
  lemma PendingReturnsAppend(users: seq<User>, callerId: int, orders: seq<Order>, o: Order)
    ensures var before, after := PendingReturns(users, callerId, orders), PendingReturns(users, callerId, orders + [o]);
      after.Ok? ==> before.Ok? && after.value == before.value + (if AwaitsDecision(o) then [o] else [])
  {
    FilterAppend(orders, [o], AwaitsDecision);
    FilterCons(o, [], AwaitsDecision);
    assert [o] + [] == [o];
  }

  /** GET /admin/tickets: every ticket. */
  function AllTickets(users: seq<User>, callerId: int, tickets: seq<Ticket>): (r: Result<seq<Ticket>>)
    ensures r == Err(Forbidden) <==> !IsAdmin(users, callerId)
    ensures r.Ok? ==> r.value == tickets
  {
    if !IsAdmin(users, callerId) then Err(Forbidden) else Ok(tickets)
  }

  /**
   * The checks approve and reject share: the first order with the id, which
   * must be awaiting a decision. The owner is not checked.
   */
  function PendingIndex(orders: seq<Order>, orderId: int): (r: Result<nat>)
    ensures r == Err(NotFound) <==> forall o :: o in orders ==> o.id != orderId
    ensures r.Err? ==> r.failure == NotFound || r.failure == BadRequest(NotPending)
    ensures var i := IndexWhere(orders, HasOrderId(orderId));
      r.Ok? <==> i >= 0 && orders[i].returnStatus == Some(ReturnPending)
    ensures r.Ok? ==> && r.value < |orders|
                      && orders[r.value].id == orderId
                      && orders[r.value].returnStatus == Some(ReturnPending)
                      && forall j :: 0 <= j < r.value ==> orders[j].id != orderId
  {
    var i := IndexWhere(orders, HasOrderId(orderId));
    if i < 0 then Err(NotFound)
    else if orders[i].returnStatus != Some(ReturnPending) then Err(BadRequest(NotPending))
    else Ok(i)
  }

  function Approved(o: Order, now: int): Order {
    o.(returnStatus := Some(ReturnReturned), returnDate := Some(now), returnNotificationRead := Some(false))
  }

  function Rejected(o: Order, now: int): Order {
    o.(returnStatus := Some(ReturnRejected), returnRejectedDate := Some(now), returnNotificationRead := Some(false))
  }

  /** The admin gate and the order lookup that approve and reject both run first. */
  method CheckReturn(st: Db.Store, callerId: int, orderId: int) returns (r: Result<nat>)
    ensures !IsAdmin(st.users, callerId) ==> r == Err(Forbidden)
    ensures IsAdmin(st.users, callerId) ==> r == PendingIndex(st.orders, orderId)
  {
    var admin := RequireAdmin(st, callerId);
    if !admin {
      return Err(Forbidden);
    }
    var i := FindIndex(st.orders, HasOrderId(orderId));
    if i == -1 {
      return Err(NotFound);
    }
    if st.orders[i].returnStatus != Some(ReturnPending) {
      return Err(BadRequest(NotPending));
    }
    r := Ok(i);
  }

  /**
   * POST /admin/returns/:id/approve: mark the return done and put each item's
   * quantity (`quantity || 1`) back into its product's stock; items whose
   * product is gone are skipped.
   */
  method ApproveReturn(st: Db.Store, callerId: int, orderId: int, now: int) returns (r: Result<Order>)
    modifies st`orders, st`products
    ensures !IsAdmin(st.users, callerId) ==>
      r == Err(Forbidden) && st.orders == old(st.orders) && st.products == old(st.products)
    ensures IsAdmin(st.users, callerId) && PendingIndex(old(st.orders), orderId).Err? ==>
      && r == Err(PendingIndex(old(st.orders), orderId).failure)
      && st.orders == old(st.orders) && st.products == old(st.products)
    ensures IsAdmin(st.users, callerId) && PendingIndex(old(st.orders), orderId).Ok? ==>
      var i := PendingIndex(old(st.orders), orderId).value;
      && st.orders == old(st.orders)[i := Approved(old(st.orders)[i], now)]
      && st.products == Adjusted(old(st.products), old(st.orders)[i].items, Restock)
      && r == Ok(st.orders[i])
  {
    var check := CheckReturn(st, callerId, orderId);
    if check.Err? {
      return Err(check.failure);
    }
    var i := check.value;
    var order := st.orders[i];
    st.orders := st.orders[i := Approved(order, now)];
    Apply(st, order.items, Restock);
    r := Ok(st.orders[i]);
  }

  /** POST /admin/returns/:id/reject: mark the return refused; stock is not touched. */
  method RejectReturn(st: Db.Store, callerId: int, orderId: int, now: int) returns (r: Result<Order>)
    modifies st`orders
    ensures !IsAdmin(st.users, callerId) ==> r == Err(Forbidden) && st.orders == old(st.orders)
    ensures IsAdmin(st.users, callerId) && PendingIndex(old(st.orders), orderId).Err? ==>
      r == Err(PendingIndex(old(st.orders), orderId).failure) && st.orders == old(st.orders)
    ensures IsAdmin(st.users, callerId) && PendingIndex(old(st.orders), orderId).Ok? ==>
      var i := PendingIndex(old(st.orders), orderId).value;
      st.orders == old(st.orders)[i := Rejected(old(st.orders)[i], now)] && r == Ok(st.orders[i])
  {
    var check := CheckReturn(st, callerId, orderId);
    if check.Err? {
      return Err(check.failure);
    }
    var i := check.value;
    st.orders := st.orders[i := Rejected(st.orders[i], now)];
    r := Ok(st.orders[i]);
  }

  /**
   * A decided return is final: once approved or rejected, a second approve or
   * reject of the same order id answers "not pending".
   */
  lemma {:induction false} DecisionIsFinal(orders: seq<Order>, orderId: int, now: int)
    requires PendingIndex(orders, orderId).Ok?
    ensures var i := PendingIndex(orders, orderId).value;
      && PendingIndex(orders[i := Approved(orders[i], now)], orderId) == Err(BadRequest(NotPending))
      && PendingIndex(orders[i := Rejected(orders[i], now)], orderId) == Err(BadRequest(NotPending))
  {
    var i := PendingIndex(orders, orderId).value;
    assert IndexWhere(orders, HasOrderId(orderId)) == i;
    IndexWhereAfterUpdate(orders, HasOrderId(orderId), i, Approved(orders[i], now));
    IndexWhereAfterUpdate(orders, HasOrderId(orderId), i, Rejected(orders[i], now));
  }

  /**
   * The decision is final only for these two routes: the owner's PUT
   * /orders/:id may write `returnStatus: "pending"` back over an approved
   * return, and approve then accepts the order again.
   */
  lemma {:induction false} UpdateReopensDecidedReturn(orders: seq<Order>, orderId: int, now: int)
    requires PendingIndex(orders, orderId).Ok?
    ensures var i := PendingIndex(orders, orderId).value;
      var decided := orders[i := Approved(orders[i], now)];
      var j := IndexWhere(decided, IsOwnedOrder(orderId, orders[i].userId));
      var patch := Orders.EmptyPatch.(returnStatus := Some(ReturnPending));
      && j == i
      && PendingIndex(decided[j := Orders.Merge(decided[j], patch)], orderId) == Ok(i)
  {
    var i := PendingIndex(orders, orderId).value;
    var decided := orders[i := Approved(orders[i], now)];
    var owned := IsOwnedOrder(orderId, orders[i].userId);
    assert owned(decided[i]);
    assert forall k :: 0 <= k < i ==> !owned(decided[k]);
    var reopened := decided[i := Orders.Merge(decided[i], Orders.EmptyPatch.(returnStatus := Some(ReturnPending)))];
    assert IndexWhere(orders, HasOrderId(orderId)) == i;
    IndexWhereAfterUpdate(orders, HasOrderId(orderId), i, decided[i]);
    IndexWhereAfterUpdate(decided, HasOrderId(orderId), i, reopened[i]);
  }

  /** Approving a return of two units of a product with 5 in stock leaves 7. */
  lemma ApprovalRestocksExample(p: Product, line: Item)
    requires p.stock == 5 && line.id == p.id && line.quantity == 2
    ensures Adjusted([p], [line], Restock) == [p.(stock := 7)]
  {
    assert [line][..0] == [];
    assert IndexWhere([p], HasProductId(line.id)) == 0;
  }

  /** A JSON string field as JavaScript's `!field` sees it: missing or empty is falsy. */
  predicate Truthy(field: Option<string>) {
    field.Some? && field.value != ""
  }

  /** `Math.max(...ids) + 1`, or 1 for an empty catalogue. */
  function NextProductId(products: seq<Product>): (r: int)
    ensures forall p :: p in products ==> p.id < r
    ensures products == [] ==> r == 1
    ensures products != [] ==> exists p :: p in products && p.id == r - 1
  {
    if products == [] then 1
    else
      var rest := NextProductId(products[1..]);
      assert products == [products[0]] + products[1..];
      if products[1..] == [] || products[0].id >= rest - 1 then products[0].id + 1 else rest
  }

  /** No two products share an id. */
  predicate DistinctProductIds(products: seq<Product>) {
    forall i, j :: 0 <= i < j < |products| ==> products[i].id != products[j].id
  }

  /** Adding a product keeps product ids distinct, since its id is above every existing one. */
  lemma AddProductKeepsIdsDistinct(products: seq<Product>, p: Product)
    requires DistinctProductIds(products)
    requires p.id == NextProductId(products)
    ensures DistinctProductIds(products + [p])
  {
    var after := products + [p];
    forall i, j | 0 <= i < j < |after| ensures after[i].id != after[j].id {
      if j == |products| {
        assert after[i] in products;
      }
    }
  }

  /**
   * POST /admin/products. `price` is None when the body's price is missing or
   * falsy (0, "", false or null); `stock` is None when the body has no stock.
   */
  method AddProduct(st: Db.Store, callerId: int, name: Option<string>, price: Option<Amount>,
                    description: Option<string>, stock: Option<int>) returns (r: Result<Product>)
    modifies st`products
    ensures !IsAdmin(st.users, callerId) ==> r == Err(Forbidden) && st.products == old(st.products)
    ensures IsAdmin(st.users, callerId) && !(Truthy(name) && price.Some? && Truthy(description) && stock.Some?) ==>
      r == Err(BadRequest(MissingFields)) && st.products == old(st.products)
    ensures IsAdmin(st.users, callerId) && Truthy(name) && price.Some? && Truthy(description) && stock.Some? ==>
      && r == Ok(Product(NextProductId(old(st.products)), name.value, price.value, description.value, stock.value))
      && st.products == old(st.products) + [r.value]
  {
    var admin := RequireAdmin(st, callerId);
    if !admin {
      return Err(Forbidden);
    }
    if !Truthy(name) || price.None? || !Truthy(description) || stock.None? {
      return Err(BadRequest(MissingFields));
    }
    var product := Product(NextProductId(st.products), name.value, price.value, description.value, stock.value);
    st.products := st.products + [product];
    r := Ok(product);
  }

  /** PUT /admin/products/:id/stock: set the first matching product's stock; negative values are refused. */
  method UpdateStock(st: Db.Store, callerId: int, productId: int, stock: int) returns (r: Result<Product>)
    modifies st`products
    ensures !IsAdmin(st.users, callerId) ==> r == Err(Forbidden) && st.products == old(st.products)
    ensures IsAdmin(st.users, callerId) ==>
      var i := IndexWhere(old(st.products), HasProductId(productId));
      && (i == -1 ==> r == Err(NotFound) && st.products == old(st.products))
      && (i >= 0 && stock < 0 ==> r == Err(BadRequest(NegativeStock)) && st.products == old(st.products))
      && (i >= 0 && stock >= 0 ==>
            st.products == old(st.products)[i := old(st.products)[i].(stock := stock)] && r == Ok(st.products[i]))
  {
    var admin := RequireAdmin(st, callerId);
    if !admin {
      return Err(Forbidden);
    }
    var i := FindIndex(st.products, HasProductId(productId));
    if i == -1 {
      return Err(NotFound);
    }
    if stock < 0 {
      return Err(BadRequest(NegativeStock));
    }
    st.products := st.products[i := st.products[i].(stock := stock)];
    r := Ok(st.products[i]);
  }

  /** DELETE /admin/products/:id: splice out the first product with that id. */
  method DeleteProduct(st: Db.Store, callerId: int, productId: int) returns (r: Result<()>)
    modifies st`products
    ensures !IsAdmin(st.users, callerId) ==> r == Err(Forbidden) && st.products == old(st.products)
    ensures IsAdmin(st.users, callerId) ==>
      var i := IndexWhere(old(st.products), HasProductId(productId));
      && (i == -1 ==> r == Err(NotFound) && st.products == old(st.products))
      && (i >= 0 ==> r == Ok(()) && st.products == RemoveAt(old(st.products), i))
  {
    var admin := RequireAdmin(st, callerId);
    if !admin {
      return Err(Forbidden);
    }
    var i := FindIndex(st.products, HasProductId(productId));
    if i == -1 {
      return Err(NotFound);
    }
    st.products := RemoveAt(st.products, i);
    r := Ok(());
  }

  /** What resolve and close write over a ticket, whatever its status was. */
  function Resolved(t: Ticket, now: int): Ticket {
    t.(status := TicketResolved, resolvedAt := Some(now), notificationRead := Some(false))
  }

  function Closed(t: Ticket, now: int): Ticket {
    t.(status := TicketClosed, closedAt := Some(now), notificationRead := Some(false))
  }

  /** POST /admin/tickets/:id/resolve */
  method ResolveTicket(st: Db.Store, callerId: int, ticketId: int, now: int) returns (r: Result<Ticket>)
    modifies st`tickets
    ensures !IsAdmin(st.users, callerId) ==> r == Err(Forbidden) && st.tickets == old(st.tickets)
    ensures IsAdmin(st.users, callerId) ==>
      var i := IndexWhere(old(st.tickets), HasTicketId(ticketId));
      && (i == -1 ==> r == Err(NotFound) && st.tickets == old(st.tickets))
      && (i >= 0 ==> st.tickets == old(st.tickets)[i := Resolved(old(st.tickets)[i], now)] && r == Ok(st.tickets[i]))
  {
    var admin := RequireAdmin(st, callerId);
    if !admin {
      return Err(Forbidden);
    }
    var i := FindIndex(st.tickets, HasTicketId(ticketId));
    if i == -1 {
      return Err(NotFound);
    }
    st.tickets := st.tickets[i := Resolved(st.tickets[i], now)];
    r := Ok(st.tickets[i]);
  }

  /** POST /admin/tickets/:id/close */
  method CloseTicket(st: Db.Store, callerId: int, ticketId: int, now: int) returns (r: Result<Ticket>)
    modifies st`tickets
    ensures !IsAdmin(st.users, callerId) ==> r == Err(Forbidden) && st.tickets == old(st.tickets)
    ensures IsAdmin(st.users, callerId) ==>
      var i := IndexWhere(old(st.tickets), HasTicketId(ticketId));
      && (i == -1 ==> r == Err(NotFound) && st.tickets == old(st.tickets))
      && (i >= 0 ==> st.tickets == old(st.tickets)[i := Closed(old(st.tickets)[i], now)] && r == Ok(st.tickets[i]))
  {
    var admin := RequireAdmin(st, callerId);
    if !admin {
      return Err(Forbidden);
    }
    var i := FindIndex(st.tickets, HasTicketId(ticketId));
    if i == -1 {
      return Err(NotFound);
    }
    st.tickets := st.tickets[i := Closed(st.tickets[i], now)];
    r := Ok(st.tickets[i]);
  }
}
