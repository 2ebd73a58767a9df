/**
 * The notification view: a projection, computed on each request, of the
 * caller's decided returns and finished tickets that they have not yet
 * marked read, newest first; and the mark-read call that sets the flag.
 */
module Notifications {
  import opened Records
  import opened Seqs
  import Admin
  import Tickets
  import Db

  /** A notification's id: `return-<order id>` or `ticket-<ticket id>`. */
  datatype NoteId = ReturnNote(orderId: int) | TicketNote(ticketId: int)

  datatype Notification = Notification(id: NoteId, title: string, createdAt: Option<int>)

  /** An order the listing reports: the caller's, decided, and flagged unread (an absent flag does not count). */
  predicate ReturnDue(o: Order, userId: int) {
    && o.userId == userId
    && (o.returnStatus == Some(ReturnReturned) || o.returnStatus == Some(ReturnRejected))
    && o.returnNotificationRead == Some(false)
  }

  /** A ticket the listing reports: the caller's, resolved or closed, and flagged unread. */
  predicate TicketDue(t: Ticket, userId: int) {
    && t.userId == userId
    && (t.status == TicketResolved || t.status == TicketClosed)
    && t.notificationRead == Some(false)
  }

  function ReturnDueFor(userId: int): Order -> bool { (o: Order) => ReturnDue(o, userId) }
  function TicketDueFor(userId: int): Ticket -> bool { (t: Ticket) => TicketDue(t, userId) }

  function ReturnNoteOf(o: Order): Notification {
    var approved := o.returnStatus == Some(ReturnReturned);
    Notification(ReturnNote(o.id),
                 if approved then "Return Approved" else "Return Rejected",
                 if approved then o.returnDate else o.returnRejectedDate)
  }

  function TicketNoteOf(t: Ticket): Notification {
    Notification(TicketNote(t.id), "Ticket " + t.status,
                 if t.status == TicketResolved then t.resolvedAt else t.closedAt)
  }

  function ReturnNotes(orders: seq<Order>, userId: int): seq<Notification> {
    var due := Filter(orders, ReturnDueFor(userId));
    seq(|due|, i requires 0 <= i < |due| => ReturnNoteOf(due[i]))
  }

  function TicketNotes(tickets: seq<Ticket>, userId: int): seq<Notification> {
    var due := Filter(tickets, TicketDueFor(userId));
    seq(|due|, i requires 0 <= i < |due| => TicketNoteOf(due[i]))
  }

  /**
   * `new Date(b.createdAt) - new Date(a.createdAt)` as an order: `a` may come
   * before `b`. A missing date is placed last.
   */
  predicate NoOlder(a: Option<int>, b: Option<int>) {
    b.None? || (a.Some? && a.value >= b.value)
  }

  predicate NewestFirst(ns: seq<Notification>) {
    forall i, j :: 0 <= i < j < |ns| ==> NoOlder(ns[i].createdAt, ns[j].createdAt)
  }

  /** Put `n` in front of the first entry it is no older than (so ties keep their order). */
  function Insert(n: Notification, ns: seq<Notification>): (r: seq<Notification>)
    ensures multiset(r) == multiset(ns) + multiset{n}
  {
    if ns == [] then [n]
    else if NoOlder(n.createdAt, ns[0].createdAt) then [n] + ns
    else
      assert ns == [ns[0]] + ns[1..];
      [ns[0]] + Insert(n, ns[1..])
  }

  /** Inserting into a newest-first list keeps it newest first. */
  lemma {:induction false} InsertSorted(n: Notification, ns: seq<Notification>)
    requires NewestFirst(ns)
    ensures NewestFirst(Insert(n, ns))
  {
    if ns == [] {
    } else if NoOlder(n.createdAt, ns[0].createdAt) {
      var r := [n] + ns;
      forall i, j | 0 <= i < j < |r| ensures NoOlder(r[i].createdAt, r[j].createdAt) {
        if i == 0 && j > 1 {
          assert NoOlder(ns[0].createdAt, ns[j - 1].createdAt);
        }
      }
    } else {
      var tail := ns[1..];
      var rest := Insert(n, tail);
      InsertSorted(n, tail);
      forall x | x in rest ensures NoOlder(ns[0].createdAt, x.createdAt) {
        assert x in multiset(rest);
        if x != n {
          assert x in multiset(tail);
          var j :| 0 <= j < |tail| && tail[j] == x;
          assert ns[j + 1] == x;
        }
      }
      var r := [ns[0]] + rest;
      forall i, j | 0 <= i < j < |r| ensures NoOlder(r[i].createdAt, r[j].createdAt) {
        if i == 0 {
          assert r[j] in rest;
        } else {
          assert r[i] == rest[i - 1] && r[j] == rest[j - 1];
        }
      }
    }
  }

  /** The stable sort the listing does, newest first. */
  function SortNewestFirst(ns: seq<Notification>): (r: seq<Notification>)
    ensures multiset(r) == multiset(ns)
    ensures NewestFirst(r)
  {
    if ns == [] then []
    else
      assert ns == [ns[0]] + ns[1..];
      var sorted := SortNewestFirst(ns[1..]);
      InsertSorted(ns[0], sorted);
      Insert(ns[0], sorted)
  }

  function HasDate(d: Option<int>): Notification -> bool { (n: Notification) => n.createdAt == d }

  /** Two prefixes of which one is empty can be swapped. */
  lemma SwapWithEmpty<T>(a: seq<T>, b: seq<T>, c: seq<T>)
    requires a == [] || b == []
    ensures a + (b + c) == b + (a + c)
  {
    if a == [] {
      assert a + (b + c) == b + c == b + (a + c);
    } else {
      assert a + (b + c) == a + c == b + (a + c);
    }
  }

  /**
   * `Insert` puts `n` ahead of every entry of its own date, so among the
   * entries of any one date it lands first and the others keep their order.
   */
  lemma {:induction false} InsertKeepsTies(n: Notification, ns: seq<Notification>, d: Option<int>)
    ensures Filter(Insert(n, ns), HasDate(d)) == (if n.createdAt == d then [n] else []) + Filter(ns, HasDate(d))
  {
    var p := HasDate(d);
    var head: seq<Notification> := if n.createdAt == d then [n] else [];
    if ns == [] {
      assert Insert(n, ns) == [n] + [];
      FilterCons(n, [], p);
    } else if NoOlder(n.createdAt, ns[0].createdAt) {
      assert Insert(n, ns) == [n] + ns;
      FilterCons(n, ns, p);
    } else {
      var rest := Insert(n, ns[1..]);
      assert Insert(n, ns) == [ns[0]] + rest;
      assert ns[0].createdAt != n.createdAt;
      InsertKeepsTies(n, ns[1..], d);
      TiesStep(ns[0], rest, ns[1..], head, p);
      assert [ns[0]] + ns[1..] == ns;
    }
  }

  /** An entry of another date in front does not disturb the entries of date `d`. */
  lemma TiesStep(x: Notification, rest: seq<Notification>, tail: seq<Notification>,
                 head: seq<Notification>, p: Notification -> bool)
    requires Filter(rest, p) == head + Filter(tail, p)
    requires p(x) ==> head == []
    ensures Filter([x] + rest, p) == head + Filter([x] + tail, p)
  {
    var first: seq<Notification> := if p(x) then [x] else [];
    FilterCons(x, rest, p);
    FilterCons(x, tail, p);
    SwapWithEmpty(first, head, Filter(tail, p));
  }

  /**
   * The sort is stable: for every date, the entries of that date come out in
   * the order they went in.
   */
  lemma {:induction false} SortKeepsTies(ns: seq<Notification>, d: Option<int>)
    ensures Filter(SortNewestFirst(ns), HasDate(d)) == Filter(ns, HasDate(d))
  {
    if ns != [] {
      var sorted := SortNewestFirst(ns[1..]);
      SortKeepsTies(ns[1..], d);
      InsertKeepsTies(ns[0], sorted, d);
      assert SortNewestFirst(ns) == Insert(ns[0], sorted);
    }
  }

  /** The return entries are exactly the notes of the caller's due orders. */
  lemma ReturnNotesMembers(orders: seq<Order>, userId: int, n: Notification)
    ensures n in ReturnNotes(orders, userId) <==> exists o :: o in orders && ReturnDue(o, userId) && n == ReturnNoteOf(o)
  {
    var due := Filter(orders, ReturnDueFor(userId));
    var notes := ReturnNotes(orders, userId);
    if o :| o in orders && ReturnDue(o, userId) && n == ReturnNoteOf(o) {
      assert ReturnDueFor(userId)(o);
      var i :| 0 <= i < |due| && due[i] == o;
      assert notes[i] == n;
    }
    if n in notes {
      var i :| 0 <= i < |notes| && notes[i] == n;
      assert due[i] in due;
    }
  }

  /** The ticket entries are exactly the notes of the caller's due tickets. */
  lemma TicketNotesMembers(tickets: seq<Ticket>, userId: int, n: Notification)
    ensures n in TicketNotes(tickets, userId) <==> exists t :: t in tickets && TicketDue(t, userId) && n == TicketNoteOf(t)
  {
    var due := Filter(tickets, TicketDueFor(userId));
    var notes := TicketNotes(tickets, userId);
    if t :| t in tickets && TicketDue(t, userId) && n == TicketNoteOf(t) {
      assert TicketDueFor(userId)(t);
      var i :| 0 <= i < |due| && due[i] == t;
      assert notes[i] == n;
    }
    if n in notes {
      var i :| 0 <= i < |notes| && notes[i] == n;
      assert due[i] in due;
    }
  }

  /** GET /notifications */
  function Unread(orders: seq<Order>, tickets: seq<Ticket>, userId: int): (r: seq<Notification>)
    ensures NewestFirst(r)
    ensures |r| == |Filter(orders, ReturnDueFor(userId))| + |Filter(tickets, TicketDueFor(userId))|
    ensures multiset(r) == multiset(ReturnNotes(orders, userId) + TicketNotes(tickets, userId))
  {
    var all := ReturnNotes(orders, userId) + TicketNotes(tickets, userId);
    assert |multiset(all)| == |all|;
    SortNewestFirst(all)
  }

  /**
   * Entries of equal date keep the order the handler builds them in: the
   * caller's returns in stored order, then the caller's tickets in stored order.
   */
  lemma UnreadKeepsTies(orders: seq<Order>, tickets: seq<Ticket>, userId: int, d: Option<int>)
    ensures Filter(Unread(orders, tickets, userId), HasDate(d)) ==
      Filter(ReturnNotes(orders, userId), HasDate(d)) + Filter(TicketNotes(tickets, userId), HasDate(d))
  {
    var all := ReturnNotes(orders, userId) + TicketNotes(tickets, userId);
    SortKeepsTies(all, d);
    FilterAppend(ReturnNotes(orders, userId), TicketNotes(tickets, userId), HasDate(d));
  }

  /**
   * A notification is listed exactly when it describes one of the caller's
   * decided, unread returns or finished, unread tickets.
   */
  lemma UnreadMembers(orders: seq<Order>, tickets: seq<Ticket>, userId: int, n: Notification)
    ensures n in Unread(orders, tickets, userId) <==>
      || (exists o :: o in orders && ReturnDue(o, userId) && n == ReturnNoteOf(o))
      || (exists t :: t in tickets && TicketDue(t, userId) && n == TicketNoteOf(t))
  {
    var all := ReturnNotes(orders, userId) + TicketNotes(tickets, userId);
    assert n in Unread(orders, tickets, userId) <==> n in multiset(all);
    ReturnNotesMembers(orders, userId, n);
    TicketNotesMembers(tickets, userId, n);
  }

  /**
   * What a listed return entry says: an approved return is titled "Return
   * Approved" and dated by `returnDate`, a rejected one "Return Rejected" and
   * dated by `returnRejectedDate`.
   */
  lemma ReturnEntryFields(orders: seq<Order>, tickets: seq<Ticket>, userId: int, n: Notification)
    requires n in Unread(orders, tickets, userId)
    requires n.id.ReturnNote?
    ensures exists o :: (o in orders && o.id == n.id.orderId && ReturnDue(o, userId) &&
      (if o.returnStatus == Some(ReturnReturned)
       then n.title == "Return Approved" && n.createdAt == o.returnDate
       else n.title == "Return Rejected" && n.createdAt == o.returnRejectedDate))
  {
    UnreadMembers(orders, tickets, userId, n);
    var o :| o in orders && ReturnDue(o, userId) && n == ReturnNoteOf(o);
  }

  lemma TicketTitles()
    ensures "Ticket " + TicketResolved == "Ticket Resolved"
    ensures "Ticket " + TicketClosed == "Ticket Closed"
  {
  }

  /**
   * What a listed ticket entry says: "Ticket Resolved" dated by `resolvedAt`,
   * or "Ticket Closed" dated by `closedAt`.
   */
  lemma TicketEntryFields(orders: seq<Order>, tickets: seq<Ticket>, userId: int, n: Notification)
    requires n in Unread(orders, tickets, userId)
    requires n.id.TicketNote?
    ensures exists t :: (t in tickets && t.id == n.id.ticketId && TicketDue(t, userId) &&
      (if t.status == TicketResolved
       then n.title == "Ticket Resolved" && n.createdAt == t.resolvedAt
       else n.title == "Ticket Closed" && n.createdAt == t.closedAt))
  {
    UnreadMembers(orders, tickets, userId, n);
    var t :| t in tickets && TicketDue(t, userId) && n == TicketNoteOf(t);
    TicketTitles();
    if t.status == TicketResolved {
      assert n.title == "Ticket Resolved";
    } else {
      assert n.title == "Ticket Closed";
    }
  }

  /** Only the first of the caller's orders with that id changes, and only its read flag. */
  function OrdersMarkedRead(orders: seq<Order>, id: int, userId: int): (r: seq<Order>)
    ensures |r| == |orders|
    ensures var i := IndexWhere(orders, IsOwnedOrder(id, userId));
      forall k :: 0 <= k < |r| ==>
        r[k] == if k == i then orders[k].(returnNotificationRead := Some(true)) else orders[k]
  {
    var i := IndexWhere(orders, IsOwnedOrder(id, userId));
    if i < 0 then orders else orders[i := orders[i].(returnNotificationRead := Some(true))]
  }

  /** Only the first of the caller's tickets with that id changes, and only its read flag. */
  function TicketsMarkedRead(tickets: seq<Ticket>, id: int, userId: int): (r: seq<Ticket>)
    ensures |r| == |tickets|
    ensures var i := IndexWhere(tickets, IsOwnedTicket(id, userId));
      forall k :: 0 <= k < |r| ==>
        r[k] == if k == i then tickets[k].(notificationRead := Some(true)) else tickets[k]
  {
    var i := IndexWhere(tickets, IsOwnedTicket(id, userId));
    if i < 0 then tickets else tickets[i := tickets[i].(notificationRead := Some(true))]
  }

  /**
   * POST /notifications/mark-read/:type/:id: flag the first of the caller's
   * records with that id as read. An unknown type or a missing record changes
   * nothing; the call always answers success.
   */
  method MarkRead(st: Db.Store, kind: string, id: int, userId: int)
    modifies st`orders, st`tickets
    ensures kind == "return" ==>
      st.orders == OrdersMarkedRead(old(st.orders), id, userId) && st.tickets == old(st.tickets)
    ensures kind == "ticket" ==>
      st.tickets == TicketsMarkedRead(old(st.tickets), id, userId) && st.orders == old(st.orders)
    ensures kind != "return" && kind != "ticket" ==>
      st.orders == old(st.orders) && st.tickets == old(st.tickets)
  {
    if kind == "return" {
      var i := FindIndex(st.orders, IsOwnedOrder(id, userId));
      if i != -1 {
        st.orders := st.orders[i := st.orders[i].(returnNotificationRead := Some(true))];
      }
    } else if kind == "ticket" {
      var i := FindIndex(st.tickets, IsOwnedTicket(id, userId));
      if i != -1 {
        st.tickets := st.tickets[i := st.tickets[i].(notificationRead := Some(true))];
      }
    }
  }

  /** Marking the same record read twice is the same as marking it once. */
  lemma MarkReadIdempotent(orders: seq<Order>, tickets: seq<Ticket>, id: int, userId: int)
    ensures OrdersMarkedRead(OrdersMarkedRead(orders, id, userId), id, userId) == OrdersMarkedRead(orders, id, userId)
    ensures TicketsMarkedRead(TicketsMarkedRead(tickets, id, userId), id, userId) == TicketsMarkedRead(tickets, id, userId)
  {
    var i := IndexWhere(orders, IsOwnedOrder(id, userId));
    if i >= 0 {
      IndexWhereAfterUpdate(orders, IsOwnedOrder(id, userId), i, orders[i].(returnNotificationRead := Some(true)));
    }
    var j := IndexWhere(tickets, IsOwnedTicket(id, userId));
    if j >= 0 {
      IndexWhereAfterUpdate(tickets, IsOwnedTicket(id, userId), j, tickets[j].(notificationRead := Some(true)));
    }
  }

  /** With distinct order ids, no order with that id is still due once it is marked read. */
  lemma {:induction false} MarkedOrderNotDue(orders: seq<Order>, id: int, userId: int)
    requires forall i, j :: 0 <= i < |orders| && 0 <= j < |orders| && orders[i].id == orders[j].id ==> i == j
    ensures forall o :: o in OrdersMarkedRead(orders, id, userId) && ReturnDue(o, userId) ==> o.id != id
  {
    var marked := OrdersMarkedRead(orders, id, userId);
    var i := IndexWhere(orders, IsOwnedOrder(id, userId));
    forall o | o in marked && ReturnDue(o, userId) ensures o.id != id {
      var k :| 0 <= k < |marked| && marked[k] == o;
      if i < 0 {
        assert !IsOwnedOrder(id, userId)(orders[k]);
      } else if k != i {
        assert orders[i].id == id && orders[k] == o;
      }
    }
  }

  /** With ids 1..n, no ticket with that id is still due once it is marked read. */
  lemma {:induction false} MarkedTicketNotDue(tickets: seq<Ticket>, id: int, userId: int)
    requires Tickets.SequentialIds(tickets)
    ensures forall t :: t in TicketsMarkedRead(tickets, id, userId) && TicketDue(t, userId) ==> t.id != id
  {
    var marked := TicketsMarkedRead(tickets, id, userId);
    var i := IndexWhere(tickets, IsOwnedTicket(id, userId));
    forall t | t in marked && TicketDue(t, userId) ensures t.id != id {
      var k :| 0 <= k < |marked| && marked[k] == t;
      if i < 0 {
        assert !IsOwnedTicket(id, userId)(tickets[k]);
      } else if k != i {
        assert tickets[i].id == id && tickets[k] == t;
      }
    }
  }

  /** With distinct order ids, marking return `id` read takes `return-<id>` out of the caller's listing. */
  lemma MarkedReturnLeavesListing(orders: seq<Order>, tickets: seq<Ticket>, id: int, userId: int)
    requires forall i, j :: 0 <= i < |orders| && 0 <= j < |orders| && orders[i].id == orders[j].id ==> i == j
    ensures forall n :: n in Unread(OrdersMarkedRead(orders, id, userId), tickets, userId) ==> n.id != ReturnNote(id)
  {
    var marked := OrdersMarkedRead(orders, id, userId);
    MarkedOrderNotDue(orders, id, userId);
    forall n | n in Unread(marked, tickets, userId) ensures n.id != ReturnNote(id) {
      UnreadMembers(marked, tickets, userId, n);
    }
  }

  /** With ids 1..n, marking ticket `id` read takes `ticket-<id>` out of the caller's listing. */
  lemma MarkedTicketLeavesListing(orders: seq<Order>, tickets: seq<Ticket>, id: int, userId: int)
    requires Tickets.SequentialIds(tickets)
    ensures forall n :: n in Unread(orders, TicketsMarkedRead(tickets, id, userId), userId) ==> n.id != TicketNote(id)
  {
    var marked := TicketsMarkedRead(tickets, id, userId);
    MarkedTicketNotDue(tickets, id, userId);
    forall n | n in Unread(orders, marked, userId) ensures n.id != TicketNote(id) {
      UnreadMembers(orders, marked, userId, n);
    }
  }

  /** Once an admin approves a return, its owner's listing announces it, dated `now`. */
  lemma ApprovedReturnIsListed(orders: seq<Order>, tickets: seq<Ticket>, orderId: int, now: int)
    requires Admin.PendingIndex(orders, orderId).Ok?
    ensures var i := Admin.PendingIndex(orders, orderId).value;
      Notification(ReturnNote(orderId), "Return Approved", Some(now)) in
        Unread(orders[i := Admin.Approved(orders[i], now)], tickets, orders[i].userId)
  {
    var i := Admin.PendingIndex(orders, orderId).value;
    var after := orders[i := Admin.Approved(orders[i], now)];
    var o := after[i];
    assert o in after && ReturnDue(o, orders[i].userId);
    UnreadMembers(after, tickets, orders[i].userId, ReturnNoteOf(o));
  }

  /** Once an admin resolves a ticket, its owner's listing announces it, dated `now`. */
  lemma ResolvedTicketIsListed(orders: seq<Order>, tickets: seq<Ticket>, i: int, now: int)
    requires 0 <= i < |tickets|
    ensures Notification(TicketNote(tickets[i].id), "Ticket Resolved", Some(now)) in
      Unread(orders, tickets[i := Admin.Resolved(tickets[i], now)], tickets[i].userId)
  {
    var after := tickets[i := Admin.Resolved(tickets[i], now)];
    var t := after[i];
    assert t in after && TicketDue(t, tickets[i].userId);
    TicketTitles();
    assert TicketNoteOf(t) == Notification(TicketNote(tickets[i].id), "Ticket Resolved", Some(now));
    UnreadMembers(orders, after, tickets[i].userId, TicketNoteOf(t));
  }
}
