/**
 * The records the server keeps in its in-memory arrays, the outcome of a
 * route handler, and the id predicates handed to `find`/`findIndex`.
 *
 * Timestamps are integer milliseconds. A field that a record may lack is an
 * `Option`. Prices and totals are never computed with on the server, so they
 * are kept as opaque `Amount`s.
 */
module Records {

  datatype Option<T> = None | Some(value: T)

  /** A price or an order total, kept as the opaque value the client sent. */
  datatype Amount = Amount(text: string)

  /** One line of an order: a product id, its name and price, and how many. */
  datatype Item = Item(id: int, name: string, price: Amount, quantity: int)

  datatype Order = Order(
    id: int,
    userId: int,
    items: seq<Item>,
    total: Amount,
    date: int,
    shippingAddress: Option<string>,
    paymentInfo: Option<string>,
    returnStatus: Option<string>,
    returnRequestDate: Option<int>,
    returnReason: Option<string>,
    returnDate: Option<int>,
    returnRejectedDate: Option<int>,
    returnNotificationRead: Option<bool>)

  datatype Product = Product(id: int, name: string, price: Amount, description: string, stock: int)

  datatype Ticket = Ticket(
    id: int,
    userId: int,
    subject: string,
    description: string,
    status: string,
    createdAt: int,
    resolvedAt: Option<int>,
    closedAt: Option<int>,
    notificationRead: Option<bool>)

  datatype User = User(
    id: int,
    username: string,
    password: string,
    email: Option<string>,
    address: Option<string>,
    phone: Option<string>)

  datatype Review = Review(id: int, productId: int, userId: int, rating: int, comment: string, date: int)

  // The values of an order's `returnStatus` that the handlers test for.
  const ReturnPending := "pending"
  const ReturnReturned := "returned"
  const ReturnRejected := "rejected"

  // The values of a ticket's `status`.
  const TicketOpen := "Open"
  const TicketResolved := "Resolved"
  const TicketClosed := "Closed"

  /** Why a request was answered 400. */
  datatype Reason =
    | InsufficientStock(itemName: string)
    | NotPending
    | MissingFields
    | NegativeStock
    | InvalidUsername
    | InvalidPassword
    | UserExists
    | InvalidCredentials
    | OldPasswordIncorrect
    | InvalidNewPassword

  /** The error answers of the handlers: 404, 403 and 400 with its reason. */
  datatype Failure = NotFound | Forbidden | BadRequest(reason: Reason)

  datatype Result<T> = Ok(value: T) | Err(failure: Failure)

  function HasOrderId(id: int): Order -> bool { (o: Order) => o.id == id }
  function IsOwnedOrder(id: int, userId: int): Order -> bool { (o: Order) => o.id == id && o.userId == userId }
  function IsUsersOrder(userId: int): Order -> bool { (o: Order) => o.userId == userId }
  function HasProductId(id: int): Product -> bool { (p: Product) => p.id == id }
  function HasTicketId(id: int): Ticket -> bool { (t: Ticket) => t.id == id }
  function IsOwnedTicket(id: int, userId: int): Ticket -> bool { (t: Ticket) => t.id == id && t.userId == userId }
  function IsUsersTicket(userId: int): Ticket -> bool { (t: Ticket) => t.userId == userId }
  function HasUserId(id: int): User -> bool { (u: User) => u.id == id }
  function HasUsername(name: string): User -> bool { (u: User) => u.username == name }
}
