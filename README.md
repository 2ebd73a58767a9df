# Autowiseparts, modelled in Dafny

Autowiseparts is a small auto-parts shop. The Express server keeps all of its
data in five in-memory arrays: orders, products, tickets, users and reviews.
Its route handlers read and rewrite those arrays in place. The React client
keeps a cart in a reducer and decides on the order page whether a return may
be requested.

This project models those handlers and the two client pieces, and proves what
they promise.

- The server's datastore is the class `Db.Store`, with one `seq` field per
  array. Every handler that changes the store is a method with a
  field-granular `modifies` clause (for example ``modifies st`orders,
  st`products``). Each is proved against a function on sequences, and lemmas
  state what those functions guarantee.
- JavaScript's `find`/`findIndex` is the loop `Seqs.FindIndex`, proved equal
  to the function `Seqs.IndexWhere` (the first match, or -1). `filter` is
  `Seqs.Filter`.
- The stock loop is `Stock.Apply`, proved equal to the fold `Stock.Adjusted`.
  Checkout takes each line's quantity away; return approval puts
  `quantity || 1` back. `Stock.AdjustedAt` gives the closed form: each product
  that is the first with its id moves by the net amount its lines ask for.
- Each handler's result is `Result<T>`: either `Ok(value)` or
  `Err(NotFound | Forbidden | BadRequest(reason))`. These stand for 404, 403
  and 400. The caller's id, which the server takes from the signed token, is a
  parameter. So is the clock (`now`, in integer milliseconds).
- Module layout follows the source: `Orders`, `Admin`, `Notifications`,
  `Reviews`, `Tickets` and `Users` for the route files, `CartReducer` for the
  store reducer and `OrderDetail` for the order page. The helper modules are
  `Records` (the record types), `Seqs`, `Db` and `Stock`.

Where the documented behaviour of the application and the code disagree, the
model follows the code:

- A decided return (`returned`/`rejected`) is described as terminal. Approve
  and reject do refuse it (`Admin.DecisionIsFinal`). But the owner's
  `PUT /orders/:id` merges any body, so it can set the status back to
  `pending` (`Admin.UpdateReopensDecidedReturn`).
- Ticket states are described as terminal once resolved or closed. Resolve
  and close overwrite any prior status, including each other's.
- Review ratings are described as lying in 1 to 5. Nothing checks them.
- An insufficient-stock error is described as carrying the remaining stock. The
  message carries only the item's name.

The `server/app.js` mounts the users, products, orders, reviews, payments
and tickets routers (`server/app.js:43-48`), but not the admin or the
notifications router. The handlers of `server/routes/admin.js` and
`server/routes/notifications.js` are modelled as written, but as shown the
server cannot reach them.

## Model

| member | source | states |
|---|---|---|
| Seqs.IndexWhere | server/routes/orders.js:18 | the result is -1 exactly when no element matches, and otherwise the index of the first match |
| Seqs.FindIndex | server/routes/orders.js:62 | the `findIndex` scan returns exactly `IndexWhere` |
| Seqs.IndexWhereAfterUpdate | server/routes/notifications.js:66 | overwriting the first match with a record that still matches keeps it the first match |
| Seqs.FilterCons | server/routes/orders.js:10 | one step of `filter`: the head is kept exactly when it passes, ahead of the filtered rest |
| Seqs.FilterAppend | server/routes/orders.js:10 | `filter` distributes over concatenation, so stored order is kept |
| Stock.RestoreQuantity | server/routes/admin.js:58 | `quantity \|\| 1`: a quantity of 0 restocks exactly one unit, any other quantity restocks itself, so the amount is never 0 |
| Stock.Adjust | server/routes/orders.js:49-52 | one loop step keeps the number of products and every product id |
| Stock.Adjusted | server/routes/orders.js:48-53 | running the loop over any number of items keeps the number of products and every product id in place |
| Stock.AdjustedAt | server/routes/orders.js:48-53 | after the loop, each product that is the first with its id has `stock` moved by the net change its lines ask for; all other fields and all shadowed products are unchanged |
| Stock.NetDeltaUnnamed | server/routes/orders.js:48-53 | lines that never name a product ask for no change on it |
| Stock.NetDeltaSingle | server/routes/orders.js:48-53 | when exactly one line names a product, its change is that line's alone |
| Stock.AdjustedSnoc | server/routes/orders.js:48-53 | one more item runs one more step of the loop |
| Stock.ApplyOne | server/routes/orders.js:49-52 | one iteration rewrites `products` to `Adjust` of the old array |
| Stock.Apply | server/routes/admin.js:55-61 | the whole loop leaves `products` equal to `Adjusted(old products, items, move)` |
| Orders.ListFor | server/routes/orders.js:10 | the listing holds exactly the caller's orders, each as often as stored |
| Orders.ListForAppend | server/routes/orders.js:10 | the listing keeps stored order: a later order of the caller is listed last |
| Orders.Get | server/routes/orders.js:18-23 | an order is returned exactly when one matches both id and owner; it is the first such order in stored order |
| Orders.Create | server/routes/orders.js:31-53 | if any line is short (product missing or stock below quantity), the first short line's name is reported and nothing changes; otherwise one order with id length + 1, the caller, the items and the total is appended, and stock becomes `Adjusted(old, items, Sale)` |
| Orders.SaleLeavesUnnamedProducts | server/routes/orders.js:48-53 | a product no line names is unchanged by checkout |
| Orders.DistinctLinesNeverOversell | server/routes/orders.js:31-36 | when the check passes and lines name distinct products, no non-negative stock goes below zero |
| Orders.DuplicateLinesCanOversell | server/routes/orders.js:31-53 | two lines of one unit each for a product with one unit both pass the check, and stock ends at -1 |
| Orders.Merge | server/routes/orders.js:64 | every field the body sends replaces the order's and every field it leaves out keeps the order's value, the id, owner, lines and return fields included; an empty body changes nothing |
| Orders.MergeLaws | server/routes/orders.js:64 | merging the same body twice equals merging it once |
| Orders.AddressOnlyUpdate | server/routes/orders.js:64 | a body carrying only a shipping address changes the address and nothing else, so return status, dates and read flag survive |
| Orders.Update | server/routes/orders.js:62-68 | NotFound with no change unless an order matches id and owner; otherwise the body is merged over the first match and that order is returned |
| Orders.Delete | server/routes/orders.js:75-81 | NotFound with no change, or exactly the first match is spliced out; stock is not in the frame |
| Orders.NewIdCanRepeatAfterDelete | server/routes/orders.js:39 | after deleting order 1 of [1, 2], the next id `length + 1` is 2 again |
| Admin.IsAdmin | server/routes/admin.js:11-14 | the gate passes exactly when the first user with the caller's id is named "admin" |
| Admin.RequireAdmin | server/routes/admin.js:10-16 | the middleware's scan answers exactly `IsAdmin` |
| Admin.PendingReturns | server/routes/admin.js:23 | Forbidden exactly for non-admins; otherwise exactly the orders whose status is "pending", with their multiplicities |
| Admin.PendingReturnsAppend | server/routes/admin.js:23 | the listing keeps stored order: a later pending return is listed last, any other order is not listed |
| Admin.AllTickets | server/routes/admin.js:29 | Forbidden exactly for non-admins; otherwise every ticket |
| Admin.PendingIndex | server/routes/admin.js:35-44 | NotFound exactly when no order has the id; success exactly when the first order with the id is pending, and then it is that order; otherwise "not pending" |
| Admin.CheckReturn | server/routes/admin.js:33-44 | the gate, lookup and pending check, as code, agree with `IsAdmin` and `PendingIndex` |
| Admin.ApproveReturn | server/routes/admin.js:33-63 | on any refusal nothing changes; on success the order becomes returned (dated, flagged unread) and stock becomes `Adjusted(old, items, Restock)` |
| Admin.RejectReturn | server/routes/admin.js:67-88 | on any refusal nothing changes; on success only the order changes: rejected, dated, flagged unread; stock is not in the frame |
| Admin.DecisionIsFinal | server/routes/admin.js:42-44 | after approve or reject, a second approve or reject of that id answers "not pending" |
| Admin.UpdateReopensDecidedReturn | server/routes/orders.js:64 | the owner's merge of `returnStatus: "pending"` over an approved order makes approve accept it again |
| Admin.ApprovalRestocksExample | server/routes/admin.js:55-61 | approving two units of a product with 5 in stock leaves 7 |
| Admin.NextProductId | server/routes/admin.js:100 | the new id is above every existing id: max + 1, or 1 for an empty catalogue |
| Admin.AddProductKeepsIdsDistinct | server/routes/admin.js:100 | with that id, adding a product keeps product ids distinct |
| Admin.AddProduct | server/routes/admin.js:92-108 | Forbidden or MissingFields with no change when name, price or description is falsy or stock is absent; otherwise one product is appended with the next id |
| Admin.UpdateStock | server/routes/admin.js:112-127 | NotFound, then NegativeStock, each with no change; otherwise only that product's stock is set |
| Admin.DeleteProduct | server/routes/admin.js:130-140 | NotFound with no change, or exactly the first product with the id is spliced out |
| Admin.ResolveTicket | server/routes/admin.js:143-159 | NotFound with no change, or the first ticket with the id becomes Resolved (dated, flagged unread) whatever its status was |
| Admin.CloseTicket | server/routes/admin.js:162-178 | NotFound with no change, or the first ticket with the id becomes Closed (dated, flagged unread) whatever its status was |
| Tickets.Create | server/routes/tickets.js:6-17 | exactly one Open ticket with id length + 1, the caller, and the subject and description as sent is appended |
| Tickets.ListFor | server/routes/tickets.js:23 | exactly the caller's tickets, each as often as stored |
| Tickets.ListForAppend | server/routes/tickets.js:23 | the listing keeps stored order: a later ticket of the caller is listed last |
| Tickets.IdsStaySequential | server/routes/tickets.js:9-16 | appending id n + 1, or rewriting one ticket with its id kept, keeps ids 1..n |
| Notifications.Insert | server/routes/notifications.js:51 | inserting adds exactly one entry and loses none |
| Notifications.InsertSorted | server/routes/notifications.js:51 | inserting into a newest-first list keeps it newest first |
| Notifications.SortNewestFirst | server/routes/notifications.js:51 | the sort is a permutation and its result is newest first |
| Notifications.InsertKeepsTies | server/routes/notifications.js:51 | an inserted entry goes ahead of every entry of its own date, and the entries of each date otherwise keep their order |
| Notifications.SortKeepsTies | server/routes/notifications.js:51 | the sort is stable: for every date, the entries of that date come out in the order they went in |
| Notifications.ReturnNotesMembers | server/routes/notifications.js:13-29 | a return entry is listed exactly for an order of the caller that is returned or rejected and flagged unread (an absent flag does not count) |
| Notifications.TicketNotesMembers | server/routes/notifications.js:32-48 | a ticket entry is listed exactly for a ticket of the caller that is Resolved or Closed and flagged unread |
| Notifications.Unread | server/routes/notifications.js:8-54 | the listing is newest first and is a permutation of the due orders' notes followed by the due tickets' notes, so each appears as often as its record |
| Notifications.UnreadKeepsTies | server/routes/notifications.js:8-54 | among entries of equal date, the caller's returns come first in stored order, then the caller's tickets in stored order |
| Notifications.UnreadMembers | server/routes/notifications.js:13-48 | an entry is listed exactly when it is the note of a due order or a due ticket |
| Notifications.ReturnEntryFields | server/routes/notifications.js:19-29 | a listed return entry is "Return Approved" dated by `returnDate`, or "Return Rejected" dated by `returnRejectedDate` |
| Notifications.TicketEntryFields | server/routes/notifications.js:38-47 | a listed ticket entry is "Ticket Resolved" dated by `resolvedAt`, or "Ticket Closed" dated by `closedAt` |
| Notifications.OrdersMarkedRead | server/routes/notifications.js:61-67 | the same number of orders; only the first of the caller's orders with the id changes, and only its read flag becomes true |
| Notifications.TicketsMarkedRead | server/routes/notifications.js:68-74 | the same number of tickets; only the first of the caller's tickets with the id changes, and only its read flag becomes true |
| Notifications.MarkRead | server/routes/notifications.js:57-78 | "return" flags the first order matching id and owner, "ticket" the first such ticket, and any other type changes nothing |
| Notifications.MarkReadIdempotent | server/routes/notifications.js:61-74 | marking the same record twice equals marking it once |
| Notifications.MarkedOrderNotDue | server/routes/notifications.js:61-67 | with distinct order ids, once an order id is marked read no order of the caller with that id is still due |
| Notifications.MarkedTicketNotDue | server/routes/notifications.js:68-74 | with ticket ids 1..n, once a ticket id is marked read no ticket of the caller with that id is still due |
| Notifications.MarkedReturnLeavesListing | server/routes/notifications.js:61-67 | with distinct order ids, after marking return X no entry `return-X` is listed |
| Notifications.MarkedTicketLeavesListing | server/routes/notifications.js:68-74 | with ticket ids 1..n, after marking ticket X no entry `ticket-X` is listed |
| Notifications.ApprovedReturnIsListed | server/routes/admin.js:47-52 | after approval, the owner's listing holds "Return Approved" dated at the approval |
| Notifications.ResolvedTicketIsListed | server/routes/admin.js:151-156 | after resolving, the owner's listing holds "Ticket Resolved" dated at the resolution |
| Reviews.UsernameFor | server/routes/reviews.js:11-14 | the first user with the id gives the username; "Anonymous" when there is none |
| Reviews.WithUsernames | server/routes/reviews.js:10-17 | the same number of reviews in the same order, each with its looked-up username |
| Reviews.Create | server/routes/reviews.js:21-42 | Forbidden with no change unless some order of the caller has a line for the product; otherwise one review with id length + 1 is appended; rating and earlier reviews play no part |
| Reviews.CheckoutQualifies | server/routes/reviews.js:25-27 | a checkout containing the product lets its buyer review it |
| Reviews.PurchaseCheckIgnoresReturnStatus | server/routes/reviews.js:25-27 | rewriting an order with owner and items kept, such as a return decision, leaves the check's verdict unchanged |
| Users.ValidUsername | server/routes/users.js:13 | a name the pattern accepts is 6 to 20 characters on one line |
| Users.ValidPassword | server/routes/users.js:16 | a password the pattern accepts, from any start position, meets the worded rule: 8 characters and a digit, lower-case, upper-case and special character |
| Users.PasswordPatternOnOneLine | server/routes/users.js:16 | on text without line terminators the pattern holds exactly when there are at least 8 characters and an ASCII digit, lower-case letter, upper-case letter and a character outside `[a-zA-Z0-9]` |
| Users.LineBreakSplitsPassword | server/routes/users.js:16 | "Ab1!", a line feed, then "abcdefgh" meets the worded rule but fails the pattern |
| Users.RegisterCheck | server/routes/users.js:13-24 | registration passes exactly when the username and password match and the username is free; the username check comes first, then the password, then the duplicate |
| Users.Register | server/routes/users.js:9-33 | on a refused check nothing changes; otherwise one user with id length + 1 is appended |
| Users.RegisterKeepsUsernamesUnique | server/routes/users.js:21-33 | a registration that passes keeps usernames unique |
| Users.Login | server/routes/users.js:55-65 | success gives a stored user with that username and password; both failures give the same "invalid credentials" |
| Users.LoginIff | server/routes/users.js:58-64 | with unique usernames, login succeeds exactly when a stored user has that username and password |
| Users.RegisterThenLogin | server/routes/users.js:58-64 | after registering, logging in with the same credentials returns the new user |
| Users.ProfileOf | server/routes/users.js:87-97 | NotFound exactly when no user has the caller's id; otherwise the fields of the first user with that id, without the password |
| Users.ProfileHidesPassword | server/routes/users.js:92-93 | changing a password changes no profile |
| Users.ProfileUpdated | server/routes/users.js:104-111 | NotFound exactly when no user has the caller's id |
| Users.UpdateProfile | server/routes/users.js:100-112 | NotFound with no change, or the users array becomes `ProfileUpdated` |
| Users.ProfileUpdateRoundTrip | server/routes/users.js:104-111 | the first user with the caller's id gets the new email, address and phone and keeps id, username and password; every other record, same id or not, is unchanged; the next profile read shows the new fields |
| Users.ProfileUpdateKeepsLogins | server/routes/users.js:104-111 | every login succeeds afterwards exactly when it did before, and unique usernames stay unique |
| Users.PasswordChanged | server/routes/users.js:119-136 | a refusal is NotFound, a wrong old password or an invalid new one; an accepted change keeps the number of users, is for a stored user with the caller's id whose password was the old one, and the new password meets the worded rule |
| Users.ChangePassword | server/routes/users.js:115-137 | on a refusal nothing changes; otherwise the users array becomes `PasswordChanged` |
| Users.PasswordChangeChecks | server/routes/users.js:119-133 | NotFound exactly when no user has the id; for the first user with it, a wrong old password is refused as such whatever the new one is, a right old password with an invalid new one is refused as an invalid new password, and success is exactly when both checks pass |
| Users.PasswordChangeRoundTrip | server/routes/users.js:135 | only that user's password changes and every other user is unchanged; the new password logs in, a different old one does not, and the profile and username uniqueness are unchanged |
| Users.NewPasswordLogsIn | server/routes/users.js:135 | with unique usernames, after one user's password is set, logging in under that name with the new password returns that user and with any other password fails; usernames stay unique |
| CartReducer.Reduce | client/src/store/reducers.js:11-55 | cart actions touch only the cart, other actions leave the cart alone, CLEAR_CART empties it, and an unknown action returns the state unchanged |
| CartReducer.ReduceKeepsCartValid | client/src/store/reducers.js:13-43 | every action keeps product ids in the cart distinct and every quantity at least 1 |
| CartReducer.QuantityOf | client/src/store/reducers.js:14 | 0 for a product with no line; in a valid cart, positive exactly when the product has a line |
| CartReducer.AddToCartCounts | client/src/store/reducers.js:14-29 | ADD_TO_CART adds one unit of the product and none of any other |
| CartReducer.AddToCartLines | client/src/store/reducers.js:14-29 | for a product already present, lines stay in place with the same products; otherwise the product is appended with quantity 1 |
| CartReducer.RemoveFromCartCounts | client/src/store/reducers.js:31 | REMOVE_FROM_CART sets the product's count to 0 and keeps every other count |
| CartReducer.RemoveFromCartAppend | client/src/store/reducers.js:31 | REMOVE_FROM_CART keeps the remaining lines in cart order: a last line stays last unless it is the removed product |
| CartReducer.RemoveAbsentIsIdentity | client/src/store/reducers.js:31 | removing a product with no line returns the state unchanged |
| CartReducer.UpdateToZeroIsRemove | client/src/store/reducers.js:33-35 | an update to a quantity of 0 or less is REMOVE_FROM_CART |
| CartReducer.UpdateCartQuantityCounts | client/src/store/reducers.js:36-43 | a positive update sets the product's count if it has a line and keeps every other count |
| CartReducer.UpdateAbsentIsIdentity | client/src/store/reducers.js:33-43 | updating a product with no line returns the state unchanged |
| CartReducer.AddThenRemove | client/src/store/reducers.js:13-31 | adding then removing a product equals removing it straight away |
| OrderDetail.IsReturnEligible | client/src/components/OrderDetail.js:30-35 | the window is open exactly when less than 31 full days have passed |
| OrderDetail.WindowBoundary | client/src/components/OrderDetail.js:33-34 | 30 days and any part of a day is eligible; 31 full days is not |
| OrderDetail.WindowStaysClosed | client/src/components/OrderDetail.js:33-34 | once ineligible, an order stays ineligible at every later time |
| OrderDetail.FutureOrderEligible | client/src/components/OrderDetail.js:33-34 | an order dated in the future is eligible |
| OrderDetail.StatusLabel | client/src/components/OrderDetail.js:84-87 | "Returned" exactly for `returned`, "Return Pending" exactly for `pending`, and "Completed" otherwise, including rejected or absent |
| OrderDetail.PanelFor | client/src/components/OrderDetail.js:89-125 | the returned and pending notices show exactly for the "Returned" and "Return Pending" labels; a return is offered exactly for a "Completed" order inside the window, and the expiry notice for one outside it; so a rejected return can be requested again |
| OrderDetail.TrimEmptyIffBlank | client/src/components/OrderDetail.js:38 | `trim` leaves nothing exactly when every character is ECMAScript white space or a line terminator |
| OrderDetail.SubmitReturnRequest | client/src/components/OrderDetail.js:37-50 | a blank reason raises the alert; otherwise a dismissed dialog cancels and a confirmed one sends the request, carrying the reason untrimmed |
| OrderDetail.WhitespaceReasonRefused | client/src/components/OrderDetail.js:38-41 | a reason of spaces, a line feed, a tab and an ideographic space raises the alert |

## Left out

- Authentication: JWT signing and checking and the `auth` middleware are left out. The caller's id is a parameter of each handler.
- The Express layer, status codes, JSON bodies and response messages are not modelled. Outcomes are the `Result` datatype.
- Types of request fields are not modelled: a field sent with the wrong JSON type, or as `null`, is outside the model. For example, a username that is not a string is turned into text by `RegExp.test`, and a `productId` sent as a string never equals a numeric item id. Every field has the type it is meant to have.
- `parseInt`/`parseFloat` of path and body values are not modelled. Ids and stock are integers, and a price is kept as an opaque `Amount`.
- Orders.Create: a line without a `quantity` is not modelled. There the check compares against `undefined` and the decrement writes `NaN` into stock. Every item carries an integer quantity.
- Admin.UpdateStock: a body without `stock` is not modelled. It passes the `stock < 0` check and stores `NaN`.
- Admin.AddProduct: a price that is present but falsy is passed in as `None`, the same as a missing one. In JSON that is `0`, `""`, `false` or `null`; the admin form sends `null` for an empty price box, because `parseFloat("")` is `NaN` and JSON writes `NaN` as `null`. The `parseFloat` of the stored price is not modelled.
- Admin.AddProduct: a `stock` sent as `null` is not modelled. The admin form sends it for an empty stock box (`parseInt("")` is `NaN`, written as `null`). It passes the `stock === undefined` check, and `parseInt(null)` stores `NaN`. In the model `stock` is either absent (`None`) or an integer.
- Dates: ISO strings and `new Date` parsing are left out. Timestamps are integer milliseconds and `now` is a parameter.
- OrderDetail.IsReturnEligible: the difference is divided exactly. Floating-point division is not modelled; for realistic dates it rounds down to the same whole day count. An unparseable date, which gives `NaN` and refuses the return, is not modelled.
- Notifications.SortNewestFirst: an entry with no date is placed last and the dated entries are newest first. In JavaScript the comparator returns `NaN` for an undated entry, which the sort treats as "equal" to every other entry. The comparator is then inconsistent, so the order of the whole listing is implementation-defined, and the dated entries need not come out newest first either. The model states the order the listing is evidently meant to have.
- Notifications.Unread: the `message`, `link` and `type` texts of each entry are left out. Only the id, title and date are modelled.
- Users.ValidPassword: lengths count Unicode characters. JavaScript counts UTF-16 code units, so the two differ only for characters outside the Basic Multilingual Plane.
- The return-request endpoint (`POST /orders/:id/return`) is not part of this model. The order page posts to it, but no such handler exists in `server/routes/orders.js`.
- The seed data in `server/models` is not part of this model. The store's constructor takes any initial arrays.
- Concurrency is not modelled. Requests run one at a time, one handler call each.
- The React components' rendering, hooks, alerts and local storage are left out, apart from the decisions modelled in `OrderDetail`. The client validators in `Register.js` and `Profile.js` repeat the server's patterns and are modelled once, in `Users`.
