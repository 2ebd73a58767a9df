/**
 * The review routes: everyone signed in can read all reviews, each shown with
 * its author's username; a user may post a review only for a product that
 * appears in one of their orders.
 */
module Reviews {
  import opened Records
  import opened Seqs
  import Orders
  import Db

  /** A stored review as GET /reviews sends it: the record plus a username. */
  datatype ReviewView = ReviewView(review: Review, username: string)

  /** The username of the first user with that id, or "Anonymous" when there is none. */
  function UsernameFor(users: seq<User>, userId: int): (r: string)
    ensures (forall u :: u in users ==> u.id != userId) ==> r == "Anonymous"
    ensures (exists u :: u in users && u.id == userId) ==>
      exists i :: 0 <= i < |users| && users[i].id == userId && r == users[i].username &&
        forall j :: 0 <= j < i ==> users[j].id != userId
  {
    var i := IndexWhere(users, HasUserId(userId));
    if i < 0 then "Anonymous" else users[i].username
  }

  /** GET /reviews: every stored review, in stored order, with its author's username. */
  function WithUsernames(reviews: seq<Review>, users: seq<User>): (r: seq<ReviewView>)
    ensures |r| == |reviews|
    ensures forall i :: 0 <= i < |r| ==> r[i].review == reviews[i] && r[i].username == UsernameFor(users, reviews[i].userId)
  {
    seq(|reviews|, i requires 0 <= i < |reviews| => ReviewView(reviews[i], UsernameFor(users, reviews[i].userId)))
  }

  /** Whether some order of the user has a line for the product. */
  predicate HasPurchased(orders: seq<Order>, userId: int, productId: int) {
    exists o :: o in orders && o.userId == userId && exists item :: item in o.items && item.id == productId
  }

  /**
   * POST /reviews: 403 with no change unless the caller has purchased the
   * product; otherwise append the review with id `reviews.length + 1`.
   * Neither the rating nor a repeat review by the same user is checked.
   */
  method Create(st: Db.Store, userId: int, productId: int, rating: int, comment: string, now: int)
    returns (r: Result<Review>)
    modifies st`reviews
    ensures !HasPurchased(st.orders, userId, productId) ==>
      r == Err(Forbidden) && st.reviews == old(st.reviews)
    ensures HasPurchased(st.orders, userId, productId) ==>
      && r == Ok(Review(|old(st.reviews)| + 1, productId, userId, rating, comment, now))
      && st.reviews == old(st.reviews) + [r.value]
  {
    if !HasPurchased(st.orders, userId, productId) {
      return Err(Forbidden);
    }
    var review := Review(|st.reviews| + 1, productId, userId, rating, comment, now);
    st.reviews := st.reviews + [review];
    r := Ok(review);
  }

  /** A checkout that includes the product lets its buyer review it. */
  lemma CheckoutQualifies(orders: seq<Order>, userId: int, items: seq<Item>, total: Amount, now: int, productId: int)
    requires exists item :: item in items && item.id == productId
    ensures HasPurchased(orders + [Orders.NewOrder(|orders| + 1, userId, items, total, now)], userId, productId)
  {
    var o := Orders.NewOrder(|orders| + 1, userId, items, total, now);
    assert o in orders + [o];
  }

  /**
   * The check looks only at owner and items: an order whose return was
   * approved or rejected still qualifies, and any rewrite of an order that
   * keeps those two fields gives the same verdict.
   */
  lemma {:induction false} PurchaseCheckIgnoresReturnStatus(orders: seq<Order>, i: int, o: Order, userId: int, productId: int)
    requires 0 <= i < |orders|
    requires o.userId == orders[i].userId && o.items == orders[i].items
    ensures HasPurchased(orders[i := o], userId, productId) == HasPurchased(orders, userId, productId)
  {
    var after := orders[i := o];
    if HasPurchased(orders, userId, productId) {
      var w :| w in orders && w.userId == userId && exists item :: item in w.items && item.id == productId;
      var k :| 0 <= k < |orders| && orders[k] == w;
      assert after[k] in after && after[k].userId == userId && after[k].items == w.items;
    }
    if HasPurchased(after, userId, productId) {
      var w :| w in after && w.userId == userId && exists item :: item in w.items && item.id == productId;
      var k :| 0 <= k < |after| && after[k] == w;
      assert orders[k] in orders && orders[k].userId == userId && orders[k].items == w.items;
    }
  }
}
