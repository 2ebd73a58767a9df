/**
 * The server's datastore: the module-level arrays that every route file
 * `require`s and changes in place. Each array is a field that the handlers
 * reassign.
 */
module Db {
  import opened Records

  class Store {
    var orders: seq<Order>
    var products: seq<Product>
    var tickets: seq<Ticket>
    var users: seq<User>
    var reviews: seq<Review>

    /** The arrays as the model files seed them when the server starts. */
    constructor (orders: seq<Order>, products: seq<Product>, tickets: seq<Ticket>,
                 users: seq<User>, reviews: seq<Review>)
      ensures this.orders == orders && this.products == products && this.tickets == tickets
      ensures this.users == users && this.reviews == reviews
    {
      this.orders := orders;
      this.products := products;
      this.tickets := tickets;
      this.users := users;
      this.reviews := reviews;
    }
  }
}
