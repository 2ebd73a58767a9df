/**
 * The client's store reducer: the cart, the product list, a loading flag and
 * an error. Every action returns a new state; the cart is an array of the
 * product records with a `quantity` added.
 */
module CartReducer {
  import opened Records
  import opened Seqs

  /** `{ ...product, quantity }` */
  datatype CartItem = CartItem(product: Product, quantity: int)

  datatype AppState = AppState(products: seq<Product>, cart: seq<CartItem>, loading: bool, error: Option<string>)

  const InitialState := AppState([], [], false, None)

  datatype Action =
    | AddToCart(item: Product)
    | RemoveFromCart(productId: int)
    | UpdateCartQuantity(productId: int, quantity: int)
    | ClearCart
    | SetProducts(products: seq<Product>)
    | SetLoading(loading: bool)
    | SetError(error: Option<string>)
    | Unknown(kind: string)
  {
    predicate IsCartAction() {
      AddToCart? || RemoveFromCart? || UpdateCartQuantity? || ClearCart?
    }
  }

  function HasItemId(id: int): CartItem -> bool { (c: CartItem) => c.product.id == id }
  function LacksItemId(id: int): CartItem -> bool { (c: CartItem) => c.product.id != id }

  /** `cart.map(item => item.id === id ? { ...item, quantity: item.quantity + 1 } : item)` */
  function Incremented(cart: seq<CartItem>, id: int): (r: seq<CartItem>)
    ensures |r| == |cart|
    ensures forall i :: 0 <= i < |r| ==> r[i].product == cart[i].product
  {
    seq(|cart|, i requires 0 <= i < |cart| =>
      if cart[i].product.id == id then cart[i].(quantity := cart[i].quantity + 1) else cart[i])
  }

  /** `cart.map(item => item.id === id ? { ...item, quantity } : item)` */
  function WithQuantity(cart: seq<CartItem>, id: int, quantity: int): (r: seq<CartItem>)
    ensures |r| == |cart|
    ensures forall i :: 0 <= i < |r| ==> r[i].product == cart[i].product
  {
    seq(|cart|, i requires 0 <= i < |cart| =>
      if cart[i].product.id == id then cart[i].(quantity := quantity) else cart[i])
  }

  /** The reducer. Cart actions leave the other fields alone, the others leave the cart alone. */
  function Reduce(s: AppState, a: Action): (r: AppState)
    ensures a.IsCartAction() ==> r.products == s.products && r.loading == s.loading && r.error == s.error
    ensures !a.IsCartAction() ==> r.cart == s.cart
    ensures a.Unknown? ==> r == s
    ensures a.ClearCart? ==> r.cart == []
  {
    match a
    case AddToCart(item) =>
      if IndexWhere(s.cart, HasItemId(item.id)) >= 0
      then s.(cart := Incremented(s.cart, item.id))
      else s.(cart := s.cart + [CartItem(item, 1)])
    case RemoveFromCart(id) => s.(cart := Filter(s.cart, LacksItemId(id)))
    case UpdateCartQuantity(id, quantity) =>
      if quantity <= 0 then s.(cart := Filter(s.cart, LacksItemId(id)))
      else s.(cart := WithQuantity(s.cart, id, quantity))
    case ClearCart => s.(cart := [])
    case SetProducts(products) => s.(products := products)
    case SetLoading(loading) => s.(loading := loading)
    case SetError(error) => s.(error := error)
    case Unknown(_) => s
  }

  // ---------------------------------------------------------------------
  // The cart invariant
  // ---------------------------------------------------------------------

  predicate DistinctIds(cart: seq<CartItem>) {
    forall i, j :: 0 <= i < j < |cart| ==> cart[i].product.id != cart[j].product.id
  }

  /** What the cart actions keep: one line per product, each with at least one unit. */
  predicate CartValid(cart: seq<CartItem>) {
    DistinctIds(cart) && forall i :: 0 <= i < |cart| ==> cart[i].quantity >= 1
  }

  /** A line whose id no other line has can go in front. */
  lemma ConsDistinct(head: CartItem, rest: seq<CartItem>)
    requires DistinctIds(rest)
    requires forall x :: x in rest ==> x.product.id != head.product.id
    ensures DistinctIds([head] + rest)
  {
    var r := [head] + rest;
    forall i, j | 0 <= i < j < |r| ensures r[i].product.id != r[j].product.id {
      if i == 0 {
        assert r[j] == rest[j - 1] && rest[j - 1] in rest;
      } else {
        assert r[i] == rest[i - 1] && r[j] == rest[j - 1];
      }
    }
  }

  /** Filtering keeps distinct ids distinct. */
  lemma {:induction false} FilterKeepsDistinctIds(cart: seq<CartItem>, p: CartItem -> bool)
    requires DistinctIds(cart)
    ensures DistinctIds(Filter(cart, p))
  {
    if cart != [] {
      var head, tail := cart[0], cart[1..];
      assert DistinctIds(tail) by {
        forall i, j | 0 <= i < j < |tail| ensures tail[i].product.id != tail[j].product.id {
          assert tail[i] == cart[i + 1] && tail[j] == cart[j + 1];
        }
      }
      FilterKeepsDistinctIds(tail, p);
      var rest := Filter(tail, p);
      assert forall x :: x in tail ==> x.product.id != head.product.id by {
        forall x | x in tail ensures x.product.id != head.product.id {
          var m :| 0 <= m < |tail| && tail[m] == x;
          assert cart[m + 1] == x;
        }
      }
      if p(head) {
        assert Filter(cart, p) == [head] + rest;
        ConsDistinct(head, rest);
      } else {
        assert Filter(cart, p) == rest;
      }
    }
  }

  /** Appending a product the cart has no line for, with one unit, keeps the cart valid. */
  lemma AppendKeepsCartValid(cart: seq<CartItem>, item: Product)
    requires CartValid(cart) && IndexWhere(cart, HasItemId(item.id)) < 0
    ensures CartValid(cart + [CartItem(item, 1)])
  {
    var r := cart + [CartItem(item, 1)];
    forall i, j | 0 <= i < j < |r| ensures r[i].product.id != r[j].product.id {
      if j == |cart| {
        assert !HasItemId(item.id)(cart[i]);
      }
    }
  }

  /** Dropping a product's lines keeps the cart valid. */
  lemma DropKeepsCartValid(cart: seq<CartItem>, id: int)
    requires CartValid(cart)
    ensures CartValid(Filter(cart, LacksItemId(id)))
  {
    FilterKeepsDistinctIds(cart, LacksItemId(id));
    var r := Filter(cart, LacksItemId(id));
    forall i | 0 <= i < |r| ensures r[i].quantity >= 1 {
      assert r[i] in cart;
    }
  }

  /** Every action maps a valid cart to a valid cart. */
  lemma ReduceKeepsCartValid(s: AppState, a: Action)
    requires CartValid(s.cart)
    ensures CartValid(Reduce(s, a).cart)
  {
    match a
    case AddToCart(item) =>
      if IndexWhere(s.cart, HasItemId(item.id)) < 0 {
        AppendKeepsCartValid(s.cart, item);
      }
    case RemoveFromCart(id) =>
      DropKeepsCartValid(s.cart, id);
    case UpdateCartQuantity(id, quantity) =>
      if quantity <= 0 {
        DropKeepsCartValid(s.cart, id);
      }
    case ClearCart =>
    case SetProducts(_) =>
    case SetLoading(_) =>
    case SetError(_) =>
    case Unknown(_) =>
  }

  // ---------------------------------------------------------------------
  // The cart as a count per product
  // ---------------------------------------------------------------------

  /** How many units of product `id` the cart holds (the first line with that id; 0 if none). */
  function QuantityOf(cart: seq<CartItem>, id: int): (r: int)
    ensures (forall i :: 0 <= i < |cart| ==> cart[i].product.id != id) ==> r == 0
    ensures CartValid(cart) ==> (r >= 1 <==> exists i :: 0 <= i < |cart| && cart[i].product.id == id)
  {
    var i := IndexWhere(cart, HasItemId(id));
    if i < 0 then 0 else cart[i].quantity
  }

  /** With distinct ids, a line's quantity is the product's count. */
  lemma QuantityOfLine(cart: seq<CartItem>, k: int)
    requires DistinctIds(cart) && 0 <= k < |cart|
    ensures QuantityOf(cart, cart[k].product.id) == cart[k].quantity
  {
    var i := IndexWhere(cart, HasItemId(cart[k].product.id));
    assert i <= k && cart[i].product.id == cart[k].product.id;
  }

  /** ADD_TO_CART adds one unit of the product and no unit of any other. */
  lemma AddToCartCounts(s: AppState, item: Product, id: int)
    ensures QuantityOf(Reduce(s, AddToCart(item)).cart, id) ==
      QuantityOf(s.cart, id) + (if id == item.id then 1 else 0)
  {
    var r := Reduce(s, AddToCart(item)).cart;
    if IndexWhere(s.cart, HasItemId(item.id)) >= 0 {
      IndexWhereAgrees(r, HasItemId(id), s.cart, HasItemId(id));
    } else {
      IndexWhereSnoc(s.cart, CartItem(item, 1), HasItemId(id));
    }
  }

  /** ADD_TO_CART keeps the lines in place: an existing product's line is updated, a new one goes last. */
  lemma AddToCartLines(s: AppState, item: Product)
    ensures var r := Reduce(s, AddToCart(item)).cart;
      if exists i :: 0 <= i < |s.cart| && s.cart[i].product.id == item.id
      then |r| == |s.cart| && forall i :: 0 <= i < |r| ==> r[i].product == s.cart[i].product
      else r == s.cart + [CartItem(item, 1)]
  {
    if i :| 0 <= i < |s.cart| && s.cart[i].product.id == item.id {
      assert HasItemId(item.id)(s.cart[i]);
    }
  }

  /** REMOVE_FROM_CART clears the product's count and no other. */
  lemma RemoveFromCartCounts(s: AppState, productId: int, id: int)
    requires DistinctIds(s.cart)
    ensures QuantityOf(Reduce(s, RemoveFromCart(productId)).cart, id) ==
      if id == productId then 0 else QuantityOf(s.cart, id)
  {
    var r := Reduce(s, RemoveFromCart(productId)).cart;
    FilterKeepsDistinctIds(s.cart, LacksItemId(productId));
    if id == productId {
      forall i | 0 <= i < |r| ensures r[i].product.id != id {
        assert LacksItemId(productId)(r[i]);
      }
    } else if k :| 0 <= k < |s.cart| && s.cart[k].product.id == id {
      QuantityOfLine(s.cart, k);
      assert LacksItemId(productId)(s.cart[k]);
      assert s.cart[k] in r;
      var m :| 0 <= m < |r| && r[m] == s.cart[k];
      QuantityOfLine(r, m);
    } else {
      forall i | 0 <= i < |r| ensures r[i].product.id != id {
        assert r[i] in s.cart;
      }
    }
  }

  /** REMOVE_FROM_CART keeps the other lines in cart order: a line added last stays last. */
  lemma RemoveFromCartAppend(s: AppState, c: CartItem, productId: int)
    ensures Reduce(s.(cart := s.cart + [c]), RemoveFromCart(productId)).cart ==
      Reduce(s, RemoveFromCart(productId)).cart + (if c.product.id != productId then [c] else [])
  {
    FilterAppend(s.cart, [c], LacksItemId(productId));
    FilterCons(c, [], LacksItemId(productId));
    assert [c] + [] == [c];
  }

  /** A product that has no line is not affected by REMOVE_FROM_CART: the cart is returned as it was. */
  lemma RemoveAbsentIsIdentity(s: AppState, productId: int)
    requires forall i :: 0 <= i < |s.cart| ==> s.cart[i].product.id != productId
    ensures Reduce(s, RemoveFromCart(productId)) == s
  {
    FilterKeepsAll(s.cart, LacksItemId(productId));
  }

  /** UPDATE_CART_QUANTITY with a quantity of zero or less is REMOVE_FROM_CART. */
  lemma UpdateToZeroIsRemove(s: AppState, productId: int, quantity: int)
    requires quantity <= 0
    ensures Reduce(s, UpdateCartQuantity(productId, quantity)) == Reduce(s, RemoveFromCart(productId))
  {
  }

  /**
   * UPDATE_CART_QUANTITY with a positive quantity sets the product's count if
   * it has a line, and changes nothing else.
   */
  lemma UpdateCartQuantityCounts(s: AppState, productId: int, quantity: int, id: int)
    requires quantity > 0
    ensures QuantityOf(Reduce(s, UpdateCartQuantity(productId, quantity)).cart, id) ==
      if id == productId && exists i :: 0 <= i < |s.cart| && s.cart[i].product.id == id
      then quantity else QuantityOf(s.cart, id)
  {
    var r := Reduce(s, UpdateCartQuantity(productId, quantity)).cart;
    IndexWhereAgrees(r, HasItemId(id), s.cart, HasItemId(id));
    if i :| 0 <= i < |s.cart| && s.cart[i].product.id == id {
      assert HasItemId(id)(s.cart[i]);
    }
  }

  /** UPDATE_CART_QUANTITY for a product with no line leaves the state as it was. */
  lemma UpdateAbsentIsIdentity(s: AppState, productId: int, quantity: int)
    requires forall i :: 0 <= i < |s.cart| ==> s.cart[i].product.id != productId
    ensures Reduce(s, UpdateCartQuantity(productId, quantity)) == s
  {
    if quantity <= 0 {
      FilterKeepsAll(s.cart, LacksItemId(productId));
    } else {
      assert WithQuantity(s.cart, productId, quantity) == s.cart;
    }
  }

  /** Removing a product that was just added gives the same cart as removing it straight away. */
  lemma {:induction false} AddThenRemove(s: AppState, item: Product)
    ensures Reduce(Reduce(s, AddToCart(item)), RemoveFromCart(item.id)) == Reduce(s, RemoveFromCart(item.id))
  {
    var added := Reduce(s, AddToCart(item));
    if IndexWhere(s.cart, HasItemId(item.id)) >= 0 {
      FilterIgnoresIncrement(s.cart, item.id);
    } else {
      FilterDropsAppended(s.cart, CartItem(item, 1));
    }
    assert Filter(added.cart, LacksItemId(item.id)) == Filter(s.cart, LacksItemId(item.id));
  }

  /** Dropping a product's lines also drops a line for it appended at the end. */
  lemma FilterDropsAppended(cart: seq<CartItem>, line: CartItem)
    ensures Filter(cart + [line], LacksItemId(line.product.id)) == Filter(cart, LacksItemId(line.product.id))
  {
    var keep := LacksItemId(line.product.id);
    FilterAppend(cart, [line], keep);
    assert Filter([line], keep) == [] by {
      assert [line][1..] == [];
    }
    assert Filter(cart, keep) + [] == Filter(cart, keep);
  }

  /** Dropping a product's lines hides whatever was done to them. */
  lemma {:induction false} FilterIgnoresIncrement(cart: seq<CartItem>, id: int)
    ensures Filter(Incremented(cart, id), LacksItemId(id)) == Filter(cart, LacksItemId(id))
  {
    if cart != [] {
      var inc := Incremented(cart, id);
      assert inc[1..] == Incremented(cart[1..], id);
      FilterIgnoresIncrement(cart[1..], id);
    }
  }
}
