/**
 * The stock loop that checkout and return approval both run: for each line
 * item in order, find the first product with the item's id and, if there is
 * one, add a signed amount to its `stock`. Items whose product is missing are
 * skipped.
 */
module Stock {
  import opened Records
  import opened Seqs
  import Db

  /** Checkout takes stock away; an approved return puts it back. */
  datatype StockMove = Sale | Restock

  /** `item.quantity || 1`: a quantity of 0 counts as one unit. */
  function RestoreQuantity(quantity: int): (r: int)
    ensures r != 0
    ensures quantity == 0 ==> r == 1
    ensures quantity != 0 ==> r == quantity
  {
    if quantity == 0 then 1 else quantity
  }

  /** The change one item makes to its product's stock. */
  function Delta(m: StockMove, item: Item): int {
    match m
    case Sale => -item.quantity
    case Restock => RestoreQuantity(item.quantity)
  }

  /** One step of the loop: adjust the first product whose id is the item's. */
  function Adjust(products: seq<Product>, item: Item, m: StockMove): (r: seq<Product>)
    ensures |r| == |products|
    ensures forall k :: 0 <= k < |r| ==> r[k].id == products[k].id
  {
    var i := IndexWhere(products, HasProductId(item.id));
    if i < 0 then products
    else products[i := products[i].(stock := products[i].stock + Delta(m, item))]
  }

  /** The whole loop, items taken left to right. */
  function Adjusted(products: seq<Product>, items: seq<Item>, m: StockMove): (r: seq<Product>)
    ensures |r| == |products|
    ensures forall k :: 0 <= k < |r| ==> r[k].id == products[k].id
  {
    if items == [] then products
    else Adjust(Adjusted(products, items[..|items| - 1], m), items[|items| - 1], m)
  }

  /** The total change that `items` ask for on the product with id `id`. */
  function NetDelta(items: seq<Item>, id: int, m: StockMove): int {
    if items == [] then 0
    else
      var last := items[|items| - 1];
      NetDelta(items[..|items| - 1], id, m) + (if last.id == id then Delta(m, last) else 0)
  }

  /** Whether `products[k]` is the product a `findIndex` on its id lands on. */
  predicate IsFirstWithId(products: seq<Product>, k: int)
    requires 0 <= k < |products|
  {
    IndexWhere(products, HasProductId(products[k].id)) == k
  }

  /**
   * After the loop, each product that is the first one with its id has moved by
   * the net change its items ask for; every other field, and every other product
   * (one shadowed by an earlier product with the same id), is as it was.
   */
  lemma {:induction false} AdjustedAt(products: seq<Product>, items: seq<Item>, m: StockMove, k: int)
    requires 0 <= k < |products|
    ensures Adjusted(products, items, m)[k] ==
      products[k].(stock := products[k].stock +
        (if IsFirstWithId(products, k) then NetDelta(items, products[k].id, m) else 0))
  {
    if items != [] {
      var prefix, last := items[..|items| - 1], items[|items| - 1];
      var before := Adjusted(products, prefix, m);
      AdjustedAt(products, prefix, m, k);
      IndexWhereAgrees(before, HasProductId(last.id), products, HasProductId(last.id));
      IndexWhereAgrees(products, HasProductId(products[k].id), before, HasProductId(products[k].id));
    }
  }

  /** Items that never name `id` ask for no change on it. */
  lemma {:induction false} NetDeltaUnnamed(items: seq<Item>, id: int, m: StockMove)
    requires forall j :: 0 <= j < |items| ==> items[j].id != id
    ensures NetDelta(items, id, m) == 0
  {
    if items != [] {
      NetDeltaUnnamed(items[..|items| - 1], id, m);
    }
  }

  /** When exactly one item names `id`, the change on it is that item's alone. */
  lemma {:induction false} NetDeltaSingle(items: seq<Item>, id: int, m: StockMove, j: int)
    requires 0 <= j < |items| && items[j].id == id
    requires forall i :: 0 <= i < |items| && i != j ==> items[i].id != id
    ensures NetDelta(items, id, m) == Delta(m, items[j])
  {
    var prefix := items[..|items| - 1];
    if j == |items| - 1 {
      NetDeltaUnnamed(prefix, id, m);
    } else {
      NetDeltaSingle(prefix, id, m, j);
    }
  }

  /** Taking one more item runs one more step of the loop. */
  lemma AdjustedSnoc(products: seq<Product>, items: seq<Item>, item: Item, m: StockMove)
    ensures Adjusted(products, items + [item], m) == Adjust(Adjusted(products, items, m), item, m)
  {
    assert (items + [item])[..|items|] == items;
  }

  /** One iteration of the loop, on the store's `products` array. */
  method ApplyOne(st: Db.Store, item: Item, m: StockMove)
    modifies st`products
    ensures st.products == Adjust(old(st.products), item, m)
  {
    var i := FindIndex(st.products, HasProductId(item.id));
    if i != -1 {
      st.products := st.products[i := st.products[i].(stock := st.products[i].stock + Delta(m, item))];
    }
  }

  /** The loop itself, run on the store's `products` array in place. */
  method Apply(st: Db.Store, items: seq<Item>, m: StockMove)
    modifies st`products
    ensures st.products == Adjusted(old(st.products), items, m)
  {
    var k := 0;
    while k < |items|
      invariant 0 <= k <= |items|
      invariant st.products == Adjusted(old(st.products), items[..k], m)
    {
      ApplyOne(st, items[k], m);
      assert items[..k + 1] == items[..k] + [items[k]];
      AdjustedSnoc(old(st.products), items[..k], items[k], m);
      k := k + 1;
    }
    assert items[..|items|] == items;
  }
}
