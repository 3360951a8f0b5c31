/** Properties of adding a product to the cart, stated over the specification `Cart.AddToCart`. */
module CartProperties {

  import opened Wrappers
  import opened Cart

  /** A cart whose id is present finds it again at a unique position when ids are unique. */
  lemma FirstIndexIsOnlyIndex<D>(cart: seq<Product<D>>, id: int, i: nat)
    requires IdsUnique(cart)
    requires FirstIndexOf(cart, id) == Some(i)
    ensures forall j :: 0 <= j < |cart| && cart[j].id == id ==> j == i
  {
  }

  /** Refused for lack of stock exactly when the stock lookup answered with a ceiling below the desired amount. */
  lemma OutOfStockIffOverCeiling<D>(cart: seq<Product<D>>, productId: int, stock: Option<Stock>,
                                    product: Option<ProductData<D>>)
    ensures AddToCart(cart, productId, stock, product).status == OutOfStock
        <==> stock.Some? && DesiredAmount(cart, productId) > stock.value.amount
  {
  }

  /** Refused for lack of stock: the desired amount is over the ceiling and the cart is kept. */
  lemma OverStockIsRefused<D>(cart: seq<Product<D>>, productId: int, stock: Stock,
                              product: Option<ProductData<D>>)
    requires DesiredAmount(cart, productId) > stock.amount
    ensures AddToCart(cart, productId, Some(stock), product) == AddResult(OutOfStock, cart)
  {
  }

  /** A failed lookup (the stock one, or the product one when it is needed) leaves the cart as it was. */
  lemma FailedLookupKeepsCart<D>(cart: seq<Product<D>>, productId: int, stock: Option<Stock>,
                                 product: Option<ProductData<D>>)
    requires stock.None? || (!Contains(cart, productId) && product.None?)
    ensures AddToCart(cart, productId, stock, product).status != Added
    ensures AddToCart(cart, productId, stock, product).cart == cart
    ensures stock.None? ==> AddToCart(cart, productId, stock, product).status == Failed
    ensures stock.Some? && DesiredAmount(cart, productId) <= stock.value.amount
        ==> AddToCart(cart, productId, stock, product).status == Failed
  {
  }

  /** Adding a product already present bumps only its first entry, by exactly one. */
  lemma PresentIsBumped<D>(cart: seq<Product<D>>, productId: int, stock: Stock,
                           product: Option<ProductData<D>>, i: nat)
    requires FirstIndexOf(cart, productId) == Some(i)
    requires cart[i].amount + 1 <= stock.amount
    ensures var r := AddToCart(cart, productId, Some(stock), product);
      && r.status == Added
      && |r.cart| == |cart|
      && r.cart[i] == cart[i].(amount := cart[i].amount + 1)
      && forall j :: 0 <= j < |cart| && j != i ==> r.cart[j] == cart[j]
  {
  }

  /** Adding an absent product appends one entry with amount 1 after the unchanged old entries. */
  lemma AbsentIsAppended<D>(cart: seq<Product<D>>, productId: int, stock: Stock, data: ProductData<D>)
    requires !Contains(cart, productId)
    requires 1 <= stock.amount
    ensures AddToCart(cart, productId, Some(stock), Some(data))
         == AddResult(Added, cart + [Product(data.id, data.details, 1)])
  {
  }

  /**
    A successful add never gives two entries the same id, provided that, when the
    product lookup is consulted, it answers with an id not already in the cart.
  */
  lemma AddKeepsIdsUnique<D>(cart: seq<Product<D>>, productId: int, stock: Option<Stock>,
                             product: Option<ProductData<D>>)
    requires IdsUnique(cart)
    requires !Contains(cart, productId) && product.Some? ==> !Contains(cart, product.value.id)
    ensures IdsUnique(AddToCart(cart, productId, stock, product).cart)
  {
  }

  /**
    The new entry takes the id the product lookup answered with, which is not checked:
    cart [{id 1}], adding id 2, and the lookup answering id 1, gives two entries with id 1.
  */
  lemma AnsweredIdCanRepeat<D>(details: D)
    ensures var cart := [Product(1, details, 1)];
      var r := AddToCart(cart, 2, Some(Stock(2, 5)), Some(ProductData(1, details)));
      && IdsUnique(cart)
      && r.status == Added
      && r.cart == [Product(1, details, 1), Product(1, details, 1)]
      && !IdsUnique(r.cart)
  {
    var r := AddToCart([Product(1, details, 1)], 2, Some(Stock(2, 5)), Some(ProductData(1, details)));
    assert r.cart[0].id == r.cart[1].id;
  }

  /** After a successful add the entry it touched holds no more than the stock ceiling. */
  lemma AddRespectsStock<D>(cart: seq<Product<D>>, productId: int, stock: Option<Stock>,
                            product: Option<ProductData<D>>)
    requires AddToCart(cart, productId, stock, product).status == Added
    ensures var r := AddToCart(cart, productId, stock, product);
      var k := match FirstIndexOf(cart, productId) case Some(i) => i case None => |cart|;
      && stock.Some?
      && k < |r.cart|
      && r.cart[k].amount == DesiredAmount(cart, productId)
      && r.cart[k].amount <= stock.value.amount
  {
  }

  /** Every entry keeps a positive amount across an add, whatever the lookups answered. */
  lemma AddKeepsAmountsPositive<D>(cart: seq<Product<D>>, productId: int, stock: Option<Stock>,
                                   product: Option<ProductData<D>>)
    requires forall k :: 0 <= k < |cart| ==> cart[k].amount >= 1
    ensures var r := AddToCart(cart, productId, stock, product);
      forall k :: 0 <= k < |r.cart| ==> r.cart[k].amount >= 1
  {
  }

  /** Cart [{id 1, amount 2}] with a stock of 2: adding product 1 is refused. */
  lemma ExampleRefusedAtCeiling<D>(details: D, product: Option<ProductData<D>>)
    ensures var cart := [Product(1, details, 2)];
      AddToCart(cart, 1, Some(Stock(1, 2)), product) == AddResult(OutOfStock, cart)
  {
  }

  /** An empty cart, product 5 with a stock of 3: the cart becomes that product with amount 1. */
  lemma ExampleFirstAdd<D>(details: D)
    ensures AddToCart([], 5, Some(Stock(5, 3)), Some(ProductData(5, details)))
         == AddResult(Added, [Product(5, details, 1)])
  {
  }
}
