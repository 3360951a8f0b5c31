/**
  The shopping-cart store of the storefront: an ordered list of products keyed by
  id, each carrying the quantity held in the cart, mirrored to a durable storage key
  after every successful change. Only adding a product has behaviour in the store;
  the two remote lookups it performs (the stock of the product and its display data)
  are given to the operation as parameters.
*/
module Cart {

  import opened Wrappers

  /** An entry of the cart: the product's display data (opaque here) plus the quantity held. */
  datatype Product<D> = Product(id: int, details: D, amount: int)

  /** What the product endpoint answers: an id and the display attributes. */
  datatype ProductData<D> = ProductData(id: int, details: D)

  /** What the stock endpoint answers: the ceiling on the quantity that can be held. */
  datatype Stock = Stock(id: int, amount: int)

  /** How an add ended: stored, refused for lack of stock, or abandoned after a failed lookup. */
  datatype Status = Added | OutOfStock | Failed

  datatype AddResult<D> = AddResult(status: Status, cart: seq<Product<D>>)

  /** No two entries share an id. */
  predicate IdsUnique<D>(cart: seq<Product<D>>)
  {
    forall i, j :: 0 <= i < j < |cart| ==> cart[i].id != cart[j].id
  }

  predicate Contains<D>(cart: seq<Product<D>>, id: int)
  {
    exists k :: 0 <= k < |cart| && cart[k].id == id
  }

  /** The position of the first entry whose id is `id`, as the list's `find` locates it. */
  function FirstIndexOf<D>(cart: seq<Product<D>>, id: int): (r: Option<nat>)
    ensures r.Some? ==> r.value < |cart| && cart[r.value].id == id
    ensures r.Some? ==> forall j :: 0 <= j < r.value ==> cart[j].id != id
    ensures r.None? <==> !Contains(cart, id)
  {
    if cart == [] then None
    else if cart[0].id == id then Some(0)
    else
      match FirstIndexOf(cart[1..], id)
      case None => None
      case Some(k) => Some(k + 1)
  }

  /** The quantity an add asks for: one more than the entry's current amount, or 1 when the id is absent. */
  function DesiredAmount<D>(cart: seq<Product<D>>, id: int): (n: int)
    ensures !Contains(cart, id) ==> n == 1
    ensures forall i :: 0 <= i < |cart| && cart[i].id == id && (forall j :: 0 <= j < i ==> cart[j].id != id)
              ==> n == cart[i].amount + 1
  {
    var current := match FirstIndexOf(cart, id) case Some(i) => cart[i].amount case None => 0;
    current + 1
  }

  /** The cart with the amount of entry `i` set to `amount`, everything else as it was. */
  function SetAmount<D>(cart: seq<Product<D>>, i: nat, amount: int): (r: seq<Product<D>>)
    requires i < |cart|
    ensures |r| == |cart|
    ensures r[i].id == cart[i].id && r[i].details == cart[i].details && r[i].amount == amount
    ensures forall j :: 0 <= j < |cart| && j != i ==> r[j] == cart[j]
  {
    cart[i := cart[i].(amount := amount)]
  }

  /**
    The whole effect of adding product `productId` to `cart`, given what the stock
    lookup and the product lookup answered. The product lookup is only consulted when
    the id is absent from the cart.
  */
  function AddToCart<D>(cart: seq<Product<D>>, productId: int, stock: Option<Stock>,
                        product: Option<ProductData<D>>): (r: AddResult<D>)
    ensures r.status != Added ==> r.cart == cart
    ensures r.status == Added <==>
              stock.Some? && DesiredAmount(cart, productId) <= stock.value.amount &&
              (Contains(cart, productId) || product.Some?)
    ensures r.status == Added ==> |r.cart| == |cart| + (if Contains(cart, productId) then 0 else 1)
  {
    var found := FirstIndexOf(cart, productId);
    if stock.None? then AddResult(Failed, cart)
    else
      var amount := DesiredAmount(cart, productId);
      if amount > stock.value.amount then AddResult(OutOfStock, cart)
      else if found.Some? then AddResult(Added, SetAmount(cart, found.value, amount))
      else if product.None? then AddResult(Failed, cart)
      else AddResult(Added, cart + [Product(product.value.id, product.value.details, amount)])
  }

  /**
    The cart store: the in-memory list and the durable key it is mirrored to.
    `persisted` is `None` while the key has never been written.
  */
  class CartStore<D> {
    var cart: seq<Product<D>>
    var persisted: Option<seq<Product<D>>>

    /**
      The in-memory list is what the key holds, or empty when the key is absent.
      Every add keeps this, except one whose write to the key throws.
    */
    ghost predicate Valid()
      reads this
    {
      persisted == Some(cart) || (persisted.None? && cart == [])
    }

    /** Seeds the list from the key's contents (already decoded), or empty when there are none. */
    constructor (stored: Option<seq<Product<D>>>)
      ensures Valid()
      ensures persisted == stored
      ensures cart == if stored.Some? then stored.value else []
    {
      persisted := stored;
      if stored.Some? {
        cart := stored.value;
      } else {
        cart := [];
      }
    }

    /**
      Adds one unit of product `productId`. `stock` and `product` are what the two
      remote lookups answered (`None` when the request failed); `written` is whether
      the write to the durable key went through. On success the new list is stored
      both in memory and under the key. When the write throws, the in-memory list has
      already been replaced, the key keeps its old contents and the generic failure is
      reported. When a lookup fails or the stock is short, neither changes.
    */
    method AddProduct(productId: int, stock: Option<Stock>, product: Option<ProductData<D>>,
                      written: bool)
      returns (status: Status)
      modifies this
      ensures var r := AddToCart(old(cart), productId, stock, product);
        && cart == r.cart
        && status == (if r.status == Added && !written then Failed else r.status)
        && persisted == (if r.status == Added && written then Some(r.cart) else old(persisted))
      ensures status == Added ==> Valid()
      ensures old(Valid()) && written ==> Valid()
    {
      var updatedCart := cart;
      var productExists := FirstIndexOf(updatedCart, productId);
      if stock.None? {
        return Failed;
      }
      var stockAmount := stock.value.amount;
      var currentAmount := if productExists.Some? then updatedCart[productExists.value].amount else 0;
      var amount := currentAmount + 1;
      if amount > stockAmount {
        return OutOfStock;
      }
      if productExists.Some? {
        updatedCart := updatedCart[productExists.value := updatedCart[productExists.value].(amount := amount)];
      } else {
        if product.None? {
          return Failed;
        }
        var newProduct := Product(product.value.id, product.value.details, amount);
        updatedCart := updatedCart + [newProduct];
      }
      cart := updatedCart;
      if !written {
        return Failed;
      }
      persisted := Some(updatedCart);
      status := Added;
    }
  }
}
