/**
 The three mutations of the cart hook as pure transitions. Each takes the
 current cart and the replies of the service calls it would await, and says
 whether the new cart is committed (set as state and written to storage),
 the call returns silently, or it is rejected with a notification.
 */
module CartOps {
  import opened Inventory
  import opened LineItems

  /** The four notification classes the hook raises. */
  datatype ErrorKind = OutOfStock | AddFailed | RemoveFailed | UpdateFailed

  /** How one call ends. A rejected or skipped call carries no cart: the state
      it leaves behind is the one it started from. */
  datatype Outcome = Commit(cart: Cart) | Skip | Reject(kind: ErrorKind)

  /** `addProduct(productId)`. `stock` is the reply of `/stock/{productId}`;
      `product` the reply of `/products/{productId}`, awaited only when the
      product is not in the cart yet. */
  function AddProduct(cart: Cart, productId: int, stock: Reply<Stock>, product: Reply<ProductData>): (r: Outcome)
    // the stock request failed
    ensures stock.ServiceError? ==> r == Reject(AddFailed)
    // nothing in stock, whether or not the product is already in the cart
    ensures stock.Answered? && stock.value.amount == 0 ==> r == Reject(OutOfStock)
    // already present: one more unit of the item `find` returns, if stock allows
    ensures forall i :: IsFirst(cart, productId, i) && stock.Answered? && stock.value.amount != 0 ==>
              if cart[i].amount + 1 > stock.value.amount then r == Reject(OutOfStock)
              else
                && r.Commit?
                && |r.cart| == |cart|
                && r.cart[i] == cart[i].(amount := cart[i].amount + 1)
                && forall j :: 0 <= j < |cart| && j != i ==> r.cart[j] == cart[j]
    // not present: the fetched product is appended with amount one
    ensures !Contains(cart, productId) && stock.Answered? && stock.value.amount != 0 ==>
              if product.ServiceError? then r == Reject(AddFailed)
              else
                && r.Commit?
                && |r.cart| == |cart| + 1
                && r.cart[..|cart|] == cart
                && r.cart[|cart|].amount == 1
                && r.cart[|cart|].id == product.value.id
                && r.cart[|cart|].name == product.value.name
                && r.cart[|cart|].price == product.value.price
                && r.cart[|cart|].image == product.value.image
    // a rejection is one of the two kinds this call raises
    ensures r.Reject? ==> r.kind in {OutOfStock, AddFailed}
    ensures !r.Skip?
  {
    match stock
    case ServiceError => Reject(AddFailed)
    case Answered(s) =>
      if s.amount == 0 then Reject(OutOfStock)
      else
        match Find(cart, productId)
        case Found(i) =>
          var newAmount := cart[i].amount + 1;
          if newAmount > s.amount then Reject(OutOfStock)
          else Commit(cart[i := cart[i].(amount := newAmount)])
        case Missing =>
          match product
          case ServiceError => Reject(AddFailed)
          case Answered(p) => Commit(cart + [FromProduct(p)])
  }

  /** `removeProduct(productId)`: a missing id is an error, otherwise every
      item carrying it is filtered out. */
  function RemoveProduct(cart: Cart, productId: int): (r: Outcome)
    ensures r == Reject(RemoveFailed) <==> !Contains(cart, productId)
    ensures r.Commit? <==> Contains(cart, productId)
    ensures r.Commit? ==>
              && |r.cart| < |cart|
              && !Contains(r.cart, productId)
              && forall x :: x in r.cart <==> x in cart && x.id != productId
  {
    if Find(cart, productId).Missing? then Reject(RemoveFailed)
    else Commit(Without(cart, productId))
  }

  /** `updateProductAmount({ productId, amount })`: `amount` is the new
      absolute quantity; `stock` the reply of `/stock/{productId}`. */
  function UpdateProductAmount(cart: Cart, productId: int, amount: int, stock: Reply<Stock>): (r: Outcome)
    // a non-positive amount returns before anything else happens
    ensures r.Skip? <==> amount <= 0
    // a failed stock request or a missing item: the generic update failure,
    // even when the amount also exceeds the stock
    ensures amount > 0 && (stock.ServiceError? || !Contains(cart, productId)) ==> r == Reject(UpdateFailed)
    ensures forall i :: IsFirst(cart, productId, i) && amount > 0 && stock.Answered? ==>
              if amount > stock.value.amount then r == Reject(OutOfStock)
              else
                && r.Commit?
                && |r.cart| == |cart|
                && r.cart[i] == cart[i].(amount := amount)
                && forall j :: 0 <= j < |cart| && j != i ==> r.cart[j] == cart[j]
  {
    if amount <= 0 then Skip
    else
      match stock
      case ServiceError => Reject(UpdateFailed)
      case Answered(s) =>
        match Find(cart, productId)
        case Missing => Reject(UpdateFailed)
        case Found(i) =>
          if amount > s.amount then Reject(OutOfStock)
          else Commit(cart[i := cart[i].(amount := amount)])
  }

  /** When the id is present exactly once, at position `k`, a successful
      removal drops exactly that item and keeps the others in order. */
  lemma RemoveDropsOne(cart: Cart, productId: int, k: int)
    requires 0 <= k < |cart| && cart[k].id == productId
    requires forall j :: 0 <= j < |cart| && j != k ==> cart[j].id != productId
    ensures RemoveProduct(cart, productId) == Commit(cart[..k] + cart[k + 1..])
    ensures |RemoveProduct(cart, productId).cart| == |cart| - 1
  {
    RemovesExactlyOne(cart, productId, k);
  }

  /** `addProduct` keeps the cart valid, provided the product service answers
      with the product that was asked for (the appended item takes its id from
      the reply, not from `productId`). */
  lemma AddKeepsValid(cart: Cart, productId: int, stock: Reply<Stock>, product: Reply<ProductData>)
    requires Valid(cart)
    requires product.Answered? ==> product.value.id == productId
    ensures AddProduct(cart, productId, stock, product).Commit? ==>
              Valid(AddProduct(cart, productId, stock, product).cart)
  {
    if AddProduct(cart, productId, stock, product).Commit? {
      match Find(cart, productId)
      case Found(i) =>
        SetAmountKeepsValid(cart, i, cart[i].amount + 1);
      case Missing =>
        AppendKeepsValid(cart, FromProduct(product.value));
    }
  }

  lemma RemoveKeepsValid(cart: Cart, productId: int)
    requires Valid(cart)
    ensures RemoveProduct(cart, productId).Commit? ==>
              Valid(RemoveProduct(cart, productId).cart)
  {
    WithoutKeepsValid(cart, productId);
  }

  lemma UpdateKeepsValid(cart: Cart, productId: int, amount: int, stock: Reply<Stock>)
    requires Valid(cart)
    ensures UpdateProductAmount(cart, productId, amount, stock).Commit? ==>
              Valid(UpdateProductAmount(cart, productId, amount, stock).cart)
  {
    if UpdateProductAmount(cart, productId, amount, stock).Commit? {
      SetAmountKeepsValid(cart, Find(cart, productId).index, amount);
    }
  }

  /** With a non-negative stock, a committed `addProduct` leaves the added
      product at no more units than the stock: the stock check is `=== 0`,
      so a new product is appended only when at least one unit exists.
      This holds for a cart with distinct ids, whatever product the service
      answers with. */
  lemma AddWithinStock(cart: Cart, productId: int, s: Stock, product: Reply<ProductData>)
    requires UniqueIds(cart) && s.amount >= 0
    ensures var r := AddProduct(cart, productId, Answered(s), product);
            r.Commit? ==> forall i :: 0 <= i < |r.cart| && r.cart[i].id == productId ==> r.cart[i].amount <= s.amount
  {
  }

  /** A committed `updateProductAmount` leaves the product at no more units
      than the stock. */
  lemma UpdateWithinStock(cart: Cart, productId: int, amount: int, s: Stock)
    requires UniqueIds(cart)
    ensures var r := UpdateProductAmount(cart, productId, amount, Answered(s));
            r.Commit? ==> forall i :: 0 <= i < |r.cart| && r.cart[i].id == productId ==> r.cart[i].amount == amount <= s.amount
  {
  }
}
