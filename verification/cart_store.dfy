/**
 The state the cart provider keeps around the three mutations: the cart held
 in memory, the value last written under the storage key, and the
 notifications raised so far. A committed call replaces the cart and writes
 the same cart to storage; a rejected call only raises its notification; a
 skipped call does nothing.
 */
module CartStore {
  import opened Inventory
  import opened LineItems
  import opened CartOps

  /** The storage entry under the cart key: never written, or holding a cart. */
  datatype Storage = Blank | Saved(items: Cart)

  datatype Store = Store(cart: Cart, storage: Storage, notices: seq<ErrorKind>)

  /** One call of the provider, with the service replies it would receive. */
  datatype Call =
    | Add(productId: int, stock: Reply<Stock>, product: Reply<ProductData>)
    | Remove(productId: int)
    | Update(productId: int, amount: int, stock: Reply<Stock>)

  /** The product service answers `/products/{id}` with product `id`. */
  predicate HonestReply(call: Call) {
    call.Add? && call.product.Answered? ==> call.product.value.id == call.productId
  }

  /** The cart the provider starts from: the stored cart, or the empty one. */
  function Load(storage: Storage): Cart {
    match storage
    case Saved(items) => items
    case Blank => []
  }

  function Init(storage: Storage): Store {
    Store(Load(storage), storage, [])
  }

  /** Storage mirrors memory: whatever was last written is the cart in
      memory, and before any write the cart is empty. */
  predicate Mirrored(s: Store) {
    s.storage == Saved(s.cart) || (s.storage == Blank && s.cart == [])
  }

  function Apply(cart: Cart, call: Call): Outcome {
    match call
    case Add(id, stock, product) => AddProduct(cart, id, stock, product)
    case Remove(id) => RemoveProduct(cart, id)
    case Update(id, amount, stock) => UpdateProductAmount(cart, id, amount, stock)
  }

  /** One call against the current state. */
  function Step(s: Store, call: Call): (t: Store)
    // every call is all-or-nothing: either the cart is untouched or the
    // call committed exactly the cart now held
    ensures t.cart == s.cart || Apply(s.cart, call) == Commit(t.cart)
    // storage is written only together with the in-memory cart
    ensures t.storage != s.storage ==> t.storage == Saved(t.cart)
    // a notification is raised exactly when the call is rejected, and a
    // rejected call changes nothing else
    ensures Apply(s.cart, call).Reject? <==> |t.notices| == |s.notices| + 1
    ensures Apply(s.cart, call).Reject? ==>
              t == s.(notices := s.notices + [Apply(s.cart, call).kind])
    ensures !Apply(s.cart, call).Reject? ==> t.notices == s.notices
    // a committed cart becomes the in-memory cart and is written to storage
    ensures Apply(s.cart, call).Commit? ==>
              t.cart == Apply(s.cart, call).cart && t.storage == Saved(t.cart)
    // a skipped call leaves the whole state as it was
    ensures Apply(s.cart, call).Skip? ==> t == s
  {
    match Apply(s.cart, call)
    case Commit(c) => s.(cart := c, storage := Saved(c))
    case Skip => s
    case Reject(k) => s.(notices := s.notices + [k])
  }

  /** A sequence of calls, each run to completion before the next starts. */
  function Run(s: Store, calls: seq<Call>): Store
    decreases |calls|
  {
    if |calls| == 0 then s else Run(Step(s, calls[0]), calls[1..])
  }

  /** Start-up puts storage in step with memory, with no notifications; an
      empty storage entry starts from a valid (empty) cart. */
  lemma InitMirrored(storage: Storage)
    ensures Mirrored(Init(storage))
    ensures Init(storage).notices == []
    ensures storage == Blank ==> Valid(Init(storage).cart)
  {
  }

  /** Reloading from storage gives back the cart held in memory, whenever
      storage is in step with memory. */
  lemma ReloadRestores(s: Store)
    requires Mirrored(s)
    ensures Load(s.storage) == s.cart
  {
  }

  /** Every call, whatever the service replies, keeps storage in step with
      memory. */
  lemma StepMirrored(s: Store, call: Call)
    requires Mirrored(s)
    ensures Mirrored(Step(s, call))
  {
  }

  /** Any sequence of calls from a mirrored state, a start-up from any stored
      cart included, keeps storage in step with memory, so reloading storage
      afterwards gives back the in-memory cart. */
  lemma {:induction false} RunMirrored(s: Store, calls: seq<Call>)
    requires Mirrored(s)
    ensures Mirrored(Run(s, calls))
    ensures Load(Run(s, calls).storage) == Run(s, calls).cart
    decreases |calls|
  {
    if |calls| > 0 {
      StepMirrored(s, calls[0]);
      RunMirrored(Step(s, calls[0]), calls[1..]);
    }
    ReloadRestores(Run(s, calls));
  }

  /** Every call keeps the cart valid and storage in step with memory. */
  lemma StepKeepsInvariant(s: Store, call: Call)
    requires Valid(s.cart) && Mirrored(s) && HonestReply(call)
    ensures Valid(Step(s, call).cart) && Mirrored(Step(s, call))
  {
    match call
    case Add(id, stock, product) => AddKeepsValid(s.cart, id, stock, product);
    case Remove(id) => RemoveKeepsValid(s.cart, id);
    case Update(id, amount, stock) => UpdateKeepsValid(s.cart, id, amount, stock);
  }

  /** Any sequence of calls keeps the cart valid and storage in step with
      memory. */
  lemma {:induction false} RunKeepsInvariant(s: Store, calls: seq<Call>)
    requires Valid(s.cart) && Mirrored(s)
    requires forall i :: 0 <= i < |calls| ==> HonestReply(calls[i])
    ensures Valid(Run(s, calls).cart) && Mirrored(Run(s, calls))
    ensures Load(Run(s, calls).storage) == Run(s, calls).cart
    decreases |calls|
  {
    if |calls| > 0 {
      StepKeepsInvariant(s, calls[0]);
      RunKeepsInvariant(Step(s, calls[0]), calls[1..]);
    }
    ReloadRestores(Run(s, calls));
  }
}
