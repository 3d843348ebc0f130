# Shopping-cart hook, modelled in Dafny

This project models the cart state of the RocketShoes storefront. The cart lives in a React
provider, `CartProvider` in `src/hooks/useCart.tsx`. It holds an ordered list of line items. Each
item is a product's metadata plus the quantity in the cart. Three mutations change the cart:

- `addProduct(productId)` asks the inventory service for the stock. A stock of zero raises
  "out of stock". If the product is already in the cart, it gets one more unit, provided the new
  amount does not exceed the stock. If it is not in the cart, the product's metadata is fetched
  and appended with amount 1. Any failing service call raises "add failed".
- `removeProduct(productId)` raises "remove failed" when no item carries the id. Otherwise it
  filters the item out.
- `updateProductAmount({ productId, amount })` does nothing at all for `amount <= 0`. Otherwise it
  fetches the stock. A missing item, or a failed fetch, raises "update failed". An amount above
  the stock raises "out of stock". Otherwise the item's amount becomes exactly `amount`.

A successful call replaces the in-memory cart and writes the same cart to local storage.

The model is functional. Each operation is a pure function from the cart and the service
replies to an `Outcome`:

- `Commit(cart)`: the new cart is set as state and persisted.
- `Skip`: the call returns silently.
- `Reject(kind)`: a notification of one of four kinds is raised, and nothing else changes.

The replies of `/stock/{id}` and `/products/{id}` are parameters of type `Reply<T>`, either
`Answered(value)` or `ServiceError`. The provider's state is a `Store`: the cart, the storage
entry and the list of notifications raised so far.

Files:

- `inventory.dfy` (module `Inventory`): the service replies, `Stock` and `ProductData`.
- `line_items.dfy` (module `LineItems`): `Item`, `Cart`, the invariant `Valid`, and the two array
  operations the hook uses. `Find` is `Array.find` by id; `Without` is `Array.filter` on
  `id !== productId`.
- `cart_ops.dfy` (module `CartOps`): the three operations and the lemmas about them.
- `cart_store.dfy` (module `CartStore`): loading, one call and sequences of calls against the
  provider state, and preservation of the invariants.

The cart invariant `Valid` says that ids are pairwise distinct and every amount is at least 1.
Every operation preserves it. For `addProduct` this needs one assumption: the product service
answers `/products/{id}` with product `id`. The appended item takes its id from the reply body
(`{ ...productData.data, amount: 1 }`), not from `productId`.

Two points where the code is more specific than a plain reading of the behaviour:

- The stock test in `addProduct` is `=== 0`, not `<= 0`. With a negative stock, a product that is
  not yet in the cart is still appended. The model keeps stock as an unbounded integer and
  follows the code. `CartOps.AddWithinStock` states the stock bound for non-negative stock.
- `updateProductAmount` looks the item up before it compares the amount with the stock. A missing
  item therefore raises "update failed" even when the amount exceeds the stock.

## Model

| member | source | states |
|---|---|---|
| LineItems.Find | src/hooks/useCart.tsx:46 | the lookup finds an item exactly when some item carries the id, and then it is the first such item |
| LineItems.Without | src/hooks/useCart.tsx:82 | the filtered cart holds exactly the items whose id differs, is never longer, is the same cart when the id is absent and strictly shorter when it is present |
| LineItems.WithoutConcat | src/hooks/useCart.tsx:82 | filtering distributes over concatenation, so the surviving items keep their relative order |
| LineItems.RemovesExactlyOne | src/hooks/useCart.tsx:82 | with the id present only at position k, filtering it out yields the cart without position k, in order, one item shorter |
| LineItems.SetAmountKeepsValid | src/hooks/useCart.tsx:56 | writing a positive amount into one item keeps ids distinct and amounts positive |
| LineItems.AppendKeepsValid | src/hooks/useCart.tsx:65 | appending an item whose id is absent, with a positive amount, keeps the cart valid |
| LineItems.DropKeepsValid | src/hooks/useCart.tsx:82 | dropping one position from a valid cart keeps it valid |
| LineItems.WithoutKeepsValid | src/hooks/useCart.tsx:82 | filtering an id out of a valid cart keeps it valid |
| CartOps.AddProduct | src/hooks/useCart.tsx:35-74 | a failed stock fetch gives "add failed"; zero stock gives "out of stock" whether or not the product is present; a present product gets exactly one more unit at the item find returns, with length and every other item unchanged, or "out of stock" when the new amount exceeds the stock; an absent product is appended with amount 1 and its fetched metadata after the unchanged old cart, or "add failed" when the product fetch fails; it never skips |
| CartOps.RemoveProduct | src/hooks/useCart.tsx:76-89 | "remove failed" exactly when the id is absent; otherwise it commits a strictly shorter cart with no item of that id, holding exactly the old items of other ids |
| CartOps.UpdateProductAmount | src/hooks/useCart.tsx:91-122 | it skips exactly when amount <= 0; a failed stock fetch or an absent id gives "update failed" even when the amount exceeds the stock; a present id gives "out of stock" above the stock and otherwise sets that item's amount to exactly `amount`, with length and every other item unchanged |
| CartOps.RemoveDropsOne | src/hooks/useCart.tsx:82 | with the id present only at position k, removing it commits the cart without position k, in order, of length n-1 |
| CartOps.AddKeepsValid | src/hooks/useCart.tsx:45-66 | a committed add keeps ids distinct and amounts positive, given that the product service answers with the requested product |
| CartOps.RemoveKeepsValid | src/hooks/useCart.tsx:78-82 | a committed removal keeps the cart valid |
| CartOps.UpdateKeepsValid | src/hooks/useCart.tsx:96-115 | a committed update keeps the cart valid, since it only writes positive amounts |
| CartOps.AddWithinStock | src/hooks/useCart.tsx:40-66 | for a cart with distinct ids and non-negative stock, whatever product reply arrives, after a committed add every item carrying the product id holds at most the stock |
| CartOps.UpdateWithinStock | src/hooks/useCart.tsx:110-115 | for a cart with distinct ids, after a committed update the product's item holds exactly the requested amount, which is at most the stock |
| CartStore.Step | src/hooks/useCart.tsx:67-72 | a committed cart becomes the in-memory cart and is written to storage; a skipped call changes nothing; a notification is raised exactly when the call is rejected, and then nothing else changes; storage only ever changes to the new in-memory cart |
| CartStore.InitMirrored | src/hooks/useCart.tsx:25-33 | the state loaded at start-up, from the stored cart or the empty cart, has storage in step with memory and no notifications; with nothing stored the starting cart is valid |
| CartStore.ReloadRestores | src/hooks/useCart.tsx:25-33 | when storage is in step with memory, loading the stored entry gives back exactly the in-memory cart |
| CartStore.StepMirrored | src/hooks/useCart.tsx:67-72 | any call, whatever the service replies, keeps storage equal to the in-memory cart (or both empty before the first write) |
| CartStore.RunMirrored | src/hooks/useCart.tsx:25-122 | from any mirrored state, including start-up from any stored cart, every sequence of calls keeps storage in step with memory, so reloading storage gives back the in-memory cart |
| CartStore.StepKeepsInvariant | src/hooks/useCart.tsx:35-122 | any call whose product reply carries the requested id keeps the cart valid and storage equal to the in-memory cart |
| CartStore.RunKeepsInvariant | src/hooks/useCart.tsx:35-122 | any sequence of calls run one after another, each of whose product replies carries the requested id, keeps the cart valid and storage equal to the in-memory cart, so reloading storage gives back the in-memory cart |

## Left out

- The React context, the provider component, the `useCart` hook and the JSX (lines 1-33 apart from the initial load, and 124-137). They are wiring with no behaviour of their own.
- The `api.get` requests. They are network I/O. Their replies are parameters, and a rejected promise is `ServiceError`.
- `JSON.stringify` and `JSON.parse`. Storage holds the cart itself, so the persisted value equals the cart. A stored string that does not parse is not modelled.
- The toast messages. A notification is its `ErrorKind`; the Portuguese texts are dropped.
- Overlapping async calls that read a stale `cart` closure. Calls run one at a time, each to completion.
- The shallow copy `[...cart]` followed by in-place mutation of the found object (lines 56 and 115), which also changes the object shared with the previous state. The model uses value semantics.
- The fields `name`, `price` and `image` are carried as opaque payload. JavaScript numbers are modelled as mathematical integers; fractional amounts or stocks are not modelled.
- The stock reply's `id` field is carried but never read, as in the code.
- Storage writes are assumed to succeed. In the code `localStorage.setItem` runs after `setCart` (lines 68-69, 83-84, 116-117). If it throws, the catch raises the failure notification although the new cart is already in memory and storage still holds the old one. The model has no such path, so `CartStore.Step` and `Mirrored` describe runs where every write succeeds.
- CartStore.StepKeepsInvariant: holds only for calls whose product reply carries the requested id, because the appended item takes its id from the reply (line 60). A reply for another id that is already in the cart produces a duplicate id.
- CartStore.RunKeepsInvariant: its validity half holds only for call sequences whose product replies all carry the requested id, for the same reason. Its storage half needs neither validity nor honest replies; `CartStore.RunMirrored` states it for every call sequence from any mirrored state.
- CartOps.AddKeepsValid: assumes the product service answers `/products/{id}` with product `id`, because the code trusts the reply's id.
