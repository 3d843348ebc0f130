/**
 The inventory service as the cart sees it: the answers of the `/stock/{id}`
 and `/products/{id}` endpoints. The network calls themselves are not modelled;
 each operation receives the reply it would have awaited as a parameter.
 */
module Inventory {

  /** What an awaited service call produced: a value, or a rejected promise
      (network error, not-found, ...). */
  datatype Reply<+T> = Answered(value: T) | ServiceError

  /** The body of `/stock/{id}`: how many units of product `id` can be bought. */
  datatype Stock = Stock(id: int, amount: int)

  /** The body of `/products/{id}`: the product's metadata. Only `id` matters
      to the cart logic; the other fields are carried along untouched. */
  datatype ProductData = ProductData(id: int, name: string, price: real, image: string)
}
