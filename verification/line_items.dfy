/**
 Cart line items, the lookups the hook performs on them (`Array.find` by id
 and `Array.filter` on `id !== productId`), and the cart invariant: ids are
 pairwise distinct and every amount is at least one.
 */
module LineItems {
  import opened Inventory

  /** A line item: a product's metadata plus the quantity held in the cart. */
  datatype Item = Item(id: int, name: string, price: real, image: string, amount: int)

  /** The cart, in insertion order. */
  type Cart = seq<Item>

  /** The line item built from fetched metadata: `{ ...data, amount: 1 }`. */
  function FromProduct(p: ProductData): Item {
    Item(p.id, p.name, p.price, p.image, 1)
  }

  predicate Contains(cart: Cart, id: int) {
    exists i :: 0 <= i < |cart| && cart[i].id == id
  }

  /** `i` is the position `find` stops at: the first item carrying `id`. */
  predicate IsFirst(cart: Cart, id: int, i: int) {
    && 0 <= i < |cart|
    && cart[i].id == id
    && forall j :: 0 <= j < i ==> cart[j].id != id
  }

  predicate UniqueIds(cart: Cart) {
    forall i, j :: 0 <= i < j < |cart| ==> cart[i].id != cart[j].id
  }

  predicate AmountsPositive(cart: Cart) {
    forall i :: 0 <= i < |cart| ==> cart[i].amount >= 1
  }

  /** The invariant every operation keeps. */
  predicate Valid(cart: Cart) {
    UniqueIds(cart) && AmountsPositive(cart)
  }

  /** Where `cart.find(p => p.id === id)` lands. */
  datatype Lookup = Found(index: nat) | Missing

  /** `cart.find(p => p.id === id)`, returning the position instead of the object. */
  function Find(cart: Cart, id: int): (r: Lookup)
    ensures r.Found? <==> Contains(cart, id)
    ensures r.Found? ==> IsFirst(cart, id, r.index)
  {
    if |cart| == 0 then Missing
    else if cart[0].id == id then Found(0)
    else
      match Find(cart[1..], id)
      case Found(k) => Found(k + 1)
      case Missing => Missing
  }

  /** `cart.filter(p => p.id !== id)`. */
  function Without(cart: Cart, id: int): (r: Cart)
    ensures |r| <= |cart|
    ensures forall x :: x in r <==> x in cart && x.id != id
    ensures !Contains(cart, id) ==> r == cart
    ensures Contains(cart, id) ==> |r| < |cart|
  {
    if |cart| == 0 then []
    else
      var rest := Without(cart[1..], id);
      assert Contains(cart, id) && cart[0].id != id ==> Contains(cart[1..], id) by {
        if Contains(cart, id) && cart[0].id != id {
          var i :| 0 <= i < |cart| && cart[i].id == id;
          assert cart[1..][i - 1].id == id;
        }
      }
      assert !Contains(cart, id) ==> !Contains(cart[1..], id) by {
        if Contains(cart[1..], id) {
          var i :| 0 <= i < |cart[1..]| && cart[1..][i].id == id;
          assert cart[i + 1].id == id;
        }
      }
      assert cart == [cart[0]] + cart[1..];
      if cart[0].id == id then rest else [cart[0]] + rest
  }

  /** Filtering distributes over concatenation: it keeps the relative order
      of the items that survive. */
  lemma {:induction false} WithoutConcat(a: Cart, b: Cart, id: int)
    ensures Without(a + b, id) == Without(a, id) + Without(b, id)
    decreases |a|
  {
    if |a| == 0 {
      assert a + b == b;
    } else {
      assert (a + b)[1..] == a[1..] + b;
      WithoutConcat(a[1..], b, id);
    }
  }

  /** When `id` is held at position `k` and nowhere else, filtering it out
      removes exactly that item and keeps the rest in order. */
  lemma {:induction false} RemovesExactlyOne(cart: Cart, id: int, k: int)
    requires 0 <= k < |cart| && cart[k].id == id
    requires forall j :: 0 <= j < |cart| && j != k ==> cart[j].id != id
    ensures Without(cart, id) == cart[..k] + cart[k + 1..]
    ensures |Without(cart, id)| == |cart| - 1
  {
    var pre, mid, post := cart[..k], [cart[k]], cart[k + 1..];
    assert !Contains(pre, id) by {
      forall i | 0 <= i < |pre|
        ensures pre[i].id != id
      {
        assert pre[i] == cart[i];
      }
    }
    assert !Contains(post, id) by {
      forall i | 0 <= i < |post|
        ensures post[i].id != id
      {
        assert post[i] == cart[k + 1 + i];
      }
    }
    assert Without(mid, id) == [] by {
      assert mid[1..] == [];
    }
    assert Without(pre + mid, id) == pre by {
      WithoutConcat(pre, mid, id);
    }
    assert cart == (pre + mid) + post;
    WithoutConcat(pre + mid, post, id);
  }

  /** Writing a positive amount into one item keeps the cart valid. */
  lemma SetAmountKeepsValid(cart: Cart, i: int, amount: int)
    requires Valid(cart)
    requires 0 <= i < |cart| && amount >= 1
    ensures Valid(cart[i := cart[i].(amount := amount)])
  {
  }

  /** Appending an item whose id is not yet present, with a positive amount,
      keeps the cart valid. */
  lemma AppendKeepsValid(cart: Cart, item: Item)
    requires Valid(cart)
    requires !Contains(cart, item.id) && item.amount >= 1
    ensures Valid(cart + [item])
  {
  }

  /** Dropping one position from a cart keeps its ids distinct and its
      amounts positive. */
  lemma DropKeepsValid(cart: Cart, k: int)
    requires Valid(cart)
    requires 0 <= k < |cart|
    ensures Valid(cart[..k] + cart[k + 1..])
  {
    var pre, post := cart[..k], cart[k + 1..];
    var r := pre + post;
    forall i | 0 <= i < |r|
      ensures r[i] == cart[if i < k then i else i + 1]
    {
      if i < k { assert r[i] == pre[i]; } else { assert r[i] == post[i - k]; }
    }
  }

  /** Filtering an id out of a valid cart keeps it valid. */
  lemma WithoutKeepsValid(cart: Cart, id: int)
    requires Valid(cart)
    ensures Valid(Without(cart, id))
  {
    if Contains(cart, id) {
      var k :| 0 <= k < |cart| && cart[k].id == id;
      RemovesExactlyOne(cart, id, k);
      DropKeepsValid(cart, k);
    }
  }
}
