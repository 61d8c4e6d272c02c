/** The session cart: an ordered list of entries, each a snapshot of a book's
    title and price with the requested quantity. These are the values the cart
    routes compute; the routes themselves (with their guard and the session
    they update) are in module Api. */
module Cart {
  import opened Common
  import opened Schema

  /** `{book_id, title, price, quantity}` */
  datatype CartEntry = CartEntry(bookId: int, title: string, price: Price, quantity: int)

  /** What the cart routes keep true: at most one entry per book, and every
      quantity at least 1. */
  ghost predicate WellFormed(cart: seq<CartEntry>)
  {
    && (forall i, j :: 0 <= i < j < |cart| ==> cart[i].bookId != cart[j].bookId)
    && (forall i :: 0 <= i < |cart| ==> cart[i].quantity >= 1)
  }

  /** `cart.find(x => x.book_id === bookId)`, as a position. */
  function Find(cart: seq<CartEntry>, bookId: int): Option<nat>
  {
    FirstWhere(cart, (e: CartEntry) => e.bookId == bookId)
  }

  /** `existing ? existing.quantity : 0`: in a well-formed cart, the quantity
      of the book's entry, or 0 when no entry names the book. */
  function InCart(cart: seq<CartEntry>, bookId: int): (n: int)
    ensures (forall i :: 0 <= i < |cart| ==> cart[i].bookId != bookId) ==> n == 0
    ensures WellFormed(cart) ==> forall i :: 0 <= i < |cart| && cart[i].bookId == bookId ==> n == cart[i].quantity
  {
    match Find(cart, bookId)
    case Some(i) => cart[i].quantity
    case None => 0
  }

  /** `Math.max(1, Number(quantity))`: the amount one add requests. */
  function Requested(quantity: int): (q: int)
    ensures q >= 1
    ensures quantity >= 1 ==> q == quantity
    ensures quantity < 1 ==> q == 1
  {
    if quantity < 1 then 1 else quantity
  }

  /** The success branch of adding to the cart: an existing entry for the book
      grows in place and keeps its title and price snapshot; otherwise a new
      entry with the book's current title and price goes at the end. */
  function Put(cart: seq<CartEntry>, bookId: int, title: string, price: Price, qty: int): (r: seq<CartEntry>)
    requires WellFormed(cart) && qty >= 1
    ensures |r| >= |cart|
    ensures Find(cart, bookId).Some? ==>
              var i := Find(cart, bookId).value;
              && |r| == |cart|
              && r[i] == cart[i].(quantity := cart[i].quantity + qty)
              && forall k :: 0 <= k < |cart| && k != i ==> r[k] == cart[k]
    ensures Find(cart, bookId).None? ==>
              r == cart + [CartEntry(bookId, title, price, qty)]
  {
    match Find(cart, bookId)
    case Some(i) => cart[i := cart[i].(quantity := cart[i].quantity + qty)]
    case None => cart + [CartEntry(bookId, title, price, qty)]
  }

  /** A successful add keeps the cart well formed, raises the book's quantity
      by exactly the requested amount, and leaves every other book's quantity
      as it was. */
  lemma PutEffect(cart: seq<CartEntry>, bookId: int, title: string, price: Price, qty: int)
    requires WellFormed(cart) && qty >= 1
    ensures var r := Put(cart, bookId, title, price, qty);
            && WellFormed(r)
            && Find(r, bookId).Some?
            && InCart(r, bookId) == InCart(cart, bookId) + qty
            && forall b :: b != bookId ==> InCart(r, b) == InCart(cart, b)
  {
    var r := Put(cart, bookId, title, price, qty);
    match Find(cart, bookId)
    case Some(i) =>
      assert forall k :: 0 <= k < |r| ==> r[k].bookId == cart[k].bookId;
      FirstWhereIs(r, (e: CartEntry) => e.bookId == bookId, i);
      forall b | b != bookId ensures InCart(r, b) == InCart(cart, b) {
        if Find(cart, b).Some? {
          FirstWhereIs(r, (e: CartEntry) => e.bookId == b, Find(cart, b).value);
        }
      }
    case None =>
      FirstWhereIs(r, (e: CartEntry) => e.bookId == bookId, |cart|);
      forall b | b != bookId ensures InCart(r, b) == InCart(cart, b) {
        if Find(cart, b).Some? {
          FirstWhereIs(r, (e: CartEntry) => e.bookId == b, Find(cart, b).value);
        }
      }
  }

  /** Removing a book from the cart: `.filter(x => x.book_id !== bookId)`. No
      entry of the result names the book, and each comes from the cart. */
  function Without(cart: seq<CartEntry>, bookId: int): (r: seq<CartEntry>)
    ensures |r| <= |cart|
    ensures forall k :: 0 <= k < |r| ==> r[k].bookId != bookId && r[k] in cart
  {
    Filter(cart, (e: CartEntry) => e.bookId != bookId)
  }

  /** After removal no entry names the book, and exactly the entries for
      other books remain. */
  lemma WithoutRemovesBook(cart: seq<CartEntry>, bookId: int)
    ensures Find(Without(cart, bookId), bookId).None?
    ensures InCart(Without(cart, bookId), bookId) == 0
    ensures forall e :: e in Without(cart, bookId) <==> e in cart && e.bookId != bookId
  {
    var w := Without(cart, bookId);
    forall e | e in cart && e.bookId != bookId ensures e in w {
      var k :| 0 <= k < |cart| && cart[k] == e;
    }
  }

  /** Removing a book the cart does not hold succeeds and changes nothing. */
  lemma WithoutAbsent(cart: seq<CartEntry>, bookId: int)
    requires Find(cart, bookId).None?
    ensures Without(cart, bookId) == cart
  {
    FilterKeepsAll(cart, (e: CartEntry) => e.bookId != bookId);
  }

  /** In a well-formed cart, removal drops the one entry for the book and keeps
      every other entry in its original order. */
  lemma WithoutPresent(cart: seq<CartEntry>, bookId: int)
    requires WellFormed(cart) && Find(cart, bookId).Some?
    ensures var i := Find(cart, bookId).value;
            Without(cart, bookId) == cart[..i] + cart[i+1..]
  {
    FilterDropsOne(cart, (e: CartEntry) => e.bookId != bookId, Find(cart, bookId).value);
  }

  /** Removal is idempotent. */
  lemma WithoutIdempotent(cart: seq<CartEntry>, bookId: int)
    ensures Without(Without(cart, bookId), bookId) == Without(cart, bookId)
  {
    FilterIdempotent(cart, (e: CartEntry) => e.bookId != bookId);
  }

  /** Removal keeps a cart well formed. */
  lemma {:induction false} WithoutWellFormed(cart: seq<CartEntry>, bookId: int)
    requires WellFormed(cart)
    ensures WellFormed(Without(cart, bookId))
  {
    if cart != [] {
      var t := cart[1..];
      assert WellFormed(t);
      WithoutWellFormed(t, bookId);
      var w := Without(t, bookId);
      assert forall k :: 0 <= k < |w| ==> w[k] in t;
      assert forall e :: e in t ==> e.bookId != cart[0].bookId;
      assert Without(cart, bookId) == (if cart[0].bookId != bookId then [cart[0]] else []) + w;
    }
  }
}
