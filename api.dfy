/** The JSON API routes that touch the cart, orders and stock: pagination
    arithmetic, the cart routes (view, add, remove, checkout), staff order
    creation, and book deletion. Each route runs its role guard first; a
    request is one atomic step, and a store transaction is all-or-nothing. */
module Api {
  import opened Common
  import opened Schema
  import opened Auth
  import opened Cart
  import opened Ledger

  /** The LIMIT and OFFSET that `paginate` appends to a query. */
  datatype Window = Window(limit: int, offset: int)

  function Max(a: int, b: int): int { if a < b then b else a }

  function Min(a: int, b: int): int { if a < b then a else b }

  /** `paginate(query, { page = 1, pageSize = 10 })`, for integer parameters;
      None is an absent query parameter, which takes the default. */
  function Paginate(page: Option<int>, pageSize: Option<int>): (w: Window)
    ensures 1 <= w.limit <= 100
    ensures w.offset >= 0 && w.offset % w.limit == 0
    ensures pageSize.None? ==> w.limit == 10
    ensures pageSize.Some? && 1 <= pageSize.value <= 100 ==> w.limit == pageSize.value
    ensures pageSize.Some? && pageSize.value > 100 ==> w.limit == 100
    ensures pageSize.Some? && pageSize.value < 1 ==> w.limit == 1
    ensures page.None? || page.value <= 1 ==> w.offset == 0
    ensures page.Some? && page.value >= 1 ==> w.offset == (page.value - 1) * w.limit
  {
    var size := if pageSize.Some? then pageSize.value else 10;
    var p := if page.Some? then page.value else 1;
    var limit := Max(1, Min(100, size));
    MultipleOfLimit(Max(1, p) - 1, limit);
    Window(limit, (Max(1, p) - 1) * limit)
  }

  /** A positive factor keeps the sign of the other and does not shrink it. */
  lemma {:induction false} MulSign(a: int, d: int)
    requires a >= 1
    ensures d >= 1 ==> a * d >= a
    ensures d <= -1 ==> a * d <= -a
    decreases if d < 0 then -d else d
  {
    if d > 1 {
      MulSign(a, d - 1);
      assert a * d == a * (d - 1) + a;
    } else if d < -1 {
      MulSign(a, d + 1);
      assert a * d == a * (d + 1) - a;
    }
  }

  /** A multiple of `limit` leaves no remainder. */
  lemma MultipleOfLimit(n: nat, limit: int)
    requires limit >= 1
    ensures n * limit >= 0 && (n * limit) % limit == 0
  {
    var x := n * limit;
    var q, m := x / limit, x % limit;
    assert x == limit * q + m && 0 <= m < limit;
    assert limit * (n - q) == m;
    MulSign(limit, n - q);
    MulSign(limit, n);
  }

  /** Pages tile the result: page p + 1 starts where page p ends, so every row
      position lies on exactly one page. */
  lemma PagesTile(p: int, pageSize: Option<int>)
    requires p >= 1
    ensures var w, w' := Paginate(Some(p), pageSize), Paginate(Some(p + 1), pageSize);
            w'.limit == w.limit && w'.offset == w.offset + w.limit
  {
    var w := Paginate(Some(p), pageSize);
    assert p * w.limit == (p - 1) * w.limit + w.limit;
  }

  /** The session of one browser: the logged-in user, if any, and the cart. */
  class Session {
    var user: Option<SessionUser>
    var cart: seq<CartEntry>

    ghost predicate Valid()
      reads this
    {
      WellFormed(cart)
    }

    /** A session as login leaves it: a user and no cart yet (an absent cart
        reads as empty). */
    constructor Start(user: Option<SessionUser>)
      ensures Valid() && this.user == user && cart == []
    {
      this.user := user;
      cart := [];
    }
  }

  /** POST /login: on a good password the session's user becomes the one
      logged in; on a bad one the session is left as it was. Only the user is
      replaced: a cart already in the session stays and now belongs to the new
      user. */
  method SignIn(db: Store, s: Session, login: string, password: string, verify: (string, Hash) -> bool)
    returns (ok: bool)
    requires db.Valid() && s.Valid()
    modifies s`user
    ensures s.Valid() && s.cart == old(s.cart)
    ensures ok <==> exists k :: 0 <= k < |db.users| && db.users[k].data.login == login
                                && verify(password, db.users[k].data.passwordHash)
    ensures !ok ==> s.user == old(s.user)
    ensures ok ==> exists k :: 0 <= k < |db.users| && db.users[k].data.login == login
                             && verify(password, db.users[k].data.passwordHash)
                             && s.user == Some(SessionUser(db.users[k].id, login, db.users[k].data.role))
  {
    var u := LoginUser(db, login, password, verify);
    if u.None? {
      return false;
    }
    s.user := u;
    return true;
  }

  /** POST /register: registers a user with the client role and signs the
      session in as that user, keeping any cart the session holds. A taken
      login fails with the session and the store unchanged. */
  method SignUp(db: Store, s: Session, login: string, passwordHash: Hash)
    returns (r: Result<SessionUser, RegisterError>)
    requires db.Valid() && s.Valid()
    modifies db`users, db`lastUserId, s`user
    ensures db.Valid() && s.Valid() && s.cart == old(s.cart)
    ensures r.Err? <==> LoginTaken(old(db.users), login)
    ensures r.Err? ==> r.error == UserExists && s.user == old(s.user) && unchanged(db)
    ensures r.Ok? ==>
              && r.value == SessionUser(old(db.lastUserId) + 1, login, Client)
              && db.users == old(db.users) + [Row(r.value.id, User(login, passwordHash, Client))]
              && s.user == Some(r.value)
  {
    r := RegisterUser(db, login, passwordHash, RoleName(Client));
    if r.Ok? {
      s.user := Some(r.value);
    }
  }

  /** The guards the routes use. */
  const ClientOnly: Guard := AnyOf([Client])
  const Staff: Guard := AnyOf([Admin, Worker])
  const AdminOnly: Guard := AnyOf([Admin])

  /** The error bodies of the cart and checkout routes. */
  datatype ApiError =
    | BookNotFound            // the book does not exist
    | OutOfStock              // the book's stock is not positive
    | OnlyAvailable(stock: int)  // the add would exceed the stock; states the stock
    | EmptyCart               // checkout of an empty cart
    | NotEnoughStock(bookId: int)  // a cart entry asks more than the stock; names the book

  /** What a route answers. */
  datatype Reply =
    | Denied(verdict: Verdict)        // the guard's 401/403
    | Done                            // `{ ok: true }`
    | Created(id: int)                // `{ id }`
    | Entries(entries: seq<CartEntry>)  // `{ data: cart }`
    | Failed(status: int, error: ApiError)
    | ServerError                     // an uncaught store error: 500

  /** The error checkout reports for a failed validation. */
  function ShortageError(sh: Shortage): ApiError
  {
    match sh
    case Missing(_) => BookNotFound
    case Insufficient(b) => NotEnoughStock(b)
  }

  /** GET /cart: the entries, or an empty list when no cart exists yet. */
  method GetCart(s: Session, acceptsJson: bool) returns (r: Reply)
    ensures EnsureRole(ClientOnly, s.user, acceptsJson) != Pass ==>
              r == Denied(EnsureRole(ClientOnly, s.user, acceptsJson))
    ensures EnsureRole(ClientOnly, s.user, acceptsJson) == Pass ==> r == Entries(s.cart)
  {
    var v := EnsureRole(ClientOnly, s.user, acceptsJson);
    if v != Pass {
      return Denied(v);
    }
    return Entries(s.cart);
  }

  /** POST /cart: add `Math.max(1, quantity)` of a book. Rejected, with the
      cart unchanged, when the book does not exist (404), when its stock is not
      positive, or when the cart would then hold more than the stock (400).
      After a successful add the cart holds no more of the book than the stock
      read during the add. */
  method AddToCart(db: Store, s: Session, bookId: int, quantity: int, acceptsJson: bool)
    returns (r: Reply)
    requires s.Valid()
    modifies s`cart
    ensures s.Valid()
    ensures r != Done ==> s.cart == old(s.cart)
    ensures EnsureRole(ClientOnly, s.user, acceptsJson) != Pass ==>
              r == Denied(EnsureRole(ClientOnly, s.user, acceptsJson))
    ensures EnsureRole(ClientOnly, s.user, acceptsJson) == Pass && bookId !in db.books ==>
              r == Failed(404, BookNotFound)
    ensures EnsureRole(ClientOnly, s.user, acceptsJson) == Pass && bookId in db.books
            && db.books[bookId].stock <= 0 ==>
              r == Failed(400, OutOfStock)
    ensures EnsureRole(ClientOnly, s.user, acceptsJson) == Pass && bookId in db.books
            && db.books[bookId].stock > 0
            && InCart(old(s.cart), bookId) + Requested(quantity) > db.books[bookId].stock ==>
              r == Failed(400, OnlyAvailable(db.books[bookId].stock))
    ensures EnsureRole(ClientOnly, s.user, acceptsJson) == Pass && bookId in db.books
            && db.books[bookId].stock > 0
            && InCart(old(s.cart), bookId) + Requested(quantity) <= db.books[bookId].stock ==>
              && r == Done
              && s.cart == Put(old(s.cart), bookId, db.books[bookId].title, db.books[bookId].price,
                               Requested(quantity))
    ensures r == Done ==>
              && bookId in db.books
              && InCart(s.cart, bookId) == InCart(old(s.cart), bookId) + Requested(quantity)
              && InCart(s.cart, bookId) <= db.books[bookId].stock
              && forall b :: b != bookId ==> InCart(s.cart, b) == InCart(old(s.cart), b)
  {
    var v := EnsureRole(ClientOnly, s.user, acceptsJson);
    if v != Pass {
      return Denied(v);
    }
    if bookId !in db.books {
      return Failed(404, BookNotFound);
    }
    var book := db.books[bookId];
    if book.stock <= 0 {
      return Failed(400, OutOfStock);
    }
    var qty := Requested(quantity);
    var inCart := InCart(s.cart, bookId);
    if inCart + qty > book.stock {
      return Failed(400, OnlyAvailable(book.stock));
    }
    PutEffect(s.cart, bookId, book.title, book.price, qty);
    s.cart := Put(s.cart, bookId, book.title, book.price, qty);
    return Done;
  }

  /** DELETE /cart/:book_id: drop every entry for the book, keep the rest in
      order; succeeds whether or not the book was in the cart. */
  method RemoveFromCart(s: Session, bookId: int, acceptsJson: bool) returns (r: Reply)
    requires s.Valid()
    modifies s`cart
    ensures s.Valid()
    ensures EnsureRole(ClientOnly, s.user, acceptsJson) != Pass ==>
              r == Denied(EnsureRole(ClientOnly, s.user, acceptsJson)) && s.cart == old(s.cart)
    ensures EnsureRole(ClientOnly, s.user, acceptsJson) == Pass ==>
              && r == Done
              && s.cart == Without(old(s.cart), bookId)
              && InCart(s.cart, bookId) == 0
  {
    var v := EnsureRole(ClientOnly, s.user, acceptsJson);
    if v != Pass {
      return Denied(v);
    }
    WithoutWellFormed(s.cart, bookId);
    WithoutRemovesBook(s.cart, bookId);
    s.cart := Without(s.cart, bookId);
    return Done;
  }

  /** The commit of checkout for a validated cart: one order with status
      "new" for the client, one item per cart entry in cart order, each book's
      stock lowered by its entry's quantity (never below zero when it was not
      already), and the cart emptied. */
  method CommitCart(db: Store, s: Session, clientId: int) returns (orderId: int)
    requires db.Valid() && s.Valid() && clientId in Ids(db.clients)
    requires FirstShortage(db.books, s.cart).None?
    modifies db`orders, db`items, db`books, db`lastOrderId, db`lastItemId, s`cart
    ensures db.Valid() && s.Valid()
    ensures orderId == old(db.lastOrderId) + 1
    ensures db.orders == old(db.orders) + [Row(orderId, Order(clientId, "new"))]
    ensures db.items == old(db.items) + ItemsOf(orderId, old(db.lastItemId) + 1, LinesOf(old(s.cart)))
    ensures db.books == Deduct(old(db.books), LinesOf(old(s.cart)))
    ensures s.cart == []
    ensures forall b :: b in old(db.books) ==>
              && db.books[b].stock == old(db.books)[b].stock - InCart(old(s.cart), b)
              && (old(db.books)[b].stock >= 0 ==> db.books[b].stock >= 0)
  {
    var cart := s.cart;
    ghost var books0 := db.books;
    assert forall k :: 0 <= k < |cart| ==> cart[k].bookId in db.books by {
      NoShortageIffCovered(db.books, cart);
    }
    var order := InsertOrder(db, clientId, "new", LinesOf(cart));
    assert order.Ok?;
    assert forall b :: b in books0 ==>
             && db.books[b].stock == books0[b].stock - InCart(cart, b)
             && (books0[b].stock >= 0 ==> db.books[b].stock >= 0) by {
      CheckoutKeepsStock(books0, cart);
    }
    s.cart := [];
    return order.value;
  }

  /** The second half of checkout, once the client is known: validate every
      cart entry against current stock, then commit. A failed validation
      changes nothing. */
  method ValidateAndCommit(db: Store, s: Session, clientId: int) returns (r: Reply)
    requires db.Valid() && s.Valid() && clientId in Ids(db.clients)
    modifies db`orders, db`items, db`books, db`lastOrderId, db`lastItemId, s`cart
    ensures db.Valid() && s.Valid()
    ensures FirstShortage(old(db.books), old(s.cart)).Some? ==>
              && r == Failed(400, ShortageError(FirstShortage(old(db.books), old(s.cart)).value))
              && unchanged(db) && s.cart == old(s.cart)
    ensures FirstShortage(old(db.books), old(s.cart)).None? ==>
              && r == Created(old(db.lastOrderId) + 1)
              && db.orders == old(db.orders) + [Row(r.id, Order(clientId, "new"))]
              && db.items == old(db.items) + ItemsOf(r.id, old(db.lastItemId) + 1, LinesOf(old(s.cart)))
              && db.books == Deduct(old(db.books), LinesOf(old(s.cart)))
              && s.cart == []
              && forall b :: b in old(db.books) ==>
                   && db.books[b].stock == old(db.books)[b].stock - InCart(old(s.cart), b)
                   && (old(db.books)[b].stock >= 0 ==> db.books[b].stock >= 0)
  {
    var shortage := CheckStock(db, s.cart);
    if shortage.Some? {
      return Failed(400, ShortageError(shortage.value));
    }
    var orderId := CommitCart(db, s, clientId);
    return Created(orderId);
  }

  /** Checkout of a non-empty cart by a signed-in client: find or create the
      user's client (a server error, with nothing written, when the user no
      longer exists), then validate and commit the cart for that client. */
  method CheckoutAs(db: Store, s: Session, u: SessionUser) returns (r: Reply)
    requires db.Valid() && s.Valid() && s.cart != []
    modifies db`clients, db`lastClientId, db`orders, db`items, db`books, db`lastOrderId, db`lastItemId
    modifies s`cart
    ensures db.Valid() && s.Valid()
    ensures !r.Created? ==>
              && s.cart == old(s.cart)
              && db.orders == old(db.orders) && db.items == old(db.items) && db.books == old(db.books)
    ensures old(FindClient(db.clients, u.id)).None? && u.id !in Ids(db.users) ==>
              r == ServerError && unchanged(db)
    ensures r.Failed? || r.Created? ==>
              && FindClient(db.clients, u.id).Some?
              && (|| db.clients == old(db.clients)
                  || db.clients == old(db.clients) + [Row(db.lastClientId, ClientInfo(u.login, "", "", Some(u.id)))])
    ensures old(FindClient(db.clients, u.id)).Some? || u.id in Ids(db.users) ==>
              && (FirstShortage(old(db.books), old(s.cart)).Some? ==>
                    r == Failed(400, ShortageError(FirstShortage(old(db.books), old(s.cart)).value)))
              && (FirstShortage(old(db.books), old(s.cart)).None? ==> r.Created?)
    ensures r.Created? ==>
              && r.id == old(db.lastOrderId) + 1
              && db.orders == old(db.orders) + [Row(r.id, Order(db.clients[FindClient(db.clients, u.id).value].id, "new"))]
              && db.items == old(db.items) + ItemsOf(r.id, old(db.lastItemId) + 1, LinesOf(old(s.cart)))
              && db.books == Deduct(old(db.books), LinesOf(old(s.cart)))
              && s.cart == []
              && forall b :: b in old(db.books) ==>
                   && db.books[b].stock == old(db.books)[b].stock - InCart(old(s.cart), b)
                   && (old(db.books)[b].stock >= 0 ==> db.books[b].stock >= 0)
  {
    var client := ClientFor(db, u.id, u.login);
    if client.Err? {
      return ServerError;
    }
    assert FindClient(db.clients, u.id).Some? && db.clients[FindClient(db.clients, u.id).value].id == client.value;
    ghost var items1, lastItem1, cart1 := db.items, db.lastItemId, s.cart;
    assert items1 == old(db.items) && lastItem1 == old(db.lastItemId) && cart1 == old(s.cart);
    r := ValidateAndCommit(db, s, client.value);
    if r.Created? {
      assert db.items == items1 + ItemsOf(r.id, lastItem1 + 1, LinesOf(cart1));
    }
  }

  /** POST /cart/checkout. An empty cart fails before anything is written.
      Otherwise the user's client is found or created (a server error, with
      nothing written, when the session's user no longer exists), then the
      cart is validated and committed. A failed validation leaves orders,
      items, stock and the cart as they were, though a client created just
      before stays. A validated cart becomes one order with status "new" whose
      items follow the cart, each book's stock drops by its entry's quantity
      and stays non-negative, and the cart is emptied. */
  method Checkout(db: Store, s: Session, acceptsJson: bool) returns (r: Reply)
    requires db.Valid() && s.Valid()
    modifies db`clients, db`lastClientId, db`orders, db`items, db`books, db`lastOrderId, db`lastItemId
    modifies s`cart
    ensures db.Valid() && s.Valid()
    ensures !r.Created? ==> s.cart == old(s.cart)
    ensures !r.Created? ==> db.orders == old(db.orders) && db.items == old(db.items) && db.books == old(db.books)
    ensures EnsureRole(ClientOnly, s.user, acceptsJson) != Pass ==>
              r == Denied(EnsureRole(ClientOnly, s.user, acceptsJson)) && unchanged(db)
    ensures EnsureRole(ClientOnly, s.user, acceptsJson) == Pass && old(s.cart) == [] ==>
              r == Failed(400, EmptyCart) && unchanged(db)
    ensures EnsureRole(ClientOnly, s.user, acceptsJson) == Pass && old(s.cart) != []
            && old(FindClient(db.clients, s.user.value.id)).None? && s.user.value.id !in Ids(db.users) ==>
              r == ServerError && unchanged(db)
    ensures (r.Failed? && r.error != EmptyCart) || r.Created? ==>
              && s.user.Some?
              && FindClient(db.clients, s.user.value.id).Some?
              && (|| db.clients == old(db.clients)
                  || db.clients == old(db.clients)
                       + [Row(db.lastClientId, ClientInfo(s.user.value.login, "", "", Some(s.user.value.id)))])
    ensures EnsureRole(ClientOnly, s.user, acceptsJson) == Pass && old(s.cart) != []
            && (old(FindClient(db.clients, s.user.value.id)).Some? || s.user.value.id in Ids(db.users)) ==>
              && (FirstShortage(old(db.books), old(s.cart)).Some? ==>
                    r == Failed(400, ShortageError(FirstShortage(old(db.books), old(s.cart)).value)))
              && (FirstShortage(old(db.books), old(s.cart)).None? ==> r.Created?)
    ensures r.Created? ==>
              && r.id == old(db.lastOrderId) + 1
              && db.orders == old(db.orders)
                   + [Row(r.id, Order(db.clients[FindClient(db.clients, s.user.value.id).value].id, "new"))]
              && db.items == old(db.items) + ItemsOf(r.id, old(db.lastItemId) + 1, LinesOf(old(s.cart)))
              && db.books == Deduct(old(db.books), LinesOf(old(s.cart)))
              && s.cart == []
              && forall b :: b in old(db.books) ==>
                   && db.books[b].stock == old(db.books)[b].stock - InCart(old(s.cart), b)
                   && (old(db.books)[b].stock >= 0 ==> db.books[b].stock >= 0)
  {
    var v := EnsureRole(ClientOnly, s.user, acceptsJson);
    if v != Pass {
      return Denied(v);
    }
    if |s.cart| == 0 {
      return Failed(400, EmptyCart);
    }
    r := CheckoutAs(db, s, s.user.value);
  }

  /** The status a new staff order gets: the one given, or "new". */
  function StatusOrNew(status: Option<string>): string
  {
    match status
    case Some(st) => st
    case None => "new"
  }

  /** POST /orders (staff): one transaction inserting the order with the given
      status and one item per element of `items`, lowering each book's stock by
      the total quantity ordered of it with no sufficiency check, so stock may
      go negative. An unknown client or book rolls it all back and the request
      ends in a server error. */
  method CreateOrder(db: Store, s: Session, clientId: int, items: seq<Line>, status: Option<string>,
                     acceptsJson: bool)
    returns (r: Reply)
    requires db.Valid()
    modifies db`orders, db`items, db`books, db`lastOrderId, db`lastItemId
    ensures db.Valid()
    ensures !r.Created? ==> unchanged(db)
    ensures EnsureRole(Staff, s.user, acceptsJson) != Pass ==>
              r == Denied(EnsureRole(Staff, s.user, acceptsJson))
    ensures EnsureRole(Staff, s.user, acceptsJson) == Pass ==>
              if clientId in Ids(old(db.clients)) && forall k :: 0 <= k < |items| ==> items[k].bookId in old(db.books)
              then r == Created(old(db.lastOrderId) + 1)
              else r == ServerError
    ensures r.Created? ==>
              && db.orders == old(db.orders) + [Row(r.id, Order(clientId, StatusOrNew(status)))]
              && db.items == old(db.items) + ItemsOf(r.id, old(db.lastItemId) + 1, items)
              && db.books.Keys == old(db.books).Keys
              && forall b :: b in old(db.books) ==>
                   db.books[b] == old(db.books)[b].(stock := old(db.books)[b].stock - Demand(items, b))
  {
    var v := EnsureRole(Staff, s.user, acceptsJson);
    if v != Pass {
      return Denied(v);
    }
    var before := db.books;
    var order := InsertOrder(db, clientId, StatusOrNew(status), items);
    if order.Err? {
      return ServerError;
    }
    forall b | b in before
      ensures db.books[b] == before[b].(stock := before[b].stock - Demand(items, b))
    {
      DeductByDemand(before, items, b);
    }
    return Created(order.value);
  }

  /** DELETE /books/:id (admin): the book goes, and with it every order item
      that references it. */
  method DeleteBook(db: Store, s: Session, bookId: int, acceptsJson: bool) returns (r: Reply)
    requires db.Valid()
    modifies db`books, db`items
    ensures db.Valid()
    ensures EnsureRole(AdminOnly, s.user, acceptsJson) != Pass ==>
              r == Denied(EnsureRole(AdminOnly, s.user, acceptsJson)) && unchanged(db)
    ensures EnsureRole(AdminOnly, s.user, acceptsJson) == Pass ==>
              && r == Done
              && db.books == old(db.books) - {bookId}
              && db.items == ItemsWithout(old(db.items), bookId)
              && forall it :: it in db.items <==> it in old(db.items) && it.data.bookId != bookId
  {
    var v := EnsureRole(AdminOnly, s.user, acceptsJson);
    if v != Pass {
      return Denied(v);
    }
    db.DeleteBook(bookId);
    return Done;
  }
}
