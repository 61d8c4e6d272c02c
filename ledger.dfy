/** The order ledger: the all-or-nothing transaction that records an order with
    its items and takes the ordered quantities out of stock, the read-only stock
    validation that checkout runs first, and the lookup-or-creation of the
    client record checkout orders for. */
module Ledger {
  import opened Common
  import opened Schema
  import opened Cart

  /** One `{book_id, quantity, price}` element of an order request. */
  datatype Line = Line(bookId: int, quantity: int, price: Price)

  /** Why a statement fails inside the store. */
  datatype DbError = ForeignKeyViolation

  /** The lines checkout orders: one per cart entry, in cart order, with the
      cart's quantity and captured price. */
  function LinesOf(cart: seq<CartEntry>): seq<Line>
  {
    seq(|cart|, k requires 0 <= k < |cart| => Line(cart[k].bookId, cart[k].quantity, cart[k].price))
  }

  /** `UPDATE books SET quantity = quantity - ? WHERE id = ?` for one line;
      no row matches an unknown id. */
  function Decrement(books: map<int, Book>, line: Line): (r: map<int, Book>)
    ensures r.Keys == books.Keys
    ensures forall b :: b in books && b != line.bookId ==> r[b] == books[b]
    ensures line.bookId in books ==>
              r[line.bookId] == books[line.bookId].(stock := books[line.bookId].stock - line.quantity)
  {
    if line.bookId in books
    then books[line.bookId := books[line.bookId].(stock := books[line.bookId].stock - line.quantity)]
    else books
  }

  /** The stock after the decrement of every line, in order. */
  function Deduct(books: map<int, Book>, lines: seq<Line>): (r: map<int, Book>)
    ensures r.Keys == books.Keys
    decreases |lines|
  {
    if lines == [] then books
    else Decrement(Deduct(books, lines[..|lines| - 1]), lines[|lines| - 1])
  }

  /** Total quantity the lines ask of one book. */
  function Demand(lines: seq<Line>, bookId: int): int
    decreases |lines|
  {
    if lines == [] then 0
    else
      var last := lines[|lines| - 1];
      Demand(lines[..|lines| - 1], bookId) + (if last.bookId == bookId then last.quantity else 0)
  }

  /** The item rows an order inserts: the k-th line becomes the item with id
      `firstId + k`, carrying that line's book, quantity and price. */
  function ItemsOf(orderId: int, firstId: int, lines: seq<Line>): seq<Row<Item>>
  {
    seq(|lines|, k requires 0 <= k < |lines| =>
      Row(firstId + k, Item(orderId, lines[k].bookId, lines[k].quantity, lines[k].price)))
  }

  /** Each book's stock drops by exactly its total demand, with no floor: the
      lines may take it below zero. Title and price are untouched. */
  lemma {:induction false} DeductByDemand(books: map<int, Book>, lines: seq<Line>, bookId: int)
    requires bookId in books
    ensures Deduct(books, lines)[bookId]
         == books[bookId].(stock := books[bookId].stock - Demand(lines, bookId))
  {
    if lines != [] {
      DeductByDemand(books, lines[..|lines| - 1], bookId);
    }
  }

  /** Staff orders are not checked against stock: ordering two copies of a
      book with none left leaves its stock at -2. */
  lemma StaffOrderCanOverdraw()
    ensures Deduct(map[1 := Book("t", 1.0, 0)], [Line(1, 2, 1.0)])[1].stock == -2
  {
    DeductByDemand(map[1 := Book("t", 1.0, 0)], [Line(1, 2, 1.0)], 1);
  }

  /** The lines of a well-formed cart ask of each book exactly what the cart
      holds for it. */
  lemma {:induction false} CartDemand(cart: seq<CartEntry>, bookId: int)
    requires WellFormed(cart)
    ensures Demand(LinesOf(cart), bookId) == InCart(cart, bookId)
  {
    if cart != [] {
      var n := |cart| - 1;
      var front := cart[..n];
      assert WellFormed(front);
      assert LinesOf(cart)[..n] == LinesOf(front);
      CartDemand(front, bookId);
      if cart[n].bookId == bookId {
        FirstWhereIs(cart, (e: CartEntry) => e.bookId == bookId, n);
      } else if Find(front, bookId).Some? {
        FirstWhereIs(cart, (e: CartEntry) => e.bookId == bookId, Find(front, bookId).value);
      }
    }
  }

  /** Why checkout's validation stops: the first cart entry whose book is gone,
      or whose book holds less stock than the entry asks. */
  datatype Shortage = Missing(bookId: int) | Insufficient(bookId: int)

  /** An entry passes validation: its book exists and holds at least the
      entry's quantity. */
  predicate Covered(books: map<int, Book>, e: CartEntry)
  {
    e.bookId in books && e.quantity <= books[e.bookId].stock
  }

  /** The shortage validation reports for an entry that does not pass. */
  predicate Blames(books: map<int, Book>, e: CartEntry, sh: Shortage)
  {
    if e.bookId !in books then sh == Missing(e.bookId)
    else e.quantity > books[e.bookId].stock && sh == Insufficient(e.bookId)
  }

  /** The validation pass over the cart, stopping at the first bad entry. A
      reported missing book is absent from the store; a reported short one is
      present. */
  function FirstShortage(books: map<int, Book>, cart: seq<CartEntry>): (r: Option<Shortage>)
    ensures r.Some? && r.value.Missing? ==> r.value.bookId !in books
    ensures r.Some? && r.value.Insufficient? ==> r.value.bookId in books
  {
    if cart == [] then None
    else if cart[0].bookId !in books then Some(Missing(cart[0].bookId))
    else if books[cart[0].bookId].stock < cart[0].quantity then Some(Insufficient(cart[0].bookId))
    else FirstShortage(books, cart[1..])
  }

  /** Validation passes exactly when every entry's book exists and holds at
      least the entry's quantity. */
  lemma {:induction false} NoShortageIffCovered(books: map<int, Book>, cart: seq<CartEntry>)
    ensures FirstShortage(books, cart).None? <==>
            forall k :: 0 <= k < |cart| ==>
              cart[k].bookId in books && cart[k].quantity <= books[cart[k].bookId].stock
  {
    if cart != [] {
      NoShortageIffCovered(books, cart[1..]);
      assert forall k :: 1 <= k < |cart| ==> cart[k] == cart[1..][k - 1];
    }
  }

  /** A reported shortage names the first entry that fails validation: every
      earlier entry passes, and that entry's book is missing (reported as
      Missing) or holds less than the entry asks (reported as Insufficient). */
  lemma {:induction false} ShortageIsFirstBad(books: map<int, Book>, cart: seq<CartEntry>)
    requires FirstShortage(books, cart).Some?
    ensures exists i :: 0 <= i < |cart|
              && (forall k :: 0 <= k < i ==> Covered(books, cart[k]))
              && Blames(books, cart[i], FirstShortage(books, cart).value)
  {
    if Covered(books, cart[0]) {
      var t := cart[1..];
      ShortageIsFirstBad(books, t);
      var j :| 0 <= j < |t| && (forall k :: 0 <= k < j ==> Covered(books, t[k]))
                && Blames(books, t[j], FirstShortage(books, t).value);
      assert t[j] == cart[j + 1];
      forall k | 0 <= k < j + 1 ensures Covered(books, cart[k]) {
        if k > 0 { assert cart[k] == t[k - 1]; }
      }
    } else {
      assert Blames(books, cart[0], FirstShortage(books, cart).value);
    }
  }

  /** A validated, well-formed cart never drives stock negative: each book's
      stock falls by what the cart holds for it, and any book that had
      non-negative stock still has. */
  lemma CheckoutKeepsStock(books: map<int, Book>, cart: seq<CartEntry>)
    requires WellFormed(cart) && FirstShortage(books, cart).None?
    ensures forall b :: b in books ==>
              Deduct(books, LinesOf(cart))[b].stock == books[b].stock - InCart(cart, b)
    ensures forall b :: b in books && books[b].stock >= 0 ==> Deduct(books, LinesOf(cart))[b].stock >= 0
  {
    NoShortageIffCovered(books, cart);
    forall b | b in books
      ensures Deduct(books, LinesOf(cart))[b].stock == books[b].stock - InCart(cart, b)
      ensures books[b].stock >= 0 ==> Deduct(books, LinesOf(cart))[b].stock >= 0
    {
      DeductByDemand(books, LinesOf(cart), b);
      CartDemand(cart, b);
      if Find(cart, b).Some? {
        var i := Find(cart, b).value;
        assert cart[i].quantity <= books[cart[i].bookId].stock;
      }
    }
  }

  /** A cart holding two entries for one book, which the cart routes produce
      when the same book is added once under a numeric id and once under a
      string id: each entry passes validation on its own, and the commit then
      takes the book's stock below zero. */
  lemma DuplicateEntriesOverdraw()
    ensures var books := map[1 := Book("t", 1.0, 3)];
            var cart := [CartEntry(1, "t", 1.0, 3), CartEntry(1, "t", 1.0, 3)];
            && !WellFormed(cart)
            && FirstShortage(books, cart).None?
            && Deduct(books, LinesOf(cart))[1].stock == -3
  {
    var books := map[1 := Book("t", 1.0, 3)];
    var cart := [CartEntry(1, "t", 1.0, 3), CartEntry(1, "t", 1.0, 3)];
    assert FirstShortage(books, cart[1..]).None?;
    var lines := LinesOf(cart);
    assert lines == [Line(1, 3, 1.0), Line(1, 3, 1.0)];
    assert lines[..1] == [Line(1, 3, 1.0)] && lines[..1][..0] == [];
    assert Demand(lines[..1], 1) == 3;
    assert Demand(lines, 1) == 6;
    DeductByDemand(books, lines, 1);
  }

  /** The validation loop of checkout: reads each entry's stock in cart order
      and reports the first problem. */
  method CheckStock(db: Store, cart: seq<CartEntry>) returns (s: Option<Shortage>)
    ensures s == FirstShortage(db.books, cart)
  {
    var i := 0;
    while i < |cart|
      invariant 0 <= i <= |cart|
      invariant FirstShortage(db.books, cart) == FirstShortage(db.books, cart[i..])
    {
      assert cart[i..][1..] == cart[i + 1..];
      var e := cart[i];
      if e.bookId !in db.books {
        return Some(Missing(e.bookId));
      }
      if db.books[e.bookId].stock < e.quantity {
        return Some(Insufficient(e.bookId));
      }
      i := i + 1;
    }
    return None;
  }

  /** The body of the order transaction, writing to copies of the tables: for
      each line, insert its item and decrement its book's stock. It stops at
      the first line naming a book that does not exist (the item's foreign
      key), in which case nothing is kept. Stock sufficiency is not checked. */
  method StageItems(db: Store, orderId: int, firstItemId: int, lines: seq<Line>)
    returns (r: Option<(seq<Row<Item>>, map<int, Book>)>)
    ensures r.Some? <==> forall k :: 0 <= k < |lines| ==> lines[k].bookId in db.books
    ensures r.Some? ==> r.value == (db.items + ItemsOf(orderId, firstItemId, lines), Deduct(db.books, lines))
  {
    var items := db.items;
    var books := db.books;
    var i := 0;
    while i < |lines|
      invariant 0 <= i <= |lines|
      invariant forall k :: 0 <= k < i ==> lines[k].bookId in db.books
      invariant items == db.items + ItemsOf(orderId, firstItemId, lines[..i])
      invariant books == Deduct(db.books, lines[..i])
    {
      var line := lines[i];
      if line.bookId !in books {
        return None;
      }
      items := items + [Row(firstItemId + i, Item(orderId, line.bookId, line.quantity, line.price))];
      books := Decrement(books, line);
      assert lines[..i + 1][..i] == lines[..i];
      i := i + 1;
    }
    assert lines[..i] == lines;
    return Some((items, books));
  }

  /** Committing an order whose client and books exist keeps the orders and
      items tables consistent. */
  lemma CommitKeepsSchema(orders: seq<Row<Order>>, lastOrderId: int, clients: seq<Row<ClientInfo>>,
                          items: seq<Row<Item>>, lastItemId: int, books: map<int, Book>,
                          clientId: int, status: string, lines: seq<Line>,
                          orders': seq<Row<Order>>, items': seq<Row<Item>>, books': map<int, Book>)
    requires OrdersOk(orders, lastOrderId, clients) && ItemsOk(items, lastItemId, orders, books)
    requires clientId in Ids(clients)
    requires forall k :: 0 <= k < |lines| ==> lines[k].bookId in books
    requires orders' == orders + [Row(lastOrderId + 1, Order(clientId, status))]
    requires items' == items + ItemsOf(lastOrderId + 1, lastItemId + 1, lines)
    requires books' == Deduct(books, lines)
    ensures OrdersOk(orders', lastOrderId + 1, clients)
    ensures ItemsOk(items', lastItemId + |lines|, orders', books')
  {
    var order := Row(lastOrderId + 1, Order(clientId, status));
    IdsAppend(orders, order);
    var added := ItemsOf(lastOrderId + 1, lastItemId + 1, lines);
    var all := items + added;
    forall k | 0 <= k < |all|
      ensures all[k].id <= lastItemId + |lines|
      ensures all[k].data.orderId in Ids(orders + [order]) && all[k].data.bookId in Deduct(books, lines)
    {
      if k >= |items| {
        assert all[k] == added[k - |items|];
      } else {
        assert all[k] == items[k] && items[k] in items;
      }
    }
  }

  /** The order transaction: insert the order, then its items with their stock
      decrements. A foreign-key failure (an unknown client, or a line naming a
      book that does not exist) rolls everything back. */
  method InsertOrder(db: Store, clientId: int, status: string, lines: seq<Line>)
    returns (r: Result<int, DbError>)
    requires db.Valid()
    modifies db`orders, db`items, db`books, db`lastOrderId, db`lastItemId
    ensures db.Valid()
    ensures r.Ok? <==> && clientId in Ids(old(db.clients))
                       && forall k :: 0 <= k < |lines| ==> lines[k].bookId in old(db.books)
    ensures r.Err? ==> unchanged(db)
    ensures r.Ok? ==>
              && r.value == old(db.lastOrderId) + 1
              && r.value !in Ids(old(db.orders))
              && db.orders == old(db.orders) + [Row(r.value, Order(clientId, status))]
              && db.items == old(db.items) + ItemsOf(r.value, old(db.lastItemId) + 1, lines)
              && db.books == Deduct(old(db.books), lines)
              && db.lastOrderId == r.value
              && db.lastItemId == old(db.lastItemId) + |lines|
  {
    if clientId !in Ids(db.clients) {
      return Err(ForeignKeyViolation);
    }
    var orderId := db.lastOrderId + 1;
    var firstItemId := db.lastItemId + 1;
    var staged := StageItems(db, orderId, firstItemId, lines);
    if staged.None? {
      return Err(ForeignKeyViolation);
    }
    var (items, books) := staged.value;
    var order := Row(orderId, Order(clientId, status));
    ghost var orders0, items0, books0 := db.orders, db.items, db.books;
    ghost var lastOrder0, lastItem0 := db.lastOrderId, db.lastItemId;
    db.orders := db.orders + [order];
    db.items := items;
    db.books := books;
    db.lastOrderId := orderId;
    db.lastItemId := db.lastItemId + |lines|;
    CommitKeepsSchema(orders0, lastOrder0, db.clients, items0, lastItem0, books0, clientId, status, lines,
                      db.orders, db.items, db.books);
    return Ok(orderId);
  }

  /** `SELECT id FROM clients WHERE user_id = ?`: the position of the client
      linked to the user, or None exactly when no client is. */
  function FindClient(clients: seq<Row<ClientInfo>>, userId: int): (r: Option<nat>)
    ensures r.Some? ==> r.value < |clients| && clients[r.value].data.userId == Some(userId)
    ensures r.None? ==> forall k :: 0 <= k < |clients| ==> clients[k].data.userId != Some(userId)
  {
    FirstWhere(clients, (c: Row<ClientInfo>) => c.data.userId == Some(userId))
  }

  /** The client checkout orders for: the one linked to the user, or else a new
      one named after the user's login with empty contact and notes, linked to
      the user. Creating it fails on the foreign key when the user no longer
      exists. On success the user's client is the one returned, so a second
      call finds it and creates nothing. */
  method ClientFor(db: Store, userId: int, login: string) returns (r: Result<int, DbError>)
    requires db.Valid()
    modifies db`clients, db`lastClientId
    ensures db.Valid()
    ensures old(FindClient(db.clients, userId)).Some? ==>
              r == Ok(old(db.clients[FindClient(db.clients, userId).value].id)) && unchanged(db)
    ensures old(FindClient(db.clients, userId)).None? && userId !in Ids(db.users) ==>
              r == Err(ForeignKeyViolation) && unchanged(db)
    ensures old(FindClient(db.clients, userId)).None? && userId in Ids(db.users) ==>
              && r == Ok(old(db.lastClientId) + 1)
              && r.value !in Ids(old(db.clients))
              && db.clients == old(db.clients) + [Row(r.value, ClientInfo(login, "", "", Some(userId)))]
              && db.lastClientId == r.value
    ensures r.Ok? ==>
              && r.value in Ids(db.clients)
              && FindClient(db.clients, userId).Some?
              && db.clients[FindClient(db.clients, userId).value].id == r.value
  {
    var found := FindClient(db.clients, userId);
    if found.Some? {
      return Ok(db.clients[found.value].id);
    }
    if userId !in Ids(db.users) {
      return Err(ForeignKeyViolation);
    }
    var id := db.lastClientId + 1;
    var row := Row(id, ClientInfo(login, "", "", Some(userId)));
    IdsAppend(db.clients, row);
    db.clients := db.clients + [row];
    db.lastClientId := id;
    FirstWhereIs(db.clients, (c: Row<ClientInfo>) => c.data.userId == Some(userId), |db.clients| - 1);
    return Ok(id);
  }
}
