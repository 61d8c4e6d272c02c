/** The relational store of the bookstore: the rows of its tables and the
    constraints the schema declares (unique logins, the role CHECK, the unique
    client-to-user link, foreign keys enforced with cascading deletes).
    SQL text, connection handling, seeding and migration are not modelled; only
    the constraints are, as the invariant `Store.Valid`. */
module Schema {
  import opened Common

  /** The three values the `role` column admits. */
  datatype Role = Admin | Worker | Client

  /** The text stored for each role (the `ROLES` constants). */
  function RoleName(r: Role): string
  {
    match r
    case Admin => "admin"
    case Worker => "worker"
    case Client => "client"
  }

  /** The `CHECK (role IN ('admin','worker','client'))` constraint: which text
      is accepted into the `role` column, and as which role. */
  function ParseRole(s: string): (r: Option<Role>)
    ensures r.Some? <==> s == "admin" || s == "worker" || s == "client"
    ensures r.Some? ==> RoleName(r.value) == s
  {
    if s == "admin" then Some(Admin)
    else if s == "worker" then Some(Worker)
    else if s == "client" then Some(Client)
    else None
  }

  /** A price (SQLite REAL); it is only stored and copied, never computed with. */
  type Price = real

  /** Output of the password hashing primitive, treated as opaque text. */
  type Hash = string

  /** A row of a table with an `INTEGER PRIMARY KEY AUTOINCREMENT` id. */
  datatype Row<T> = Row(id: int, data: T)

  datatype User = User(login: string, passwordHash: Hash, role: Role)
  datatype ClientInfo = ClientInfo(fullName: string, contact: string, notes: string, userId: Option<int>)
  datatype Book = Book(title: string, price: Price, stock: int)
  datatype Order = Order(clientId: int, status: string)
  datatype Item = Item(orderId: int, bookId: int, quantity: int, price: Price)

  /** The ids present in a table. */
  function Ids<T>(rows: seq<Row<T>>): set<int>
  {
    set k | 0 <= k < |rows| :: rows[k].id
  }

  /** Appending a row adds exactly its id. */
  lemma IdsAppend<T>(rows: seq<Row<T>>, r: Row<T>)
    ensures Ids(rows + [r]) == Ids(rows) + {r.id}
  {
    var s := rows + [r];
    forall id | id in Ids(rows) ensures id in Ids(s) {
      var k :| 0 <= k < |rows| && rows[k].id == id;
      assert s[k].id == id;
    }
    assert s[|rows|].id == r.id;
  }

  /** AUTOINCREMENT: no row carries an id above the table's sequence counter, so
      `last + 1` is an id no row has. */
  ghost predicate IdsUpTo<T>(rows: seq<Row<T>>, last: int)
  {
    forall k :: 0 <= k < |rows| ==> rows[k].id <= last
  }

  /** `login TEXT UNIQUE NOT NULL` */
  ghost predicate LoginsUnique(users: seq<Row<User>>)
  {
    forall i, j :: 0 <= i < j < |users| ==> users[i].data.login != users[j].data.login
  }

  /** `user_id INTEGER UNIQUE`: NULLs may repeat, other values may not. */
  ghost predicate UserLinksUnique(clients: seq<Row<ClientInfo>>)
  {
    forall i, j :: 0 <= i < j < |clients| && clients[i].data.userId.Some? ==>
      clients[i].data.userId != clients[j].data.userId
  }

  /** The users table: fresh ids, unique logins. */
  ghost predicate UsersOk(users: seq<Row<User>>, lastUserId: int)
  {
    IdsUpTo(users, lastUserId) && LoginsUnique(users)
  }

  /** The clients table: fresh ids, and each non-NULL `user_id` unique and
      naming an existing user. */
  ghost predicate ClientsOk(clients: seq<Row<ClientInfo>>, lastClientId: int, users: seq<Row<User>>)
  {
    && IdsUpTo(clients, lastClientId) && UserLinksUnique(clients)
    && (forall k :: 0 <= k < |clients| && clients[k].data.userId.Some? ==> clients[k].data.userId.value in Ids(users))
  }

  /** The orders table: fresh ids, each order's client exists. */
  ghost predicate OrdersOk(orders: seq<Row<Order>>, lastOrderId: int, clients: seq<Row<ClientInfo>>)
  {
    IdsUpTo(orders, lastOrderId) && (forall k :: 0 <= k < |orders| ==> orders[k].data.clientId in Ids(clients))
  }

  /** The order items table: fresh ids, each item's order and book exist. */
  ghost predicate ItemsOk(items: seq<Row<Item>>, lastItemId: int, orders: seq<Row<Order>>, books: map<int, Book>)
  {
    && IdsUpTo(items, lastItemId)
    && (forall k :: 0 <= k < |items| ==> items[k].data.orderId in Ids(orders) && items[k].data.bookId in books)
  }

  /** The order items left after deleting a book: those that do not reference
      it, in their original order. */
  function ItemsWithout(items: seq<Row<Item>>, bookId: int): seq<Row<Item>>
  {
    Filter(items, (it: Row<Item>) => it.data.bookId != bookId)
  }

  /** The database. `books` is keyed by id; the other tables are kept in
      insertion order. `Valid` bounds each table's ids by its counter, which
      is what makes the next id fresh; it does not state that ids are
      distinct or increasing. */
  class Store {
    var users: seq<Row<User>>
    var clients: seq<Row<ClientInfo>>
    var books: map<int, Book>
    var orders: seq<Row<Order>>
    var items: seq<Row<Item>>
    var lastUserId: int
    var lastClientId: int
    var lastOrderId: int
    var lastItemId: int

    /** The schema's constraints, with foreign keys enforced. */
    ghost predicate Valid()
      reads this
    {
      && UsersOk(users, lastUserId)
      && ClientsOk(clients, lastClientId, users)
      && OrdersOk(orders, lastOrderId, clients)
      && ItemsOk(items, lastItemId, orders, books)
    }

    /** A freshly created database, before any seeding. */
    constructor Empty()
      ensures Valid()
      ensures users == [] && clients == [] && books == map[] && orders == [] && items == []
    {
      users, clients, books, orders, items := [], [], map[], [], [];
      lastUserId, lastClientId, lastOrderId, lastItemId := 0, 0, 0, 0;
    }

    /** `DELETE FROM books WHERE id = ?`; the foreign key `ON DELETE CASCADE`
        removes every order item that references the book. Orders themselves
        stay, even when this leaves one without items. */
    method DeleteBook(bookId: int)
      requires Valid()
      modifies this`books, this`items
      ensures Valid()
      ensures books == old(books) - {bookId}
      ensures items == ItemsWithout(old(items), bookId)
      ensures forall it :: it in items <==> it in old(items) && it.data.bookId != bookId
    {
      books := books - {bookId};
      items := ItemsWithout(items, bookId);
      forall it | it in items ensures it in old(items) && it.data.bookId != bookId {
        var k :| 0 <= k < |items| && items[k] == it;
      }
      forall it | it in old(items) && it.data.bookId != bookId ensures it in items {
        var k :| 0 <= k < |old(items)| && old(items)[k] == it;
      }
    }
  }
}
