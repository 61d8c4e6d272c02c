# Bookstore cart, order and stock ledger — a Dafny model

The bookstore is an Express application over SQLite. Staff (admins and
workers) manage books and orders, and clients shop through a session cart.
This project models the part that moves money-like quantities:

- the **cart routes** of the JSON API: view, add and remove, each behind the
  `client` role guard;
- **checkout**: it resolves or creates the user's client record, validates the
  cart against current stock, then commits one order with its items in a single
  transaction that lowers stock;
- the **staff order transaction** `POST /orders`, which lowers stock with no
  sufficiency check;
- **book deletion**, whose foreign key cascades to order items;
- the **access-control guards** `ensureAuthenticated` and `ensureRole`;
- **login and registration** against the users table;
- **pagination** arithmetic.

## How it is modelled

- **The database** is the class `Schema.Store`.
  - The users, clients, orders and order-items tables are sequences of rows kept
    in insertion order, and the books table is a map from id to book.
  - Each AUTOINCREMENT sequence is a `last…Id` counter.
  - `Store.Valid` is the schema's constraints as an invariant:
    - no id above its table's `last…Id` counter, so the next id is fresh
      (distinct and increasing ids are not stated);
    - unique logins;
    - a unique, existing `user_id` on clients;
    - every order's client exists;
    - every item's order and book exist.
  - Every operation that writes to the store keeps `Valid`.
- **A session** is the class `Api.Session`. It holds the user and the cart.
  Its invariant says the cart holds at most one entry per book, and every
  quantity is at least 1.
- **Route handlers** are methods.
  - Each runs its role guard first: `Api.ClientOnly`, `Api.Staff` or
    `Api.AdminOnly`.
  - The result is a `Reply`: a guard denial, `{ok: true}`, `{id}`, the cart
    entries, a 4xx error body, or a server error for an exception from the
    store.
  - The request's preference for JSON is the flag `acceptsJson`. It decides the
    form of a denial: a JSON 401/403, or a redirect or page.
- **A transaction** (`db.transaction`) first builds the new tables as values
  (`Ledger.StageItems`). The store's fields are assigned only when every
  statement has succeeded. A foreign-key failure therefore leaves the store
  unchanged, which is SQLite's rollback.
- **The order transaction is specified by functions.**
  - `Ledger.ItemsOf` gives the inserted item rows.
  - `Ledger.Deduct` gives the stock after the sequence of `UPDATE … SET
    quantity = quantity - ?` statements.
  - `Ledger.Demand` gives the total quantity asked of one book.
  - Lemmas relate these three to one another and to the cart.
- **Password hashing is outside the model.**
  - Registration receives the hash, already computed.
  - Login receives the hash comparison as a function parameter.

The evident design intent is that every order has at least one item, but the
code does not enforce it, and the model follows the code. `POST /orders`
(routes/api.js:170-185) accepts an empty `items` array and inserts an order
with no items. Deleting a book (db.js:76) can also leave an order without
items. `Api.CreateOrder` and `Schema.Store.DeleteBook` model both as written.

## Model

| member | source | states |
|---|---|---|
| Common.FirstWhere | routes/api.js:214 | `find` returns the first element that passes the test: the position found passes, no earlier one does, and None means no element passes |
| Common.FirstWhereIs | routes/api.js:214 | a position that passes, with no earlier position passing, is exactly what `find` returns |
| Common.Filter | routes/api.js:223 | `filter` keeps only passing elements, each drawn from the input, keeps every element that passes, and never grows the list |
| Common.FilterAppend | routes/api.js:223 | filtering a concatenation is the concatenation of the filtered parts, so relative order is kept |
| Common.FilterKeepsAll | routes/api.js:223 | when every element passes, filtering returns the list unchanged |
| Common.FilterIdempotent | routes/api.js:223 | filtering twice with the same test equals filtering once |
| Common.FilterDropsOne | routes/api.js:223 | when exactly one element fails, filtering removes that element and keeps the rest in order |
| Schema.ParseRole | db.js:35 | the role CHECK accepts exactly "admin", "worker" and "client", and each accepted role's stored name is the text given |
| Schema.IdsAppend | db.js:32 | inserting a row adds exactly its id to the table's ids |
| Schema.Store.Empty | db.js:30-78 | the freshly created schema has empty tables and satisfies every constraint |
| Schema.Store.DeleteBook | db.js:76 | deleting a book removes exactly that book; the cascade removes exactly the items that reference it and keeps the others in their order; the constraints still hold |
| Auth.IncludesIsMembership | auth.js:28 | `roles.includes(role)` is true exactly when the role is a member of the array |
| Auth.EnsureAuthenticated | auth.js:15-19 | `ensureAuthenticated` passes if and only if the session has a user, and otherwise answers 401 or a login redirect, never 403 |
| Auth.EnsureRole | auth.js:21-34 | `ensureRole` passes if and only if a user is signed in and the guard admits their role; with no user it answers 401 or a redirect, never 403; a signed-in user whose role is not admitted gets 403 |
| Auth.RoleGuardIsMembership | auth.js:27-32 | with a user and an array of roles, the guard passes if and only if the user's role is in the array, and otherwise answers 403 |
| Auth.SingleRoleGuard | auth.js:28-32 | with a user and a single role value, the guard passes if and only if the roles are equal, and otherwise answers 403 |
| Auth.NoRoleHierarchy | auth.js:27-32 | roles are not ordered: the client-only guard of the cart routes turns away an admin or a worker with 403 |
| Auth.AllRolesGuardIsAuthentication | auth.js:15-34 | a role guard that lists all three roles decides exactly as `ensureAuthenticated` |
| Auth.FindLogin | auth.js:38 | the user lookup by login returns the position of a row with that login, and returns nothing exactly when no row has it |
| Auth.LoginUser | auth.js:36-43 | login yields nothing if and only if no user with that login has a hash matching the password; otherwise it yields that user's id, login and role |
| Auth.RegisterUser | auth.js:45-53 | a taken login or a role the CHECK rejects is an error that writes nothing; otherwise exactly one user row is appended under a fresh id and returned, and the constraints still hold |
| Cart.Requested | routes/api.js:213 | the quantity one add requests is the given quantity when that is at least 1, and 1 otherwise |
| Cart.InCart | routes/api.js:214-215 | the quantity the cart holds of a book is 0 when no entry names it, and in a well-formed cart it is the quantity of the book's entry |
| Cart.Put | routes/api.js:214-217 | an existing entry for the book grows by the quantity in place and every other entry is unchanged; otherwise one new entry is appended with the book's current title and price |
| Cart.PutEffect | routes/api.js:214-217 | after an add the cart stays well formed, holds the book, holds exactly the quantity more of it than before, and holds the same of every other book |
| Cart.Without | routes/api.js:223 | removal never grows the cart; no remaining entry names the book, and every remaining entry comes from the cart |
| Cart.WithoutRemovesBook | routes/api.js:223 | after removal no entry names the book, and an entry remains if and only if it was present and names another book |
| Cart.WithoutAbsent | routes/api.js:221-225 | removing a book the cart does not hold leaves the cart unchanged |
| Cart.WithoutPresent | routes/api.js:221-225 | in a well-formed cart, removal drops the book's single entry and keeps the others in their order |
| Cart.WithoutIdempotent | routes/api.js:221-225 | removing the same book twice equals removing it once |
| Cart.WithoutWellFormed | routes/api.js:221-225 | removal keeps the cart well formed |
| Ledger.Decrement | routes/api.js:176-179 | one stock UPDATE lowers only the named book's stock, by exactly the line's quantity, and keeps its title and price; an unknown book changes nothing, and no book is added or removed |
| Ledger.Deduct | routes/api.js:176-180 | the stock decrements never add or remove a book |
| Ledger.DeductByDemand | routes/api.js:177-180 | after the decrements each book's stock has fallen by exactly the total quantity ordered of it, with no floor; title and price are unchanged |
| Ledger.StaffOrderCanOverdraw | routes/api.js:176-179 | concrete case: a staff order for 2 copies of a book with 0 in stock leaves its stock at -2 |
| Ledger.CartDemand | routes/api.js:249-252 | the lines a well-formed cart commits ask of each book exactly the quantity the cart holds of it |
| Ledger.FirstShortage | routes/api.js:240-244 | a book validation reports as missing is absent from the store; a book it reports as short of stock is present |
| Ledger.ShortageIsFirstBad | routes/api.js:240-244 | a reported shortage names the first entry that fails: every earlier entry's book exists with enough stock, and that entry's book is missing (reported as missing) or has less stock than the entry asks (reported as not enough stock, naming the book) |
| Ledger.NoShortageIffCovered | routes/api.js:240-244 | validation finds no problem if and only if every entry's book exists and has at least the entry's quantity in stock |
| Ledger.DuplicateEntriesOverdraw | routes/api.js:240-252 | concrete case: a cart with two entries of 3 copies for one book with stock 3 is not well-formed, passes the stock check, and the commit leaves the stock at -3 |
| Ledger.CheckoutKeepsStock | routes/api.js:240-252 | after the commit of a validated, well-formed cart, each book's stock has fallen by exactly the quantity in the cart, and stock that was non-negative stays non-negative |
| Ledger.CheckStock | routes/api.js:240-244 | the validation loop reports the first entry whose book is missing or short of stock, as the validation function defines it |
| Ledger.StageItems | routes/api.js:177-180 | the transaction body succeeds if and only if every line's book exists; it then yields the tables with the item rows appended in line order and the stock lowered by the decrements |
| Ledger.CommitKeepsSchema | db.js:61-77 | inserting an order for an existing client, with items for existing books, keeps the orders and items constraints |
| Ledger.InsertOrder | routes/api.js:173-183 | the transaction commits if and only if the client and every line's book exist; a commit inserts the order under the next id, the items under the next ids, and the decremented stock; a failure changes nothing; the constraints still hold |
| Ledger.FindClient | routes/api.js:232 | the client lookup by user returns the position of a client linked to the user, and returns nothing only when no client is linked to it |
| Ledger.ClientFor | routes/api.js:232-238 | the user's existing client is reused with nothing written; otherwise a client named after the login is linked to the user under a fresh id, or the foreign key fails with nothing written when the user does not exist; on success the user's client is the one returned |
| Api.Paginate | routes/api.js:9-13 | LIMIT is the page size clamped to 1..100: a size in range is kept, one above 100 gives 100, one below 1 gives 1, and an absent size gives 10; OFFSET is (page - 1) × LIMIT for page 1 and above, and 0 for lower or absent pages, so it is always a non-negative multiple of LIMIT |
| Api.PagesTile | routes/api.js:10-11 | consecutive pages have the same LIMIT, and page p + 1 starts where page p ends |
| Api.Session.Start | routes/pages.js:35 | a session created at login holds the user and an empty, well-formed cart |
| Api.SignIn | routes/pages.js:31-37 | login succeeds if and only if some user with that login has a hash matching the password; the session's user then becomes that user, and a failed login leaves the user as it was; the session's cart is kept either way |
| Api.SignUp | routes/pages.js:43-52 | registration fails if and only if the login is taken, leaving the store and the session's user unchanged; otherwise a client-role user is appended under the next id and becomes the session's user; the session's cart is kept |
| Api.GetCart | routes/api.js:201-204 | a guard denial is passed on; otherwise the reply is the session's cart entries |
| Api.AddToCart | routes/api.js:206-219 | a denial, an unknown book (404), non-positive stock (400) or an add that would exceed stock (400, stating the stock) leaves the cart unchanged; a successful add holds exactly the requested quantity more of the book, never more than its stock, and the same of every other book |
| Api.RemoveFromCart | routes/api.js:221-225 | a denial leaves the cart unchanged; otherwise the reply is ok, the cart is filtered to the other books, and it holds none of the book |
| Api.CommitCart | routes/api.js:245-256 | a validated cart becomes one "new" order under the next id with one item per entry, stock falls by each entry's quantity and stays non-negative where it was, the cart is emptied, and the constraints hold |
| Api.ValidateAndCommit | routes/api.js:239-257 | a failed validation replies with the error of the shortage validation reports (missing book, or not enough stock naming the book; Ledger.ShortageIsFirstBad shows it is the first failing entry) and changes nothing; otherwise the cart is committed as CommitCart states |
| Api.CheckoutAs | routes/api.js:231-257 | a user who no longer exists gives a server error with nothing written; otherwise the user's client is found or created, and validation and commit run for that client |
| Api.Checkout | routes/api.js:227-258 | covers each outcome: a denial, an empty cart (400), or the user gone (500), each writing nothing; a shortage (400), leaving orders, items, stock and the cart unchanged; or an order created for the user's client, with the items, stock and emptied cart stated |
| Api.CreateOrder | routes/api.js:170-185 | staff only; for a well-typed request body, the order is created if and only if the client and every book exist, and otherwise there is a server error with nothing written; the order has the given status (default "new"), one item per line, and each book's stock falls by its total ordered quantity, possibly below zero |
| Api.DeleteBook | routes/api.js:139-143 | admin only; the book is removed along with exactly the order items that reference it, the other items keep their order, and the constraints still hold |

## Left out

- **Number coercions and NaN.**
  - JavaScript's `Number(...)` of an absent or non-numeric query or body value
    gives NaN. An absent `quantity` makes the add request NaN copies. A
    non-numeric page or page size makes `LIMIT NaN`, an SQL error.
  - Non-integer numbers are also possible.
  - The model takes integer parameters. `Api.Paginate` treats an absent
    parameter as its default.
- **The type of `book_id` in the cart.** `POST /cart` stores `book_id` as the
  client sends it and compares it with `===` (routes/api.js:214).
  `DELETE /cart/:book_id` compares it with a number (routes/api.js:222-223).
  SQLite's `WHERE id = ?` finds book 1 for both `1` and `"1"`, but `===` does
  not treat them as equal. So a cart can hold two entries for one book, each
  checked against the stock on its own, and checkout can then take that
  book's stock below zero (see Findings). The model takes every book id to be
  an integer, as the shipped front end sends it. The one-entry-per-book
  invariant (`Cart.WellFormed`, kept by `Api.Session.Valid`) and the
  non-negative stock of `Ledger.CheckoutKeepsStock` hold only for such ids.
- **Number width.**
  - JavaScript numbers are doubles, so the cart's `inCart + qty` and
    `existing.quantity += qty` (routes/api.js:216-217) are exact only up to
    2^53.
  - SQLite INTEGER columns (ids, stock, quantities) are 64-bit.
  - The model uses unbounded integers, so it leaves out rounding and overflow
    at those widths.
- **Concurrency.**
  - Requests run one at a time in the model.
  - Checkout's validation and its commit are separate steps in the source, so
    stock can change between them. The model does not capture this.
- **Password hashing.** bcrypt's `hashSync` and `compareSync` are replaced by a
  precomputed hash and a comparison function parameter.
- **SQL and the database engine.**
  - The model leaves out the text of SQL statements, the WAL and foreign-key
    pragmas, table creation, seeding, and the `clients.user_id` migration.
  - Only the constraints are modelled, and only after migration.
  - `created_at` timestamps are not modelled. `author` is not modelled because
    no modelled route reads it.
- **Deletions the modelled routes do not perform.** Deleting a user sets the
  client's `user_id` to NULL. Deleting a client or an order cascades. Neither
  happens in the modelled routes.
- **Other parts of the application.** These are not part of this model:
  - the remaining CRUD routes (users, employees, clients, book listing and
    search, order listing and status update);
  - the export routes;
  - page rendering;
  - the front-end script.
- **Ill-typed `POST /orders` bodies.** Each of these fails inside the
  transaction, which rolls back and ends in a server error:
  - a missing `items` array, which throws at `for (const it of items)`;
  - a JSON `null` status, which the default `'new'` does not replace and
    which `status TEXT NOT NULL` rejects (db.js:65);
  - an item without `quantity` or `price`, which `NOT NULL` rejects
    (db.js:73-74).

  `Api.CreateOrder` receives a sequence of lines with integer quantities, a
  price each and an optional status, so none of these cases is modelled. Its
  "if and only if" holds for well-typed request bodies.
- **Prices** are SQLite REALs. They are modelled as `real`: stored and copied,
  never computed with. Order totals are not modelled.

## Findings

| source | as written | input that shows it | evidently intended | confidence | as-written member | corrected member |
|---|---|---|---|---|---|---|
| routes/api.js:214 | the cart finds an existing entry with `x.book_id === book_id`, so `"1"` and `1` make two entries for book 1, and checkout validates each entry on its own (routes/api.js:240-244) | book 1 with stock 3; `POST /cart` with `{book_id: 1, quantity: 3}`, then with `{book_id: "1", quantity: 3}`; then checkout | one entry per book, so checkout never takes stock below zero | not executed | Ledger.DuplicateEntriesOverdraw | Ledger.CheckoutKeepsStock |
