# Shopping-mall record store, modelled in Dafny

This project models the persistence layer of a small FastAPI shopping-mall
backend (`fastapi_app.py`): the `users` and `products` SQLite tables and the
helper functions that read and write them. The database is an immutable
value (`Schema.Store`) and every helper is a pure state transition that
answers with a result or an error, together with the store after the call.

- `users` is a map from username to row, because `username` is declared
  `UNIQUE`; each row carries a store-assigned id and nullable `address` and
  `payment_info` columns (`Option<string>`).
- `products` is a multiset of rows: `SELECT * FROM products` has no
  `ORDER BY`, so only the rows and their multiplicities are observable.
- A table that `create_tables` has not yet created is `None`; every
  statement on it fails with `NoSuchTable`, as sqlite raises
  `OperationalError` for a missing table.
- The UNIQUE violation of an insert (`IntegrityError`) and the 401 of a
  failed login are error outcomes; a failed call leaves the store as it was.
- Ids are drawn from a per-table counter. Contracts promise only that a new
  id is distinct from every id in the table, not which value it takes.
- `price` is an abstract type `Price`: it is only stored and handed back.

Each statement is also given a reference reading that scans every row and
tests its WHERE clause (`Users.WhereUsername`, `Users.WhereCredentials`,
`Users.UpdateWhere`, `Users.UsernameTaken`); lemmas show that the keyed
model agrees with it whenever the invariant `Schema.ValidStore` holds
(usernames are keys, ids distinct and below the counter). `Machine` puts the
helpers together as one state machine and proves that the invariant holds
along every run.

Files: `wrappers.dfy` (Option, Result), `schema.dfy` (rows, tables,
invariant, `create_tables`), `users.dfy`, `products.dfy`, `bootstrap.dfy`
(the lifespan startup step), `machine.dfy`.

Consequences of the code worth noting:
- `username` is declared `TEXT UNIQUE` (fastapi_app.py:26), so a second
  registration of a name fails with a uniqueness error.
- Startup checks only for the username "admin", so an existing row of that
  name keeps whatever role it has (`Bootstrap.Startup`).
- Login, lookup and listing are read-only by their signatures:
  `Users.Authenticate` and `Users.GetUserByUsername` return no store, and
  `Products.GetAllProducts` modifies nothing.

## Model

| member | source | states |
|---|---|---|
| Schema.CreateTables | fastapi_app.py:21-43 | both tables exist afterwards; a table that already existed is unchanged, a missing one is created empty; a store with both tables is left exactly as it was; the invariant is kept |
| Schema.CreateTablesIdempotent | fastapi_app.py:21-43 | running `create_tables` twice equals running it once |
| Users.InfoDropsOnlyId | fastapi_app.py:69 | the user dictionary built from a row drops exactly the id: two rows give equal dictionaries exactly when they agree on every other column |
| Users.NewUserRow | fastapi_app.py:25 | an inserted row holds exactly the given columns, under an id no existing row holds |
| Users.InsertUser | fastapi_app.py:48-49 | the INSERT fails with NoSuchTable on a missing table and with a UNIQUE violation exactly when the username is present (the constraint of line 26); otherwise it adds exactly one row with the given columns under a fresh id, keeps every other row and leaves `products` alone |
| Users.AddUser | fastapi_app.py:45-52 | on a fresh username: one new row with the given columns and a fresh id, all other rows and products unchanged, and the reply echoes the inputs (which equal the stored row minus its id) with "User created successfully!"; on a taken username or a missing table: the error, with the store unchanged; the invariant is kept |
| Users.RegisterAdmin | fastapi_app.py:54-60 | as `add_user` with role "admin" and null address and payment info; the reply echoes username, password, role and full name with "Admin registered successfully!" |
| Users.Authenticate | fastapi_app.py:62-72 | succeeds exactly when the row keyed by the username holds the given password, answering "Welcome back, u!" and that row's six columns; otherwise fails with 401 "Invalid username or password"; returns no store, so it cannot change one |
| Users.GetUserByUsername | fastapi_app.py:94-97 | fails only when the table is missing; otherwise finds a row exactly when the username is present, and then the full stored row |
| Users.UpdateUserInfo | fastapi_app.py:87-92 | reports success whenever the table exists; sets full name, address and payment info of the row keyed by the username and keeps its id, username, password and role; every other row, the key set, the id counter and `products` are unchanged; an absent username leaves the store unchanged; the invariant is kept |
| Users.WhereUsernameIsKeyed | fastapi_app.py:96 | under the invariant, `WHERE username = ?` selects the keyed row and no other |
| Users.WhereCredentialsIsKeyed | fastapi_app.py:65 | under the invariant, `WHERE username = ? AND password = ?` selects the keyed row when its password matches, and nothing otherwise |
| Users.InsertRejectedIffTaken | fastapi_app.py:26 | under the invariant, the insert raises the UNIQUE violation exactly when some row already carries the username |
| Users.AuthenticateAgreesWithQuery | fastapi_app.py:65-72 | under the invariant, login succeeds exactly when the credential query selects a row, answers with whichever row it selects, and fails with the 401 when it selects none |
| Users.GetUserAgreesWithQuery | fastapi_app.py:96-97 | under the invariant, the lookup never fails, finds a row exactly when the username query selects one, and finds that row |
| Users.UpdateAgreesWithQuery | fastapi_app.py:90 | under the invariant, updating the keyed row equals applying the UPDATE to every row whose username matches |
| Users.RegisterThenLogin | fastapi_app.py:45-72 | after a successful registration, logging in with the same username and password succeeds and returns exactly the registered columns |
| Users.WrongPasswordRefused | fastapi_app.py:65-72 | a present username with a different password is refused with 401 |
| Users.UpdateThenLookup | fastapi_app.py:87-97 | after updating a present user, the lookup returns the same id, username, password and role with the new profile columns |
| Products.Catalog | fastapi_app.py:79 | the listed dictionaries (name, category, price, thumbnail url, no id) are as many as the rows |
| Products.CatalogRemove | fastapi_app.py:79 | the listing does not depend on the order in which rows are taken |
| Products.CatalogAdd | fastapi_app.py:79 | one more row lists its product once more |
| Products.NewProductRow | fastapi_app.py:36 | an inserted product row holds the given columns under an id no existing row holds |
| Products.AddProduct | fastapi_app.py:81-85 | fails with NoSuchTable on a missing table; otherwise reports "Product added successfully!" and adds exactly one row, which holds the given columns under a fresh id; `users` is unchanged; the invariant is kept |
| Products.GetAllProducts | fastapi_app.py:74-79 | lists every row's product exactly as often as it occurs, ids dropped, in an unspecified order; an empty table gives the empty list; a missing table gives NoSuchTable |
| Products.AddProductIsListed | fastapi_app.py:74-85 | after `add_product` the listing holds the new product once more than before, so a product not listed before is listed exactly once, with the columns as given |
| Bootstrap.Startup | fastapi_app.py:8-11 | startup never fails and leaves a user "admin" in the table; if "admin" was present the store is that after `create_tables`; products are those after `create_tables`; the invariant is kept |
| Bootstrap.StartupSeedsAdmin | fastapi_app.py:10-11 | when "admin" is absent, startup adds exactly that row, with password "admin", role "admin", full name "Admin User", null address and payment info and a fresh id, and keeps every other user |
| Bootstrap.StartupIdempotent | fastapi_app.py:8-11 | a second startup leaves the store identical to the one after the first |
| Machine.StepPreservesValid | fastapi_app.py:26 | every helper call keeps usernames unique and ids distinct |
| Machine.RunPreservesValid | fastapi_app.py:26 | every sequence of helper calls from a valid store ends in a valid store |
| Machine.TablesAreIndependent | fastapi_app.py:45-92 | user operations never change `products`; `add_product` never changes `users` |
| Machine.FreshStartup | fastapi_app.py:7-11 | on an empty database file, startup yields a valid store whose only user is "admin" with role "admin" and whose catalog is empty |

## Left out

- The FastAPI endpoints (`/register`, `/login`, `/products`, `/add_product`, `/update_user_info`): each opens a connection, calls one helper and closes it on success (an exception skips the close and leaves the connection to be collected); the update endpoint accepts only non-null address and payment info, narrower than the helper modelled here.
- Opening and closing sqlite connections, the database file name, `commit`, and the async lifespan context manager: resource plumbing with no effect on the tables' contents.
- The id-allocation policy of `INTEGER PRIMARY KEY`: only freshness of a new id is stated.
- Floating-point behaviour of `price REAL`: the column is never computed with, so `Price` is abstract. Storage is not quite verbatim: SQLite stores a NaN double as NULL, so a product added with a NaN price is listed with a null price; the model does not distinguish NaN.
- Row order of `SELECT * FROM products`: not promised by SQL, so the listing is compared as a multiset.
- Concurrency, including two startups racing between the admin lookup and the insert: the model is sequential.
- NULL in the columns other than `address` and `payment_info`: every caller passes strings there, so those columns are `string`.
- SQL text parsing and failures of the store itself (disk errors, locking): below the level of the model.
