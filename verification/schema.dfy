/** The two tables of the shopping-mall database, held as immutable values,
    and `create_tables`, which brings them into existence. */
module Schema {
  import opened Wrappers

  /** The `price REAL` column. Prices are stored and handed back, never
      computed with, so their representation is left abstract. */
  type Price(==)

  /** One row of `users`; `address` and `paymentInfo` are nullable columns. */
  datatype UserRow = UserRow(
    id: nat,
    username: string,
    password: string,
    role: string,
    fullName: string,
    address: Option<string>,
    paymentInfo: Option<string>)

  /** The columns of a product other than its id. */
  datatype Product = Product(name: string, category: string, price: Price, thumbnailUrl: string)

  /** One row of `products`. */
  datatype ProductRow = ProductRow(id: nat, product: Product)

  /** The `users` table: rows keyed by their UNIQUE username, and the next
      id the store will assign. */
  datatype UserTable = UserTable(rows: map<string, UserRow>, nextId: nat)

  /** The `products` table: an unordered collection of rows, and the next
      id the store will assign. */
  datatype ProductTable = ProductTable(rows: multiset<ProductRow>, nextId: nat)

  /** The database file. A table is None until `create_tables` has run. */
  datatype Store = Store(users: Option<UserTable>, products: Option<ProductTable>)

  /** The failures an operation can surface to its caller. */
  datatype Error =
    | NoSuchTable(table: string)                // sqlite3.OperationalError
    | UniqueViolation(column: string)           // sqlite3.IntegrityError
    | Unauthorized(status: int, detail: string) // HTTPException

  /** What a state transition yields: its answer and the store after it. */
  datatype Outcome<+T> = Outcome(result: Result<T, Error>, store: Store)

  /** The ids currently held by rows of `users`. */
  ghost function UserIds(t: UserTable): set<nat> {
    set k | k in t.rows :: t.rows[k].id
  }

  /** The ids currently held by rows of `products`. */
  ghost function ProductIds(t: ProductTable): set<nat> {
    set r | r in t.rows :: r.id
  }

  /** Every username occurs once (it is the row's key), and ids are distinct
      and below the next id to be assigned. */
  ghost predicate ValidUsers(t: UserTable) {
    && (forall k :: k in t.rows ==> t.rows[k].username == k)
    && (forall k :: k in t.rows ==> t.rows[k].id < t.nextId)
    && (forall k, k' :: k in t.rows && k' in t.rows && t.rows[k].id == t.rows[k'].id ==> k == k')
  }

  /** Each product row occurs once, under a distinct id below the next id to
      be assigned. */
  ghost predicate ValidProducts(t: ProductTable) {
    && (forall r :: r in t.rows ==> r.id < t.nextId && t.rows[r] == 1)
    && (forall r, r' :: r in t.rows && r' in t.rows && r.id == r'.id ==> r == r')
  }

  /** The integrity invariant of the whole database. */
  ghost predicate ValidStore(s: Store) {
    && (s.users.Some? ==> ValidUsers(s.users.value))
    && (s.products.Some? ==> ValidProducts(s.products.value))
  }

  /** A database file in which no table has been created. */
  const EmptyStore := Store(None, None)

  /** `create_tables`: CREATE TABLE IF NOT EXISTS for both tables. A missing
      table comes into existence empty; an existing one is left as it is. */
  function CreateTables(s: Store): (s': Store)
    ensures s'.users.Some? && s'.products.Some?
    ensures s.users.Some? ==> s'.users == s.users
    ensures s.products.Some? ==> s'.products == s.products
    ensures s.users.None? ==> s'.users.value.rows == map[]
    ensures s.products.None? ==> s'.products.value.rows == multiset{}
    ensures s.users.Some? && s.products.Some? ==> s' == s
    ensures ValidStore(s) ==> ValidStore(s')
  {
    Store(
      if s.users.Some? then s.users else Some(UserTable(map[], 1)),
      if s.products.Some? then s.products else Some(ProductTable(multiset{}, 1)))
  }

  /** Running `create_tables` twice is the same as running it once. */
  lemma CreateTablesIdempotent(s: Store)
    ensures CreateTables(CreateTables(s)) == CreateTables(s)
  {
  }
}
