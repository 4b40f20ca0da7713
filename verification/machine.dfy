/** The record store as a state machine: each helper of the application is
    one step, and the integrity invariant (unique usernames, distinct ids)
    holds along every run that starts from a valid store. */
module Machine {
  import opened Wrappers
  import opened Schema
  import opened Users
  import opened Products
  import opened Bootstrap

  /** One call into the record store, with its arguments. */
  datatype Op =
    | CreateTablesOp
    | StartupOp
    | AddUserOp(username: string, password: string, role: string, fullName: string,
                address: Option<string>, paymentInfo: Option<string>)
    | RegisterAdminOp(username: string, password: string, fullName: string)
    | AuthenticateOp(username: string, password: string)
    | GetUserOp(username: string)
    | UpdateUserOp(username: string, fullName: string, address: Option<string>, paymentInfo: Option<string>)
    | AddProductOp(name: string, category: string, price: Price, thumbnailUrl: string)
    | ListProductsOp

  /** The store after one call. The queries return no store (and
      `GetAllProducts` modifies nothing), so they leave it as it is. */
  function Step(s: Store, op: Op): Store {
    match op
    case CreateTablesOp => CreateTables(s)
    case StartupOp => Startup(s).value
    case AddUserOp(u, p, r, f, a, pi) => AddUser(s, u, p, r, f, a, pi).store
    case RegisterAdminOp(u, p, f) => RegisterAdmin(s, u, p, f).store
    case AuthenticateOp(_, _) => s
    case GetUserOp(_) => s
    case UpdateUserOp(u, f, a, pi) => UpdateUserInfo(s, u, f, a, pi).store
    case AddProductOp(n, c, pr, url) => AddProduct(s, n, c, pr, url).store
    case ListProductsOp => s
  }

  /** The store after a sequence of calls. */
  function Run(s: Store, ops: seq<Op>): Store
    decreases |ops|
  {
    if ops == [] then s else Run(Step(s, ops[0]), ops[1..])
  }

  /** Every single call keeps the invariant. */
  lemma StepPreservesValid(s: Store, op: Op)
    requires ValidStore(s)
    ensures ValidStore(Step(s, op))
  {
  }

  /** Every run from a valid store ends in a valid store: in particular no
      two users ever share a username. */
  lemma {:induction false} RunPreservesValid(s: Store, ops: seq<Op>)
    requires ValidStore(s)
    ensures ValidStore(Run(s, ops))
    decreases |ops|
  {
    if ops != [] {
      StepPreservesValid(s, ops[0]);
      RunPreservesValid(Step(s, ops[0]), ops[1..]);
    }
  }

  /** User calls never touch `products`, and product calls never touch
      `users`. */
  lemma TablesAreIndependent(s: Store, op: Op)
    ensures op.AddUserOp? || op.RegisterAdminOp? || op.UpdateUserOp? ==> Step(s, op).products == s.products
    ensures op.AddProductOp? ==> Step(s, op).users == s.users
  {
  }

  /** From an empty database file, the startup step yields a valid store
      whose only user is the administrator and whose catalog is empty. */
  lemma FreshStartup()
    ensures var s := Startup(EmptyStore).value;
            && ValidStore(s)
            && s.users.value.rows.Keys == {AdminUsername}
            && s.users.value.rows[AdminUsername].role == AdminRole
            && Catalog(s.products.value.rows) == multiset{}
  {
    StartupSeedsAdmin(EmptyStore);
  }
}
