/** The operations on `users`: `add_user`, `register_admin`,
    `authenticate_user`, `get_user_by_username` and `update_user_info`.

    The model keys rows by username. Each operation is also related to a
    reference reading of its SQL statement, which scans every row and tests
    the WHERE clause column by column; under `ValidUsers` the two agree. */
module Users {
  import opened Wrappers
  import opened Schema

  /** The user dictionary the helpers hand back: every column except id. */
  datatype UserInfo = UserInfo(
    username: string,
    password: string,
    role: string,
    fullName: string,
    address: Option<string>,
    paymentInfo: Option<string>)

  /** The dictionary `register_admin` hands back, which has no address or
      payment keys. */
  datatype AdminInfo = AdminInfo(username: string, password: string, role: string, fullName: string)

  /** A message together with a user dictionary. */
  datatype Reply<+U> = Reply(message: string, user: U)

  const UsersTable := "users"
  const UsernameColumn := "users.username"
  const AdminRole := "admin"
  const UserCreatedMessage := "User created successfully!"
  const AdminRegisteredMessage := "Admin registered successfully!"
  const UpdatedMessage := "User information updated successfully!"
  const InvalidCredentials := "Invalid username or password"

  /** The greeting of a successful login. */
  function WelcomeMessage(username: string): string {
    "Welcome back, " + username + "!"
  }

  /** A stored row as a user dictionary (the row's id is dropped). */
  function Info(row: UserRow): UserInfo {
    UserInfo(row.username, row.password, row.role, row.fullName, row.address, row.paymentInfo)
  }

  /** The dictionary loses the id and nothing else: two rows give the same
      dictionary exactly when they agree on every column but the id. */
  lemma InfoDropsOnlyId(r1: UserRow, r2: UserRow)
    ensures Info(r1) == Info(r2) <==> r1.(id := 0) == r2.(id := 0)
  {
  }

  // ---------------------------------------------------------------------
  // Reference semantics of the WHERE clauses: a scan over every row.

  /** Rows selected by `WHERE username = ?`. */
  ghost function WhereUsername(t: UserTable, username: string): set<UserRow> {
    set k | k in t.rows && t.rows[k].username == username :: t.rows[k]
  }

  /** Rows selected by `WHERE username = ? AND password = ?`. */
  ghost function WhereCredentials(t: UserTable, username: string, password: string): set<UserRow> {
    set k | k in t.rows && t.rows[k].username == username && t.rows[k].password == password :: t.rows[k]
  }

  /** The row with its three profile columns overwritten. */
  function SetProfile(row: UserRow, fullName: string, address: Option<string>, paymentInfo: Option<string>): UserRow {
    row.(fullName := fullName, address := address, paymentInfo := paymentInfo)
  }

  /** `UPDATE users SET ... WHERE username = ?` applied to every row. */
  ghost function UpdateWhere(t: UserTable, username: string, fullName: string,
                             address: Option<string>, paymentInfo: Option<string>): map<string, UserRow> {
    map k | k in t.rows :: if t.rows[k].username == username then SetProfile(t.rows[k], fullName, address, paymentInfo) else t.rows[k]
  }

  /** Inserting this username would break the UNIQUE constraint: some row
      already carries it. */
  ghost predicate UsernameTaken(t: UserTable, username: string) {
    exists k :: k in t.rows && t.rows[k].username == username
  }

  // ---------------------------------------------------------------------
  // Operations.

  /** The row an INSERT stores: the given columns under a fresh id. */
  function NewUserRow(t: UserTable, username: string, password: string, role: string, fullName: string,
                      address: Option<string>, paymentInfo: Option<string>): (row: UserRow)
    ensures Info(row) == UserInfo(username, password, role, fullName, address, paymentInfo)
    ensures ValidUsers(t) ==> row.id !in UserIds(t)
  {
    UserRow(t.nextId, username, password, role, fullName, address, paymentInfo)
  }

  /** `INSERT INTO users ...`: fails when the table is missing or the
      username is already present, and otherwise adds exactly one row. */
  function InsertUser(s: Store, username: string, password: string, role: string, fullName: string,
                      address: Option<string>, paymentInfo: Option<string>): (r: Result<Store, Error>)
    ensures s.users.None? ==> r == Err(NoSuchTable(UsersTable))
    ensures s.users.Some? ==> (r.Err? <==> username in s.users.value.rows)
    ensures s.users.Some? && r.Err? ==> r.error == UniqueViolation(UsernameColumn)
    ensures r.Ok? ==> && s.users.Some? && r.value.users.Some?
                      && r.value.products == s.products
                      && r.value.users.value.rows.Keys == s.users.value.rows.Keys + {username}
                      && (forall k :: k in s.users.value.rows ==> r.value.users.value.rows[k] == s.users.value.rows[k])
                      && Info(r.value.users.value.rows[username]) == UserInfo(username, password, role, fullName, address, paymentInfo)
                      && (ValidUsers(s.users.value) ==> r.value.users.value.rows[username].id !in UserIds(s.users.value))
    ensures r.Ok? && ValidStore(s) ==> ValidStore(r.value)
  {
    match s.users
    case None => Err(NoSuchTable(UsersTable))
    case Some(t) =>
      if username in t.rows then Err(UniqueViolation(UsernameColumn))
      else
        var row := NewUserRow(t, username, password, role, fullName, address, paymentInfo);
        Ok(s.(users := Some(UserTable(t.rows[username := row], t.nextId + 1))))
  }

  /** `add_user`: inserts one row and echoes the submitted columns; on a
      failed insert the store is unchanged and the error is surfaced. */
  function AddUser(s: Store, username: string, password: string, role: string, fullName: string,
                   address: Option<string>, paymentInfo: Option<string>): (o: Outcome<Reply<UserInfo>>)
    ensures s.users.None? ==> o == Outcome(Err(NoSuchTable(UsersTable)), s)
    ensures s.users.Some? && username in s.users.value.rows ==> o == Outcome(Err(UniqueViolation(UsernameColumn)), s)
    ensures s.users.Some? && username !in s.users.value.rows ==>
              o.result == Ok(Reply(UserCreatedMessage, UserInfo(username, password, role, fullName, address, paymentInfo)))
    ensures o.result.Ok? ==> && s.users.Some? && o.store.users.Some?
                             && o.store.products == s.products
                             && o.store.users.value.rows.Keys == s.users.value.rows.Keys + {username}
                             && (forall k :: k in s.users.value.rows ==> o.store.users.value.rows[k] == s.users.value.rows[k])
                             && Info(o.store.users.value.rows[username]) == o.result.value.user
                             && (ValidUsers(s.users.value) ==> o.store.users.value.rows[username].id !in UserIds(s.users.value))
    ensures ValidStore(s) ==> ValidStore(o.store)
  {
    match InsertUser(s, username, password, role, fullName, address, paymentInfo)
    case Err(e) => Outcome(Err(e), s)
    case Ok(s') => Outcome(Ok(Reply(UserCreatedMessage, UserInfo(username, password, role, fullName, address, paymentInfo))), s')
  }

  /** `register_admin`: inserts a row with role "admin" and null address and
      payment columns, and echoes the four submitted columns. */
  function RegisterAdmin(s: Store, username: string, password: string, fullName: string): (o: Outcome<Reply<AdminInfo>>)
    ensures s.users.None? ==> o == Outcome(Err(NoSuchTable(UsersTable)), s)
    ensures s.users.Some? && username in s.users.value.rows ==> o == Outcome(Err(UniqueViolation(UsernameColumn)), s)
    ensures s.users.Some? && username !in s.users.value.rows ==>
              o.result == Ok(Reply(AdminRegisteredMessage, AdminInfo(username, password, AdminRole, fullName)))
    ensures o.result.Ok? ==> && s.users.Some? && o.store.users.Some?
                             && o.store.products == s.products
                             && o.store.users.value.rows.Keys == s.users.value.rows.Keys + {username}
                             && (forall k :: k in s.users.value.rows ==> o.store.users.value.rows[k] == s.users.value.rows[k])
                             && Info(o.store.users.value.rows[username]) == UserInfo(username, password, AdminRole, fullName, None, None)
                             && (ValidUsers(s.users.value) ==> o.store.users.value.rows[username].id !in UserIds(s.users.value))
    ensures ValidStore(s) ==> ValidStore(o.store)
  {
    match InsertUser(s, username, password, AdminRole, fullName, None, None)
    case Err(e) => Outcome(Err(e), s)
    case Ok(s') => Outcome(Ok(Reply(AdminRegisteredMessage, AdminInfo(username, password, AdminRole, fullName))), s')
  }

  /** `authenticate_user`: a read-only query (no store is returned). It
      answers with the stored row and a greeting exactly when the row keyed
      by the username holds the given password, and with a 401 otherwise. */
  function Authenticate(s: Store, username: string, password: string): (r: Result<Reply<UserInfo>, Error>)
    ensures s.users.None? ==> r == Err(NoSuchTable(UsersTable))
    ensures s.users.Some? ==>
              (r.Ok? <==> username in s.users.value.rows && s.users.value.rows[username].password == password)
    ensures s.users.Some? && r.Err? ==> r.error == Unauthorized(401, InvalidCredentials)
    ensures r.Ok? ==> r.value == Reply(WelcomeMessage(username), Info(s.users.value.rows[username]))
  {
    match s.users
    case None => Err(NoSuchTable(UsersTable))
    case Some(t) =>
      if username in t.rows && t.rows[username].password == password
      then Ok(Reply(WelcomeMessage(username), Info(t.rows[username])))
      else Err(Unauthorized(401, InvalidCredentials))
  }

  /** `get_user_by_username`: a read-only query that, once the table exists,
      never fails and finds the full row (id included) exactly when the
      username is present. */
  function GetUserByUsername(s: Store, username: string): (r: Result<Option<UserRow>, Error>)
    ensures s.users.None? <==> r.Err?
    ensures r.Err? ==> r.error == NoSuchTable(UsersTable)
    ensures r.Ok? ==> (r.value.Some? <==> username in s.users.value.rows)
    ensures r.Ok? && r.value.Some? ==> r.value.value == s.users.value.rows[username]
  {
    match s.users
    case None => Err(NoSuchTable(UsersTable))
    case Some(t) => Ok(if username in t.rows then Some(t.rows[username]) else None)
  }

  /** `update_user_info`: overwrites the three profile columns of the row
      keyed by the username and nothing else. A username with no row changes
      nothing and still reports success. */
  function UpdateUserInfo(s: Store, username: string, fullName: string,
                          address: Option<string>, paymentInfo: Option<string>): (o: Outcome<string>)
    ensures s.users.None? ==> o == Outcome(Err(NoSuchTable(UsersTable)), s)
    ensures s.users.Some? ==> o.result == Ok(UpdatedMessage)
    ensures o.store.products == s.products
    ensures s.users.Some? ==> && o.store.users.Some?
                              && o.store.users.value.nextId == s.users.value.nextId
                              && o.store.users.value.rows.Keys == s.users.value.rows.Keys
                              && (forall k :: k in s.users.value.rows && k != username ==>
                                    o.store.users.value.rows[k] == s.users.value.rows[k])
    ensures s.users.Some? && username in s.users.value.rows ==>
              var before := s.users.value.rows[username];
              var after := o.store.users.value.rows[username];
              && after.id == before.id && after.username == before.username
              && after.password == before.password && after.role == before.role
              && after.fullName == fullName && after.address == address && after.paymentInfo == paymentInfo
    ensures s.users.Some? && username !in s.users.value.rows ==> o.store == s
    ensures ValidStore(s) ==> ValidStore(o.store)
  {
    match s.users
    case None => Outcome(Err(NoSuchTable(UsersTable)), s)
    case Some(t) =>
      var rows := if username in t.rows then t.rows[username := SetProfile(t.rows[username], fullName, address, paymentInfo)] else t.rows;
      Outcome(Ok(UpdatedMessage), s.(users := Some(t.(rows := rows))))
  }

  // ---------------------------------------------------------------------
  // The keyed model agrees with the scanning reading of each statement.

  /** `WHERE username = ?` selects at most one row: the one keyed by it. */
  lemma WhereUsernameIsKeyed(t: UserTable, username: string)
    requires ValidUsers(t)
    ensures WhereUsername(t, username) == if username in t.rows then {t.rows[username]} else {}
  {
    if username in t.rows {
      assert t.rows[username] in WhereUsername(t, username);
    }
  }

  /** `WHERE username = ? AND password = ?` selects at most one row: the one
      keyed by the username, when its password matches. */
  lemma WhereCredentialsIsKeyed(t: UserTable, username: string, password: string)
    requires ValidUsers(t)
    ensures WhereCredentials(t, username, password) ==
            if username in t.rows && t.rows[username].password == password then {t.rows[username]} else {}
  {
    if username in t.rows && t.rows[username].password == password {
      assert t.rows[username] in WhereCredentials(t, username, password);
    }
  }

  /** The insert is rejected exactly when some row already carries the
      username, which is what the UNIQUE constraint checks. */
  lemma InsertRejectedIffTaken(s: Store, username: string, password: string, role: string, fullName: string,
                               address: Option<string>, paymentInfo: Option<string>)
    requires s.users.Some? && ValidUsers(s.users.value)
    ensures InsertUser(s, username, password, role, fullName, address, paymentInfo) == Err(UniqueViolation(UsernameColumn))
            <==> UsernameTaken(s.users.value, username)
  {
    if UsernameTaken(s.users.value, username) {
      var k :| k in s.users.value.rows && s.users.value.rows[k].username == username;
      assert k == username;
    }
  }

  /** Login succeeds exactly when the credential query selects a row, and
      then answers with that row (whichever row `fetchone` takes). */
  lemma AuthenticateAgreesWithQuery(s: Store, username: string, password: string)
    requires s.users.Some? && ValidUsers(s.users.value)
    ensures Authenticate(s, username, password).Ok? <==> WhereCredentials(s.users.value, username, password) != {}
    ensures forall row :: row in WhereCredentials(s.users.value, username, password) ==>
              Authenticate(s, username, password) == Ok(Reply(WelcomeMessage(username), Info(row)))
    ensures WhereCredentials(s.users.value, username, password) == {} ==>
              Authenticate(s, username, password) == Err(Unauthorized(401, InvalidCredentials))
  {
    WhereCredentialsIsKeyed(s.users.value, username, password);
  }

  /** The lookup finds a row exactly when the username query selects one,
      and then finds that row. */
  lemma GetUserAgreesWithQuery(s: Store, username: string)
    requires s.users.Some? && ValidUsers(s.users.value)
    ensures GetUserByUsername(s, username).Ok?
    ensures GetUserByUsername(s, username).value.Some? <==> WhereUsername(s.users.value, username) != {}
    ensures forall row :: row in WhereUsername(s.users.value, username) ==>
              GetUserByUsername(s, username) == Ok(Some(row))
  {
    WhereUsernameIsKeyed(s.users.value, username);
  }

  /** Updating the keyed row is the same as applying the UPDATE to every
      row the WHERE clause selects. */
  lemma UpdateAgreesWithQuery(s: Store, username: string, fullName: string,
                              address: Option<string>, paymentInfo: Option<string>)
    requires s.users.Some? && ValidUsers(s.users.value)
    ensures UpdateUserInfo(s, username, fullName, address, paymentInfo).store.users.value.rows
            == UpdateWhere(s.users.value, username, fullName, address, paymentInfo)
  {
    var t := s.users.value;
    var got := UpdateUserInfo(s, username, fullName, address, paymentInfo).store.users.value.rows;
    var want := UpdateWhere(t, username, fullName, address, paymentInfo);
    assert got.Keys == want.Keys;
    forall k | k in got
      ensures got[k] == want[k]
    {
      assert t.rows[k].username == k;
    }
  }

  // ---------------------------------------------------------------------
  // Properties of sequences of operations.

  /** A registered user can log in with the registered password, and the
      login returns exactly the columns that were registered. */
  lemma RegisterThenLogin(s: Store, username: string, password: string, role: string, fullName: string,
                          address: Option<string>, paymentInfo: Option<string>)
    requires AddUser(s, username, password, role, fullName, address, paymentInfo).result.Ok?
    ensures var o := AddUser(s, username, password, role, fullName, address, paymentInfo);
            Authenticate(o.store, username, password)
            == Ok(Reply(WelcomeMessage(username), UserInfo(username, password, role, fullName, address, paymentInfo)))
  {
  }

  /** Logging in with any other password than the stored one is refused. */
  lemma WrongPasswordRefused(s: Store, username: string, password: string)
    requires s.users.Some? && username in s.users.value.rows
    requires s.users.value.rows[username].password != password
    ensures Authenticate(s, username, password) == Err(Unauthorized(401, InvalidCredentials))
  {
  }

  /** After an update of an existing user, the lookup sees the new profile
      and the old username, password and role. */
  lemma UpdateThenLookup(s: Store, username: string, fullName: string,
                         address: Option<string>, paymentInfo: Option<string>)
    requires s.users.Some? && username in s.users.value.rows
    ensures var before := s.users.value.rows[username];
            GetUserByUsername(UpdateUserInfo(s, username, fullName, address, paymentInfo).store, username)
            == Ok(Some(UserRow(before.id, before.username, before.password, before.role, fullName, address, paymentInfo)))
  {
  }
}
