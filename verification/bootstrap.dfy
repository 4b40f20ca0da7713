/** The startup step of the application's lifespan: create the tables, then
    register the administrator account unless a user named "admin" exists. */
module Bootstrap {
  import opened Wrappers
  import opened Schema
  import opened Users

  const AdminUsername := "admin"
  const AdminPassword := "admin"
  const AdminFullName := "Admin User"

  /** The lifespan startup step: `create_tables`, a lookup by username, and
      `register_admin` only when the lookup found nothing. The check is by
      username alone, so an existing "admin" row is kept whatever its role. */
  function Startup(s: Store): (r: Result<Store, Error>)
    ensures r.Ok?
    ensures r.value.users.Some? && AdminUsername in r.value.users.value.rows
    ensures r.value.products == CreateTables(s).products
    ensures s.users.Some? && AdminUsername in s.users.value.rows ==> r.value == CreateTables(s)
    ensures ValidStore(s) ==> ValidStore(r.value)
  {
    var s1 := CreateTables(s);
    match GetUserByUsername(s1, AdminUsername)
    case Err(e) => Err(e)
    case Ok(Some(_)) => Ok(s1)
    case Ok(None) =>
      var o := RegisterAdmin(s1, AdminUsername, AdminPassword, AdminFullName);
      match o.result
      case Err(e) => Err(e)
      case Ok(_) => Ok(o.store)
  }

  /** On a store without an "admin" row, startup adds exactly that row, with
      the fixed credentials, role "admin" and null address and payment, under
      a fresh id, and keeps every other user. */
  lemma StartupSeedsAdmin(s: Store)
    requires ValidStore(s)
    requires s.users.None? || AdminUsername !in s.users.value.rows
    ensures var before := CreateTables(s).users.value.rows;
            var after := Startup(s).value.users.value.rows;
            && after.Keys == before.Keys + {AdminUsername}
            && (forall k :: k in before ==> after[k] == before[k])
            && Info(after[AdminUsername]) == UserInfo(AdminUsername, AdminPassword, AdminRole, AdminFullName, None, None)
            && after[AdminUsername].id !in UserIds(CreateTables(s).users.value)
  {
  }

  /** Running startup a second time changes nothing. */
  lemma StartupIdempotent(s: Store)
    ensures Startup(Startup(s).value) == Startup(s)
  {
  }
}
