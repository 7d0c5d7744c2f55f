/** `UserStore`: the user store the identity framework calls. It validates
    arguments, delegates to the five table accessors over one database
    wrapper, and turns their results into the framework's answers. */
module UserStores {
  import opened Common
  import opened Entities
  import opened Relational
  import opened PostgreSql
  import Users
  import Roles
  import Logins
  import Memberships
  import Claims

  /** AddToRoleAsync then IsInRoleAsync: once a membership row points the
      user at the Id GetRoleId found for the name, the user's role names
      include that name. */
  lemma AddToRoleThenIsInRole(t: Tables, userId: NStr, roleName: NStr)
    requires userId.Some?
    requires !IsNullOrEmpty(Roles.RoleIdOf(t.roles, roleName))
    ensures roleName in JoinedRoleNames(t.userRoles + [UserRoleRow(userId, Roles.RoleIdOf(t.roles, roleName))],
                                        t.roles, Cell(userId))
  {
    var roleId := Roles.RoleIdOf(t.roles, roleName);
    var m := UserRoleRow(userId, roleId);
    Memberships.JoinedRoleNamesAppend(t.userRoles, m, t.roles, Cell(userId));
    Roles.RoleIdOfMatchesExactly(t.roles, roleName);
    var i :| (0 <= i < |t.roles| && t.roles[i].name == roleName
              && roleId == Some(if t.roles[i].id.Some? then t.roles[i].id.value else "")
              && forall j :: 0 <= j < i ==> t.roles[j].name != roleName);
    // The Id GetRoleId returns is non-empty, so it is the row's own Id.
    assert t.roles[i].id == roleId;
    var rs := RolesOf(t.roles, m);
    assert t.roles[i] in rs;
    var k :| 0 <= k < |rs| && rs[k] == t.roles[i];
    var names := Map(rs, (r: RoleRow) => r.name);
    assert names[k] == roleName;
  }

  class UserStore {
    /** The `Database` property; null once the store is disposed. */
    var database: Database?
    /** The wrapper the accessors were built over. */
    const db: Database
    const userTable: Users.UserTable
    const roleTable: Roles.RoleTable
    const userRolesTable: Memberships.UserRolesTable
    const userClaimsTable: Claims.UserClaimsTable
    const userLoginsTable: Logins.UserLoginsTable
    /** Whether the store was compiled as a DEBUG build. */
    const debug: bool

    /** Every accessor shares the store's wrapper. */
    ghost predicate Valid()
      reads this
    {
      && userTable.db == db && roleTable.db == db && userRolesTable.db == db
      && userClaimsTable.db == db && userLoginsTable.db == db
      && (database == null || database == db)
    }

    constructor (database: Database, debug: bool)
      ensures Valid() && this.database == database && db == database && this.debug == debug
    {
      this.database := database;
      db := database;
      userTable := new Users.UserTable(database);
      roleTable := new Roles.RoleTable(database);
      userRolesTable := new Memberships.UserRolesTable(database);
      userClaimsTable := new Claims.UserClaimsTable(database);
      userLoginsTable := new Logins.UserLoginsTable(database);
      this.debug := debug;
    }

    /** The `Users` property: every stored user, in row order. */
    method AllUsers() returns (r: Result<seq<User>>)
      requires Valid()
      modifies db`conn, db`calls
      ensures db.Session()
      ensures db.Opening().Ready? ==> r == Ok(Map(db.tables.users, Users.ReadUser))
      ensures db.Opening().Failed? ==> r == Err(db.Opening().error)
    {
      r := userTable.GetAllUsers();
    }

    method CreateAsync(user: IdentityUser?) returns (r: Result<()>)
      requires Valid()
      modifies db`conn, db`calls, db`tables
      ensures user == null ==> r == Err(ArgumentNullError) && unchanged(db)
      ensures user != null ==> db.Session()
      ensures user != null && db.Opening().Ready? ==>
        db.tables == old(db.tables).(users := old(db.tables).users + [Users.RowOf(user.Value())]) && r == Ok(())
      ensures user != null && db.Opening().Failed? ==> r == Err(db.Opening().error) && db.tables == old(db.tables)
    {
      if user == null {
        return Err(ArgumentNullError);
      }
      var n := userTable.Insert(user.Value());
      r := if n.Ok? then Ok(()) else Err(n.error);
    }

    /** A user only when exactly one row carries the Id. */
    method FindByIdAsync(userId: NStr) returns (r: Result<Option<User>>)
      requires Valid()
      modifies db`conn, db`calls
      ensures IsNullOrEmpty(userId) ==> r == Err(ArgumentError) && unchanged(db)
      ensures !IsNullOrEmpty(userId) ==> db.Session()
      ensures !IsNullOrEmpty(userId) && db.Opening().Ready? ==> r == Ok(Users.LookupUserById(db.tables.users, userId))
      ensures !IsNullOrEmpty(userId) && db.Opening().Failed? ==> r == Err(db.Opening().error)
    {
      if IsNullOrEmpty(userId) {
        return Err(ArgumentError);
      }
      r := userTable.GetUserById(userId);
    }

    /** One match is the answer; several are an error in a DEBUG build and no
        user otherwise; none is no user. */
    method FindByNameAsync(userName: NStr) returns (r: Result<Option<User>>)
      requires Valid()
      modifies db`conn, db`calls
      ensures IsNullOrEmpty(userName) ==> r == Err(ArgumentError) && unchanged(db)
      ensures !IsNullOrEmpty(userName) ==> db.Session()
      ensures !IsNullOrEmpty(userName) && db.Opening().Ready? ==>
        var found := Users.UsersByName(db.tables.users, userName);
        && (|found| == 1 ==> r == Ok(Some(found[0])))
        && (|found| > 1 ==> r == if debug then Err(ArgumentError) else Ok(None))
        && (|found| == 0 ==> r == Ok(None))
      ensures !IsNullOrEmpty(userName) && db.Opening().Failed? ==> r == Err(db.Opening().error)
    {
      if IsNullOrEmpty(userName) {
        return Err(ArgumentError);
      }
      var result := userTable.GetUserByName(userName);
      if result.Err? {
        return Err(result.error);
      }
      if |result.value| == 1 {
        return Ok(Some(result.value[0]));
      } else if |result.value| > 1 && debug {
        return Err(ArgumentError);
      }
      r := Ok(None);
    }

    /** Writes the five mutable fields of the user object to the rows with its Id. */
    method UpdateAsync(user: IdentityUser?) returns (r: Result<()>)
      requires Valid()
      modifies db`conn, db`calls, db`tables
      ensures user == null ==> r == Err(ArgumentNullError) && unchanged(db)
      ensures user != null ==> db.Session()
      ensures user != null && db.Opening().Ready? ==>
        && db.tables == old(db.tables).(users := UpdateUsers(old(db.tables).users, Cell(user.id), user.userName,
                                                             user.passwordHash, user.securityStamp, user.email,
                                                             user.emailConfirmed))
        && r == Ok(())
      ensures user != null && db.Opening().Failed? ==> r == Err(db.Opening().error) && db.tables == old(db.tables)
    {
      if user == null {
        return Err(ArgumentNullError);
      }
      var n := userTable.Update(user.Value());
      r := if n.Ok? then Ok(()) else Err(n.error);
    }

    /** Releases the wrapper once and forgets it; a second call does nothing. */
    method Dispose()
      requires Valid()
      modifies this`database, db`conn, db`releases
      ensures Valid() && database == null
      ensures old(database) != null ==>
        db.conn == Disposed && db.releases == old(db.releases) + (if old(db.conn) == Disposed then 0 else 1)
      ensures old(database) == null ==> unchanged(db)
    {
      if database != null {
        database.Dispose();
        database := null;
      }
    }

    // ---------------------------------------------------------------- claims

    method AddClaimAsync(user: IdentityUser?, claim: Option<Claim>) returns (r: Result<()>)
      requires Valid()
      modifies db`conn, db`calls, db`tables
      ensures user == null || claim.None? ==> r == Err(ArgumentNullError) && unchanged(db)
      ensures user != null && claim.Some? ==> db.Session()
      ensures user != null && claim.Some? && db.Opening().Ready? ==>
        && db.tables == old(db.tables).(claims := old(db.tables).claims
             + [ClaimRow(user.id, Some(claim.value.claimType), Some(claim.value.claimValue))])
        && r == Ok(())
      ensures user != null && claim.Some? && db.Opening().Failed? ==>
        r == Err(db.Opening().error) && db.tables == old(db.tables)
    {
      if user == null || claim.None? {
        return Err(ArgumentNullError);
      }
      var n := userClaimsTable.Insert(claim.value, user.id);
      r := if n.Ok? then Ok(()) else Err(n.error);
    }

    /** No null check: a null user fails on reading its Id. */
    method GetClaimsAsync(user: IdentityUser?) returns (r: Result<seq<Claim>>)
      requires Valid()
      modifies db`conn, db`calls
      ensures user == null ==> r == Err(NullReference) && unchanged(db)
      ensures user != null ==> db.Session()
      ensures user != null && db.Opening().Ready? ==> r == Claims.ClaimsOf(db.tables.claims, user.id)
      ensures user != null && db.Opening().Failed? ==> r == Err(db.Opening().error)
    {
      if user == null {
        return Err(NullReference);
      }
      r := userClaimsTable.FindByUserId(user.id);
    }

    /** The statement it relies on is always rejected: no claim is ever removed. */
    method RemoveClaimAsync(user: IdentityUser?, claim: Option<Claim>) returns (r: Result<()>)
      requires Valid()
      modifies db`conn, db`calls, db`tables
      ensures db.tables == old(db.tables)
      ensures user == null || claim.None? ==> r == Err(ArgumentNullError) && unchanged(db)
      ensures user != null && claim.Some? ==> db.Session()
      ensures user != null && claim.Some? && db.Opening().Ready? ==> r == Err(StorageFailure)
      ensures user != null && claim.Some? && db.Opening().Failed? ==> r == Err(db.Opening().error)
    {
      if user == null || claim.None? {
        return Err(ArgumentNullError);
      }
      var n := userClaimsTable.DeleteClaim(user.Value(), claim.value);
      r := if n.Ok? then Ok(()) else Err(n.error);
    }

    // ---------------------------------------------------------------- logins

    method AddLoginAsync(user: IdentityUser?, login: Option<LoginInfo>) returns (r: Result<()>)
      requires Valid()
      modifies db`conn, db`calls, db`tables
      ensures user == null || login.None? ==> r == Err(ArgumentNullError) && unchanged(db)
      ensures user != null && login.Some? ==> db.Session()
      ensures user != null && login.Some? && db.Opening().Ready? ==>
        && db.tables == old(db.tables).(logins := old(db.tables).logins
             + [LoginRow(user.id, login.value.loginProvider, login.value.providerKey)])
        && r == Ok(())
      ensures user != null && login.Some? && db.Opening().Failed? ==>
        r == Err(db.Opening().error) && db.tables == old(db.tables)
    {
      if user == null || login.None? {
        return Err(ArgumentNullError);
      }
      var n := userLoginsTable.Insert(user.Value(), login.value);
      r := if n.Ok? then Ok(()) else Err(n.error);
    }

    /** Two statements: the login's user Id, then the user with that Id. A
        null Id ends the operation after the first; an empty one does not. */
    method FindAsync(login: Option<LoginInfo>) returns (r: Result<Option<User>>)
      requires Valid()
      modifies db`conn, db`calls
      ensures login.None? ==> r == Err(ArgumentNullError) && unchanged(db)
      ensures login.Some? && db.Opening().Failed? ==> db.Session() && r == Err(db.Opening().error)
      ensures login.Some? && db.Opening().Ready? && Logins.UserIdOfLogin(db.tables.logins, login.value).None? ==>
        db.Session() && r == Ok(None)
      ensures login.Some? && db.Opening().Ready? && Logins.UserIdOfLogin(db.tables.logins, login.value).Some? ==>
        && db.TwoSessions()
        && (db.Reopening().Failed? ==> r == Err(db.Reopening().error))
        && (db.Reopening().Ready? ==>
              r == Ok(Users.LookupUserById(db.tables.users, Logins.UserIdOfLogin(db.tables.logins, login.value))))
    {
      if login.None? {
        return Err(ArgumentNullError);
      }
      var userId := userLoginsTable.FindUserIdByLogin(login.value);
      if userId.Err? {
        return Err(userId.error);
      }
      if userId.value.None? {
        return Ok(None);
      }
      r := userTable.GetUserById(userId.value);
    }

    method GetLoginsAsync(user: IdentityUser?) returns (r: Result<seq<LoginInfo>>)
      requires Valid()
      modifies db`conn, db`calls
      ensures user == null ==> r == Err(ArgumentNullError) && unchanged(db)
      ensures user != null ==> db.Session()
      ensures user != null && db.Opening().Ready? ==> r == Ok(Logins.LoginsOf(db.tables.logins, user.id))
      ensures user != null && db.Opening().Failed? ==> r == Err(db.Opening().error)
    {
      if user == null {
        return Err(ArgumentNullError);
      }
      r := userLoginsTable.FindByUserId(user.id);
    }

    method RemoveLoginAsync(user: IdentityUser?, login: Option<LoginInfo>) returns (r: Result<()>)
      requires Valid()
      modifies db`conn, db`calls, db`tables
      ensures user == null || login.None? ==> r == Err(ArgumentNullError) && unchanged(db)
      ensures user != null && login.Some? ==> db.Session()
      ensures user != null && login.Some? && db.Opening().Ready? ==>
        && db.tables == old(db.tables).(logins := LoginsWithout(old(db.tables).logins, Cell(user.id),
                                                                Cell(login.value.loginProvider),
                                                                Cell(login.value.providerKey)))
        && r == Ok(())
      ensures user != null && login.Some? && db.Opening().Failed? ==>
        r == Err(db.Opening().error) && db.tables == old(db.tables)
    {
      if user == null || login.None? {
        return Err(ArgumentNullError);
      }
      var n := userLoginsTable.DeleteLogin(user.Value(), login.value);
      r := if n.Ok? then Ok(()) else Err(n.error);
    }

    // ---------------------------------------------------------------- roles

    /** Two statements: the Id of the named role, then the membership row. A
        name that resolves to no Id (or to an empty one) adds nothing. */
    method AddToRoleAsync(user: IdentityUser?, roleName: NStr) returns (r: Result<()>)
      requires Valid()
      modifies db`conn, db`calls, db`tables
      ensures user == null ==> r == Err(ArgumentNullError) && unchanged(db)
      ensures user != null && IsNullOrEmpty(roleName) ==> r == Err(ArgumentError) && unchanged(db)
      ensures user != null && !IsNullOrEmpty(roleName) && db.Opening().Failed? ==>
        db.Session() && r == Err(db.Opening().error) && db.tables == old(db.tables)
      ensures user != null && !IsNullOrEmpty(roleName) && db.Opening().Ready?
              && IsNullOrEmpty(Roles.RoleIdOf(old(db.tables).roles, roleName)) ==>
        db.Session() && r == Ok(()) && db.tables == old(db.tables)
      ensures user != null && !IsNullOrEmpty(roleName) && db.Opening().Ready?
              && !IsNullOrEmpty(Roles.RoleIdOf(old(db.tables).roles, roleName)) ==>
        && db.TwoSessions()
        && (db.Reopening().Failed? ==> r == Err(db.Reopening().error) && db.tables == old(db.tables))
        && (db.Reopening().Ready? ==>
              && db.tables == old(db.tables).(userRoles := old(db.tables).userRoles
                   + [UserRoleRow(user.id, Roles.RoleIdOf(old(db.tables).roles, roleName))])
              && r == Ok(()))
    {
      if user == null {
        return Err(ArgumentNullError);
      }
      if IsNullOrEmpty(roleName) {
        return Err(ArgumentError);
      }
      var roleId := roleTable.GetRoleId(roleName);
      if roleId.Err? {
        return Err(roleId.error);
      }
      if IsNullOrEmpty(roleId.value) {
        return Ok(());
      }
      var n := userRolesTable.Insert(user.Value(), roleId.value);
      r := if n.Ok? then Ok(()) else Err(n.error);
    }

    /** The names of the user's roles, through the membership join. */
    method GetRolesAsync(user: IdentityUser?) returns (r: Result<seq<NStr>>)
      requires Valid()
      modifies db`conn, db`calls
      ensures user == null ==> r == Err(ArgumentNullError) && unchanged(db)
      ensures user != null ==> db.Session()
      ensures user != null && db.Opening().Ready? ==>
        r == Ok(JoinedRoleNames(db.tables.userRoles, db.tables.roles, Cell(user.id)))
      ensures user != null && db.Opening().Failed? ==> r == Err(db.Opening().error)
    {
      if user == null {
        return Err(ArgumentNullError);
      }
      r := userRolesTable.FindByUserId(user.id);
    }

    /** True exactly when one of the user's role names equals the argument. */
    method IsInRoleAsync(user: IdentityUser?, role: NStr) returns (r: Result<bool>)
      requires Valid()
      modifies db`conn, db`calls
      ensures user == null || IsNullOrEmpty(role) ==> r == Err(ArgumentNullError) && unchanged(db)
      ensures user != null && !IsNullOrEmpty(role) ==> db.Session()
      ensures user != null && !IsNullOrEmpty(role) && db.Opening().Ready? ==>
        r == Ok(exists m, rr :: (m in db.tables.userRoles && Matches(m.userId, Cell(user.id))
                                 && rr in db.tables.roles && Matches(rr.id, Cell(m.roleId)) && rr.name == role))
      ensures user != null && !IsNullOrEmpty(role) && db.Opening().Failed? ==> r == Err(db.Opening().error)
    {
      if user == null || IsNullOrEmpty(role) {
        return Err(ArgumentNullError);
      }
      var roles := userRolesTable.FindByUserId(user.id);
      if roles.Err? {
        return Err(roles.error);
      }
      Memberships.JoinedRoleNamesMeaning(db.tables.userRoles, db.tables.roles, Cell(user.id), role);
      r := Ok(role in roles.value);
    }

    /** Two statements: the Id of the named role, then the removal of the
        user's membership in it. A null name is refused; an empty one is looked up. */
    method RemoveFromRoleAsync(user: IdentityUser?, role: NStr) returns (r: Result<()>)
      requires Valid()
      modifies db`conn, db`calls, db`tables
      ensures user == null || role.None? ==> r == Err(ArgumentNullError) && unchanged(db)
      ensures user != null && role.Some? && db.Opening().Failed? ==>
        db.Session() && r == Err(db.Opening().error) && db.tables == old(db.tables)
      ensures user != null && role.Some? && db.Opening().Ready?
              && IsNullOrEmpty(Roles.RoleIdOf(old(db.tables).roles, role)) ==>
        db.Session() && r == Ok(()) && db.tables == old(db.tables)
      ensures user != null && role.Some? && db.Opening().Ready?
              && !IsNullOrEmpty(Roles.RoleIdOf(old(db.tables).roles, role)) ==>
        && db.TwoSessions()
        && (db.Reopening().Failed? ==> r == Err(db.Reopening().error) && db.tables == old(db.tables))
        && (db.Reopening().Ready? ==>
              && db.tables == old(db.tables).(userRoles := MembershipsWithout(old(db.tables).userRoles, Cell(user.id),
                                                                              Cell(Roles.RoleIdOf(old(db.tables).roles, role))))
              && r == Ok(()))
    {
      if user == null || role.None? {
        return Err(ArgumentNullError);
      }
      var roleId := roleTable.GetRoleId(role);
      if roleId.Err? {
        return Err(roleId.error);
      }
      if IsNullOrEmpty(roleId.value) {
        return Ok(());
      }
      var n := userRolesTable.DeleteMembership(user.id, roleId.value);
      r := if n.Ok? then Ok(()) else Err(n.error);
    }

    /** Removes the user's rows; a null user is ignored. Claims, logins and
        memberships of the user stay. */
    method DeleteAsync(user: IdentityUser?) returns (r: Result<()>)
      requires Valid()
      modifies db`conn, db`calls, db`tables
      ensures user == null ==> r == Ok(()) && unchanged(db)
      ensures user != null ==> db.Session()
      ensures user != null && db.Opening().Ready? ==>
        db.tables == old(db.tables).(users := UsersWithoutId(old(db.tables).users, Cell(user.id))) && r == Ok(())
      ensures user != null && db.Opening().Failed? ==> r == Err(db.Opening().error) && db.tables == old(db.tables)
    {
      if user == null {
        return Ok(());
      }
      var n := userTable.Delete(user.Value());
      r := if n.Ok? then Ok(()) else Err(n.error);
    }

    // ---------------------------------------------------------------- password, stamp, email

    /** The stored hash, not the object's: null when the first row with the
        Id is missing or its hash is NULL or empty. */
    method GetPasswordHashAsync(user: IdentityUser?) returns (r: Result<NStr>)
      requires Valid()
      modifies db`conn, db`calls
      ensures user == null ==> r == Err(NullReference) && unchanged(db)
      ensures user != null ==> db.Session()
      ensures user != null && db.Opening().Ready? ==>
        r == Ok(Users.PasswordHashOf(db.tables.users, user.id))
      ensures user != null && db.Opening().Failed? ==> r == Err(db.Opening().error)
    {
      if user == null {
        return Err(NullReference);
      }
      r := userTable.GetPasswordHash(user.id);
    }

    /** True exactly when the first stored row with the Id has a non-empty hash. */
    method HasPasswordAsync(user: IdentityUser?) returns (r: Result<bool>)
      requires Valid()
      modifies db`conn, db`calls
      ensures user == null ==> r == Err(NullReference) && unchanged(db)
      ensures user != null ==> db.Session()
      ensures user != null && db.Opening().Ready? ==>
        r == Ok(var first := Users.FirstWithId(db.tables.users, user.id);
                first.Some? && !IsNullOrEmpty(first.value.passwordHash))
      ensures user != null && db.Opening().Failed? ==> r == Err(db.Opening().error)
    {
      if user == null {
        return Err(NullReference);
      }
      var hash := userTable.GetPasswordHash(user.id);
      if hash.Err? {
        return Err(hash.error);
      }
      r := Ok(!IsNullOrEmpty(hash.value));
    }

    /** Changes the object only; the database sees it on the next update. */
    method SetPasswordHashAsync(user: IdentityUser?, passwordHash: NStr) returns (r: Result<()>)
      modifies user
      ensures user == null ==> r == Err(NullReference)
      ensures user != null ==> user.Value() == old(user.Value()).(passwordHash := passwordHash) && r == Ok(())
    {
      if user == null {
        return Err(NullReference);
      }
      user.passwordHash := passwordHash;
      r := Ok(());
    }

    /** Changes the object only. */
    method SetSecurityStampAsync(user: IdentityUser?, stamp: NStr) returns (r: Result<()>)
      modifies user
      ensures user == null ==> r == Err(NullReference)
      ensures user != null ==> user.Value() == old(user.Value()).(securityStamp := stamp) && r == Ok(())
    {
      if user == null {
        return Err(NullReference);
      }
      user.securityStamp := stamp;
      r := Ok(());
    }

    /** The object's stamp, not the stored one. */
    method GetSecurityStampAsync(user: IdentityUser?) returns (r: Result<NStr>)
      ensures user == null ==> r == Err(NullReference)
      ensures user != null ==> r == Ok(user.Value().securityStamp)
    {
      if user == null {
        return Err(NullReference);
      }
      r := Ok(user.securityStamp);
    }

    /** Changes the object, then writes all five mutable fields to its rows. */
    method SetEmailAsync(user: IdentityUser?, email: NStr) returns (r: Result<()>)
      requires Valid()
      modifies user, db`conn, db`calls, db`tables
      ensures user == null ==> r == Err(NullReference) && unchanged(db)
      ensures user != null ==> user.Value() == old(user.Value()).(email := email) && db.Session()
      ensures user != null && db.Opening().Ready? ==>
        && db.tables == old(db.tables).(users := UpdateUsers(old(db.tables).users, Cell(user.id), user.userName,
                                                             user.passwordHash, user.securityStamp, email,
                                                             user.emailConfirmed))
        && r == Ok(())
      ensures user != null && db.Opening().Failed? ==> r == Err(db.Opening().error) && db.tables == old(db.tables)
    {
      if user == null {
        return Err(NullReference);
      }
      user.email := email;
      var n := userTable.Update(user.Value());
      r := if n.Ok? then Ok(()) else Err(n.error);
    }

    /** The object's email, not the stored one. */
    method GetEmailAsync(user: IdentityUser?) returns (r: Result<NStr>)
      ensures user == null ==> r == Err(NullReference)
      ensures user != null ==> r == Ok(user.Value().email)
    {
      if user == null {
        return Err(NullReference);
      }
      r := Ok(user.email);
    }

    /** The object's flag, not the stored one. */
    method GetEmailConfirmedAsync(user: IdentityUser?) returns (r: Result<bool>)
      ensures user == null ==> r == Err(NullReference)
      ensures user != null ==> r == Ok(user.Value().emailConfirmed)
    {
      if user == null {
        return Err(NullReference);
      }
      r := Ok(user.emailConfirmed);
    }

    /** Changes the object, then writes all five mutable fields to its rows. */
    method SetEmailConfirmedAsync(user: IdentityUser?, confirmed: bool) returns (r: Result<()>)
      requires Valid()
      modifies user, db`conn, db`calls, db`tables
      ensures user == null ==> r == Err(NullReference) && unchanged(db)
      ensures user != null ==> user.Value() == old(user.Value()).(emailConfirmed := confirmed) && db.Session()
      ensures user != null && db.Opening().Ready? ==>
        && db.tables == old(db.tables).(users := UpdateUsers(old(db.tables).users, Cell(user.id), user.userName,
                                                             user.passwordHash, user.securityStamp, user.email,
                                                             confirmed))
        && r == Ok(())
      ensures user != null && db.Opening().Failed? ==> r == Err(db.Opening().error) && db.tables == old(db.tables)
    {
      if user == null {
        return Err(NullReference);
      }
      user.emailConfirmed := confirmed;
      var n := userTable.Update(user.Value());
      r := if n.Ok? then Ok(()) else Err(n.error);
    }

    /** The first user whose email matches case-insensitively, if any. */
    method FindByEmailAsync(email: NStr) returns (r: Result<Option<User>>)
      requires Valid()
      modifies db`conn, db`calls
      ensures IsNullOrEmpty(email) ==> r == Err(ArgumentNullError) && unchanged(db)
      ensures !IsNullOrEmpty(email) ==> db.Session()
      ensures !IsNullOrEmpty(email) && db.Opening().Ready? ==>
        var found := Users.UsersByEmail(db.tables.users, email);
        r == Ok(if found == [] then None else Some(found[0]))
      ensures !IsNullOrEmpty(email) && db.Opening().Failed? ==> r == Err(db.Opening().error)
    {
      if IsNullOrEmpty(email) {
        return Err(ArgumentNullError);
      }
      var result := userTable.GetUserByEmail(email);
      if result.Err? {
        return Err(result.error);
      }
      if |result.value| > 0 {
        return Ok(Some(result.value[0]));
      }
      r := Ok(None);
    }
  }
}
