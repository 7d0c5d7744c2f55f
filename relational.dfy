/** The database the adapter talks to, as values: the five tables of the
    schema, the values that cross the driver, and the meaning of each SQL
    statement the table accessors send. The model does not parse SQL; each
    statement is named by a constructor of `Write` or `Read` and given its
    relational meaning here. Rows come back in table order (PostgreSQL leaves
    the order of a SELECT without ORDER BY open; the model fixes one). */
module Relational {
  import opened Common

  // ---------------------------------------------------------------- tables

  /** A row of "AspNetUsers". */
  datatype UserRow = UserRow(
    id: NStr,
    userName: NStr,
    passwordHash: NStr,
    securityStamp: NStr,
    email: NStr,
    emailConfirmed: bool)

  /** A row of "AspNetRoles". */
  datatype RoleRow = RoleRow(id: NStr, name: NStr)

  /** A row of "AspNetUserClaims". */
  datatype ClaimRow = ClaimRow(userId: NStr, claimType: NStr, claimValue: NStr)

  /** A row of "AspNetUserLogins". */
  datatype LoginRow = LoginRow(userId: NStr, loginProvider: NStr, providerKey: NStr)

  /** A row of "AspNetUserRoles". */
  datatype UserRoleRow = UserRoleRow(userId: NStr, roleId: NStr)

  /** The whole database state. */
  datatype Tables = Tables(
    users: seq<UserRow>,
    roles: seq<RoleRow>,
    claims: seq<ClaimRow>,
    logins: seq<LoginRow>,
    userRoles: seq<UserRoleRow>)

  // ---------------------------------------------------------------- values

  /** A value as the server holds it or returns it. */
  datatype Value = DbNull | Text(s: string) | Bool(b: bool)

  /** A parameter value as C# passes it in a `Dictionary<string, object>`. */
  datatype Obj = Null | Str(s: string) | Boolean(b: bool)

  /** The parameters bound to a command, by placeholder name. */
  type Params = map<string, Value>

  /** One column of a row the data reader yields: its name and its value. */
  type Field = (string, Value)
  type ReaderRow = seq<Field>

  function ObjOf(s: NStr): Obj {
    if s.Some? then Str(s.value) else Null
  }

  /** A nullable text column as the server stores it. */
  function Cell(s: NStr): Value {
    if s.Some? then Text(s.value) else DbNull
  }

  /** `parameter.Value = param.Value ?? DBNull.Value`: null becomes SQL NULL. */
  function ToValue(o: Obj): Value {
    match o
    case Null => DbNull
    case Str(s) => Text(s)
    case Boolean(b) => Bool(b)
  }

  /** `column = @param` in a WHERE clause. A NULL on either side compares as
      unknown, which WHERE treats as false. */
  predicate Matches(col: NStr, v: Value) {
    col.Some? && v == Text(col.value)
  }

  /** The parameter is bound to a value a text column accepts. */
  predicate IsText(p: Params, name: string) {
    name in p && !p[name].Bool?
  }

  /** The parameter is bound to a boolean. */
  predicate IsBool(p: Params, name: string) {
    name in p && p[name].Bool?
  }

  function TextOf(p: Params, name: string): NStr
    requires IsText(p, name)
  {
    if p[name].Text? then Some(p[name].s) else None
  }

  // ------------------------------------------------------- row selections

  function UsersWithId(users: seq<UserRow>, v: Value): seq<UserRow> {
    Filter(users, (u: UserRow) => Matches(u.id, v))
  }

  function UsersWithoutId(users: seq<UserRow>, v: Value): seq<UserRow> {
    Filter(users, (u: UserRow) => !Matches(u.id, v))
  }

  /** `LOWER("UserName") = @name`. */
  function UsersWithLowerName(users: seq<UserRow>, v: Value): seq<UserRow> {
    Filter(users, (u: UserRow) => Matches(LowerOrNull(u.userName), v))
  }

  /** `LOWER("Email") = @email`. */
  function UsersWithLowerEmail(users: seq<UserRow>, v: Value): seq<UserRow> {
    Filter(users, (u: UserRow) => Matches(LowerOrNull(u.email), v))
  }

  /** `UPDATE ... SET` of the five mutable user columns on the rows whose Id matches. */
  function UpdateUsers(users: seq<UserRow>, key: Value, userName: NStr, passwordHash: NStr,
                       securityStamp: NStr, email: NStr, emailConfirmed: bool): seq<UserRow> {
    Map(users, (u: UserRow) =>
      if Matches(u.id, key)
      then u.(userName := userName, passwordHash := passwordHash, securityStamp := securityStamp,
              email := email, emailConfirmed := emailConfirmed)
      else u)
  }

  /** `UPDATE ... SET "PasswordHash"` on the rows whose Id matches. */
  function SetUsersPasswordHash(users: seq<UserRow>, key: Value, passwordHash: NStr): seq<UserRow> {
    Map(users, (u: UserRow) => if Matches(u.id, key) then u.(passwordHash := passwordHash) else u)
  }

  function RolesWithId(roles: seq<RoleRow>, v: Value): seq<RoleRow> {
    Filter(roles, (r: RoleRow) => Matches(r.id, v))
  }

  function RolesWithoutId(roles: seq<RoleRow>, v: Value): seq<RoleRow> {
    Filter(roles, (r: RoleRow) => !Matches(r.id, v))
  }

  /** `"Name" = @name`: an exact, case-sensitive match. */
  function RolesWithName(roles: seq<RoleRow>, v: Value): seq<RoleRow> {
    Filter(roles, (r: RoleRow) => Matches(r.name, v))
  }

  /** `UPDATE "AspNetRoles" SET "Name"` on the rows whose Id matches. */
  function RenameRoles(roles: seq<RoleRow>, key: Value, name: NStr): seq<RoleRow> {
    Map(roles, (r: RoleRow) => if Matches(r.id, key) then r.(name := name) else r)
  }

  function LoginsWithKey(logins: seq<LoginRow>, provider: Value, key: Value): seq<LoginRow> {
    Filter(logins, (l: LoginRow) => Matches(l.loginProvider, provider) && Matches(l.providerKey, key))
  }

  function LoginsWithout(logins: seq<LoginRow>, userId: Value, provider: Value, key: Value): seq<LoginRow> {
    Filter(logins, (l: LoginRow) =>
      !(Matches(l.userId, userId) && Matches(l.loginProvider, provider) && Matches(l.providerKey, key)))
  }

  function LoginsOfUser(logins: seq<LoginRow>, userId: Value): seq<LoginRow> {
    Filter(logins, (l: LoginRow) => Matches(l.userId, userId))
  }

  function LoginsNotOfUser(logins: seq<LoginRow>, userId: Value): seq<LoginRow> {
    Filter(logins, (l: LoginRow) => !Matches(l.userId, userId))
  }

  function MembershipsWithout(userRoles: seq<UserRoleRow>, userId: Value, roleId: Value): seq<UserRoleRow> {
    Filter(userRoles, (m: UserRoleRow) => !(Matches(m.userId, userId) && Matches(m.roleId, roleId)))
  }

  function MembershipsNotOfUser(userRoles: seq<UserRoleRow>, userId: Value): seq<UserRoleRow> {
    Filter(userRoles, (m: UserRoleRow) => !Matches(m.userId, userId))
  }

  function ClaimsOfUser(claims: seq<ClaimRow>, userId: Value): seq<ClaimRow> {
    Filter(claims, (c: ClaimRow) => Matches(c.userId, userId))
  }

  function ClaimsNotOfUser(claims: seq<ClaimRow>, userId: Value): seq<ClaimRow> {
    Filter(claims, (c: ClaimRow) => !Matches(c.userId, userId))
  }

  /** The roles a membership row points to: `"AspNetUserRoles"."RoleId" = "AspNetRoles"."Id"`. */
  function RolesOf(roles: seq<RoleRow>, m: UserRoleRow): seq<RoleRow> {
    Filter(roles, (r: RoleRow) => Matches(r.id, Cell(m.roleId)))
  }

  /** The inner join of memberships and roles, restricted to one user: one
      role name per (membership, role) pair that joins, in membership order. */
  function JoinedRoleNames(members: seq<UserRoleRow>, roles: seq<RoleRow>, userId: Value): seq<NStr> {
    if members == [] then []
    else
      (if Matches(members[0].userId, userId)
       then Map(RolesOf(roles, members[0]), (r: RoleRow) => r.name)
       else [])
      + JoinedRoleNames(members[1..], roles, userId)
  }

  // ------------------------------------------------------- reader rows

  /** `SELECT *` on "AspNetUsers". */
  function UserRecord(u: UserRow): ReaderRow {
    [("Id", Cell(u.id)), ("UserName", Cell(u.userName)), ("PasswordHash", Cell(u.passwordHash)),
     ("SecurityStamp", Cell(u.securityStamp)), ("Email", Cell(u.email)),
     ("EmailConfirmed", Bool(u.emailConfirmed))]
  }

  /** `SELECT *` on "AspNetRoles". */
  function RoleRecord(r: RoleRow): ReaderRow {
    [("Id", Cell(r.id)), ("Name", Cell(r.name))]
  }

  /** `SELECT *` on "AspNetUserLogins". */
  function LoginRecord(l: LoginRow): ReaderRow {
    [("UserId", Cell(l.userId)), ("LoginProvider", Cell(l.loginProvider)), ("ProviderKey", Cell(l.providerKey))]
  }

  /** `SELECT *` on "AspNetUserClaims". */
  function ClaimRecord(c: ClaimRow): ReaderRow {
    [("UserId", Cell(c.userId)), ("ClaimType", Cell(c.claimType)), ("ClaimValue", Cell(c.claimValue))]
  }

  /** No two columns of a reader row share a name. */
  predicate DistinctNames(fields: seq<Field>) {
    forall i, j :: 0 <= i < j < |fields| ==> fields[i].0 != fields[j].0
  }

  /** A one-column result row. */
  function Column(name: string, v: NStr): ReaderRow {
    [(name, Cell(v))]
  }

  /** The one column of the role-name join. */
  function NameColumn(n: NStr): ReaderRow {
    Column("Name", n)
  }

  // ------------------------------------------------------- statements

  /** The data-changing statements the accessors send. */
  datatype Write =
    | InsertUser | DeleteUser | UpdateUser | SetPasswordHash
    | InsertRole | DeleteRole | UpdateRole
    | InsertLogin | DeleteLogin | DeleteLoginsOfUser
    | InsertUserRole | DeleteUserRole | DeleteUserRolesOfUser
    | InsertClaim | DeleteClaim | DeleteClaimsOfUser

  /** The queries the accessors send. */
  datatype Read =
    | UserNameById | IdByLowerUserName | AllUsers | UserById
    | UsersByLowerUserName | UsersByLowerEmail | PasswordHashById | SecurityStampById
    | AllRoles | RoleNameById | RoleIdByName
    | UserIdByLogin | LoginsOfUserId | RoleNamesOfUser | ClaimsOfUserId

  /** The five relations, to say which one a statement touches. */
  datatype Relation = UsersRel | RolesRel | ClaimsRel | LoginsRel | UserRolesRel

  /** The number of rows in a relation. */
  function Size(t: Tables, rel: Relation): nat {
    match rel
    case UsersRel => |t.users|
    case RolesRel => |t.roles|
    case ClaimsRel => |t.claims|
    case LoginsRel => |t.logins|
    case UserRolesRel => |t.userRoles|
  }

  /** Every relation but `rel` is the same in `t` and `t'`. */
  predicate SameOutside(t: Tables, t': Tables, rel: Relation) {
    && (rel != UsersRel ==> t'.users == t.users)
    && (rel != RolesRel ==> t'.roles == t.roles)
    && (rel != ClaimsRel ==> t'.claims == t.claims)
    && (rel != LoginsRel ==> t'.logins == t.logins)
    && (rel != UserRolesRel ==> t'.userRoles == t.userRoles)
  }

  /** The relation a statement names after INSERT INTO, DELETE FROM or UPDATE. */
  function Target(w: Write): Relation {
    match w
    case InsertUser | DeleteUser | UpdateUser | SetPasswordHash => UsersRel
    case InsertRole | DeleteRole | UpdateRole => RolesRel
    case InsertLogin | DeleteLogin | DeleteLoginsOfUser => LoginsRel
    case InsertUserRole | DeleteUserRole | DeleteUserRolesOfUser => UserRolesRel
    case InsertClaim | DeleteClaim | DeleteClaimsOfUser => ClaimsRel
  }

  predicate IsInsert(w: Write) {
    w.InsertUser? || w.InsertRole? || w.InsertLogin? || w.InsertUserRole? || w.InsertClaim?
  }

  predicate IsDelete(w: Write) {
    || w.DeleteUser? || w.DeleteRole? || w.DeleteLogin? || w.DeleteLoginsOfUser?
    || w.DeleteUserRole? || w.DeleteUserRolesOfUser? || w.DeleteClaim? || w.DeleteClaimsOfUser?
  }

  /** The new tables and the affected-row count of a data-changing statement. */
  datatype Effect = Effect(tables: Tables, count: nat)

  /** What any data-changing statement may do: touch only the relation it
      names; an insert adds one row and reports 1; a delete removes exactly
      the rows it reports; an update keeps the number of rows; a rejected
      statement is a server error. */
  predicate Accountable(t: Tables, w: Write, r: Result<Effect>) {
    && (r.Ok? ==> SameOutside(t, r.value.tables, Target(w)))
    && (r.Ok? && IsInsert(w) ==>
          r.value.count == 1 && Size(r.value.tables, Target(w)) == Size(t, Target(w)) + 1)
    && (r.Ok? && IsDelete(w) ==> Size(r.value.tables, Target(w)) + r.value.count == Size(t, Target(w)))
    && (r.Ok? && !IsInsert(w) && !IsDelete(w) ==> Size(r.value.tables, Target(w)) == Size(t, Target(w)))
    && (r.Err? ==> r.error == StorageFailure)
  }

  /** The statements on "AspNetUsers". */
  function ApplyToUsers(t: Tables, w: Write, p: Params): Result<Effect>
    requires Target(w) == UsersRel
  {
    match w
    case InsertUser =>
      if IsText(p, "id") && IsText(p, "name") && IsText(p, "pwdHash") && IsText(p, "SecStamp")
         && IsText(p, "email") && IsBool(p, "emailconfirmed")
      then Ok(Effect(t.(users := t.users + [UserRow(TextOf(p, "id"), TextOf(p, "name"), TextOf(p, "pwdHash"),
                                                   TextOf(p, "SecStamp"), TextOf(p, "email"), p["emailconfirmed"].b)]), 1))
      else Err(StorageFailure)
    case DeleteUser =>
      if IsText(p, "userId")
      then var kept := UsersWithoutId(t.users, p["userId"]);
           Ok(Effect(t.(users := kept), |t.users| - |kept|))
      else Err(StorageFailure)
    case UpdateUser =>
      if IsText(p, "userName") && IsText(p, "pswHash") && IsText(p, "secStamp") && IsText(p, "userId")
         && IsText(p, "email") && IsBool(p, "emailconfirmed")
      then Ok(Effect(t.(users := UpdateUsers(t.users, p["userId"], TextOf(p, "userName"), TextOf(p, "pswHash"),
                                             TextOf(p, "secStamp"), TextOf(p, "email"), p["emailconfirmed"].b)),
                     |UsersWithId(t.users, p["userId"])|))
      else Err(StorageFailure)
    case SetPasswordHash =>
      if IsText(p, "pwdHash") && IsText(p, "id")
      then Ok(Effect(t.(users := SetUsersPasswordHash(t.users, p["id"], TextOf(p, "pwdHash"))),
                     |UsersWithId(t.users, p["id"])|))
      else Err(StorageFailure)
  }

  /** The statements on "AspNetRoles". */
  function ApplyToRoles(t: Tables, w: Write, p: Params): Result<Effect>
    requires Target(w) == RolesRel
  {
    match w
    case InsertRole =>
      if IsText(p, "id") && IsText(p, "name")
      then Ok(Effect(t.(roles := t.roles + [RoleRow(TextOf(p, "id"), TextOf(p, "name"))]), 1))
      else Err(StorageFailure)
    case DeleteRole =>
      if IsText(p, "id")
      then var kept := RolesWithoutId(t.roles, p["id"]);
           Ok(Effect(t.(roles := kept), |t.roles| - |kept|))
      else Err(StorageFailure)
    case UpdateRole =>
      if IsText(p, "name") && IsText(p, "id")
      then Ok(Effect(t.(roles := RenameRoles(t.roles, p["id"], TextOf(p, "name"))), |RolesWithId(t.roles, p["id"])|))
      else Err(StorageFailure)
  }

  /** The statements on "AspNetUserLogins". */
  function ApplyToLogins(t: Tables, w: Write, p: Params): Result<Effect>
    requires Target(w) == LoginsRel
  {
    match w
    case InsertLogin =>
      if IsText(p, "loginProvider") && IsText(p, "providerKey") && IsText(p, "userId")
      then Ok(Effect(t.(logins := t.logins + [LoginRow(TextOf(p, "userId"), TextOf(p, "loginProvider"),
                                                      TextOf(p, "providerKey"))]), 1))
      else Err(StorageFailure)
    case DeleteLogin =>
      if IsText(p, "userId") && IsText(p, "loginProvider") && IsText(p, "providerKey")
      then var kept := LoginsWithout(t.logins, p["userId"], p["loginProvider"], p["providerKey"]);
           Ok(Effect(t.(logins := kept), |t.logins| - |kept|))
      else Err(StorageFailure)
    case DeleteLoginsOfUser =>
      if IsText(p, "userId")
      then var kept := LoginsNotOfUser(t.logins, p["userId"]);
           Ok(Effect(t.(logins := kept), |t.logins| - |kept|))
      else Err(StorageFailure)
  }

  /** The statements on "AspNetUserRoles". */
  function ApplyToUserRoles(t: Tables, w: Write, p: Params): Result<Effect>
    requires Target(w) == UserRolesRel
  {
    match w
    case InsertUserRole =>
      if IsText(p, "userId") && IsText(p, "roleId")
      then Ok(Effect(t.(userRoles := t.userRoles + [UserRoleRow(TextOf(p, "userId"), TextOf(p, "roleId"))]), 1))
      else Err(StorageFailure)
    case DeleteUserRole =>
      if IsText(p, "userId") && IsText(p, "Role")
      then var kept := MembershipsWithout(t.userRoles, p["userId"], p["Role"]);
           Ok(Effect(t.(userRoles := kept), |t.userRoles| - |kept|))
      else Err(StorageFailure)
    case DeleteUserRolesOfUser =>
      if IsText(p, "userId")
      then var kept := MembershipsNotOfUser(t.userRoles, p["userId"]);
           Ok(Effect(t.(userRoles := kept), |t.userRoles| - |kept|))
      else Err(StorageFailure)
  }

  /** The statements on "AspNetUserClaims". */
  function ApplyToClaims(t: Tables, w: Write, p: Params): Result<Effect>
    requires Target(w) == ClaimsRel
  {
    match w
    case InsertClaim =>
      if IsText(p, "value") && IsText(p, "type") && IsText(p, "userId")
      then Ok(Effect(t.(claims := t.claims + [ClaimRow(TextOf(p, "userId"), TextOf(p, "type"), TextOf(p, "value"))]), 1))
      else Err(StorageFailure)
    case DeleteClaim =>
      // The WHERE clause names the column unquoted, as ClaimType; PostgreSQL
      // folds unquoted identifiers to lower case, and "AspNetUserClaims" has
      // no column claimtype, so the server rejects the statement whatever is bound.
      Err(StorageFailure)
    case DeleteClaimsOfUser =>
      if IsText(p, "userId")
      then var kept := ClaimsNotOfUser(t.claims, p["userId"]);
           Ok(Effect(t.(claims := kept), |t.claims| - |kept|))
      else Err(StorageFailure)
  }

  /** The server's meaning of a data-changing statement. A placeholder with no
      bound value stays in the text as `@name`, which PostgreSQL reads as the
      prefix operator `@` applied to an unquoted column that does not exist, so
      the statement is rejected; so is a value of the wrong type. */
  function Apply(t: Tables, w: Write, p: Params): Result<Effect>
  {
    match Target(w)
    case UsersRel => ApplyToUsers(t, w, p)
    case RolesRel => ApplyToRoles(t, w, p)
    case LoginsRel => ApplyToLogins(t, w, p)
    case UserRolesRel => ApplyToUserRoles(t, w, p)
    case ClaimsRel => ApplyToClaims(t, w, p)
  }

  /** The statements on "AspNetUsers" are accountable. */
  lemma UsersStatementsAccountable(t: Tables, w: Write, p: Params)
    requires Target(w) == UsersRel
    ensures Accountable(t, w, ApplyToUsers(t, w, p))
  {
  }

  /** The statements on "AspNetRoles" are accountable. */
  lemma RolesStatementsAccountable(t: Tables, w: Write, p: Params)
    requires Target(w) == RolesRel
    ensures Accountable(t, w, ApplyToRoles(t, w, p))
  {
  }

  /** The statements on "AspNetUserLogins" are accountable. */
  lemma LoginsStatementsAccountable(t: Tables, w: Write, p: Params)
    requires Target(w) == LoginsRel
    ensures Accountable(t, w, ApplyToLogins(t, w, p))
  {
  }

  /** The statements on "AspNetUserRoles" are accountable. */
  lemma UserRolesStatementsAccountable(t: Tables, w: Write, p: Params)
    requires Target(w) == UserRolesRel
    ensures Accountable(t, w, ApplyToUserRoles(t, w, p))
  {
  }

  /** The statements on "AspNetUserClaims" are accountable. */
  lemma ClaimsStatementsAccountable(t: Tables, w: Write, p: Params)
    requires Target(w) == ClaimsRel
    ensures Accountable(t, w, ApplyToClaims(t, w, p))
  {
  }

  /** Every data-changing statement is accountable, and the delete of one
      claim is always rejected. */
  lemma ApplyAccountable(t: Tables, w: Write, p: Params)
    ensures Accountable(t, w, Apply(t, w, p))
    ensures w == DeleteClaim ==> Apply(t, w, p).Err?
  {
    match Target(w)
    case UsersRel => UsersStatementsAccountable(t, w, p);
    case RolesRel => RolesStatementsAccountable(t, w, p);
    case LoginsRel => LoginsStatementsAccountable(t, w, p);
    case UserRolesRel => UserRolesStatementsAccountable(t, w, p);
    case ClaimsRel => ClaimsStatementsAccountable(t, w, p);
  }

  /** The rows the data reader yields for a query, in order. */
  function Select(t: Tables, q: Read, p: Params): Result<seq<ReaderRow>> {
    match q
    case UserNameById =>
      if IsText(p, "id")
      then Ok(Map(UsersWithId(t.users, p["id"]), (u: UserRow) => Column("UserName", u.userName)))
      else Err(StorageFailure)
    case IdByLowerUserName =>
      if IsText(p, "name")
      then Ok(Map(UsersWithLowerName(t.users, p["name"]), (u: UserRow) => Column("Id", u.id)))
      else Err(StorageFailure)
    case AllUsers =>
      Ok(Map(t.users, UserRecord))
    case UserById =>
      if IsText(p, "id") then Ok(Map(UsersWithId(t.users, p["id"]), UserRecord)) else Err(StorageFailure)
    case UsersByLowerUserName =>
      if IsText(p, "name") then Ok(Map(UsersWithLowerName(t.users, p["name"]), UserRecord)) else Err(StorageFailure)
    case UsersByLowerEmail =>
      if IsText(p, "email") then Ok(Map(UsersWithLowerEmail(t.users, p["email"]), UserRecord)) else Err(StorageFailure)
    case PasswordHashById =>
      if IsText(p, "id")
      then Ok(Map(UsersWithId(t.users, p["id"]), (u: UserRow) => Column("PasswordHash", u.passwordHash)))
      else Err(StorageFailure)
    case SecurityStampById =>
      if IsText(p, "id")
      then Ok(Map(UsersWithId(t.users, p["id"]), (u: UserRow) => Column("SecurityStamp", u.securityStamp)))
      else Err(StorageFailure)
    case AllRoles =>
      Ok(Map(t.roles, RoleRecord))
    case RoleNameById =>
      if IsText(p, "id")
      then Ok(Map(RolesWithId(t.roles, p["id"]), (r: RoleRow) => Column("Name", r.name)))
      else Err(StorageFailure)
    case RoleIdByName =>
      if IsText(p, "name")
      then Ok(Map(RolesWithName(t.roles, p["name"]), (r: RoleRow) => Column("Id", r.id)))
      else Err(StorageFailure)
    case UserIdByLogin =>
      if IsText(p, "loginProvider") && IsText(p, "providerKey")
      then Ok(Map(LoginsWithKey(t.logins, p["loginProvider"], p["providerKey"]), (l: LoginRow) => Column("UserId", l.userId)))
      else Err(StorageFailure)
    case LoginsOfUserId =>
      if IsText(p, "userId") then Ok(Map(LoginsOfUser(t.logins, p["userId"]), LoginRecord)) else Err(StorageFailure)
    case RoleNamesOfUser =>
      if IsText(p, "userId")
      then Ok(Map(JoinedRoleNames(t.userRoles, t.roles, p["userId"]), NameColumn))
      else Err(StorageFailure)
    case ClaimsOfUserId =>
      if IsText(p, "userId") then Ok(Map(ClaimsOfUser(t.claims, p["userId"]), ClaimRecord)) else Err(StorageFailure)
  }

  /** Every query's rows name each column once; a rejected query is a server
      error; the two unparameterised `SELECT *` queries always succeed. */
  lemma SelectWellFormed(t: Tables, q: Read, p: Params)
    ensures Select(t, q, p).Ok? ==>
      forall i :: 0 <= i < |Select(t, q, p).value| ==> DistinctNames(Select(t, q, p).value[i])
    ensures Select(t, q, p).Err? ==> Select(t, q, p).error == StorageFailure
    ensures q == AllUsers || q == AllRoles ==> Select(t, q, p).Ok?
  {
  }
}
