/** The "AspNetUsers" accessor (`UserTable`): the row-to-user mapping, the
    lookups by Id, name and email, and the statements that change user rows. */
module Users {
  import opened Common
  import opened Entities
  import opened Relational
  import opened PostgreSql

  /** The columns the reader loops index. */
  function UserColumns(): set<string> {
    {"Id", "UserName", "PasswordHash", "SecurityStamp", "Email", "EmailConfirmed"}
  }

  /** `string.IsNullOrEmpty(x) ? null : x`. */
  function NullIfEmpty(s: NStr): (r: NStr)
    ensures r.Some? ==> r.value != ""
    ensures r.Some? ==> r == s
    ensures !IsNullOrEmpty(s) ==> r == s
  {
    if IsNullOrEmpty(s) then None else s
  }

  /** The row-to-user mapping of the reader loops: Id and UserName as read,
      the three optional texts with empty read as null, and EmailConfirmed
      set by comparing the column's text with "True". */
  function ToUser(row: map<string, NStr>): (u: User)
    requires UserColumns() <= row.Keys
    ensures u.id == row["Id"] && u.userName == row["UserName"]
    ensures u.passwordHash.Some? ==> u.passwordHash == row["PasswordHash"] && u.passwordHash.value != ""
    ensures !IsNullOrEmpty(row["PasswordHash"]) ==> u.passwordHash == row["PasswordHash"]
    ensures u.securityStamp.Some? ==> u.securityStamp == row["SecurityStamp"] && u.securityStamp.value != ""
    ensures !IsNullOrEmpty(row["SecurityStamp"]) ==> u.securityStamp == row["SecurityStamp"]
    ensures u.email.Some? ==> u.email == row["Email"] && u.email.value != ""
    ensures !IsNullOrEmpty(row["Email"]) ==> u.email == row["Email"]
    ensures u.emailConfirmed <==> row["EmailConfirmed"] == Some("True")
  {
    User(row["Id"], row["UserName"], NullIfEmpty(row["PasswordHash"]), NullIfEmpty(row["SecurityStamp"]),
         NullIfEmpty(row["Email"]), row["EmailConfirmed"] == Some("True"))
  }

  /** The row a user is stored as: its six fields verbatim. */
  function RowOf(user: User): UserRow {
    UserRow(user.id, user.userName, user.passwordHash, user.securityStamp, user.email, user.emailConfirmed)
  }

  /** What a stored row reads back as through Query and the mapping. */
  function ReadUser(row: UserRow): User {
    User(row.id, row.userName, NullIfEmpty(row.passwordHash), NullIfEmpty(row.securityStamp),
         NullIfEmpty(row.email), row.emailConfirmed)
  }

  /** A row sent through the reader and `ToUser` is `ReadUser` of it: the
      boolean column prints as "True" exactly when it is true, so the
      comparison with the literal recovers it. */
  lemma ToUserOfRecord(u: UserRow, m: map<string, NStr>)
    requires forall k :: 0 <= k < |UserRecord(u)| ==>
      UserRecord(u)[k].0 in m && m[UserRecord(u)[k].0] == ToText(UserRecord(u)[k].1)
    ensures UserColumns() <= m.Keys
    ensures ToUser(m) == ReadUser(u)
  {
    var f := UserRecord(u);
    assert f[0].0 in m && f[1].0 in m && f[2].0 in m && f[3].0 in m && f[4].0 in m && f[5].0 in m;
    assert m["EmailConfirmed"] == ToText(Bool(u.emailConfirmed));
  }

  /** Query over `SELECT *` rows of "AspNetUsers" succeeds and maps, row by
      row and in order, to `ReadUser` of the stored rows. */
  lemma RenderedUsers(us: seq<UserRow>)
    ensures Rendered(Map(us, UserRecord)).Ok?
    ensures |Rendered(Map(us, UserRecord)).value| == |us|
    ensures forall i :: 0 <= i < |us| ==>
      UserColumns() <= Rendered(Map(us, UserRecord)).value[i].Keys
      && ToUser(Rendered(Map(us, UserRecord)).value[i]) == ReadUser(us[i])
  {
    forall i | 0 <= i < |us| ensures DistinctNames(UserRecord(us[i])) {
    }
    RenderedRecords(us, UserRecord);
    var v := Rendered(Map(us, UserRecord)).value;
    forall i | 0 <= i < |us| ensures UserColumns() <= v[i].Keys && ToUser(v[i]) == ReadUser(us[i]) {
      ToUserOfRecord(us[i], v[i]);
    }
  }

  // ---------------------------------------------------------------- lookups

  /** The first row with the Id, if any. */
  function FirstWithId(users: seq<UserRow>, id: NStr): Option<UserRow> {
    var m := UsersWithId(users, Cell(id));
    if m == [] then None else Some(m[0])
  }

  /** GetPasswordHash: the hash of the first row with the Id; a missing row,
      a NULL and an empty hash all read as null. */
  function PasswordHashOf(users: seq<UserRow>, id: NStr): (h: NStr)
    ensures h.Some? ==> h.value != ""
  {
    var first := FirstWithId(users, id);
    if first.Some? then NullIfEmpty(first.value.passwordHash) else None
  }

  /** GetUserById: a user only when exactly one row has the Id. */
  function LookupUserById(users: seq<UserRow>, id: NStr): Option<User> {
    var m := UsersWithId(users, Cell(id));
    if |m| == 1 then Some(ReadUser(m[0])) else None
  }

  /** GetUserByName: every row whose lower-cased UserName equals the
      lower-cased argument, in row order. */
  function UsersByName(users: seq<UserRow>, name: NStr): seq<User> {
    Map(UsersWithLowerName(users, Cell(LowerOrNull(name))), ReadUser)
  }

  /** GetUserByEmail: the same on Email. */
  function UsersByEmail(users: seq<UserRow>, email: NStr): seq<User> {
    Map(UsersWithLowerEmail(users, Cell(LowerOrNull(email))), ReadUser)
  }

  /** GetUserById finds a user exactly when one row has that Id, and the user
      it finds carries that Id. */
  lemma UserByIdExactlyOne(users: seq<UserRow>, id: NStr)
    ensures LookupUserById(users, id).Some? <==> |UsersWithId(users, Cell(id))| == 1
    ensures LookupUserById(users, id).Some? ==> id.Some? && LookupUserById(users, id).value.id == id
  {
    var m := UsersWithId(users, Cell(id));
    if |m| == 1 {
      assert m[0] in m;
    }
  }

  /** A user is found by name exactly when its stored name and the argument
      agree after lower-casing; a null name finds nobody. */
  lemma UsersByNameMatches(users: seq<UserRow>, name: NStr, row: UserRow)
    ensures row in UsersWithLowerName(users, Cell(LowerOrNull(name)))
        <==> row in users && row.userName.Some? && name.Some? && Lower(row.userName.value) == Lower(name.value)
    ensures |UsersByName(users, name)| == |UsersWithLowerName(users, Cell(LowerOrNull(name)))|
  {
  }

  /** A user is found by email exactly when the stored email and the argument
      agree after lower-casing; stored casing is kept in the result. */
  lemma UsersByEmailMatches(users: seq<UserRow>, email: NStr, row: UserRow)
    ensures row in UsersWithLowerEmail(users, Cell(LowerOrNull(email)))
        <==> row in users && row.email.Some? && email.Some? && Lower(row.email.value) == Lower(email.value)
  {
  }

  /** Insert then GetUserById, for an Id no row had: the same user comes back,
      except that an empty PasswordHash, SecurityStamp or Email reads back as null. */
  lemma {:induction false} InsertThenGetById(users: seq<UserRow>, user: User)
    requires user.id.Some?
    requires UsersWithId(users, Cell(user.id)) == []
    ensures LookupUserById(users + [RowOf(user)], user.id)
         == Some(user.(passwordHash := NullIfEmpty(user.passwordHash),
                       securityStamp := NullIfEmpty(user.securityStamp),
                       email := NullIfEmpty(user.email)))
  {
    var keep := (u: UserRow) => Matches(u.id, Cell(user.id));
    FilterAppend(users, [RowOf(user)], keep);
    assert Filter([RowOf(user)], keep) == [RowOf(user)];
  }

  /** Delete removes exactly the rows with the Id and keeps every other row;
      the affected-row count is the number of rows with the Id. */
  lemma DeleteKeepsOthers(users: seq<UserRow>, id: NStr, row: UserRow)
    ensures row in UsersWithoutId(users, Cell(id)) <==> row in users && !(id.Some? && row.id == id)
    ensures |users| - |UsersWithoutId(users, Cell(id))| == |UsersWithId(users, Cell(id))|
  {
    FilterPartition(users, (u: UserRow) => Matches(u.id, Cell(id)), (u: UserRow) => !Matches(u.id, Cell(id)));
  }

  /** Update rewrites the five mutable columns on the rows with the user's Id
      and nothing else: Ids, and every row with another Id, are unchanged. */
  lemma UpdateOnlyMatchingRows(users: seq<UserRow>, user: User, i: nat)
    requires i < |users|
    ensures var after := UpdateUsers(users, Cell(user.id), user.userName, user.passwordHash,
                                     user.securityStamp, user.email, user.emailConfirmed);
      && |after| == |users|
      && after[i].id == users[i].id
      && (if users[i].id.Some? && users[i].id == user.id then after[i] == RowOf(user) else after[i] == users[i])
  {
  }

  /** SetPasswordHash changes PasswordHash on the rows with the Id and no
      other column or row. */
  lemma SetPasswordHashOnlyHash(users: seq<UserRow>, id: NStr, hash: NStr, i: nat)
    requires i < |users|
    ensures var after := SetUsersPasswordHash(users, Cell(id), hash);
      && |after| == |users|
      && after[i] == if id.Some? && users[i].id == id then users[i].(passwordHash := hash) else users[i]
  {
  }

  // The statements, as the accessor sends them.
  const UserNameSql: string := "SELECT \"UserName\" FROM \"AspNetUsers\" WHERE \"Id\" = @id"
  const UserIdSql: string := "SELECT \"Id\" FROM \"AspNetUsers\" WHERE LOWER(\"UserName\") = @name"
  const AllUsersSql: string := "SELECT * FROM \"AspNetUsers\""
  const UserByIdSql: string := "SELECT * FROM \"AspNetUsers\" WHERE \"Id\" = @id"
  const UsersByNameSql: string := "SELECT * FROM \"AspNetUsers\" WHERE LOWER(\"UserName\") = @name"
  const UsersByEmailSql: string := "SELECT * FROM \"AspNetUsers\" WHERE LOWER(\"Email\") = @email"
  const PasswordHashSql: string := "SELECT \"PasswordHash\" FROM \"AspNetUsers\" WHERE \"Id\" = @id"
  const SetPasswordHashSql: string := "UPDATE \"AspNetUsers\" SET \"PasswordHash\" = @pwdHash WHERE \"Id\" = @id"
  const SecurityStampSql: string := "SELECT \"SecurityStamp\" FROM \"AspNetUsers\" WHERE \"Id\" = @id"
  const InsertSql: string := "INSERT INTO \"AspNetUsers\"(\"Id\", \"UserName\", \"PasswordHash\", \"SecurityStamp\", \"Email\", \"EmailConfirmed\") VALUES (@id, @name, @pwdHash, @SecStamp, @email, @emailconfirmed);"
  const DeleteSql: string := "DELETE FROM \"AspNetUsers\" WHERE \"Id\" = @userId"
  const UpdateSql: string := "UPDATE \"AspNetUsers\" SET \"UserName\" = @userName, \"PasswordHash\" = @pswHash, \"SecurityStamp\" = @secStamp, \"Email\"= @email, \"EmailConfirmed\" = @emailconfirmed WHERE \"Id\" = @userId;"

  class UserTable {
    const db: Database

    constructor (db: Database)
      ensures this.db == db
    {
      this.db := db;
    }

    method GetUserName(userId: NStr) returns (r: Result<NStr>)
      modifies db`conn, db`calls
      ensures db.Session()
      ensures db.Opening().Ready? ==>
        r == Ok(var first := FirstWithId(db.tables.users, userId); if first.Some? then first.value.userName else None)
      ensures db.Opening().Failed? ==> r == Err(db.Opening().error)
    {
      r := db.GetStrValue(UserNameSql, UserNameById,
                          Some(map["id" := ObjOf(userId)]));
    }

    method GetUserId(userName: NStr) returns (r: Result<NStr>)
      modifies db`conn, db`calls
      ensures db.Session()
      ensures db.Opening().Ready? ==>
        r == Ok(var m := UsersWithLowerName(db.tables.users, Cell(LowerOrNull(userName)));
                if m == [] then None else m[0].id)
      ensures db.Opening().Failed? ==> r == Err(db.Opening().error)
    {
      var name := LowerOrNull(userName);
      r := db.GetStrValue(UserIdSql, IdByLowerUserName,
                          Some(map["name" := ObjOf(name)]));
    }

    /** The reader loop shared by GetAllUsers, GetUserByName and GetUserByEmail. */
    static method MapUsers(rows: seq<map<string, NStr>>, ghost selected: seq<UserRow>) returns (users: seq<User>)
      requires Rendered(Map(selected, UserRecord)).Ok? && rows == Rendered(Map(selected, UserRecord)).value
      ensures users == Map(selected, ReadUser)
    {
      RenderedUsers(selected);
      users := [];
      var i := 0;
      while i < |rows|
        invariant 0 <= i <= |rows|
        invariant |users| == i
        invariant forall k :: 0 <= k < i ==> users[k] == ReadUser(selected[k])
      {
        users := users + [ToUser(rows[i])];
        i := i + 1;
      }
    }

    method GetAllUsers() returns (r: Result<seq<User>>)
      modifies db`conn, db`calls
      ensures db.Session()
      ensures db.Opening().Ready? ==> r == Ok(Map(db.tables.users, ReadUser))
      ensures db.Opening().Failed? ==> r == Err(db.Opening().error)
    {
      var rows := db.Query(AllUsersSql, AllUsers, Some(map[]));
      RenderedUsers(db.tables.users);
      if rows.Err? {
        return Err(rows.error);
      }
      var users := MapUsers(rows.value, db.tables.users);
      r := Ok(users);
    }

    method GetUserById(userId: NStr) returns (r: Result<Option<User>>)
      modifies db`conn, db`calls
      ensures db.Session()
      ensures db.Opening().Ready? ==> r == Ok(LookupUserById(db.tables.users, userId))
      ensures db.Opening().Failed? ==> r == Err(db.Opening().error)
    {
      var rows := db.Query(UserByIdSql, Read.UserById,
                           Some(map["id" := ObjOf(userId)]));
      ghost var selected := UsersWithId(db.tables.users, Cell(userId));
      RenderedUsers(selected);
      if rows.Err? {
        return Err(rows.error);
      }
      if |rows.value| == 1 {
        r := Ok(Some(ToUser(rows.value[0])));
      } else {
        r := Ok(None);
      }
    }

    method GetUserByName(userName: NStr) returns (r: Result<seq<User>>)
      modifies db`conn, db`calls
      ensures db.Session()
      ensures db.Opening().Ready? ==> r == Ok(UsersByName(db.tables.users, userName))
      ensures db.Opening().Failed? ==> r == Err(db.Opening().error)
    {
      var name := LowerOrNull(userName);
      var rows := db.Query(UsersByNameSql, UsersByLowerUserName,
                           Some(map["name" := ObjOf(name)]));
      ghost var selected := UsersWithLowerName(db.tables.users, Cell(name));
      RenderedUsers(selected);
      if rows.Err? {
        return Err(rows.error);
      }
      var users := MapUsers(rows.value, selected);
      r := Ok(users);
    }

    method GetUserByEmail(email: NStr) returns (r: Result<seq<User>>)
      modifies db`conn, db`calls
      ensures db.Session()
      ensures db.Opening().Ready? ==> r == Ok(UsersByEmail(db.tables.users, email))
      ensures db.Opening().Failed? ==> r == Err(db.Opening().error)
    {
      var lowered := LowerOrNull(email);
      var rows := db.Query(UsersByEmailSql, UsersByLowerEmail,
                           Some(map["email" := ObjOf(lowered)]));
      ghost var selected := UsersWithLowerEmail(db.tables.users, Cell(lowered));
      RenderedUsers(selected);
      if rows.Err? {
        return Err(rows.error);
      }
      var users := MapUsers(rows.value, selected);
      r := Ok(users);
    }

    /** The stored hash of the first row with the Id; missing or empty reads as null. */
    method GetPasswordHash(userId: NStr) returns (r: Result<NStr>)
      modifies db`conn, db`calls
      ensures db.Session()
      ensures db.Opening().Ready? ==> r == Ok(PasswordHashOf(db.tables.users, userId))
      ensures db.Opening().Failed? ==> r == Err(db.Opening().error)
      ensures r.Ok? && r.value.Some? ==> r.value.value != ""
    {
      var hash := db.GetStrValue(PasswordHashSql, PasswordHashById,
                                 Some(map["id" := ObjOf(userId)]));
      if hash.Err? {
        return hash;
      }
      if IsNullOrEmpty(hash.value) {
        return Ok(None);
      }
      r := hash;
    }

    method SetPasswordHash(userId: NStr, passwordHash: NStr) returns (r: Result<int>)
      modifies db`conn, db`calls, db`tables
      ensures db.Session()
      ensures db.Opening().Ready? ==>
        && db.tables == old(db.tables).(users := SetUsersPasswordHash(old(db.tables).users, Cell(userId), passwordHash))
        && r == Ok(|UsersWithId(old(db.tables).users, Cell(userId))|)
      ensures db.Opening().Failed? ==> r == Err(db.Opening().error) && db.tables == old(db.tables)
    {
      r := db.Execute(SetPasswordHashSql, Write.SetPasswordHash,
                      Some(map["pwdHash" := ObjOf(passwordHash), "id" := ObjOf(userId)]));
    }

    /** The stored stamp of the first row with the Id, not normalised. */
    method GetSecurityStamp(userId: NStr) returns (r: Result<NStr>)
      modifies db`conn, db`calls
      ensures db.Session()
      ensures db.Opening().Ready? ==>
        r == Ok(var first := FirstWithId(db.tables.users, userId);
                if first.Some? then first.value.securityStamp else None)
      ensures db.Opening().Failed? ==> r == Err(db.Opening().error)
    {
      r := db.GetStrValue(SecurityStampSql, SecurityStampById,
                          Some(map["id" := ObjOf(userId)]));
    }

    /** Adds one row holding the user's six fields; Email keeps its casing. */
    method Insert(user: User) returns (r: Result<int>)
      modifies db`conn, db`calls, db`tables
      ensures db.Session()
      ensures db.Opening().Ready? ==> db.tables == old(db.tables).(users := old(db.tables).users + [RowOf(user)]) && r == Ok(1)
      ensures db.Opening().Failed? ==> r == Err(db.Opening().error) && db.tables == old(db.tables)
    {
      var params := map["name" := ObjOf(user.userName), "id" := ObjOf(user.id), "pwdHash" := ObjOf(user.passwordHash),
                        "SecStamp" := ObjOf(user.securityStamp), "email" := ObjOf(user.email),
                        "emailconfirmed" := Boolean(user.emailConfirmed)];
      ghost var p := Bound(Some(params));
      assert p["id"] == Cell(user.id) && p["name"] == Cell(user.userName) && p["pwdHash"] == Cell(user.passwordHash);
      assert p["SecStamp"] == Cell(user.securityStamp) && p["email"] == Cell(user.email);
      assert p["emailconfirmed"] == Bool(user.emailConfirmed);
      r := db.Execute(InsertSql,
                      InsertUser, Some(params));
    }

    /** The private `Delete(string userId)`. */
    method DeleteById(userId: NStr) returns (r: Result<int>)
      modifies db`conn, db`calls, db`tables
      ensures db.Session()
      ensures db.Opening().Ready? ==>
        && db.tables == old(db.tables).(users := UsersWithoutId(old(db.tables).users, Cell(userId)))
        && r == Ok(|old(db.tables).users| - |db.tables.users|)
      ensures db.Opening().Failed? ==> r == Err(db.Opening().error) && db.tables == old(db.tables)
    {
      r := db.Execute(DeleteSql, DeleteUser,
                      Some(map["userId" := ObjOf(userId)]));
    }

    method Delete(user: User) returns (r: Result<int>)
      modifies db`conn, db`calls, db`tables
      ensures db.Session()
      ensures db.Opening().Ready? ==>
        && db.tables == old(db.tables).(users := UsersWithoutId(old(db.tables).users, Cell(user.id)))
        && r == Ok(|old(db.tables).users| - |db.tables.users|)
      ensures db.Opening().Failed? ==> r == Err(db.Opening().error) && db.tables == old(db.tables)
    {
      r := DeleteById(user.id);
    }

    method Update(user: User) returns (r: Result<int>)
      modifies db`conn, db`calls, db`tables
      ensures db.Session()
      ensures db.Opening().Ready? ==>
        && db.tables == old(db.tables).(users := UpdateUsers(old(db.tables).users, Cell(user.id), user.userName,
                                                             user.passwordHash, user.securityStamp, user.email,
                                                             user.emailConfirmed))
        && r == Ok(|UsersWithId(old(db.tables).users, Cell(user.id))|)
      ensures db.Opening().Failed? ==> r == Err(db.Opening().error) && db.tables == old(db.tables)
    {
      var params := map["userName" := ObjOf(user.userName), "pswHash" := ObjOf(user.passwordHash),
                        "secStamp" := ObjOf(user.securityStamp), "userId" := ObjOf(user.id),
                        "email" := ObjOf(user.email), "emailconfirmed" := Boolean(user.emailConfirmed)];
      ghost var p := Bound(Some(params));
      assert p["userName"] == Cell(user.userName) && p["pswHash"] == Cell(user.passwordHash);
      assert p["secStamp"] == Cell(user.securityStamp) && p["userId"] == Cell(user.id) && p["email"] == Cell(user.email);
      assert p["emailconfirmed"] == Bool(user.emailConfirmed);
      r := db.Execute(UpdateSql,
                      UpdateUser, Some(params));
    }
  }
}
