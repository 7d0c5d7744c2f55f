/** The "AspNetUserLogins" accessor (`UserLoginsTable`): external logins,
    (provider, key) pairs attached to a user Id. */
module Logins {
  import opened Common
  import opened Entities
  import opened Relational
  import opened PostgreSql

  /** `new UserLoginInfo(row["LoginProvider"], row["ProviderKey"])` for a stored row. */
  function LoginOf(l: LoginRow): LoginInfo {
    LoginInfo(l.loginProvider, l.providerKey)
  }

  /** FindUserIdByLogin: the UserId of the first row with the provider and the key. */
  function UserIdOfLogin(logins: seq<LoginRow>, login: LoginInfo): NStr {
    var m := LoginsWithKey(logins, Cell(login.loginProvider), Cell(login.providerKey));
    if m == [] then None else m[0].userId
  }

  /** FindByUserId: the (provider, key) pairs of the user's rows, in row order. */
  function LoginsOf(logins: seq<LoginRow>, userId: NStr): seq<LoginInfo> {
    Map(LoginsOfUser(logins, Cell(userId)), LoginOf)
  }

  /** Delete(user, login) keeps a row exactly when it differs from the triple
      in one of the three columns (a NULL column never matches); the
      affected-row count is the number of copies of the triple. */
  lemma DeleteOneKeepsOthers(logins: seq<LoginRow>, userId: NStr, login: LoginInfo, l: LoginRow)
    ensures l in LoginsWithout(logins, Cell(userId), Cell(login.loginProvider), Cell(login.providerKey))
        <==> l in logins && !(userId.Some? && login.loginProvider.Some? && login.providerKey.Some?
                              && l == LoginRow(userId, login.loginProvider, login.providerKey))
    ensures |logins| - |LoginsWithout(logins, Cell(userId), Cell(login.loginProvider), Cell(login.providerKey))|
         == |Filter(logins, (x: LoginRow) => x == LoginRow(userId, login.loginProvider, login.providerKey)
                                             && userId.Some? && login.loginProvider.Some? && login.providerKey.Some?)|
  {
    var row := LoginRow(userId, login.loginProvider, login.providerKey);
    var u, p, k := Cell(userId), Cell(login.loginProvider), Cell(login.providerKey);
    FilterPartition(logins,
      (x: LoginRow) => x == row && userId.Some? && login.loginProvider.Some? && login.providerKey.Some?,
      (x: LoginRow) => !(Matches(x.userId, u) && Matches(x.loginProvider, p) && Matches(x.providerKey, k)));
  }

  /** Delete(userId) keeps exactly the rows of other users; the affected-row
      count is the number of the user's rows. */
  lemma DeleteAllKeepsOthers(logins: seq<LoginRow>, userId: NStr, l: LoginRow)
    ensures l in LoginsNotOfUser(logins, Cell(userId)) <==> l in logins && !(userId.Some? && l.userId == userId)
    ensures |logins| - |LoginsNotOfUser(logins, Cell(userId))| == |LoginsOfUser(logins, Cell(userId))|
  {
    FilterPartition(logins, (x: LoginRow) => Matches(x.userId, Cell(userId)), (x: LoginRow) => !Matches(x.userId, Cell(userId)));
  }

  /** After Delete(userId), FindByUserId(userId) is empty. */
  lemma DeleteAllLeavesNone(logins: seq<LoginRow>, userId: NStr)
    ensures LoginsOf(LoginsNotOfUser(logins, Cell(userId)), userId) == []
  {
    var rest := LoginsNotOfUser(logins, Cell(userId));
    FilterNone(rest, (l: LoginRow) => Matches(l.userId, Cell(userId)));
  }

  /** After Delete(user, login), FindByUserId(user.Id) no longer lists the pair. */
  lemma DeleteOneRemovesPair(logins: seq<LoginRow>, userId: NStr, login: LoginInfo)
    requires userId.Some? && login.loginProvider.Some? && login.providerKey.Some?
    ensures login !in LoginsOf(LoginsWithout(logins, Cell(userId), Cell(login.loginProvider), Cell(login.providerKey)), userId)
  {
    var rest := LoginsWithout(logins, Cell(userId), Cell(login.loginProvider), Cell(login.providerKey));
    var mine := LoginsOfUser(rest, Cell(userId));
    forall i | 0 <= i < |mine| ensures LoginOf(mine[i]) != login {
      assert mine[i] in mine;
    }
  }

  /** Insert then FindUserIdByLogin, for a (provider, key) no row had: the
      login resolves to the inserted user's Id. */
  lemma InsertThenFindUserId(logins: seq<LoginRow>, userId: NStr, login: LoginInfo)
    requires login.loginProvider.Some? && login.providerKey.Some?
    requires LoginsWithKey(logins, Cell(login.loginProvider), Cell(login.providerKey)) == []
    ensures UserIdOfLogin(logins + [LoginRow(userId, login.loginProvider, login.providerKey)], login) == userId
  {
    var row := LoginRow(userId, login.loginProvider, login.providerKey);
    var keep := (l: LoginRow) => Matches(l.loginProvider, Cell(login.loginProvider)) && Matches(l.providerKey, Cell(login.providerKey));
    FilterAppend(logins, [row], keep);
    assert Filter([row], keep) == [row];
  }

  /** Query over the user's rows yields, row by row, the stored provider and key. */
  lemma RenderedLogins(ls: seq<LoginRow>)
    ensures Rendered(Map(ls, LoginRecord)).Ok?
    ensures |Rendered(Map(ls, LoginRecord)).value| == |ls|
    ensures forall i :: 0 <= i < |ls| ==>
      var row := Rendered(Map(ls, LoginRecord)).value[i];
      "LoginProvider" in row && "ProviderKey" in row
      && LoginInfo(row["LoginProvider"], row["ProviderKey"]) == LoginOf(ls[i])
  {
    RenderedRecords(ls, LoginRecord);
    var v := Rendered(Map(ls, LoginRecord)).value;
    forall i | 0 <= i < |ls|
      ensures "LoginProvider" in v[i] && "ProviderKey" in v[i]
      ensures LoginInfo(v[i]["LoginProvider"], v[i]["ProviderKey"]) == LoginOf(ls[i])
    {
      var f := LoginRecord(ls[i]);
      assert f[1].0 == "LoginProvider" && f[2].0 == "ProviderKey";
    }
  }

  // The statements, as the accessor sends them.
  const DeleteOneSql: string := "DELETE FROM \"AspNetUserLogins\" WHERE \"UserId\" = @userId AND \"LoginProvider\" = @loginProvider AND \"ProviderKey\" = @providerKey"
  const DeleteAllSql: string := "DELETE FROM \"AspNetUserLogins\" WHERE \"UserId\" = @userId"
  const InsertSql: string := "INSERT INTO \"AspNetUserLogins\" (\"LoginProvider\", \"ProviderKey\", \"UserId\") VALUES (@loginProvider, @providerKey, @userId)"
  const UserIdSql: string := "SELECT \"UserId\" FROM \"AspNetUserLogins\" WHERE \"LoginProvider\" = @loginProvider AND \"ProviderKey\" = @providerKey"
  const LoginsSql: string := "SELECT * FROM \"AspNetUserLogins\" WHERE \"UserId\" = @userId"

  class UserLoginsTable {
    const db: Database

    constructor (db: Database)
      ensures this.db == db
    {
      this.db := db;
    }

    /** `Delete(IdentityUser user, UserLoginInfo login)`. */
    method DeleteLogin(user: User, login: LoginInfo) returns (r: Result<int>)
      modifies db`conn, db`calls, db`tables
      ensures db.Session()
      ensures db.Opening().Ready? ==>
        && db.tables == old(db.tables).(logins := LoginsWithout(old(db.tables).logins, Cell(user.id),
                                                                Cell(login.loginProvider), Cell(login.providerKey)))
        && r == Ok(|old(db.tables).logins| - |db.tables.logins|)
      ensures db.Opening().Failed? ==> r == Err(db.Opening().error) && db.tables == old(db.tables)
    {
      r := db.Execute(DeleteOneSql, Write.DeleteLogin,
                      Some(map["userId" := ObjOf(user.id), "loginProvider" := ObjOf(login.loginProvider),
                               "providerKey" := ObjOf(login.providerKey)]));
    }

    /** `Delete(string userId)`. */
    method Delete(userId: NStr) returns (r: Result<int>)
      modifies db`conn, db`calls, db`tables
      ensures db.Session()
      ensures db.Opening().Ready? ==>
        && db.tables == old(db.tables).(logins := LoginsNotOfUser(old(db.tables).logins, Cell(userId)))
        && r == Ok(|old(db.tables).logins| - |db.tables.logins|)
      ensures db.Opening().Failed? ==> r == Err(db.Opening().error) && db.tables == old(db.tables)
    {
      assert Bound(Some(map["userId" := ObjOf(userId)])) == map["userId" := Cell(userId)];
      r := db.Execute(DeleteAllSql, DeleteLoginsOfUser, Some(map["userId" := ObjOf(userId)]));
    }

    method Insert(user: User, login: LoginInfo) returns (r: Result<int>)
      modifies db`conn, db`calls, db`tables
      ensures db.Session()
      ensures db.Opening().Ready? ==>
        && db.tables == old(db.tables).(logins := old(db.tables).logins
                                                  + [LoginRow(user.id, login.loginProvider, login.providerKey)])
        && r == Ok(1)
      ensures db.Opening().Failed? ==> r == Err(db.Opening().error) && db.tables == old(db.tables)
    {
      r := db.Execute(InsertSql, InsertLogin,
                      Some(map["loginProvider" := ObjOf(login.loginProvider), "providerKey" := ObjOf(login.providerKey),
                               "userId" := ObjOf(user.id)]));
    }

    method FindUserIdByLogin(login: LoginInfo) returns (r: Result<NStr>)
      modifies db`conn, db`calls
      ensures db.Session()
      ensures db.Opening().Ready? ==> r == Ok(UserIdOfLogin(db.tables.logins, login))
      ensures db.Opening().Failed? ==> r == Err(db.Opening().error)
    {
      r := db.GetStrValue(UserIdSql, UserIdByLogin,
                          Some(map["loginProvider" := ObjOf(login.loginProvider),
                                   "providerKey" := ObjOf(login.providerKey)]));
    }

    method FindByUserId(userId: NStr) returns (r: Result<seq<LoginInfo>>)
      modifies db`conn, db`calls
      ensures db.Session()
      ensures db.Opening().Ready? ==> r == Ok(LoginsOf(db.tables.logins, userId))
      ensures db.Opening().Failed? ==> r == Err(db.Opening().error)
    {
      var rows := db.Query(LoginsSql, LoginsOfUserId, Some(map["userId" := ObjOf(userId)]));
      ghost var selected := LoginsOfUser(db.tables.logins, Cell(userId));
      RenderedLogins(selected);
      if rows.Err? {
        return Err(rows.error);
      }
      assert |rows.value| == |selected|;
      var logins: seq<LoginInfo> := [];
      var i := 0;
      while i < |rows.value|
        invariant 0 <= i <= |rows.value|
        invariant |logins| == i
        invariant forall k :: 0 <= k < i ==> logins[k] == LoginOf(selected[k])
      {
        logins := logins + [LoginInfo(rows.value[i]["LoginProvider"], rows.value[i]["ProviderKey"])];
        i := i + 1;
      }
      assert logins == Map(selected, LoginOf);
      r := Ok(logins);
    }
  }
}
