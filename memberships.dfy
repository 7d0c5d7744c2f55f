/** The "AspNetUserRoles" accessor (`UserRolesTable`): which user holds which
    role, and the join that turns a user's memberships into role names. */
module Memberships {
  import opened Common
  import opened Entities
  import opened Relational
  import opened PostgreSql

  /** FindByUserId as an inner join: a name is listed exactly when some
      membership row of the user points, by RoleId, to a role row with that
      Id and that Name. A membership whose role is missing lists nothing. */
  lemma {:induction false} JoinedRoleNamesMeaning(members: seq<UserRoleRow>, roles: seq<RoleRow>, userId: Value, n: NStr)
    ensures n in JoinedRoleNames(members, roles, userId)
        <==> exists m, r :: m in members && Matches(m.userId, userId) && r in roles && Matches(r.id, Cell(m.roleId)) && r.name == n
    decreases |members|
  {
    if members != [] {
      var m0 := members[0];
      var here := if Matches(m0.userId, userId) then Map(RolesOf(roles, m0), (r: RoleRow) => r.name) else [];
      JoinedRoleNamesMeaning(members[1..], roles, userId, n);
      assert JoinedRoleNames(members, roles, userId) == here + JoinedRoleNames(members[1..], roles, userId);
      if n in here {
        var i :| 0 <= i < |here| && here[i] == n;
        var r := RolesOf(roles, m0)[i];
        assert r in RolesOf(roles, m0);
        assert m0 in members && Matches(m0.userId, userId) && r in roles && Matches(r.id, Cell(m0.roleId)) && r.name == n;
      }
      if exists m, r :: m in members && Matches(m.userId, userId) && r in roles && Matches(r.id, Cell(m.roleId)) && r.name == n {
        var m, r :| m in members && Matches(m.userId, userId) && r in roles && Matches(r.id, Cell(m.roleId)) && r.name == n;
        if m == m0 {
          var rs := RolesOf(roles, m0);
          assert r in rs;
          var i :| 0 <= i < |rs| && rs[i] == r;
          assert here[i] == n;
        } else {
          assert m in members[1..];
        }
      }
    }
  }

  /** A membership row appended to the table adds, at the end of the user's
      list, the names of the roles it points to, and nothing for another user. */
  lemma {:induction false} JoinedRoleNamesAppend(members: seq<UserRoleRow>, m: UserRoleRow, roles: seq<RoleRow>, userId: Value)
    ensures JoinedRoleNames(members + [m], roles, userId)
         == JoinedRoleNames(members, roles, userId)
            + (if Matches(m.userId, userId) then Map(RolesOf(roles, m), (r: RoleRow) => r.name) else [])
    decreases |members|
  {
    if members == [] {
      assert [m][1..] == [];
    } else {
      assert (members + [m])[1..] == members[1..] + [m];
      JoinedRoleNamesAppend(members[1..], m, roles, userId);
    }
  }

  /** A user with no membership rows has no role names. */
  lemma {:induction false} JoinedRoleNamesNone(members: seq<UserRoleRow>, roles: seq<RoleRow>, userId: Value)
    requires forall m :: m in members ==> !Matches(m.userId, userId)
    ensures JoinedRoleNames(members, roles, userId) == []
    decreases |members|
  {
    if members != [] {
      assert members[0] in members;
      JoinedRoleNamesNone(members[1..], roles, userId);
    }
  }

  /** After Delete(userId), FindByUserId(userId) is empty. */
  lemma DeleteAllLeavesNone(members: seq<UserRoleRow>, roles: seq<RoleRow>, userId: NStr)
    ensures JoinedRoleNames(MembershipsNotOfUser(members, Cell(userId)), roles, Cell(userId)) == []
  {
    JoinedRoleNamesNone(MembershipsNotOfUser(members, Cell(userId)), roles, Cell(userId));
  }

  /** Delete(userId, roleId) keeps a row exactly when it differs from the pair
      in one of the two columns (a NULL column never matches); the
      affected-row count is the number of copies of the pair. */
  lemma DeleteOneKeepsOthers(members: seq<UserRoleRow>, userId: NStr, roleId: NStr, m: UserRoleRow)
    ensures m in MembershipsWithout(members, Cell(userId), Cell(roleId))
        <==> m in members && !(userId.Some? && roleId.Some? && m == UserRoleRow(userId, roleId))
    ensures |members| - |MembershipsWithout(members, Cell(userId), Cell(roleId))|
         == |Filter(members, (x: UserRoleRow) => x == UserRoleRow(userId, roleId) && userId.Some? && roleId.Some?)|
  {
    var u, r := Cell(userId), Cell(roleId);
    FilterPartition(members,
      (x: UserRoleRow) => x == UserRoleRow(userId, roleId) && userId.Some? && roleId.Some?,
      (x: UserRoleRow) => !(Matches(x.userId, u) && Matches(x.roleId, r)));
  }

  /** Delete(userId) keeps exactly the rows of other users; the affected-row
      count is the number of the user's rows. */
  lemma DeleteAllKeepsOthers(members: seq<UserRoleRow>, userId: NStr, m: UserRoleRow)
    ensures m in MembershipsNotOfUser(members, Cell(userId)) <==> m in members && !(userId.Some? && m.userId == userId)
    ensures |members| - |MembershipsNotOfUser(members, Cell(userId))|
         == |Filter(members, (x: UserRoleRow) => userId.Some? && x.userId == userId)|
  {
    var u := Cell(userId);
    FilterPartition(members, (x: UserRoleRow) => userId.Some? && x.userId == userId, (x: UserRoleRow) => !Matches(x.userId, u));
  }

  // The statements, as the accessor sends them.
  const RoleNamesSql: string := "SELECT \"AspNetRoles\".\"Name\" FROM \"AspNetRoles\" JOIN \"AspNetUserRoles\" ON \"AspNetUserRoles\".\"RoleId\" = \"AspNetRoles\".\"Id\" WHERE \"AspNetUserRoles\".\"UserId\" = @userId;"
  const DeleteOneSql: string := "DELETE FROM \"AspNetUserRoles\" WHERE \"UserId\" = @userId AND \"RoleId\" = @Role;"
  const DeleteAllSql: string := "DELETE FROM \"AspNetUserRoles\" WHERE \"UserId\" = @userId"
  const InsertSql: string := "INSERT INTO \"AspNetUserRoles\" (\"UserId\", \"RoleId\") VALUES (@userId, @roleId)"

  class UserRolesTable {
    const db: Database

    constructor (db: Database)
      ensures this.db == db
    {
      this.db := db;
    }

    /** The names of the user's roles, one per joining (membership, role) pair;
        an empty list, not null, when there are none. */
    method FindByUserId(userId: NStr) returns (r: Result<seq<NStr>>)
      modifies db`conn, db`calls
      ensures db.Session()
      ensures db.Opening().Ready? ==> r == Ok(JoinedRoleNames(db.tables.userRoles, db.tables.roles, Cell(userId)))
      ensures db.Opening().Failed? ==> r == Err(db.Opening().error)
    {
      var rows := db.Query(RoleNamesSql, RoleNamesOfUser, Some(map["userId" := ObjOf(userId)]));
      ghost var names := JoinedRoleNames(db.tables.userRoles, db.tables.roles, Cell(userId));
      RenderedRecords(names, NameColumn);
      if rows.Err? {
        return Err(rows.error);
      }
      assert |rows.value| == |names|;
      var roles: seq<NStr> := [];
      var i := 0;
      while i < |rows.value|
        invariant 0 <= i <= |rows.value|
        invariant |roles| == i
        invariant forall k :: 0 <= k < i ==> roles[k] == names[k]
      {
        assert NameColumn(names[i])[0].0 == "Name";
        roles := roles + [rows.value[i]["Name"]];
        i := i + 1;
      }
      assert roles == names;
      r := Ok(roles);
    }

    /** `Delete(string userId, string role)`: the role argument is a role Id. */
    method DeleteMembership(userId: NStr, roleId: NStr) returns (r: Result<int>)
      modifies db`conn, db`calls, db`tables
      ensures db.Session()
      ensures db.Opening().Ready? ==>
        && db.tables == old(db.tables).(userRoles := MembershipsWithout(old(db.tables).userRoles, Cell(userId), Cell(roleId)))
        && r == Ok(|old(db.tables).userRoles| - |db.tables.userRoles|)
      ensures db.Opening().Failed? ==> r == Err(db.Opening().error) && db.tables == old(db.tables)
    {
      r := db.Execute(DeleteOneSql, DeleteUserRole, Some(map["userId" := ObjOf(userId), "Role" := ObjOf(roleId)]));
    }

    /** `Delete(string userId)`. */
    method Delete(userId: NStr) returns (r: Result<int>)
      modifies db`conn, db`calls, db`tables
      ensures db.Session()
      ensures db.Opening().Ready? ==>
        && db.tables == old(db.tables).(userRoles := MembershipsNotOfUser(old(db.tables).userRoles, Cell(userId)))
        && r == Ok(|old(db.tables).userRoles| - |db.tables.userRoles|)
      ensures db.Opening().Failed? ==> r == Err(db.Opening().error) && db.tables == old(db.tables)
    {
      r := db.Execute(DeleteAllSql, DeleteUserRolesOfUser, Some(map["userId" := ObjOf(userId)]));
    }

    method Insert(user: User, roleId: NStr) returns (r: Result<int>)
      modifies db`conn, db`calls, db`tables
      ensures db.Session()
      ensures db.Opening().Ready? ==>
        && db.tables == old(db.tables).(userRoles := old(db.tables).userRoles + [UserRoleRow(user.id, roleId)])
        && r == Ok(1)
      ensures db.Opening().Failed? ==> r == Err(db.Opening().error) && db.tables == old(db.tables)
    {
      r := db.Execute(InsertSql, InsertUserRole, Some(map["userId" := ObjOf(user.id), "roleId" := ObjOf(roleId)]));
    }
  }
}
