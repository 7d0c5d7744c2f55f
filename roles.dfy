/** The "AspNetRoles" accessor (`RoleTable`): role rows keyed by Id, looked
    up by Id or by exact name. */
module Roles {
  import opened Common
  import opened Entities
  import opened Relational
  import opened PostgreSql

  /** `new IdentityRole(row["Name"], row["Id"])` for a stored row. */
  function RoleOf(r: RoleRow): Role {
    Role(r.name, r.id)
  }

  /** The Name of the first row with the Id, or null when there is none. */
  function RoleNameOf(roles: seq<RoleRow>, id: NStr): NStr {
    var m := RolesWithId(roles, Cell(id));
    if m == [] then None else m[0].name
  }

  /** `Convert.ToString` of the scalar: the text the reader would show, except
      that a database NULL becomes "" rather than null. */
  function ConvertToString(v: Value): (s: string)
    ensures ToText(v).Some? ==> s == ToText(v).value
    ensures ToText(v).None? ==> s == "" && v == DbNull
  {
    match v
    case DbNull => ""
    case Text(s) => s
    case Bool(b) => if b then "True" else "False"
  }

  /** GetRoleId: the Id of the first row whose Name equals the argument
      exactly, "" when that Id is NULL, and null when no row matches. */
  function RoleIdOf(roles: seq<RoleRow>, name: NStr): NStr {
    var m := RolesWithName(roles, Cell(name));
    if m == [] then None else Some(if m[0].id.Some? then m[0].id.value else "")
  }

  /** GetRoleId finds an Id exactly when some row carries the name, compared
      case-sensitively; a null name finds nothing. A found Id is the first such
      row's Id. */
  lemma RoleIdOfMatchesExactly(roles: seq<RoleRow>, name: NStr)
    ensures RoleIdOf(roles, name).Some? <==> exists r :: r in roles && name.Some? && r.name == name
    ensures RoleIdOf(roles, name).Some? ==>
      exists i :: (0 <= i < |roles| && roles[i].name == name
        && RoleIdOf(roles, name) == Some(if roles[i].id.Some? then roles[i].id.value else "")
        && forall j :: 0 <= j < i ==> roles[j].name != name)
  {
    var m := RolesWithName(roles, Cell(name));
    if m != [] {
      assert m[0] in m;
      RoleIdOfFirst(roles, name);
    }
  }

  /** The first row whose Name matches is the head of the filtered rows. */
  lemma {:induction false} RoleIdOfFirst(roles: seq<RoleRow>, name: NStr)
    requires RolesWithName(roles, Cell(name)) != []
    ensures exists i :: (0 <= i < |roles| && roles[i].name == name && name.Some?
        && RolesWithName(roles, Cell(name))[0] == roles[i]
        && forall j :: 0 <= j < i ==> roles[j].name != name)
  {
    if Matches(roles[0].name, Cell(name)) {
      assert RolesWithName(roles, Cell(name))[0] == roles[0];
    } else {
      assert RolesWithName(roles, Cell(name)) == RolesWithName(roles[1..], Cell(name));
      RoleIdOfFirst(roles[1..], name);
      var i :| 0 <= i < |roles[1..]| && roles[1..][i].name == name && name.Some?
        && RolesWithName(roles[1..], Cell(name))[0] == roles[1..][i]
        && forall j :: 0 <= j < i ==> roles[1..][j].name != name;
      assert roles[i + 1] == roles[1..][i];
      forall j | 0 <= j < i + 1 ensures roles[j].name != name {
        if j > 0 { assert roles[j] == roles[1..][j - 1]; }
      }
    }
  }

  /** Delete keeps exactly the rows with another Id (or a NULL Id); the
      affected-row count is the number of rows with the Id. */
  lemma DeleteKeepsOthers(roles: seq<RoleRow>, id: NStr, r: RoleRow)
    ensures r in RolesWithoutId(roles, Cell(id)) <==> r in roles && !(id.Some? && r.id == id)
    ensures |roles| - |RolesWithoutId(roles, Cell(id))| == |RolesWithId(roles, Cell(id))|
  {
    FilterPartition(roles, (x: RoleRow) => Matches(x.id, Cell(id)), (x: RoleRow) => !Matches(x.id, Cell(id)));
  }

  /** Were @name bound, the rename would still be keyed on Id alone: no Id
      changes, and rows with another Id are untouched. */
  lemma RenameOnlyMatchingRows(roles: seq<RoleRow>, id: NStr, name: NStr, i: nat)
    requires i < |roles|
    ensures var after := RenameRoles(roles, Cell(id), name);
      && |after| == |roles|
      && after[i].id == roles[i].id
      && (if id.Some? && roles[i].id == id then after[i].name == name else after[i] == roles[i])
  {
  }

  // The statements, as the accessor sends them.
  const DeleteSql: string := "DELETE FROM \"AspNetRoles\" WHERE \"Id\" = @id"
  const InsertSql: string := "INSERT INTO \"AspNetRoles\" (\"Id\", \"Name\") VALUES (@id, @name)"
  const AllRolesSql: string := "SELECT * FROM \"AspNetRoles\""
  const RoleNameSql: string := "SELECT \"Name\" FROM \"AspNetRoles\" WHERE \"Id\" = @id"
  const RoleIdSql: string := "SELECT \"Id\" FROM \"AspNetRoles\" WHERE \"Name\" = @name"
  const UpdateSql: string := "UPDATE \"AspNetRoles\" SET \"Name\" = @name WHERE \"Id\" = @id"

  class RoleTable {
    const db: Database

    constructor (db: Database)
      ensures this.db == db
    {
      this.db := db;
    }

    /** Removes the rows with the Id; memberships that point to them stay. */
    method Delete(roleId: NStr) returns (r: Result<int>)
      modifies db`conn, db`calls, db`tables
      ensures db.Session()
      ensures db.Opening().Ready? ==>
        && db.tables == old(db.tables).(roles := RolesWithoutId(old(db.tables).roles, Cell(roleId)))
        && r == Ok(|old(db.tables).roles| - |db.tables.roles|)
      ensures db.Opening().Failed? ==> r == Err(db.Opening().error) && db.tables == old(db.tables)
    {
      r := db.Execute(DeleteSql, DeleteRole, Some(map["id" := ObjOf(roleId)]));
    }

    /** Appends one row holding the role's Id and Name. */
    method Insert(role: Role) returns (r: Result<int>)
      modifies db`conn, db`calls, db`tables
      ensures db.Session()
      ensures db.Opening().Ready? ==>
        db.tables == old(db.tables).(roles := old(db.tables).roles + [RoleRow(role.id, role.name)]) && r == Ok(1)
      ensures db.Opening().Failed? ==> r == Err(db.Opening().error) && db.tables == old(db.tables)
    {
      r := db.Execute(InsertSql, InsertRole, Some(map["name" := ObjOf(role.name), "id" := ObjOf(role.id)]));
    }

    /** One role per row, in row order, Name and Id copied. */
    method GetAllRoleNames() returns (r: Result<seq<Role>>)
      modifies db`conn, db`calls
      ensures db.Session()
      ensures db.Opening().Ready? ==> r == Ok(Map(db.tables.roles, RoleOf))
      ensures db.Opening().Failed? ==> r == Err(db.Opening().error)
    {
      var rows := db.Query(AllRolesSql, AllRoles, Some(map[]));
      ghost var stored := db.tables.roles;
      RenderedRecords(stored, RoleRecord);
      if rows.Err? {
        return Err(rows.error);
      }
      assert |rows.value| == |stored|;
      var roles: seq<Role> := [];
      var i := 0;
      while i < |rows.value|
        invariant 0 <= i <= |rows.value|
        invariant |roles| == i
        invariant forall k :: 0 <= k < i ==> roles[k] == RoleOf(stored[k])
      {
        assert RoleRecord(stored[i])[0].0 == "Id" && RoleRecord(stored[i])[1].0 == "Name";
        roles := roles + [Role(rows.value[i]["Name"], rows.value[i]["Id"])];
        i := i + 1;
      }
      assert roles == Map(stored, RoleOf);
      r := Ok(roles);
    }

    method GetRoleName(roleId: NStr) returns (r: Result<NStr>)
      modifies db`conn, db`calls
      ensures db.Session()
      ensures db.Opening().Ready? ==> r == Ok(RoleNameOf(db.tables.roles, roleId))
      ensures db.Opening().Failed? ==> r == Err(db.Opening().error)
    {
      r := db.GetStrValue(RoleNameSql, RoleNameById, Some(map["id" := ObjOf(roleId)]));
    }

    method GetRoleId(roleName: NStr) returns (r: Result<NStr>)
      modifies db`conn, db`calls
      ensures db.Session()
      ensures db.Opening().Ready? ==> r == Ok(RoleIdOf(db.tables.roles, roleName))
      ensures db.Opening().Failed? ==> r == Err(db.Opening().error)
    {
      var result := db.QueryValue(RoleIdSql, RoleIdByName, Some(map["name" := ObjOf(roleName)]));
      if result.Err? {
        return Err(result.error);
      }
      if result.value.Some? {
        return Ok(Some(ConvertToString(result.value.value)));
      }
      r := Ok(None);
    }

    /** A role only when the Id has a non-null Name; it carries the argument Id. */
    method GetRoleById(roleId: NStr) returns (r: Result<Option<Role>>)
      modifies db`conn, db`calls
      ensures db.Session()
      ensures db.Opening().Ready? ==>
        r == Ok(var name := RoleNameOf(db.tables.roles, roleId); if name.Some? then Some(Role(name, roleId)) else None)
      ensures db.Opening().Failed? ==> r == Err(db.Opening().error)
    {
      var roleName := GetRoleName(roleId);
      if roleName.Err? {
        return Err(roleName.error);
      }
      if roleName.value.Some? {
        return Ok(Some(Role(roleName.value, roleId)));
      }
      r := Ok(None);
    }

    /** A role only when the name resolves to an Id; it carries the argument name. */
    method GetRoleByName(roleName: NStr) returns (r: Result<Option<Role>>)
      modifies db`conn, db`calls
      ensures db.Session()
      ensures db.Opening().Ready? ==>
        r == Ok(var id := RoleIdOf(db.tables.roles, roleName); if id.Some? then Some(Role(roleName, id)) else None)
      ensures db.Opening().Failed? ==> r == Err(db.Opening().error)
    {
      var roleId := GetRoleId(roleName);
      if roleId.Err? {
        return Err(roleId.error);
      }
      if roleId.value.Some? {
        return Ok(Some(Role(roleName, roleId.value)));
      }
      r := Ok(None);
    }

    /** Binds only @id: the statement keeps an unbound @name, the server
        rejects it, and no row changes. */
    method Update(role: Role) returns (r: Result<int>)
      modifies db`conn, db`calls, db`tables
      ensures db.Session()
      ensures db.tables == old(db.tables)
      ensures db.Opening().Ready? ==> r == Err(StorageFailure)
      ensures db.Opening().Failed? ==> r == Err(db.Opening().error)
    {
      r := db.Execute(UpdateSql, UpdateRole, Some(map["id" := ObjOf(role.id)]));
    }
  }
}
