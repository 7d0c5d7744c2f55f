/** `RoleStore`: the role store the identity framework calls, delegating to
    the "AspNetRoles" accessor. */
module RoleStores {
  import opened Common
  import opened Entities
  import opened Relational
  import opened PostgreSql
  import Roles

  /** CreateAsync then FindByIdAsync, for an Id no row had and a non-null
      name: the role comes back as it was created. */
  lemma {:induction false} CreateThenFindById(roles: seq<RoleRow>, role: Role)
    requires role.id.Some? && role.name.Some?
    requires RolesWithId(roles, Cell(role.id)) == []
    ensures Roles.RoleNameOf(roles + [RoleRow(role.id, role.name)], role.id) == role.name
  {
    var keep := (r: RoleRow) => Matches(r.id, Cell(role.id));
    FilterAppend(roles, [RoleRow(role.id, role.name)], keep);
    assert Filter([RoleRow(role.id, role.name)], keep) == [RoleRow(role.id, role.name)];
  }

  /** CreateAsync then FindByNameAsync, for a name no row had and a non-empty
      Id: the name resolves to the new role's Id. */
  lemma {:induction false} CreateThenFindByName(roles: seq<RoleRow>, role: Role)
    requires role.id.Some? && role.name.Some?
    requires RolesWithName(roles, Cell(role.name)) == []
    ensures Roles.RoleIdOf(roles + [RoleRow(role.id, role.name)], role.name) == role.id
  {
    var keep := (r: RoleRow) => Matches(r.name, Cell(role.name));
    FilterAppend(roles, [RoleRow(role.id, role.name)], keep);
    assert Filter([RoleRow(role.id, role.name)], keep) == [RoleRow(role.id, role.name)];
  }

  /** After DeleteAsync, FindByIdAsync finds nothing under that Id. */
  lemma DeleteThenFindById(roles: seq<RoleRow>, id: NStr)
    ensures Roles.RoleNameOf(RolesWithoutId(roles, Cell(id)), id) == None
  {
    var rest := RolesWithoutId(roles, Cell(id));
    FilterNone(rest, (r: RoleRow) => Matches(r.id, Cell(id)));
  }

  class RoleStore {
    /** The `Database` property; null once the store is disposed. */
    var database: Database?
    /** The wrapper the accessor was built over. */
    const db: Database
    const roleTable: Roles.RoleTable

    /** The accessor shares the store's wrapper. */
    ghost predicate Valid()
      reads this
    {
      roleTable.db == db && (database == null || database == db)
    }

    constructor (database: Database)
      ensures Valid() && this.database == database && db == database
    {
      this.database := database;
      db := database;
      roleTable := new Roles.RoleTable(database);
    }

    /** The `Roles` property is not implemented. */
    method AllRoles() returns (r: Result<seq<Role>>)
      ensures r == Err(NotImplemented)
    {
      r := Err(NotImplemented);
    }

    method CreateAsync(role: Option<Role>) returns (r: Result<()>)
      requires Valid()
      modifies db`conn, db`calls, db`tables
      ensures role.None? ==> r == Err(ArgumentNullError) && unchanged(db)
      ensures role.Some? ==> db.Session()
      ensures role.Some? && db.Opening().Ready? ==>
        db.tables == old(db.tables).(roles := old(db.tables).roles + [RoleRow(role.value.id, role.value.name)])
        && r == Ok(())
      ensures role.Some? && db.Opening().Failed? ==> r == Err(db.Opening().error) && db.tables == old(db.tables)
    {
      if role.None? {
        return Err(ArgumentNullError);
      }
      var n := roleTable.Insert(role.value);
      r := if n.Ok? then Ok(()) else Err(n.error);
    }

    /** Removes the rows with the role's Id; memberships pointing to it stay. */
    method DeleteAsync(role: Option<Role>) returns (r: Result<()>)
      requires Valid()
      modifies db`conn, db`calls, db`tables
      ensures role.None? ==> r == Err(ArgumentNullError) && unchanged(db)
      ensures role.Some? ==> db.Session()
      ensures role.Some? && db.Opening().Ready? ==>
        db.tables == old(db.tables).(roles := RolesWithoutId(old(db.tables).roles, Cell(role.value.id)))
        && r == Ok(())
      ensures role.Some? && db.Opening().Failed? ==> r == Err(db.Opening().error) && db.tables == old(db.tables)
    {
      if role.None? {
        return Err(ArgumentNullError);
      }
      var n := roleTable.Delete(role.value.id);
      r := if n.Ok? then Ok(()) else Err(n.error);
    }

    /** No argument check: a role exactly when the Id has a non-null Name. */
    method FindByIdAsync(roleId: NStr) returns (r: Result<Option<Role>>)
      requires Valid()
      modifies db`conn, db`calls
      ensures db.Session()
      ensures db.Opening().Ready? ==>
        r == Ok(var name := Roles.RoleNameOf(db.tables.roles, roleId);
                if name.Some? then Some(Role(name, roleId)) else None)
      ensures db.Opening().Failed? ==> r == Err(db.Opening().error)
    {
      r := roleTable.GetRoleById(roleId);
    }

    /** No argument check: a role exactly when the name resolves to an Id. */
    method FindByNameAsync(roleName: NStr) returns (r: Result<Option<Role>>)
      requires Valid()
      modifies db`conn, db`calls
      ensures db.Session()
      ensures db.Opening().Ready? ==>
        r == Ok(var id := Roles.RoleIdOf(db.tables.roles, roleName);
                if id.Some? then Some(Role(roleName, id)) else None)
      ensures db.Opening().Failed? ==> r == Err(db.Opening().error)
    {
      r := roleTable.GetRoleByName(roleName);
    }

    /** The accessor's update is always rejected: no role is ever renamed. */
    method UpdateAsync(role: Option<Role>) returns (r: Result<()>)
      requires Valid()
      modifies db`conn, db`calls, db`tables
      ensures db.tables == old(db.tables)
      ensures role.None? ==> r == Err(ArgumentNullError) && unchanged(db)
      ensures role.Some? ==> db.Session()
      ensures role.Some? && db.Opening().Ready? ==> r == Err(StorageFailure)
      ensures role.Some? && db.Opening().Failed? ==> r == Err(db.Opening().error)
    {
      if role.None? {
        return Err(ArgumentNullError);
      }
      var n := roleTable.Update(role.value);
      r := if n.Ok? then Ok(()) else Err(n.error);
    }

    /** Releases the wrapper once and forgets it; a second call does nothing. */
    method Dispose()
      requires Valid()
      modifies this`database, db`conn, db`releases
      ensures Valid() && database == null
      ensures old(database) != null ==>
        db.conn == Disposed && db.releases == old(db.releases) + (if old(db.conn) == Disposed then 0 else 1)
      ensures old(database) == null ==> unchanged(db)
    {
      if database != null {
        database.Dispose();
        database := null;
      }
    }
  }
}
