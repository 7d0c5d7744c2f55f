# ASP.NET Identity on PostgreSQL, modelled in Dafny

This project models the storage adapter that lets ASP.NET Identity keep its
users, roles, claims, external logins and role memberships in PostgreSQL. The
model follows the adapter's layers:

- `PostgreSql` (database.dfy): the connection wrapper `PostgreSQLDatabase`. It
  has the bounded open loop, the "close whatever happens" discipline around
  every statement, parameter binding, the dictionary built from each reader
  row, `as string` narrowing of scalars, and idempotent disposal. The driver's
  `Open` is an oracle `opener: nat -> OpenOutcome` indexed by how many times
  `Open` has been called. Each call opens, stays shut or throws.
- `Relational` (relational.dfy): the database as five relations held in
  sequences (`AspNetUsers`, `AspNetRoles`, `AspNetUserClaims`,
  `AspNetUserLogins`, `AspNetUserRoles`). Each SQL statement the adapter sends
  has a relational meaning: `Apply` for the writes and `Select` for the reads.
  WHERE equality follows SQL: a NULL column or a NULL parameter matches nothing.
  A statement with an unbound placeholder is rejected by the server.
- `Users`, `Roles`, `Logins`, `Memberships`, `Claims`: the five table
  accessors. Each one is a class over the shared `Database` object. Every
  method states its new table state and its result through a specification
  function over the tables: a filter, a first match, a unique match or an
  inner join. The lemmas beside each accessor connect those functions, for
  example insert-then-lookup, delete-then-lookup and "only matching rows
  change".
- `UserStores`, `RoleStores`: the two stores the identity framework calls.
  They validate arguments, compose the accessors, and for some operations run
  two statements in a row.
- `Entities`, `Common`: the entity values, the mutable `IdentityUser` object
  the store's setters assign, nullable strings and exceptions.

Every accessor method says the same three things:

- `db.Session()`: the open loop made the `Open` calls that `ConnectFor`
  predicts, and the connection is closed again (or still disposed).
- When the connection phase succeeds (`db.Opening().Ready?`), the result and
  the new tables are given by the statement's relational meaning.
- When the connection phase fails, the result is that exception and the tables
  are unchanged.

Operations that run two statements state the same for each phase, using
`db.Reopening()` and `db.TwoSessions()`.

Exceptions are `Err` values of `Result`. C#'s null is `None`.

Three defects of the code are reproduced rather than fixed:

- `RoleTable.Update` binds only `@id`, so `@name` is never supplied. The server
  rejects the statement and no role is ever renamed.
- `UserClaimsTable.Delete(user, claim)` compares the parameter `@ClaimValue`,
  which is never bound, and names the unquoted column `ClaimType`. PostgreSQL
  folds unquoted identifiers to lower case (section 4.1.1 of the PostgreSQL
  manual), and the table's column is the quoted `"ClaimType"`. The server
  rejects the statement and no claim is ever removed this way.
- `UserStore.DeleteAsync(null)` silently does nothing.

The open loop does not retry a throwing `Open`. Nothing in the loop catches an
exception from `Open`, so the operation ends at once. Only an `Open` that
returns without reaching the open state is retried
(`PostgreSql.ConnectThrowIsNotRetried`).

## Model

| member | source | states |
|---|---|---|
| Relational.ApplyAccountable | src/PostgreSQLDatabase.cs:40-61 | every data-changing statement the accessors send through Execute touches only the table it names; an insert adds one row and reports 1; a delete removes exactly as many rows as it reports; an update keeps the number of rows; a rejected statement is a server error, and the claim delete is always rejected |
| Relational.UsersStatementsAccountable | src/UserTable.cs:191-290 | SetPasswordHash, Insert, Delete and Update on "AspNetUsers" change only that table, with the affected-row count the table's size change accounts for |
| Relational.RolesStatementsAccountable | src/RoleTable.cs:27-149 | Delete, Insert and Update on "AspNetRoles" change only that table, with the affected-row count the table's size change accounts for |
| Relational.LoginsStatementsAccountable | src/UserLoginsTable.cs:28-68 | the two deletes and the insert on "AspNetUserLogins" change only that table, with the affected-row count the table's size change accounts for |
| Relational.UserRolesStatementsAccountable | src/UserRoleTable.cs:57-97 | the two deletes and the insert on "AspNetUserRoles" change only that table, with the affected-row count the table's size change accounts for |
| Relational.ClaimsStatementsAccountable | src/UserClaimsTable.cs:48-89 | the deletes and the insert on "AspNetUserClaims" change only that table, with the affected-row count the table's size change accounts for |
| Relational.SelectWellFormed | src/PostgreSQLDatabase.cs:98-132 | no row of any query the accessors send repeats a column name; a rejected query is a server error; the two unparameterised `SELECT *` queries always succeed |
| PostgreSql.OpenLoop | src/PostgreSQLDatabase.cs:187-200 | the loop makes at most `retries + 1` calls of `Open`; it ends only at a call that opens or throws, or when the retries are spent |
| PostgreSql.LoopStopsAtFirstDecisiveCall | src/PostgreSQLDatabase.cs:194-199 | the loop stops at the first call that does not stay shut: open after a call that opens, the exception propagated after a call that throws |
| PostgreSql.LoopGivesUpAfterAllRetries | src/PostgreSQLDatabase.cs:194-199 | a connection that never opens is tried exactly `retries + 1` times, then the loop gives up without an exception |
| PostgreSql.ConnectFor | src/PostgreSQLDatabase.cs:185-201 | an operation calls `Open` at most 11 times, and not at all when the connection is already open or disposed; a null-reference failure happens exactly on a disposed wrapper; a ready closed connection had its last call open it, and a server failure had its last call throw; giving up means 11 calls that all stayed shut |
| PostgreSql.Bound | src/PostgreSQLDatabase.cs:154-168 | every dictionary entry is bound under its own key and nothing else is; a null value is bound as SQL NULL and only a null is; a string is bound as text; a null dictionary binds nothing |
| PostgreSql.Scalar | src/PostgreSQLDatabase.cs:82 | `ExecuteScalar` gives null exactly when there is no row or the first row has no column; otherwise a value of the first row's first column |
| PostgreSql.AsString | src/PostgreSQLDatabase.cs:176-180 | `as string` yields a string only from a text scalar, and then that very text; any text scalar yields one |
| PostgreSql.ScalarOfColumn | src/PostgreSQLDatabase.cs:176-180 | GetStrValue of a one-column text query returns the first matching row's value, null for a NULL, and null when no row matches |
| PostgreSql.QueriesRender | src/PostgreSQLDatabase.cs:112-123 | for every query the accessors send, `row.Add` never meets a repeated column name, so Query never raises the dictionary's exception and yields one dictionary per reader row |
| PostgreSql.ConnectOpensAfterFailures | src/PostgreSQLDatabase.cs:187-200 | a connection that stays shut n ≤ 10 times and then opens is ready after exactly n + 1 calls |
| PostgreSql.ConnectNeverOpens | src/PostgreSQLDatabase.cs:187-200 | after 11 calls that stay shut, the statement fails on the closed connection |
| PostgreSql.ConnectThrowIsNotRetried | src/PostgreSQLDatabase.cs:194-199 | an `Open` that throws is not retried: the failure surfaces right after it |
| PostgreSql.AddParameters | src/PostgreSQLDatabase.cs:154-168 | binds every dictionary entry once under its own name, binds null as SQL NULL, and binds nothing for a null dictionary |
| PostgreSql.ReadRows | src/PostgreSQLDatabase.cs:110-124 | the nested reader loops build exactly `Rendered(reader)`: one dictionary per reader row, or the exception of `row.Add` on a repeated column name |
| PostgreSql.RowFromDistinct | src/PostgreSQLDatabase.cs:115-121 | a reader row with distinct column names becomes a dictionary of exactly those columns, each mapped to null for a database NULL and to the value's text otherwise |
| PostgreSql.RowFromDuplicate | src/PostgreSQLDatabase.cs:120 | a reader row that repeats a column name makes `row.Add` throw |
| PostgreSql.RowFromPresent | src/PostgreSQLDatabase.cs:120 | a column whose name the dictionary already holds makes `row.Add` throw |
| PostgreSql.RowsFromDistinct | src/PostgreSQLDatabase.cs:112-123 | without repeated names: one dictionary per reader row, in reader order, each holding exactly that row's columns and their texts |
| PostgreSql.RowsFromFirstDuplicate | src/PostgreSQLDatabase.cs:112-123 | a reader row with a repeated column name makes the whole Query fail with the dictionary's exception |
| PostgreSql.RenderedFailsOnDuplicate | src/PostgreSQLDatabase.cs:112-123 | Query's row building fails exactly when some reader row repeats a column name, and then with the dictionary's exception |
| PostgreSql.RenderedRecords | src/PostgreSQLDatabase.cs:112-123 | rows that share a layout with distinct column names come back one dictionary per row, each column mapped to its text |
| PostgreSql.Database.constructor | src/PostgreSQLDatabase.cs:28-32 | a new wrapper holds a closed connection that has made no `Open` call |
| PostgreSql.Database.OpenConnection | src/PostgreSQLDatabase.cs:185-201 | an open connection is returned without calling `Open`; a closed one runs the loop with `retries = 10`; a disposed one fails with a null reference |
| PostgreSql.Database.CloseConnection | src/PostgreSQLDatabase.cs:206-212 | leaves the connection closed; a disposed wrapper fails with a null reference |
| PostgreSql.Database.Execute | src/PostgreSQLDatabase.cs:40-61 | an empty command text is rejected before the connection is touched; otherwise the connection is closed on exit and the result and new tables are those of `ExecuteOutcome` over the statement's meaning |
| PostgreSql.Database.QueryValue | src/PostgreSQLDatabase.cs:69-90 | an empty command text is rejected before the connection is touched; otherwise the connection is closed on exit and the result is the first column of the first selected row, or null |
| PostgreSql.Database.Query | src/PostgreSQLDatabase.cs:98-132 | an empty command text is rejected before the connection is touched; otherwise the connection is closed on exit and the result is the selected rows rendered as dictionaries |
| PostgreSql.Database.GetStrValue | src/PostgreSQLDatabase.cs:176-180 | the scalar when it is a string; null for a missing or non-string scalar |
| PostgreSql.Database.Dispose | src/PostgreSQLDatabase.cs:214-221 | the connection is released at most once; a second call changes nothing |
| Entities.IdentityUser.constructor | src/IdentityUser.cs:23-27 | a new user carries the given Id and name, no hash, stamp or email, and an unconfirmed email |
| Users.NullIfEmpty | src/UserTable.cs:69-74 | an empty or null text reads as null; any other text is kept |
| Users.ToUser | src/UserTable.cs:69-74 | Id and UserName are copied as read; PasswordHash, SecurityStamp and Email are null for a null or empty column and the column's text otherwise; EmailConfirmed is true exactly when the column reads "True" |
| Users.ToUserOfRecord | src/UserTable.cs:69-74 | a stored row read back through Query and the mapping keeps Id and UserName verbatim, turns empty hash, stamp and email into null, and gives EmailConfirmed true exactly for a true column |
| Users.RenderedUsers | src/UserTable.cs:59-79 | reading `SELECT *` rows gives, row by row and in order, the user each stored row reads back as |
| Users.PasswordHashOf | src/UserTable.cs:170-183 | a password hash read back is never the empty string |
| Users.UserByIdExactlyOne | src/UserTable.cs:81-101 | GetUserById finds a user exactly when one row has the Id, and that user carries the Id |
| Users.UsersByNameMatches | src/UserTable.cs:108-132 | a row is found by name exactly when its UserName and the argument agree after lower-casing; a null name finds nobody |
| Users.UsersByEmailMatches | src/UserTable.cs:139-163 | a row is found by email exactly when its Email and the argument agree after lower-casing |
| Users.InsertThenGetById | src/UserTable.cs:220-238 | Insert then GetUserById for a new Id gives back the inserted user, with empty hash, stamp and email read as null |
| Users.DeleteKeepsOthers | src/UserTable.cs:245-262 | Delete removes exactly the rows with the Id and keeps every other row; the affected-row count it returns is the number of rows with the Id |
| Users.UpdateOnlyMatchingRows | src/UserTable.cs:269-290 | Update rewrites the five mutable columns only on rows with the user's Id; Ids and other rows stay as they were |
| Users.SetPasswordHashOnlyHash | src/UserTable.cs:191-199 | SetPasswordHash changes PasswordHash on rows with the Id and no other column or row |
| Users.UserTable.constructor | src/UserTable.cs:18-21 | the accessor works over the given wrapper |
| Users.UserTable.GetUserName | src/UserTable.cs:28-34 | the UserName of the first row with the Id, or null |
| Users.UserTable.GetUserId | src/UserTable.cs:41-51 | the Id of the first row whose lower-cased UserName equals the lower-cased argument, or null |
| Users.UserTable.MapUsers | src/UserTable.cs:69-74 | the reader loop turns the rendered rows into the users the stored rows read back as |
| Users.UserTable.GetAllUsers | src/UserTable.cs:59-79 | every stored user, in row order |
| Users.UserTable.GetUserById | src/UserTable.cs:81-101 | the user when exactly one row has the Id, null for none or several |
| Users.UserTable.GetUserByName | src/UserTable.cs:108-132 | every user whose lower-cased name matches, in row order |
| Users.UserTable.GetUserByEmail | src/UserTable.cs:139-163 | every user whose lower-cased email matches, in row order |
| Users.UserTable.GetPasswordHash | src/UserTable.cs:170-183 | the hash of the first row with the Id, with a missing, NULL or empty hash read as null |
| Users.UserTable.SetPasswordHash | src/UserTable.cs:191-199 | the new tables differ only in PasswordHash on rows with the Id; the count is the number of such rows |
| Users.UserTable.GetSecurityStamp | src/UserTable.cs:206-213 | the stamp of the first row with the Id, not normalised |
| Users.UserTable.Insert | src/UserTable.cs:220-238 | exactly one row holding the user's six fields is appended, Email in its own casing; nothing else changes |
| Users.UserTable.DeleteById | src/UserTable.cs:245-252 | exactly the rows with the Id are removed; the count is how many |
| Users.UserTable.Delete | src/UserTable.cs:259-262 | exactly the rows with the user's Id are removed |
| Users.UserTable.Update | src/UserTable.cs:269-290 | the five mutable columns are rewritten on rows with the user's Id; the count is the number of such rows |
| Roles.ConvertToString | src/RoleTable.cs:99 | `Convert.ToString` gives the text the reader would show for the scalar, and "" for a database NULL |
| Roles.RoleIdOfMatchesExactly | src/RoleTable.cs:90-103 | GetRoleId finds an Id exactly when some row has the name, compared case-sensitively; the Id found is the first such row's, with a NULL Id read as "" |
| Roles.RoleIdOfFirst | src/RoleTable.cs:90-103 | the row GetRoleId reads is the first row with the name |
| Roles.DeleteKeepsOthers | src/RoleTable.cs:27-34 | Delete removes exactly the rows with the Id; the affected-row count is the number of rows with the Id |
| Roles.RenameOnlyMatchingRows | src/RoleTable.cs:142-149 | a rename keyed on Id cannot change any Id or any row with another Id |
| Roles.RoleTable.constructor | src/RoleTable.cs:17-20 | the accessor works over the given wrapper |
| Roles.RoleTable.Delete | src/RoleTable.cs:27-34 | exactly the rows with the Id are removed; memberships stay |
| Roles.RoleTable.Insert | src/RoleTable.cs:41-49 | exactly one (Id, Name) row taken from the role is appended |
| Roles.RoleTable.GetAllRoleNames | src/RoleTable.cs:57-69 | one role per row, in row order, with Name and Id copied |
| Roles.RoleTable.GetRoleName | src/RoleTable.cs:76-83 | the Name of the first row with the Id, or null |
| Roles.RoleTable.GetRoleId | src/RoleTable.cs:90-103 | the Id of the first row with exactly that name, "" for a NULL Id, null when none matches |
| Roles.RoleTable.GetRoleById | src/RoleTable.cs:110-122 | null when the Id has no Name; otherwise a role with that name and the argument Id |
| Roles.RoleTable.GetRoleByName | src/RoleTable.cs:129-140 | null when the name resolves to no Id; otherwise a role with the argument name and the found Id |
| Roles.RoleTable.Update | src/RoleTable.cs:142-149 | the statement leaves `@name` unbound, so the server rejects it and no row changes |
| Logins.DeleteOneKeepsOthers | src/UserLoginsTable.cs:28-37 | Delete(user, login) removes exactly the rows matching all of UserId, LoginProvider and ProviderKey; the affected-row count is the number of such rows |
| Logins.DeleteAllKeepsOthers | src/UserLoginsTable.cs:44-51 | Delete(userId) removes all and only the user's rows; the affected-row count is the number of the user's rows |
| Logins.DeleteAllLeavesNone | src/UserLoginsTable.cs:44-51 | after Delete(userId), FindByUserId(userId) is empty |
| Logins.DeleteOneRemovesPair | src/UserLoginsTable.cs:28-37 | after Delete(user, login), FindByUserId(user.Id) no longer lists that (provider, key) pair |
| Logins.InsertThenFindUserId | src/UserLoginsTable.cs:59-83 | Insert then FindUserIdByLogin, for a new (provider, key), gives the inserted user's Id |
| Logins.RenderedLogins | src/UserLoginsTable.cs:90-104 | the user's rows come back, row by row, with the stored provider and key |
| Logins.UserLoginsTable.constructor | src/UserLoginsTable.cs:17-20 | the accessor works over the given wrapper |
| Logins.UserLoginsTable.DeleteLogin | src/UserLoginsTable.cs:28-37 | exactly the rows matching the user's Id, the provider and the key are removed |
| Logins.UserLoginsTable.Delete | src/UserLoginsTable.cs:44-51 | exactly the user's rows are removed |
| Logins.UserLoginsTable.Insert | src/UserLoginsTable.cs:59-68 | exactly one (UserId, LoginProvider, ProviderKey) row is appended |
| Logins.UserLoginsTable.FindUserIdByLogin | src/UserLoginsTable.cs:75-83 | the UserId of the first row with the provider and key, or null |
| Logins.UserLoginsTable.FindByUserId | src/UserLoginsTable.cs:90-104 | the (provider, key) pairs of the user's rows, in row order; an empty list when there are none |
| Memberships.JoinedRoleNamesMeaning | src/UserRoleTable.cs:28-50 | a name is listed exactly when a membership row of the user points, by RoleId, to a role row with that name; memberships of missing roles list nothing |
| Memberships.JoinedRoleNamesAppend | src/UserRoleTable.cs:89-97 | an appended membership adds, at the end of its user's list, the names of the roles it points to, and nothing for another user |
| Memberships.JoinedRoleNamesNone | src/UserRoleTable.cs:28-50 | a user with no membership rows has an empty list |
| Memberships.DeleteAllLeavesNone | src/UserRoleTable.cs:74-81 | after Delete(userId), FindByUserId(userId) is empty |
| Memberships.DeleteOneKeepsOthers | src/UserRoleTable.cs:57-65 | Delete(userId, roleId) removes exactly the rows matching both columns; the affected-row count is the number of such rows |
| Memberships.DeleteAllKeepsOthers | src/UserRoleTable.cs:74-81 | Delete(userId) removes all and only the user's rows; the affected-row count is the number of the user's rows |
| Memberships.UserRolesTable.constructor | src/UserRoleTable.cs:16-19 | the accessor works over the given wrapper |
| Memberships.UserRolesTable.FindByUserId | src/UserRoleTable.cs:28-50 | the join of the user's memberships with the roles, one name per joining pair; an empty list, never null |
| Memberships.UserRolesTable.DeleteMembership | src/UserRoleTable.cs:57-65 | exactly the rows with the user's Id and the role Id are removed |
| Memberships.UserRolesTable.Delete | src/UserRoleTable.cs:74-81 | exactly the user's rows are removed |
| Memberships.UserRolesTable.Insert | src/UserRoleTable.cs:89-97 | exactly one (UserId, RoleId) row is appended |
| Claims.ClaimsOfMeaning | src/UserClaimsTable.cs:27-41 | FindByUserId fails with a null-argument error exactly when one of the user's rows has a NULL type or value; otherwise it yields one claim per row of the user, each stored under that user |
| Claims.InsertThenFind | src/UserClaimsTable.cs:27-72 | Insert then FindByUserId lists the new claim last, after the claims the user had |
| Claims.DeleteAllLeavesNone | src/UserClaimsTable.cs:48-55 | after Delete(userId), FindByUserId(userId) yields no claim |
| Claims.DeleteAllKeepsOthers | src/UserClaimsTable.cs:48-55 | Delete(userId) removes all and only the user's rows; the affected-row count is the number of the user's rows |
| Claims.RenderedClaims | src/UserClaimsTable.cs:27-41 | the user's rows come back, row by row, with the stored type and value |
| Claims.UserClaimsTable.constructor | src/UserClaimsTable.cs:17-20 | the accessor works over the given wrapper |
| Claims.UserClaimsTable.FindByUserId | src/UserClaimsTable.cs:27-41 | one claim per row of the user, in row order; the exception of `new Claim` when a row has a NULL type or value |
| Claims.UserClaimsTable.Delete | src/UserClaimsTable.cs:48-55 | exactly the user's rows are removed |
| Claims.UserClaimsTable.Insert | src/UserClaimsTable.cs:63-72 | exactly one (UserId, ClaimType, ClaimValue) row is appended |
| Claims.UserClaimsTable.DeleteClaim | src/UserClaimsTable.cs:80-89 | the statement is rejected, so no claim row is removed |
| UserStores.AddToRoleThenIsInRole | src/UserStore.cs:320-391 | after AddToRoleAsync writes the membership for a name that resolves to an Id, IsInRoleAsync with that name holds |
| UserStores.UserStore.constructor | src/UserStore.cs:56-64 | all five accessors share the given wrapper, which is the `Database` property |
| UserStores.UserStore.AllUsers | src/UserStore.cs:33-41 | every stored user, in row order |
| UserStores.UserStore.CreateAsync | src/UserStore.cs:71-81 | a null user is refused before any table is touched; otherwise exactly the user's row is appended |
| UserStores.UserStore.FindByIdAsync | src/UserStore.cs:88-102 | a null or empty Id is refused; otherwise the user when exactly one row has the Id |
| UserStores.UserStore.FindByNameAsync | src/UserStore.cs:109-135 | a null or empty name is refused; one match is returned; several are an error in a DEBUG build and null otherwise; none is null |
| UserStores.UserStore.UpdateAsync | src/UserStore.cs:142-152 | a null user is refused; otherwise the object's five mutable fields are written to the rows with its Id |
| UserStores.UserStore.Dispose | src/UserStore.cs:154-161 | the wrapper is disposed at most once and forgotten; a second call changes nothing |
| UserStores.UserStore.AddClaimAsync | src/UserStore.cs:169-184 | a null user or claim is refused; otherwise exactly one claim row is appended |
| UserStores.UserStore.GetClaimsAsync | src/UserStore.cs:191-196 | a null user fails with a null reference; otherwise the user's claims in row order |
| UserStores.UserStore.RemoveClaimAsync | src/UserStore.cs:204-219 | a null user or claim is refused; otherwise the rejected statement leaves every claim in place |
| UserStores.UserStore.AddLoginAsync | src/UserStore.cs:227-242 | a null user or login is refused; otherwise exactly one login row is appended |
| UserStores.UserStore.FindAsync | src/UserStore.cs:249-267 | a null login is refused; a login that resolves to no user Id gives null after one statement; otherwise the user with that Id, found by a second statement |
| UserStores.UserStore.GetLoginsAsync | src/UserStore.cs:274-289 | a null user is refused; otherwise the user's (provider, key) pairs in row order |
| UserStores.UserStore.RemoveLoginAsync | src/UserStore.cs:297-312 | a null user or login is refused; otherwise exactly the rows matching user, provider and key are removed |
| UserStores.UserStore.AddToRoleAsync | src/UserStore.cs:320-339 | a null user or an empty role name is refused; a name that resolves to no Id or an empty one changes nothing; otherwise exactly one membership row is appended |
| UserStores.UserStore.GetRolesAsync | src/UserStore.cs:346-362 | a null user is refused; otherwise the joined role names |
| UserStores.UserStore.IsInRoleAsync | src/UserStore.cs:370-391 | a null user or an empty role is refused; otherwise true exactly when a membership of the user points to a role with exactly that name |
| UserStores.UserStore.RemoveFromRoleAsync | src/UserStore.cs:401-420 | a null user or role is refused; a role that resolves to no Id or an empty one changes nothing; otherwise exactly the user's membership in that role is removed |
| UserStores.UserStore.DeleteAsync | src/UserStore.cs:427-435 | a null user is ignored; otherwise only the user's rows are removed, and claims, logins and memberships stay |
| UserStores.UserStore.GetPasswordHashAsync | src/UserStore.cs:442-447 | a null user fails with a null reference; otherwise the stored hash, with missing or empty read as null |
| UserStores.UserStore.HasPasswordAsync | src/UserStore.cs:454-459 | true exactly when the first stored row with the user's Id has a non-empty hash |
| UserStores.UserStore.SetPasswordHashAsync | src/UserStore.cs:467-472 | only the object's hash changes; the database is not written |
| UserStores.UserStore.SetSecurityStampAsync | src/UserStore.cs:480-486 | only the object's stamp changes; the database is not written |
| UserStores.UserStore.GetSecurityStampAsync | src/UserStore.cs:493-496 | the object's stamp, not the stored one |
| UserStores.UserStore.SetEmailAsync | src/UserStore.cs:504-511 | the object's email changes and then its five mutable fields are written to its rows |
| UserStores.UserStore.GetEmailAsync | src/UserStore.cs:518-521 | the object's email, not the stored one |
| UserStores.UserStore.GetEmailConfirmedAsync | src/UserStore.cs:528-531 | the object's flag, not the stored one |
| UserStores.UserStore.SetEmailConfirmedAsync | src/UserStore.cs:539-545 | the object's flag changes and then its five mutable fields are written to its rows |
| UserStores.UserStore.FindByEmailAsync | src/UserStore.cs:552-566 | a null or empty email is refused; otherwise the first user whose email matches case-insensitively, or null |
| RoleStores.CreateThenFindById | src/RoleStore.cs:44-73 | CreateAsync then FindByIdAsync, for a new Id, gives back the created role's name |
| RoleStores.CreateThenFindByName | src/RoleStore.cs:44-80 | CreateAsync then FindByNameAsync, for a new name, resolves to the created role's Id |
| RoleStores.DeleteThenFindById | src/RoleStore.cs:56-73 | after DeleteAsync, FindByIdAsync finds no role under that Id |
| RoleStores.RoleStore.constructor | src/RoleStore.cs:38-42 | the accessor shares the given wrapper, which is the `Database` property |
| RoleStores.RoleStore.AllRoles | src/RoleStore.cs:17-23 | always fails with not-implemented |
| RoleStores.RoleStore.CreateAsync | src/RoleStore.cs:44-54 | a null role is refused; otherwise exactly one role row is appended |
| RoleStores.RoleStore.DeleteAsync | src/RoleStore.cs:56-66 | a null role is refused; otherwise exactly the rows with the role's Id are removed |
| RoleStores.RoleStore.FindByIdAsync | src/RoleStore.cs:68-73 | no argument check; the role when the Id has a non-null name |
| RoleStores.RoleStore.FindByNameAsync | src/RoleStore.cs:75-80 | no argument check; the role when the name resolves to an Id |
| RoleStores.RoleStore.UpdateAsync | src/RoleStore.cs:82-92 | a null role is refused; otherwise the rejected update leaves every role in place |
| RoleStores.RoleStore.Dispose | src/RoleStore.cs:94-101 | the wrapper is disposed at most once and forgotten; a second call changes nothing |

## Left out

- Npgsql, `ConfigurationManager` and SQL execution are not modelled. Each statement the adapter sends is given its relational meaning over the five in-memory relations, and the configuration-reading constructor of `PostgreSQLDatabase` is left out.
- Result order: PostgreSQL gives no order without ORDER BY. The model fixes table order as the result order, and every "in row order" above means that order.
- Parameter-name spelling and case (for example `"@UserId"` against `@userId`, or names bound without `@`) are left out. Parameters bind by name; the only unbound placeholders are the `@name` of `RoleTable.Update` and the `@ClaimValue` of `UserClaimsTable.Delete(user, claim)`.
- `Thread.Sleep(50)` in the open loop: only the number of `Open` calls is modelled, not time.
- Task and async plumbing (`Task.FromResult`): the store methods return synchronously.
- The lockout and two-factor members of `UserStore` (src/UserStore.cs:568-622) are constants or not-implemented throws with no storage logic.
- Culture- and collation-dependent lower-casing: one ASCII `Lower` stands for both C#'s `ToLower` and PostgreSQL's `LOWER`.
- The parameterless constructors of `UserStore` and `RoleStore` read configuration and discard the store they build.
- `Guid.NewGuid()` Ids: the `IdentityUser` constructor takes the Id as an input. `IdentityRole` is a value (`Role`), and the store receives roles, claims and logins as values.
- The parameterless `IdentityUser` and `IdentityRole` constructors are left out.
- Concurrency on the shared connection is out of scope.
- `ClaimsIdentity`, `Claim` and `UserLoginInfo` are modelled as (type, value) and (provider, key) pairs. GetClaimsAsync returns the list of pairs rather than an identity object.
- Users, roles and claims that the store returns are values, not fresh objects, so aliasing between them and the caller's objects is not modelled.
- The `as TUser` cast succeeds, because `UserTable` builds `TUser` itself. The model fixes `TRole` to `IdentityRole`.
- RoleStores.RoleStore.FindByIdAsync, RoleStores.RoleStore.FindByNameAsync: only `TRole = IdentityRole` is modelled. `RoleTable` builds a plain `new IdentityRole` (src/RoleTable.cs:65, 117, 136). For a `TRole` derived from `IdentityRole`, the `as TRole` at src/RoleStore.cs:70 and :77 gives null, so both finders would return null.
- The relations carry no schema constraints: no primary key, unique, NOT NULL or foreign key. An insert never fails on a duplicate key or a NULL column, and a delete never cascades. For example, a second user row with an Id already present is appended, and the user lookups by that Id then treat the Id as ambiguous.
- A null command text: `Execute`, `QueryValue` and `Query` reject a null or empty command (src/PostgreSQLDatabase.cs:44-47 and the same check in the other two). The model's command text is a non-null string, so only the empty case is modelled. Every caller passes a constant statement.
- `CloseConnection` and the `finally` of Execute: a close that throws on a disposed wrapper is folded into the same null-reference failure as the open step that precedes it.
