/** The entities the identity framework hands to the stores: users, roles,
    claims and external logins. */
module Entities {
  import opened Common

  /** The six user fields the adapter stores, as a value. */
  datatype User = User(
    id: NStr,
    userName: NStr,
    passwordHash: NStr,
    securityStamp: NStr,
    email: NStr,
    emailConfirmed: bool)

  /** A role; the constructor takes the name first, as `IdentityRole(name, id)` does. */
  datatype Role = Role(name: NStr, id: NStr)

  /** A claim: a (type, value) pair. `System.Security.Claims.Claim` refuses
      null for either part, so both are plain strings. */
  datatype Claim = Claim(claimType: string, claimValue: string)

  /** An external login: a (provider, key) pair. */
  datatype LoginInfo = LoginInfo(loginProvider: NStr, providerKey: NStr)

  /** The user object the framework passes to the user store. The store's
      setters assign its fields in place. */
  class IdentityUser {
    var id: NStr
    var userName: NStr
    var passwordHash: NStr
    var securityStamp: NStr
    var email: NStr
    var emailConfirmed: bool

    /** The Id is an input here: the source draws it from `Guid.NewGuid()`. */
    constructor (id: NStr, userName: NStr)
      ensures Value() == User(id, userName, None, None, None, false)
    {
      this.id := id;
      this.userName := userName;
      passwordHash := None;
      securityStamp := None;
      email := None;
      emailConfirmed := false;
    }

    /** The field values, as the table accessors read them. */
    function Value(): User
      reads this
    {
      User(id, userName, passwordHash, securityStamp, email, emailConfirmed)
    }
  }
}
