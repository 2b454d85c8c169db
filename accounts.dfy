/**
 * The part of the users and roles tables that the notification engine and
 * the menu handler consult: which users exist, which role each user row
 * points at, and which roles exist.  The session lookup done by `auth()`
 * is not modelled; its outcome is passed in as the optional user id it
 * carries.
 */
module Accounts {

  datatype Option<T> = None | Some(value: T)

  type UserId = string
  type RoleId = string

  /** A user row holds an optional reference to a role row. */
  datatype UserRow = UserRow(roleId: Option<RoleId>)

  datatype Directory = Directory(users: map<UserId, UserRow>, roles: set<RoleId>)

  /**
   * `!session?.user?.id` rejects a missing session and a missing id, and
   * also the empty string, which is falsy in JavaScript.
   */
  predicate Authenticated(session: Option<UserId>)
  {
    session.Some? && session.value != ""
  }

  predicate UserExists(dir: Directory, userId: UserId)
  {
    userId in dir.users
  }

  predicate RoleExists(dir: Directory, roleId: RoleId)
  {
    roleId in dir.roles
  }

  /**
   * The role joined to the user row (`with: { role: true }`): present
   * exactly when the user exists, its row names a role, and that role
   * exists.  A `None` here is what the handlers report as
   * "Ruolo utente non trovato".
   */
  function RoleOf(dir: Directory, userId: UserId): (r: Option<RoleId>)
    ensures r.Some? <==>
      (userId in dir.users && dir.users[userId].roleId.Some? && dir.users[userId].roleId.value in dir.roles)
    ensures r.Some? ==> r == dir.users[userId].roleId && RoleExists(dir, r.value)
  {
    if userId in dir.users then
      match dir.users[userId].roleId
      case Some(roleId) => if roleId in dir.roles then Some(roleId) else None
      case None => None
    else
      None
  }
}
