/** The `User` document of the users collection (src/schemas/user.schema.ts):
    required unique email, required password (a hash), optional names, and
    the three lockout fields read and written by login. */
module UserSchema {
  import opened Wrappers

  /** Identifier the store assigns to a document on insertion (`_id`). */
  type Id = nat

  /** Milliseconds since the epoch, as `Date.getTime()` returns it. */
  type Millis = int

  datatype User = User(
    id: Id,
    email: string,
    password: string,
    firstName: Option<string>,
    lastName: Option<string>,
    failedLoginAttempts: int,
    failedLoginTime: Option<Millis>,
    locked: Option<bool>)

  /** Default of `failedLoginAttempts` when a document is created. */
  const DefaultFailedLoginAttempts: int := 0

  /** The fields a caller supplies when a document is created; every field the
      schema does not list is dropped on save. */
  function NewUser(id: Id, email: string, password: string,
                   firstName: Option<string>, lastName: Option<string>): (u: User)
    ensures u.id == id && u.email == email && u.password == password
    ensures u.firstName == firstName && u.lastName == lastName
    ensures IsClean(u) && WellFormed(u)
  {
    User(id, email, password, firstName, lastName, DefaultFailedLoginAttempts, None, None)
  }

  /** `if (user.locked)`: an absent `locked` field counts as not locked. */
  predicate IsLocked(u: User) {
    u.locked == Some(true)
  }

  /** No failures recorded and not locked: the state of a freshly created user. */
  predicate IsClean(u: User) {
    u.failedLoginAttempts == 0 && u.failedLoginTime.None? && !IsLocked(u)
  }

  /** The shape every document written by the auth service keeps: the counter
      lies in 0..3, and a failure time is recorded exactly when the counter is
      positive, so the elapsed-time read in login is always defined. */
  predicate WellFormed(u: User) {
    && 0 <= u.failedLoginAttempts <= 3
    && (u.failedLoginAttempts == 0 <==> u.failedLoginTime.None?)
  }
}
