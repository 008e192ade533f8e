/**
 * The `User` row (src/user/model.py, table `tbl_users`): the fields the
 * authentication flow reads and writes, with the defaults of a new row.
 */
module UserModel {
  import opened Wrappers

  /**
   * `registered` is the column the source spells `registerd`. The names are
   * nullable columns; the e-mail address is the unique lookup key.
   */
  datatype User = User(
    email: string,
    firstName: Option<string>,
    lastName: Option<string>,
    emailVerified: bool,
    registered: bool)

  /** The row `insert(User).values(email=email)` creates: no names, neither flag set. */
  function NewUser(email: string): (u: User)
    ensures u.email == email
    ensures u.firstName == None && u.lastName == None
    ensures !u.emailVerified && !u.registered
  {
    User(email, None, None, false, false)
  }
}
