/**
 * The credentials provider's `authorize`: a format check, then the user lookup, then the
 * password comparison, each failure with its own message. The email validator and the
 * password comparison are parameters.
 */
module Auth {
  import opened Basics
  import opened Domain
  import Users

  /** The submitted credentials; a field may be missing or not a string. */
  datatype Credentials = Credentials(email: Option<string>, password: Option<string>)

  /** What `authorize` returns on success and the session is built from. */
  datatype SessionPayload = SessionPayload(id: Id, name: string, image: string, role: Role)

  const IncorrectFormat := "Incorrect data format"
  const NoUserFound := "No user found"
  const PasswordIncorrect := "Password is incorrect"

  /** The schema `{ email: string().email(), password: string().min(6) }`. */
  predicate WellFormed(c: Credentials, isEmail: string -> bool)
  {
    c.email.Some? && c.password.Some? && isEmail(c.email.value) && |c.password.value| >= 6
  }

  /**
   * `authorize`. `lookup` is `getUserByEmail` (null when absent or failed) and
   * `matches(plain, hash)` is the hash comparison.
   */
  function Authorize(c: Credentials, isEmail: string -> bool, lookup: string -> Option<User>,
                     matches: (string, string) -> bool): (r: Attempt<SessionPayload>)
    ensures r == Err(IncorrectFormat) <==> !WellFormed(c, isEmail)
    ensures r == Err(NoUserFound) <==> WellFormed(c, isEmail) && lookup(c.email.value).None?
    ensures r == Err(PasswordIncorrect) <==>
      WellFormed(c, isEmail) && lookup(c.email.value).Some? &&
      !matches(c.password.value, lookup(c.email.value).value.password)
    ensures r.Ok? <==>
      WellFormed(c, isEmail) && lookup(c.email.value).Some? &&
      matches(c.password.value, lookup(c.email.value).value.password)
    ensures r.Ok? ==>
      var u := lookup(c.email.value).value;
      r.value == SessionPayload(u.id, u.firstName, u.image, u.role)
  {
    if !WellFormed(c, isEmail) then Err(IncorrectFormat)
    else
      var email := c.email.value;
      var password := c.password.value;
      match lookup(email)
      case None => Err(NoUserFound)
      case Some(user) =>
        if !matches(password, user.password) then Err(PasswordIncorrect)
        else Ok(SessionPayload(user.id, user.firstName, user.image, user.role))
  }

  /** Badly formed credentials are refused before any lookup or comparison. */
  lemma FormatCheckedFirst(c: Credentials, isEmail: string -> bool,
                           l1: string -> Option<User>, l2: string -> Option<User>,
                           m1: (string, string) -> bool, m2: (string, string) -> bool)
    requires !WellFormed(c, isEmail)
    ensures Authorize(c, isEmail, l1, m1) == Authorize(c, isEmail, l2, m2) == Err(IncorrectFormat)
  {
  }

  /** An unknown email is refused before any password comparison. */
  lemma ExistenceCheckedBeforePassword(c: Credentials, isEmail: string -> bool, lookup: string -> Option<User>,
                                       m1: (string, string) -> bool, m2: (string, string) -> bool)
    requires WellFormed(c, isEmail) && lookup(c.email.value).None?
    ensures Authorize(c, isEmail, lookup, m1) == Authorize(c, isEmail, lookup, m2) == Err(NoUserFound)
  {
  }

  /** The session's role comes from the stored row, never from the request. */
  lemma RoleFromStore(c: Credentials, isEmail: string -> bool, lookup: string -> Option<User>,
                      matches: (string, string) -> bool)
    requires Authorize(c, isEmail, lookup, matches).Ok?
    ensures lookup(c.email.value).Some?
    ensures Authorize(c, isEmail, lookup, matches).value.role == lookup(c.email.value).value.role
  {
  }

  /**
   * Register, then sign in: when the comparison accepts a password against its own hash,
   * a freshly created account signs in with the same email and password, and its session
   * carries the first name, the default avatar and the chosen role.
   */
  lemma RegisterThenSignIn(rows: seq<User>, email: string, firstName: string, lastName: string, role: Role,
                           password: string, hash: string -> string, matches: (string, string) -> bool,
                           isEmail: string -> bool, newId: Id)
    requires isEmail(email) && |password| >= 6
    requires forall p :: matches(p, hash(p))
    requires Users.CreateUser(rows, email, firstName, lastName, role, password, hash, newId, Users.Works, Users.Works).0.Ok?
    ensures var rows1 := Users.CreateUser(rows, email, firstName, lastName, role, password, hash, newId, Users.Works, Users.Works).1;
      Authorize(Credentials(Some(email), Some(password)), isEmail,
                e => Users.GetUserByEmail(rows1, e, Users.Works), matches)
      == Ok(SessionPayload(newId, firstName, Users.DefaultAvatar, role))
  {
    Users.CreatedUserIsFound(rows, email, firstName, lastName, role, password, hash, newId);
  }

  /** When the users table cannot be read, no one can sign in: the lookup answers null. */
  lemma DatabaseDownRefusesEveryone(c: Credentials, isEmail: string -> bool, rows: seq<User>, message: string,
                                    matches: (string, string) -> bool)
    requires WellFormed(c, isEmail)
    ensures Authorize(c, isEmail, e => Users.GetUserByEmail(rows, e, Users.Throws(message)), matches) == Err(NoUserFound)
  {
  }
}
