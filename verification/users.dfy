/**
 * The user server actions: `createUser` with its duplicate-email check and defaults, and
 * the two lookups that answer null both for a missing user and for a failed query. The
 * users table is a sequence of rows; the password hasher is a parameter.
 */
module Users {
  import opened Basics
  import opened Domain

  /** How a database call ends: it does its work, or it throws with a message. */
  datatype DbCall = Works | Throws(message: string)

  /** The image every new account starts with. */
  const DefaultAvatar := "/default-avatar.svg"

  /** The message of the duplicate-email error. */
  const UserExists := "User already exists"

  /** The first row that satisfies `sel`, if any: `findUnique` on a unique column. */
  function FindFirst(rows: seq<User>, sel: User -> bool): (r: Option<User>)
    ensures r.None? <==> forall i :: 0 <= i < |rows| ==> !sel(rows[i])
    ensures r.Some? ==> r.value in rows && sel(r.value)
    ensures r.Some? ==> exists i :: 0 <= i < |rows| && rows[i] == r.value &&
                                    (forall j :: 0 <= j < i ==> !sel(rows[j]))
  {
    if |rows| == 0 then None
    else if sel(rows[0]) then Some(rows[0])
    else
      var r := FindFirst(rows[1..], sel);
      if r.Some? then
        var i :| 0 <= i < |rows| - 1 && rows[1..][i] == r.value && (forall j :: 0 <= j < i ==> !sel(rows[1..][j]));
        assert rows[i + 1] == r.value && forall j :: 0 <= j < i + 1 ==> !sel(rows[j]);
        r
      else r
  }

  /** The selector `where: { email }`. */
  function HasEmail(email: string): User -> bool
  {
    (u: User) => u.email == email
  }

  /** The selector `where: { id }`. */
  function HasId(id: Id): User -> bool
  {
    (u: User) => u.id == id
  }

  /** No two rows share an email: the column is unique. */
  predicate UniqueEmails(rows: seq<User>)
  {
    forall i, j :: 0 <= i < j < |rows| ==> rows[i].email != rows[j].email
  }

  /** `getUserByEmail`: the user with that email, or nothing when absent or when the query fails. */
  function GetUserByEmail(rows: seq<User>, email: string, db: DbCall): (r: Option<User>)
    ensures db.Throws? ==> r.None?
    ensures db.Works? ==> (r.Some? <==> exists i :: 0 <= i < |rows| && rows[i].email == email)
    ensures r.Some? ==> r.value in rows && r.value.email == email
  {
    if db.Throws? then None else FindFirst(rows, HasEmail(email))
  }

  /** `getUserById`: the user with that id, or nothing when absent or when the query fails. */
  function GetUserById(rows: seq<User>, id: Id, db: DbCall): (r: Option<User>)
    ensures db.Throws? ==> r.None?
    ensures db.Works? ==> (r.Some? <==> exists i :: 0 <= i < |rows| && rows[i].id == id)
    ensures r.Some? ==> r.value in rows && r.value.id == id
  {
    if db.Throws? then None else FindFirst(rows, HasId(id))
  }

  /**
   * `createUser`: the lookup's error is re-thrown; an existing email is refused; otherwise
   * the row is stored with the hashed password and the default avatar. `newId` is the key
   * the database generates. The result is the action's answer and the table afterwards.
   */
  function CreateUser(rows: seq<User>, email: string, firstName: string, lastName: string, role: Role,
                      password: string, hash: string -> string, newId: Id, find: DbCall, create: DbCall)
    : (r: (Attempt<User>, seq<User>))
    ensures find.Throws? ==> r == (Err(find.message), rows)
    ensures find.Works? && (exists i :: 0 <= i < |rows| && rows[i].email == email) ==> r == (Err(UserExists), rows)
    ensures find.Works? && (forall i :: 0 <= i < |rows| ==> rows[i].email != email) ==>
      (create.Works? <==> r.0.Ok?)
    ensures find.Works? && create.Throws? && (forall i :: 0 <= i < |rows| ==> rows[i].email != email) ==>
      r == (Err(create.message), rows)
    ensures r.0.Err? ==> r.1 == rows
    ensures r.0.Ok? ==>
      && find.Works? && create.Works?
      && (forall i :: 0 <= i < |rows| ==> rows[i].email != email)
      && r.0.value == User(newId, email, firstName, lastName, role, hash(password), DefaultAvatar)
      && r.1 == rows + [r.0.value]
  {
    match find
    case Throws(m) => (Err(m), rows)
    case Works =>
      if FindFirst(rows, HasEmail(email)).Some? then (Err(UserExists), rows)
      else
        var hashed := hash(password);
        match create
        case Throws(m) => (Err(m), rows)
        case Works =>
          var u := User(newId, email, firstName, lastName, role, hashed, DefaultAvatar);
          (Ok(u), rows + [u])
  }

  /** Creating users keeps emails unique. */
  lemma CreateUserKeepsEmailsUnique(rows: seq<User>, email: string, firstName: string, lastName: string, role: Role,
                                    password: string, hash: string -> string, newId: Id, find: DbCall, create: DbCall)
    requires UniqueEmails(rows)
    ensures UniqueEmails(CreateUser(rows, email, firstName, lastName, role, password, hash, newId, find, create).1)
  {
  }

  /** A second registration with the same email is refused and changes nothing. */
  lemma RegisterTwiceRefused(rows: seq<User>, email: string, f1: string, l1: string, r1: Role, p1: string,
                             f2: string, l2: string, r2: Role, p2: string, hash: string -> string, id1: Id, id2: Id)
    ensures var (a, rows1) := CreateUser(rows, email, f1, l1, r1, p1, hash, id1, Works, Works);
      CreateUser(rows1, email, f2, l2, r2, p2, hash, id2, Works, Works) == (Err(UserExists), rows1)
  {
    var (a, rows1) := CreateUser(rows, email, f1, l1, r1, p1, hash, id1, Works, Works);
    if a.Ok? {
      assert rows1[|rows|].email == email;
    } else {
      assert exists i :: 0 <= i < |rows| && rows[i].email == email;
    }
  }

  /** A user just created is what `getUserByEmail` finds afterwards. */
  lemma CreatedUserIsFound(rows: seq<User>, email: string, firstName: string, lastName: string, role: Role,
                           password: string, hash: string -> string, newId: Id)
    requires CreateUser(rows, email, firstName, lastName, role, password, hash, newId, Works, Works).0.Ok?
    ensures var (a, rows1) := CreateUser(rows, email, firstName, lastName, role, password, hash, newId, Works, Works);
      GetUserByEmail(rows1, email, Works) == Some(a.value)
  {
    var (a, rows1) := CreateUser(rows, email, firstName, lastName, role, password, hash, newId, Works, Works);
    FindFirstAppend(rows, a.value, HasEmail(email));
  }

  /** Searching a table extended by one row that no earlier row matches finds that row. */
  lemma {:induction false} FindFirstAppend(rows: seq<User>, u: User, sel: User -> bool)
    requires forall i :: 0 <= i < |rows| ==> !sel(rows[i])
    requires sel(u)
    ensures FindFirst(rows + [u], sel) == Some(u)
  {
    if |rows| > 0 {
      assert (rows + [u])[1..] == rows[1..] + [u];
      FindFirstAppend(rows[1..], u, sel);
    }
  }
}
