/** The persisted entities of the bookstore and the session the identity provider issues. */
module Domain {
  import opened Basics

  /** Primary keys are opaque strings generated by the database. */
  type Id = string

  /** The `Role` enum; the constructor names are its wire values. */
  datatype Role = USER | MANAGER | ADMIN

  /** The `OrderStatus` enum; the constructor names are its wire values. */
  datatype OrderStatus = PENDING | CONFIRMED | SHIPPED | CANCELLED

  /** The `BookType` enum; the constructor names are its wire values. */
  datatype BookType = PAPER | ELECTRONIC | AUDIO

  /** The string a role is stored and compared as. */
  function RoleName(r: Role): string
  {
    match r
    case USER => "USER"
    case MANAGER => "MANAGER"
    case ADMIN => "ADMIN"
  }

  /** The string a status is stored and compared as. */
  function StatusName(s: OrderStatus): string
  {
    match s
    case PENDING => "PENDING"
    case CONFIRMED => "CONFIRMED"
    case SHIPPED => "SHIPPED"
    case CANCELLED => "CANCELLED"
  }

  /** The string a book type is stored and compared as. */
  function TypeName(t: BookType): string
  {
    match t
    case PAPER => "PAPER"
    case ELECTRONIC => "ELECTRONIC"
    case AUDIO => "AUDIO"
  }

  /** A catalogue entry; the price is kept in integer cents. */
  datatype Book = Book(
    id: Id,
    title: string,
    author: string,
    description: string,
    genreId: Id,
    bookType: BookType,
    priceCents: int,
    slug: string)

  /** A genre a book belongs to. */
  datatype Genre = Genre(id: Id, name: string)

  /** A stored account; `password` holds the hash, never the plaintext. */
  datatype User = User(
    id: Id,
    email: string,
    firstName: string,
    lastName: string,
    role: Role,
    password: string,
    image: string)

  /** One purchased unit of one book by one user; `createdAt` is in milliseconds. */
  datatype Order = Order(id: Id, bookId: Id, userId: Id, status: OrderStatus, createdAt: int)

  /** The user part of a session: what `authorize` returned, with the role possibly missing. */
  datatype SessionUser = SessionUser(id: Id, name: string, image: string, role: Option<Role>)

  /** A session object; its `user` may be missing. */
  datatype Session = Session(user: Option<SessionUser>)
}
