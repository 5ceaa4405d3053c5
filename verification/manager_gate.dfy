/**
 * The server-side gate of the manager pages (books, genres and orders): a request without
 * a session, or from a USER, is redirected to the home page.
 */
module ManagerGate {
  import opened Basics
  import opened Domain

  /** How the page continues. */
  datatype GateResult =
    | RedirectHome
    | Proceed
      /** The session has no `user` object, so reading `session.user.role` throws. */
    | RenderError

  /**
   * `if (!session || session.user.role === Role.USER) redirect("/")`. A user whose role is
   * not set compares unequal to USER and is let through.
   */
  function Gate(session: Option<Session>): (g: GateResult)
    ensures g == RedirectHome <==>
      session.None? || (session.value.user.Some? && session.value.user.value.role == Some(USER))
    ensures g == RenderError <==> session.Some? && session.value.user.None?
  {
    match session
    case None => RedirectHome
    case Some(s) =>
      match s.user
      case None => RenderError
      case Some(u) => if u.role == Some(USER) then RedirectHome else Proceed
  }

  /** Managers and administrators reach the page. */
  lemma StaffProceed(u: SessionUser)
    requires u.role == Some(MANAGER) || u.role == Some(ADMIN)
    ensures Gate(Some(Session(Some(u)))) == Proceed
  {
  }

  /** A page proceeds only for a signed-in user whose role is not USER. */
  lemma ProceedOnlyForNonUsers(session: Option<Session>)
    requires Gate(session) == Proceed
    ensures session.Some? && session.value.user.Some? && session.value.user.value.role != Some(USER)
  {
  }

  /** `books || []`, `genres || []`: a list the server could not read is shown as empty. */
  function OrEmpty<T>(list: Option<seq<T>>): (r: seq<T>)
    ensures list.None? ==> r == []
    ensures list.Some? ==> r == list.value
  {
    list.GetOr([])
  }
}
