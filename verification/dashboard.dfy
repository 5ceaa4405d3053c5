/**
 * The dashboard page: a fixed table of management links, each allowed for some roles,
 * filtered by the signed-in user's role.
 */
module Dashboard {
  import opened Basics
  import opened Seqs
  import opened Domain

  /** One entry of the link table (the icon and description are presentation only). */
  datatype DashboardLink = DashboardLink(href: string, title: string, allowedRoles: seq<Role>)

  const ManageBooks := DashboardLink("/manager/books", "Manage Books", [ADMIN, MANAGER])
  const ManageGenres := DashboardLink("/manager/genres", "Manage Genres", [ADMIN, MANAGER])
  const ManageOrders := DashboardLink("/manager/orders", "Manage Orders", [ADMIN, MANAGER])
  const ManageUsers := DashboardLink("/admin/users", "Manage Users", [ADMIN])

  /** The manager links. */
  const ManagerLinks: seq<DashboardLink> := [ManageBooks, ManageGenres, ManageOrders]

  /** The table, in display order. */
  const DashboardLinks: seq<DashboardLink> := ManagerLinks + [ManageUsers]

  /** What the page shows. */
  datatype DashboardView = AccessDenied | NoAccess | LinkGrid(links: seq<DashboardLink>)

  /** `link => link.allowedRoles.includes(userRole)`. */
  function AllowedFor(role: Role): DashboardLink -> bool
  {
    (link: DashboardLink) => role in link.allowedRoles
  }

  /** `availableLinks`: the links that allow the role, in table order. */
  function AvailableLinks(role: Role): (r: seq<DashboardLink>)
    ensures forall link :: link in r <==> link in DashboardLinks && role in link.allowedRoles
    ensures IsSubsequence(r, DashboardLinks)
  {
    FilterIsSubsequence(DashboardLinks, AllowedFor(role));
    Filter(DashboardLinks, AllowedFor(role))
  }

  /** The session carries a user with a role. */
  predicate HasRole(session: Option<Session>)
  {
    session.Some? && session.value.user.Some? && session.value.user.value.role.Some?
  }

  /** The page for a request with the given session. */
  function Page(session: Option<Session>): (v: DashboardView)
    ensures v == AccessDenied <==> !HasRole(session)
    ensures v == NoAccess <==> HasRole(session) && |AvailableLinks(session.value.user.value.role.value)| == 0
    ensures v.LinkGrid? ==> v.links == AvailableLinks(session.value.user.value.role.value) && |v.links| > 0
    ensures v.LinkGrid? ==>
      forall link :: link in v.links <==> link in DashboardLinks && session.value.user.value.role.value in link.allowedRoles
  {
    if !HasRole(session) then AccessDenied
    else
      var links := AvailableLinks(session.value.user.value.role.value);
      if |links| == 0 then NoAccess else LinkGrid(links)
  }

  /** An administrator sees all four links, in table order. */
  lemma AdminSeesEverything(session: Option<Session>)
    requires HasRole(session) && session.value.user.value.role == Some(ADMIN)
    ensures AvailableLinks(ADMIN) == DashboardLinks
    ensures Page(session) == LinkGrid(DashboardLinks)
  {
    FilterKeepsAll(DashboardLinks, AllowedFor(ADMIN));
  }

  /** A manager sees the three manager links and never the user administration. */
  lemma ManagerSeesManagerLinks(session: Option<Session>)
    requires HasRole(session) && session.value.user.value.role == Some(MANAGER)
    ensures AvailableLinks(MANAGER) == ManagerLinks
    ensures Page(session) == LinkGrid(ManagerLinks)
    ensures forall link :: link in Page(session).links ==> link.href != "/admin/users"
  {
    FilterAppend(ManagerLinks, [ManageUsers], AllowedFor(MANAGER));
    assert Filter([ManageUsers], AllowedFor(MANAGER)) == [];
    FilterKeepsAll(ManagerLinks, AllowedFor(MANAGER));
  }

  /** A plain user is allowed no link and gets the "No Access" page. */
  lemma UserHasNoAccess(session: Option<Session>)
    requires HasRole(session) && session.value.user.value.role == Some(USER)
    ensures Page(session) == NoAccess
  {
    assert forall link :: link in DashboardLinks ==> USER !in link.allowedRoles;
  }
}
