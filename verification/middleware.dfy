/**
 * The edge middleware: a path is protected when it starts with one of the protected route
 * prefixes, and a protected path without a session is redirected to the login page. The
 * route list is not part of this model and is a parameter.
 */
module Middleware {
  import opened Basics
  import opened Text
  import opened Domain

  /** What the middleware answers: let the request through, or redirect it. */
  datatype Decision = Next | RedirectTo(path: string)

  /** `PROTECTED_ROUTES.some(route => pathname.startsWith(route))`. */
  function IsProtectedRoute(pathname: string, routes: seq<string>): (r: bool)
    ensures r <==> exists i :: 0 <= i < |routes| && StartsWith(pathname, routes[i])
  {
    if |routes| == 0 then false
    else StartsWith(pathname, routes[0]) || IsProtectedRoute(pathname, routes[1..])
  }

  /**
   * The handler. `auth` is the session attached to the request, if any; only its presence
   * is consulted.
   */
  function Decide(pathname: string, routes: seq<string>, auth: Option<Session>): (d: Decision)
    ensures d == RedirectTo("/login") <==> IsProtectedRoute(pathname, routes) && auth.None?
    ensures d.Next? <==> !IsProtectedRoute(pathname, routes) || auth.Some?
  {
    var isLoggedIn := auth.Some?;
    if IsProtectedRoute(pathname, routes) && !isLoggedIn then RedirectTo("/login")
    else Next
  }

  /** A signed-in request is never redirected, whatever the path. */
  lemma LoggedInPasses(pathname: string, routes: seq<string>, s: Session)
    ensures Decide(pathname, routes, Some(s)) == Next
  {
  }

  /** A path outside every protected prefix passes with or without a session. */
  lemma UnprotectedPasses(pathname: string, routes: seq<string>, auth: Option<Session>)
    requires forall i :: 0 <= i < |routes| ==> !StartsWith(pathname, routes[i])
    ensures Decide(pathname, routes, auth) == Next
  {
  }

  /** Only the presence of a session matters: its user and role are never read. */
  lemma RoleIgnored(pathname: string, routes: seq<string>, s1: Session, s2: Session)
    ensures Decide(pathname, routes, Some(s1)) == Decide(pathname, routes, Some(s2))
  {
  }

  /** Extending a protected path keeps it protected: a prefix protects the whole subtree. */
  lemma ProtectedSubtree(pathname: string, suffix: string, routes: seq<string>)
    requires IsProtectedRoute(pathname, routes)
    ensures IsProtectedRoute(pathname + suffix, routes)
  {
    var i :| 0 <= i < |routes| && StartsWith(pathname, routes[i]);
    assert (pathname + suffix)[..|routes[i]|] == pathname[..|routes[i]|];
  }

  /**
   * The `config.matcher` pattern: the path is `/` followed by text that does not begin
   * with `api`, `_next/static`, `_next/image` or `favicon.ico`. In the pattern the dot of
   * `favicon.ico` is a regular-expression wildcard, so any one character stands there.
   */
  predicate Excluded(rest: string)
  {
    || StartsWith(rest, "api")
    || StartsWith(rest, "_next/static")
    || StartsWith(rest, "_next/image")
    || (|rest| >= 11 && rest[..7] == "favicon" && rest[8..11] == "ico")
  }

  /** The middleware runs for the path. */
  function RunsOn(pathname: string): (r: bool)
    ensures r ==> |pathname| > 0 && pathname[0] == '/'
    ensures r <==> StartsWith(pathname, "/") && !Excluded(pathname[1..])
  {
    |pathname| > 0 && pathname[0] == '/' && !Excluded(pathname[1..])
  }

  /** The effective answer for a request: paths the matcher skips are never intercepted. */
  function Handle(pathname: string, routes: seq<string>, auth: Option<Session>): (d: Decision)
    ensures !RunsOn(pathname) ==> d == Next
    ensures d == Next || d == RedirectTo("/login")
    ensures d == RedirectTo("/login") <==> RunsOn(pathname) && IsProtectedRoute(pathname, routes) && auth.None?
  {
    if RunsOn(pathname) then Decide(pathname, routes, auth) else Next
  }

  /** API routes, including the checkout endpoint, never reach the middleware. */
  lemma ApiNeverIntercepted(rest: string, routes: seq<string>, auth: Option<Session>)
    ensures Handle("/api" + rest, routes, auth) == Next
  {
    assert ("/api" + rest)[1..][..3] == "api";
  }

  /** Because the dot is a wildcard, `/faviconXico` is skipped as well as `/favicon.ico`. */
  lemma FaviconWildcard(routes: seq<string>, auth: Option<Session>)
    ensures !RunsOn("/favicon.ico") && !RunsOn("/faviconXico")
    ensures Handle("/faviconXico", routes, auth) == Next
  {
    assert "/faviconXico"[1..][..7] == "favicon";
    assert "/favicon.ico"[1..][..7] == "favicon";
  }

  /**
   * Ordinary pages are matched: a path whose first segment does not begin with `api`,
   * `_next` or `favicon` reaches the middleware, so a signed-out visit to it is redirected
   * exactly when it is protected.
   */
  lemma PagesAreMatched(p: string, routes: seq<string>)
    requires |p| > 0 && p[0] == '/'
    requires !StartsWith(p[1..], "api") && !StartsWith(p[1..], "_next") && !StartsWith(p[1..], "favicon")
    ensures RunsOn(p)
    ensures Handle(p, routes, None) == RedirectTo("/login") <==> IsProtectedRoute(p, routes)
  {
    NotStartsWithLonger(p[1..], "_next", "_next/static");
    NotStartsWithLonger(p[1..], "_next", "_next/image");
  }

  /** The order history is such a page. */
  lemma OrdersPageMatched(routes: seq<string>)
    requires IsProtectedRoute("/orders", routes)
    ensures Handle("/orders", routes, None) == RedirectTo("/login")
  {
    assert "/orders"[1..] == "orders";
    assert "orders"[..3] == "ord";
    assert "orders"[..5] == "order";
    PagesAreMatched("/orders", routes);
  }
}
