/** Who may open which page: the request middleware, which runs before
    every page, and the guards that the admin panel's layout and pages
    apply again on the server. */
module Guards {
  import opened Wrappers
  import opened Text
  import opened Domain

  // ---------------------------------------------------------------- middleware

  /** Prefixes that need a signed-in user. */
  const ProtectedRoutes: seq<string> := ["/studies/submit", "/profile"]

  /** Prefixes of the admin panel. */
  const AdminRoutes: seq<string> := ["/admin"]

  /** Declared beside the others but never consulted by the middleware. */
  const FacultyRoutes: seq<string> := ["/admin/submissions"]

  /** Admin-panel prefixes closed to faculty. */
  const AdminOnlyRoutes: seq<string> := ["/admin/users", "/admin/categories"]

  /** `routes.some((r) => pathname.startsWith(r))`. */
  predicate StartsWithAny(pathname: string, routes: seq<string>) {
    exists i :: 0 <= i < |routes| && StartsWith(pathname, routes[i])
  }

  predicate IsProtectedPath(p: string) { StartsWithAny(p, ProtectedRoutes) }
  predicate IsAdminPath(p: string) { StartsWithAny(p, AdminRoutes) }
  predicate IsAdminOnlyPath(p: string) { StartsWithAny(p, AdminOnlyRoutes) }

  /** The prefix tests unfolded: plain `startsWith`, with no segment
      boundary, so `/administrator` is an admin path. */
  lemma PathClasses(p: string)
    ensures IsProtectedPath(p) <==> StartsWith(p, "/studies/submit") || StartsWith(p, "/profile")
    ensures IsAdminPath(p) <==> StartsWith(p, "/admin")
    ensures IsAdminOnlyPath(p) <==> StartsWith(p, "/admin/users") || StartsWith(p, "/admin/categories")
    ensures IsAdminPath("/administrator")
  {
    assert StartsWith(p, AdminRoutes[0]) <==> StartsWith(p, "/admin");
    assert StartsWith("/administrator", AdminRoutes[0]);
    if StartsWith(p, "/studies/submit") { assert StartsWith(p, ProtectedRoutes[0]); }
    if StartsWith(p, "/profile") { assert StartsWith(p, ProtectedRoutes[1]); }
    if StartsWith(p, "/admin/users") { assert StartsWith(p, AdminOnlyRoutes[0]); }
    if StartsWith(p, "/admin/categories") { assert StartsWith(p, AdminOnlyRoutes[1]); }
  }

  /** Every admin-only path lies inside the admin panel. */
  lemma AdminOnlyIsAdmin(p: string)
    requires IsAdminOnlyPath(p)
    ensures IsAdminPath(p)
  {
    PathClasses(p);
    if StartsWith(p, "/admin/users") {
      StartsWithTrans(p, "/admin/users", "/admin");
    } else {
      StartsWithTrans(p, "/admin/categories", "/admin");
    }
  }

  datatype MiddlewareOutcome = Next | ToLogin(redirectTo: string) | ToHome | ToAdmin

  /** The decision the middleware takes for one request. `role` is the
      caller's profile role, absent when no profile row exists; it is
      consulted only for a signed-in request to an admin path. */
  function Middleware(pathname: string, signedIn: bool, role: Option<string>): (r: MiddlewareOutcome)
    ensures r.ToLogin? <==> (IsProtectedPath(pathname) || IsAdminPath(pathname)) && !signedIn
    ensures r.ToLogin? ==> r.redirectTo == pathname
    ensures r == ToHome <==>
              signedIn && IsAdminPath(pathname) && (role.None? || !IsStaffRole(role.value))
    ensures r == ToAdmin <==>
              signedIn && IsAdminPath(pathname) && role.Some? && role.value == "faculty" && IsAdminOnlyPath(pathname)
    ensures !IsProtectedPath(pathname) && !IsAdminPath(pathname) ==> r == Next
    ensures signedIn && role == Some("admin") ==> r == Next
  {
    var isProtected := IsProtectedPath(pathname);
    var isAdmin := IsAdminPath(pathname);
    if (isProtected || isAdmin) && !signedIn then ToLogin(pathname)
    else if isAdmin && signedIn then
      if role.None? || !IsStaffRole(role.value) then ToHome
      else if IsAdminOnlyPath(pathname) && role.value != "admin" then ToAdmin
      else Next
    else Next
  }

  /** Faculty pass the middleware on every admin path outside the two
      admin-only prefixes — `/admin/studies` included. */
  lemma FacultyPassesMiddleware(p: string)
    requires StartsWith(p, "/admin") && !IsAdminOnlyPath(p)
    ensures Middleware(p, true, Some("faculty")) == Next
  {
    PathClasses(p);
  }

  /** The unused faculty prefix changes nothing: faculty and admins pass on
      it already, and everyone else is sent where the admin rule sends them. */
  lemma FacultyRoutesUnused(p: string, role: Option<string>)
    requires StartsWithAny(p, FacultyRoutes)
    ensures role == Some("faculty") || role == Some("admin") ==> Middleware(p, true, role) == Next
    ensures Middleware(p, false, role) == ToLogin(p)
  {
    assert StartsWith(p, "/admin/submissions");
    StartsWithTrans(p, "/admin/submissions", "/admin");
    StartsWithConflict(p, "/admin/submissions", "/admin/users", 7);
    StartsWithConflict(p, "/admin/submissions", "/admin/categories", 7);
    PathClasses(p);
  }

  // ---------------------------------------------------------------- page guards

  /** A server page either redirects or renders for the caller's role. */
  datatype PageOutcome = Redirect(to: string) | Render(role: string)

  /** Admission to the admin panel (the layout around every admin page). */
  function AdminLayout(signedIn: bool, role: Option<string>): (r: PageOutcome)
    ensures !signedIn ==> r == Redirect("/login?redirectTo=/admin")
    ensures signedIn ==> (r == Redirect("/") <==> role.None? || !IsStaffRole(role.value))
    ensures r.Render? <==> signedIn && role.Some? && IsStaffRole(role.value)
    ensures r.Render? ==> Some(r.role) == role
  {
    if !signedIn then Redirect("/login?redirectTo=/admin")
    else if role.None? || !IsStaffRole(role.value) then Redirect("/")
    else Render(role.value)
  }

  /** The layout admits a signed-in caller exactly when the middleware lets
      them into an admin path at all. */
  lemma LayoutAgreesWithMiddleware(p: string, role: Option<string>)
    requires IsAdminPath(p)
    ensures AdminLayout(true, role) == Redirect("/") <==> Middleware(p, true, role) == ToHome
  {
  }

  /** `/admin` itself: never renders, only dispatches by role. */
  function AdminIndex(signedIn: bool, role: Option<string>): (r: PageOutcome)
    ensures r.Redirect?
    ensures !signedIn ==> r.to == "/login?redirectTo=/admin"
    ensures signedIn ==> (r.to == "/admin/studies" <==> role == Some("admin"))
    ensures signedIn && role != Some("admin") ==> r.to == "/admin/submissions"
  {
    if !signedIn then Redirect("/login?redirectTo=/admin")
    else if role == Some("admin") then Redirect("/admin/studies")
    else Redirect("/admin/submissions")
  }

  /** The review queue page: open to admins and faculty. */
  function SubmissionsPageGuard(signedIn: bool, role: Option<string>): (r: PageOutcome)
    ensures !signedIn ==> r == Redirect("/login?redirectTo=/admin/submissions")
    ensures signedIn ==> (r == Redirect("/") <==> role.None? || !IsStaffRole(role.value))
    ensures r.Render? <==> signedIn && role.Some? && IsStaffRole(role.value)
  {
    if !signedIn then Redirect("/login?redirectTo=/admin/submissions")
    else if role.None? || !IsStaffRole(role.value) then Redirect("/")
    else Render(role.value)
  }

  /** The all-studies and users pages: admins only. */
  function AdminOnlyPageGuard(signedIn: bool, role: Option<string>): (r: PageOutcome)
    ensures !signedIn ==> r == Redirect("/login")
    ensures signedIn && role != Some("admin") ==> r == Redirect("/admin/submissions")
    ensures r.Render? <==> signedIn && role == Some("admin")
  {
    if !signedIn then Redirect("/login")
    else if role != Some("admin") then Redirect("/admin/submissions")
    else Render("admin")
  }

  /** `/admin/studies` is closed to faculty only by its own page guard: the
      middleware and the layout both let them through. */
  lemma StudiesPageKeepsOutFaculty()
    ensures Middleware("/admin/studies", true, Some("faculty")) == Next
    ensures AdminLayout(true, Some("faculty")) == Render("faculty")
    ensures AdminOnlyPageGuard(true, Some("faculty")) == Redirect("/admin/submissions")
  {
    var p := "/admin/studies";
    StartsWithTrans(p, p, "/admin");
    StartsWithConflict(p, p, "/admin/users", 7);
    StartsWithConflict(p, p, "/admin/categories", 7);
    PathClasses(p);
    FacultyPassesMiddleware(p);
  }
}
