/**
 * The Vue router (frontend/src/router/index.js): its route table and the `beforeEach`
 * guard, which restores the auth store and then lets the navigation proceed or sends it
 * to `/login`.
 */
module Router {
  import opened Wrappers
  import opened UserStore

  /** A route's `meta`; a route without one has neither field. */
  datatype Meta = Meta(requiresAuth: bool, role: Option<string>)

  datatype Route = Route(path: string, name: string, meta: Meta)

  const NoMeta := Meta(false, None)

  const Routes: seq<Route> := [
    Route("/", "Home", NoMeta),
    Route("/login", "Login", NoMeta),
    Route("/register", "Register", NoMeta),
    Route("/admin", "AdminDashboard", Meta(true, Some("admin"))),
    Route("/doctor", "DoctorDashboard", Meta(true, Some("doctor"))),
    Route("/patient", "PatientDashboard", Meta(true, Some("patient")))
  ]

  const NotFoundRoute := Route("/:pathMatch(.*)*", "NotFound", NoMeta)

  /** ASCII lower-casing of one character; every other character is left as it is. */
  function LowerAscii(c: char): char {
    if 'A' <= c <= 'Z' then (c as int + 32) as char else c
  }

  /**
   * The path with its ASCII capitals lowered. The router is built without the
   * `sensitive` option, so each route's pattern carries the `i` flag (without `u`),
   * under which an ASCII letter matches only itself and its other case.
   */
  function FoldCase(s: string): (r: string)
    ensures |r| == |s|
    ensures forall i :: 0 <= i < |r| ==> !('A' <= r[i] <= 'Z')
    ensures forall i :: 0 <= i < |s| ==> r[i] == s[i] || ('A' <= s[i] <= 'Z' && r[i] as int == s[i] as int + 32)
  {
    seq(|s|, i requires 0 <= i < |s| => LowerAscii(s[i]))
  }

  /**
   * A static route's pattern, built without the `strict` option: the route's path,
   * then an optional "/", matched without regard to ASCII case (the table's paths are
   * already lower-case, so only the path is folded). So "/admin" matches "/admin",
   * "/admin/" and "/ADMIN"; the root's pattern is `^//?$`, so "/" matches "/" and "//"
   * but not "".
   */
  predicate Matches(routePath: string, path: string) {
    var q := FoldCase(path);
    q == routePath || q == routePath + "/"
  }

  /** The normal form a path is compared in: lower-cased, with one trailing "/" dropped (never from "/" itself). */
  function Canonical(path: string): string {
    var q := FoldCase(path);
    if |q| > 1 && q[|q| - 1] == '/' then q[..|q| - 1] else q
  }

  /**
   * The route a path resolves to: the first static route whose pattern matches,
   * otherwise the catch-all. The static patterns never overlap, and the router ranks
   * every static route above the catch-all, so the first match is the one it picks.
   */
  function Resolve(path: string): (r: Route)
    ensures r == NotFoundRoute <==> forall i :: 0 <= i < |Routes| ==> !Matches(Routes[i].path, path)
    ensures r != NotFoundRoute ==> r in Routes && Matches(r.path, path)
  {
    CatchAllNotInTable();
    match FirstRoute(Routes, path)
    case Some(i) => Routes[i]
    case None => NotFoundRoute
  }

  /** The catch-all is none of the table's routes: its path is longer than all of theirs. */
  lemma CatchAllNotInTable()
    ensures forall i :: 0 <= i < |Routes| ==> Routes[i] != NotFoundRoute
  {
    assert |NotFoundRoute.path| == 16;
    assert forall i :: 0 <= i < |Routes| ==> |Routes[i].path| <= 9;
  }

  /** The position of the first route whose pattern matches the path. */
  function FirstRoute(rs: seq<Route>, path: string): (r: Option<nat>)
    ensures r.Some? ==> r.value < |rs| && Matches(rs[r.value].path, path) && forall j :: 0 <= j < r.value ==> !Matches(rs[j].path, path)
    ensures r.None? ==> forall i :: 0 <= i < |rs| ==> !Matches(rs[i].path, path)
  {
    if |rs| == 0 then None
    else if Matches(rs[0].path, path) then Some(0)
    else match FirstRoute(rs[1..], path)
      case None => None
      case Some(i) => Some(i + 1)
  }

  datatype Decision = Proceed | RedirectTo(path: string)

  /**
   * `beforeEach`: `initializeAuth` first; then an unauthenticated store on a route that
   * requires authentication, or a role that differs from the route's role, goes to
   * `/login`; everything else proceeds. Returns the restored store with the decision.
   */
  function Guard(st: Store, storage: Storage, to: Meta): (r: (Store, Decision))
    ensures r.0 == InitializeAuth(st, storage)
    ensures r.1 == Proceed <==> (!to.requiresAuth || r.0.isAuthenticated) && (Truthy(to.role) ==> UserRole(r.0) == to.role)
    ensures r.1 != Proceed ==> r.1 == RedirectTo("/login")
  {
    var s := InitializeAuth(st, storage);
    if to.requiresAuth && !s.isAuthenticated then (s, RedirectTo("/login"))
    else if Truthy(to.role) && UserRole(s) != to.role then (s, RedirectTo("/login"))
    else (s, Proceed)
  }

  /** A route without meta (Home, Login, Register, NotFound) is never redirected. */
  lemma PublicRoutesProceed(st: Store, storage: Storage, path: string)
    requires Resolve(path).meta == NoMeta
    ensures Guard(st, storage, Resolve(path).meta).1 == Proceed
  {
  }

  /**
   * Which paths the table leaves open: everything except the three dashboards, in
   * any ASCII case and with or without one trailing "/".
   */
  lemma OnlyDashboardsGuarded(path: string)
    ensures Resolve(path).meta != NoMeta <==> Canonical(path) in {"/admin", "/doctor", "/patient"}
  {
    ResolveByCanonical(path);
    var c := Canonical(path);
    if c == "/admin" {
      assert c == Routes[3].path;
    } else if c == "/doctor" {
      assert c == Routes[4].path;
    } else if c == "/patient" {
      assert c == Routes[5].path;
    } else if c == "/" {
      assert c == Routes[0].path;
    } else if c == "/login" {
      assert c == Routes[1].path;
    } else if c == "/register" {
      assert c == Routes[2].path;
    }
  }

  /**
   * How a path resolves, in the normal form: a path whose normal form is a route's
   * path reaches that route (so "/" and "//" reach Home); anything else, "" included,
   * reaches NotFound.
   */
  lemma ResolveByCanonical(path: string)
    ensures forall i :: 0 <= i < |Routes| && Canonical(path) == Routes[i].path ==> Resolve(path) == Routes[i]
    ensures (forall i :: 0 <= i < |Routes| ==> Canonical(path) != Routes[i].path) ==> Resolve(path) == NotFoundRoute
  {
    MatchTable(path);
    var f := FirstRoute(Routes, path);
    if f.Some? {
      assert Canonical(path) == Routes[f.value].path;
      forall i | 0 <= i < |Routes| && Canonical(path) == Routes[i].path ensures i == f.value {
        DistinctPaths(i, f.value);
      }
    }
  }

  /** Every route's pattern matches exactly the paths whose normal form is its path. */
  lemma MatchTable(path: string)
    ensures forall i :: 0 <= i < |Routes| ==> (Matches(Routes[i].path, path) <==> Canonical(path) == Routes[i].path)
  {
    forall i | 0 <= i < |Routes| ensures Matches(Routes[i].path, path) <==> Canonical(path) == Routes[i].path {
      MatchRoute(i, path);
    }
  }

  /** One route's pattern matches exactly the paths whose normal form is its path. */
  lemma MatchRoute(i: nat, path: string)
    requires i < |Routes|
    ensures Matches(Routes[i].path, path) <==> Canonical(path) == Routes[i].path
  {
    var p := Routes[i].path;
    assert p == "/" || (|p| > 1 && p[|p| - 1] != '/');
    PatternMatch(p, path);
  }

  /** The table's paths are pairwise distinct. */
  lemma DistinctPaths(i: nat, j: nat)
    requires i < |Routes| && j < |Routes| && Routes[i].path == Routes[j].path
    ensures i == j
  {
  }

  /**
   * A path without a trailing "/", or the root, followed by an optional "/", matches
   * exactly the paths whose normal form it is.
   */
  lemma PatternMatch(p: string, path: string)
    requires p == "/" || (|p| > 1 && p[|p| - 1] != '/')
    ensures (FoldCase(path) == p || FoldCase(path) == p + "/") <==> Canonical(path) == p
  {
    var q := FoldCase(path);
    if q == p + "/" {
      assert q[..|q| - 1] == p;
    }
    if Canonical(path) == p && |q| > 1 && q[|q| - 1] == '/' {
      assert q == p + "/";
    }
  }

  /** A text without ASCII capitals folds to itself. */
  lemma FoldLower(s: string)
    requires forall k :: 0 <= k < |s| ==> !('A' <= s[k] <= 'Z')
    ensures FoldCase(s) == s
  {
  }

  /** "/admin/" reaches the admin dashboard. */
  lemma TrailingSlash()
    ensures Resolve("/admin/") == Routes[3]
  {
    var a := "/admin/";
    FoldLower(a);
    assert Canonical(a) == a[..6] == "/admin";
    ResolveByCanonical(a);
  }

  /** Only one trailing "/" is dropped: "/admin//" reaches NotFound. */
  lemma DoubleSlashNotFound()
    ensures Resolve("/admin//") == NotFoundRoute
  {
    var b := "/admin//";
    FoldLower(b);
    assert Canonical(b) == b[..7] == "/admin/";
    ResolveByCanonical(b);
  }

  /**
   * The root's pattern is `^//?$`: "/" and "//", in any case, reach Home, and the
   * empty path reaches NotFound.
   */
  lemma RootSpellings(path: string)
    ensures FoldCase(path) == "/" || FoldCase(path) == "//" ==> Resolve(path) == Routes[0]
    ensures path == "" ==> Resolve(path) == NotFoundRoute
  {
    ResolveByCanonical(path);
    var q := FoldCase(path);
    if q == "/" || q == "//" {
      assert Canonical(path) == "/" == Routes[0].path;
    } else if path == "" {
      assert Canonical(path) == "";
      assert forall i :: 0 <= i < |Routes| ==> |Routes[i].path| > 0;
    }
  }

  /** "/ADMIN" reaches the admin dashboard. */
  lemma CapitalsFold()
    ensures Resolve("/ADMIN") == Routes[3]
  {
    var a := "/ADMIN";
    var f := FoldCase(a);
    assert f[0] == '/' && f[1] == 'a' && f[2] == 'd' && f[3] == 'm' && f[4] == 'i' && f[5] == 'n';
    assert f == "/admin";
    ResolveByCanonical(a);
  }

  /** A dashboard is shown only to an authenticated store whose user has exactly that dashboard's role. */
  lemma DashboardNeedsRole(st: Store, storage: Storage, path: string)
    requires Resolve(path).meta != NoMeta
    ensures var (s, d) := Guard(st, storage, Resolve(path).meta);
      d == Proceed <==> s.isAuthenticated && UserRole(s) == Resolve(path).meta.role
  {
    var m := Resolve(path).meta;
    MetaOfTable(m);
    assert m.requiresAuth && Truthy(m.role);
  }

  /** Every meta in the table is either empty or requires a signed-in user with a non-empty role. */
  lemma MetaOfTable(m: Meta)
    requires m == NotFoundRoute.meta || exists i :: 0 <= i < |Routes| && Routes[i].meta == m
    ensures m == NoMeta || (m.requiresAuth && Truthy(m.role))
  {
  }

  /** A signed-in doctor passes the doctor dashboard's meta and fails the admin dashboard's. */
  lemma DoctorPassesGuards(st: Store, storage: Storage, token: string)
    requires token != ""
    ensures var (s1, saved) := UserStore.Login(st, storage, token, JsObject(Some("doctor")));
      && Guard(s1, saved, Meta(true, Some("doctor"))).1 == Proceed
      && Guard(s1, saved, Meta(true, Some("admin"))).1 == RedirectTo("/login")
  {
    assert "doctor"[0] != "admin"[0];
  }

  /**
   * After a doctor logs in, the doctor dashboard opens and the admin dashboard sends
   * them to the login page, however either path is spelled.
   */
  lemma DoctorSeesOwnDashboard(st: Store, storage: Storage, token: string, doctorPath: string, adminPath: string)
    requires token != ""
    requires Canonical(doctorPath) == "/doctor" && Canonical(adminPath) == "/admin"
    ensures var (s1, saved) := UserStore.Login(st, storage, token, JsObject(Some("doctor")));
      && Guard(s1, saved, Resolve(doctorPath).meta).1 == Proceed
      && Guard(s1, saved, Resolve(adminPath).meta).1 == RedirectTo("/login")
  {
    ResolveByCanonical(doctorPath);
    assert Routes[4].path == "/doctor";
    ResolveByCanonical(adminPath);
    assert Routes[3].path == "/admin";
    assert Resolve(doctorPath).meta == Meta(true, Some("doctor"));
    assert Resolve(adminPath).meta == Meta(true, Some("admin"));
    DoctorPassesGuards(st, storage, token);
  }
}
