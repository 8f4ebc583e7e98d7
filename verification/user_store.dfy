/**
 * The Pinia auth store (frontend/src/store/user.js) and the two browser `localStorage`
 * keys it mirrors. JavaScript truthiness is explicit: a string is truthy when it is
 * non-empty, and a `user` object is modelled by the one field the app reads, its role.
 */
module UserStore {
  import opened Wrappers

  /** A parsed `user` value: JSON `null`, or an object whose `role` may be missing. */
  datatype JsUser = JsNull | JsObject(role: Option<string>)

  /** The two keys: `None` is a key `getItem` does not find. `user` holds the object `JSON.stringify` wrote. */
  datatype Storage = Storage(token: Option<string>, user: Option<JsUser>)

  datatype Store = Store(user: JsUser, token: Option<string>, isAuthenticated: bool)

  predicate Truthy(s: Option<string>) {
    s.Some? && s.value != ""
  }

  /**
   * The initial state: the stored token when it is truthy, no user, not authenticated.
   * `getItem('token') || null` turns a stored empty string into null.
   */
  function InitialStore(storage: Storage): (st: Store)
    ensures !st.isAuthenticated && st.user == JsNull
    ensures st.token.Some? <==> Truthy(storage.token)
    ensures st.token.Some? ==> st.token == storage.token
  {
    Store(JsNull, if Truthy(storage.token) then storage.token else None, false)
  }

  /** The `userRole` getter: `user?.role || null`. */
  function UserRole(st: Store): (r: Option<string>)
    ensures r.Some? <==> st.user.JsObject? && Truthy(st.user.role)
    ensures r.Some? ==> r == st.user.role
  {
    match st.user
    case JsNull => None
    case JsObject(role) => if Truthy(role) then role else None
  }

  /** The `login` action: both fields set, authenticated, and both keys written. */
  function Login(st: Store, storage: Storage, token: string, user: JsUser): (r: (Store, Storage))
    ensures r.0 == Store(user, Some(token), true)
    ensures r.1 == Storage(Some(token), Some(user))
  {
    (Store(user, Some(token), true), Storage(Some(token), Some(user)))
  }

  /** The `logout` action: all three fields cleared and both keys removed. */
  function Logout(st: Store, storage: Storage): (r: (Store, Storage))
    ensures r.0 == Store(JsNull, None, false)
    ensures r.1 == Storage(None, None)
    ensures UserRole(r.0).None?
  {
    (Store(JsNull, None, false), Storage(None, None))
  }

  /**
   * The `initializeAuth` action: when both keys hold something truthy, the store takes
   * them over and becomes authenticated; otherwise nothing changes. It never clears
   * the authenticated flag. A stored `user` is `JSON.stringify` output, never empty,
   * so its mere presence is truthy.
   */
  function InitializeAuth(st: Store, storage: Storage): (r: Store)
    ensures Truthy(storage.token) && storage.user.Some? ==> r == Store(storage.user.value, storage.token, true)
    ensures !(Truthy(storage.token) && storage.user.Some?) ==> r == st
    ensures st.isAuthenticated ==> r.isAuthenticated
  {
    if Truthy(storage.token) && storage.user.Some? then Store(storage.user.value, storage.token, true) else st
  }

  /** Restoring twice is restoring once. */
  lemma InitializeAuthIdempotent(st: Store, storage: Storage)
    ensures InitializeAuth(InitializeAuth(st, storage), storage) == InitializeAuth(st, storage)
  {
  }

  /** A page reload after a login with a non-empty token restores the same user and role. */
  lemma LoginSurvivesReload(st: Store, storage: Storage, token: string, user: JsUser)
    requires token != ""
    ensures var saved := Login(st, storage, token, user).1;
      var restored := InitializeAuth(InitialStore(saved), saved);
      && restored == Login(st, storage, token, user).0
      && UserRole(restored) == UserRole(Login(st, storage, token, user).0)
  {
  }

  /** After logout, neither restoring in the same page nor a reload authenticates anyone. */
  lemma LogoutStays(st: Store, storage: Storage)
    ensures var (s1, saved) := Logout(st, storage);
      && !InitializeAuth(s1, saved).isAuthenticated
      && !InitializeAuth(InitialStore(saved), saved).isAuthenticated
  {
  }

  /** A login with an empty token authenticates the page, but a reload does not keep it. */
  lemma EmptyTokenLostOnReload(st: Store, storage: Storage, user: JsUser)
    ensures Login(st, storage, "", user).0.isAuthenticated
    ensures var saved := Login(st, storage, "", user).1; !InitializeAuth(InitialStore(saved), saved).isAuthenticated
  {
  }
}
