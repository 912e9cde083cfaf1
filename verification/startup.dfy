/**
 The start-up screen: once the authentication state has loaded it redirects
 to the home tab or to the sign-in screen.
 */
module Startup {
  import opened Wrappers
  import opened Auth

  datatype Route = HomeTab | SignInScreen

  /** The router path of each redirect target. */
  function Path(route: Route): (p: string)
    ensures |p| > 0 && p[0] == '/'
  {
    match route
    case HomeTab => "/(tabs)/(home)/"
    case SignInScreen => "/(auth)/sign-in"
  }

  /** The redirect the start-up screen issues; `None` while it keeps showing the
      spinner. */
  function Redirect(isLoading: bool, isAuthenticated: bool): (r: Option<Route>)
    ensures r.None? <==> isLoading
    ensures r == Some(HomeTab) <==> !isLoading && isAuthenticated
    ensures r == Some(SignInScreen) <==> !isLoading && !isAuthenticated
  {
    if isLoading then None
    else if isAuthenticated then Some(HomeTab)
    else Some(SignInScreen)
  }

  /** The redirect for an authentication state. */
  function RedirectFor(s: AuthState): (r: Option<Route>) {
    Redirect(s.isLoading, IsAuthenticated(s))
  }

  /** Once loading is over the two targets are told apart by authentication alone. */
  lemma RedirectDependsOnlyOnAuthentication(a: bool, b: bool)
    ensures Redirect(false, a).Some? && Redirect(false, b).Some?
    ensures Redirect(false, a) == Redirect(false, b) <==> a == b
  {
  }

  /** From launch: no redirect before the session slot is read; afterwards the
      home tab exactly when a session was stored. */
  lemma LaunchRedirect(storage: Storage)
    ensures RedirectFor(Mount(storage)).None?
    ensures RedirectFor(LoadUser(Mount(storage))) ==
              if storage.session.Some? then Some(HomeTab) else Some(SignInScreen)
    ensures Path(RedirectFor(LoadUser(Mount(storage))).value) ==
              if storage.session.Some? then "/(tabs)/(home)/" else "/(auth)/sign-in"
  {
  }

  /** After a successful sign-up, a relaunch lands on the home tab; after a
      sign-out, on the sign-in screen. */
  lemma RelaunchRedirect(s: AuthState, email: string, password: string, username: string,
                         id: string, createdAt: string)
    ensures SignUp(s, email, password, username, id, createdAt).outcome.Success? ==>
              RedirectFor(LoadUser(Mount(SignUp(s, email, password, username, id, createdAt).state.storage)))
              == Some(HomeTab)
    ensures RedirectFor(LoadUser(Mount(SignOut(s).storage))) == Some(SignInScreen)
  {
  }
}
