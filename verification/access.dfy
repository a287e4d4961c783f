/**
 * The login form (src/components/Login.tsx): one hard-coded credential pair,
 * checked on submit, with an error message shown on a mismatch.
 */
module Login {
  import opened Wrappers

  const ValidUsername := "admin"
  const ValidPassword := "admin123"
  const WrongCredentials := "Username atau password salah"

  /** What a submit produces: the new error text, and the user passed to `onLogin` if it is called. */
  datatype SubmitResult = SubmitResult(error: string, loggedIn: Option<string>)

  /** `handleSubmit`. */
  function Submit(username: string, password: string): (r: SubmitResult)
    ensures r.loggedIn.Some? <==> username == ValidUsername && password == ValidPassword
    ensures r.loggedIn.Some? ==> r.loggedIn.value == username && r.error == ""
    ensures r.loggedIn.None? ==> r.error == WrongCredentials
  {
    if username == ValidUsername && password == ValidPassword then SubmitResult("", Some(username))
    else SubmitResult(WrongCredentials, None)
  }
}

/**
 * The page shell (src/pages/Index.tsx): the logged-in user, set by the login
 * form and cleared by logout, and the choice between the login form and the
 * dashboard.
 */
module IndexPage {
  import opened Wrappers
  import Login

  datatype View = LoginView | DashboardView(username: string)

  /** No one is logged in at first. */
  const InitialUser: Option<string> := None

  function HandleLogin(user: Option<string>, username: string): (r: Option<string>)
    ensures r == Some(username)
    ensures username != "" ==> ViewOf(r) == DashboardView(username)
  {
    Some(username)
  }

  function HandleLogout(user: Option<string>): (r: Option<string>)
    ensures r.None?
    ensures ViewOf(r) == LoginView
  {
    None
  }

  /** `if (!user) <Login/> else <Dashboard username={user}/>`: an empty name is falsy too. */
  function ViewOf(user: Option<string>): (v: View)
    ensures v.LoginView? <==> user.None? || user.value == ""
    ensures v.DashboardView? ==> v.username == user.value
  {
    if user.None? || user.value == "" then LoginView else DashboardView(user.value)
  }

  /** The shell after a submit of the login form. */
  function AfterSubmit(user: Option<string>, username: string, password: string): Option<string> {
    var r := Login.Submit(username, password);
    if r.loggedIn.Some? then HandleLogin(user, r.loggedIn.value) else user
  }

  /**
   * From the start, the dashboard is shown after a submit exactly when the
   * credentials are right, and it is shown for "admin"; logging out returns
   * to the login form.
   */
  lemma LoginLogoutCycle(username: string, password: string)
    ensures var u := AfterSubmit(InitialUser, username, password);
            && (ViewOf(u).DashboardView? <==> username == Login.ValidUsername && password == Login.ValidPassword)
            && (ViewOf(u).DashboardView? ==> ViewOf(u).username == Login.ValidUsername)
            && ViewOf(HandleLogout(u)) == LoginView
  {
  }

  lemma InitialShowsLogin()
    ensures ViewOf(InitialUser) == LoginView
  {
  }
}
