/** `src/app/login/actions.ts`: the server actions that set and delete the
    `auth-token` cookie the gate checks. */
module LoginActions {
  import opened Wrappers
  import Middleware

  /** The cookie's value and lifetime in seconds. */
  datatype Cookie = Cookie(value: string, maxAge: int)

  type CookieJar = map<string, Cookie>

  /** One week, in seconds. */
  const SessionMaxAge := 60 * 60 * 24 * 7

  const ConfigurationError := "Server configuration error. Please contact support."
  const InvalidPassword := "Invalid password."

  datatype LoginResult = LoginSucceeded | LoginFailed(error: string)

  datatype LoginOutcome = LoginOutcome(result: LoginResult, jar: CookieJar)

  /** `login(password)`, with the configured `APP_PASSWORD` as `configured`
      (`None` when it is not set). */
  function Login(configured: Option<string>, password: string, jar: CookieJar): (r: LoginOutcome)
    ensures configured.None? || configured.value == "" ==>
      r == LoginOutcome(LoginFailed(ConfigurationError), jar)
    ensures configured.Some? && configured.value != "" && password == configured.value ==>
      && r.result == LoginSucceeded
      && r.jar == jar[Middleware.AuthCookieName := Cookie(Middleware.AuthenticatedValue, SessionMaxAge)]
    ensures configured.Some? && configured.value != "" && password != configured.value ==>
      r == LoginOutcome(LoginFailed(InvalidPassword), jar)
  {
    if configured.None? || configured.value == "" then
      LoginOutcome(LoginFailed(ConfigurationError), jar)
    else if password == configured.value then
      LoginOutcome(LoginSucceeded, jar[Middleware.AuthCookieName := Cookie(Middleware.AuthenticatedValue, SessionMaxAge)])
    else
      LoginOutcome(LoginFailed(InvalidPassword), jar)
  }

  datatype LogoutOutcome = LogoutOutcome(jar: CookieJar, redirect: string)

  /** `logout()`: delete the cookie and go to the login page. */
  function Logout(jar: CookieJar): (r: LogoutOutcome)
    ensures Middleware.AuthCookieName !in r.jar
    ensures forall k :: k in jar && k != Middleware.AuthCookieName ==> k in r.jar && r.jar[k] == jar[k]
    ensures r.jar.Keys <= jar.Keys
    ensures r.redirect == Middleware.LoginPath
  {
    LogoutOutcome(jar - {Middleware.AuthCookieName}, Middleware.LoginPath)
  }

  /** The cookies the browser sends back: name and value only. */
  function Sent(jar: CookieJar): map<string, string> {
    map k | k in jar :: jar[k].value
  }

  /** A successful login opens every page to the next request. */
  lemma LoginOpensGate(configured: Option<string>, password: string, jar: CookieJar, pathname: string, url: string)
    requires Login(configured, password, jar).result == LoginSucceeded
    ensures Middleware.Handle(Middleware.Request(pathname, url, Sent(Login(configured, password, jar).jar))) == Middleware.Next
  {
  }

  /** A failed login changes no cookie, so the gate decides exactly as before. */
  lemma FailedLoginKeepsGate(configured: Option<string>, password: string, jar: CookieJar, pathname: string, url: string)
    requires Login(configured, password, jar).result.LoginFailed?
    ensures var before := Middleware.Request(pathname, url, Sent(jar));
      var after := Middleware.Request(pathname, url, Sent(Login(configured, password, jar).jar));
      Middleware.Handle(after) == Middleware.Handle(before)
  {
  }

  /** After logout every gated page redirects to the login page. */
  lemma LogoutClosesGate(jar: CookieJar, pathname: string, url: string)
    requires !Middleware.Bypassed(pathname)
    ensures Middleware.Handle(Middleware.Request(pathname, url, Sent(Logout(jar).jar))) == Middleware.Redirect(Middleware.LoginPath)
  {
  }
}
