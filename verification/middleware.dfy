/** `src/middleware.ts`: the gate in front of every page, which lets a request
    through or sends it to the login page depending on its path and its
    `auth-token` cookie. */
module Middleware {
  import opened Wrappers
  import opened Text

  const AuthCookieName := "auth-token"
  const AuthenticatedValue := "authenticated"
  const LoginPath := "/login"

  /** The parts of an incoming request the gate can see. */
  datatype Request = Request(pathname: string, url: string, cookies: map<string, string>)

  /** Pass the request on, or redirect it. */
  datatype Response = Next | Redirect(location: string)

  /** The login page, framework internals, API routes, static files and any path
      with a dot in it (a file with an extension) are never gated. */
  predicate Bypassed(pathname: string) {
    || StartsWith(pathname, "/login")
    || StartsWith(pathname, "/_next/")
    || StartsWith(pathname, "/api/")
    || StartsWith(pathname, "/static/")
    || '.' in pathname
  }

  /** The value of the `auth-token` cookie, if the request carries one. */
  function AuthToken(request: Request): Option<string> {
    if AuthCookieName in request.cookies then Some(request.cookies[AuthCookieName]) else None
  }

  /** `middleware(request)`. */
  function Handle(request: Request): (r: Response)
    ensures Bypassed(request.pathname) ==> r == Next
    ensures !Bypassed(request.pathname) ==> (r == Next <==> AuthToken(request) == Some(AuthenticatedValue))
    ensures r.Redirect? ==> r.location == LoginPath
  {
    if Bypassed(request.pathname) then Next
    else if AuthToken(request).None? || AuthToken(request).value != AuthenticatedValue then Redirect(LoginPath)
    else Next
  }

  /** The decision depends on nothing but the path and the `auth-token` cookie:
      the rest of the URL and every other cookie are irrelevant. */
  lemma HandleDependsOnPathAndToken(a: Request, b: Request)
    requires a.pathname == b.pathname
    requires AuthToken(a) == AuthToken(b)
    ensures Handle(a) == Handle(b)
  {
  }

  /** The login page itself is always reachable, so the redirect cannot loop. */
  lemma LoginPageReachable(request: Request)
    requires StartsWith(request.pathname, LoginPath)
    ensures Handle(request) == Next
  {
  }
}
