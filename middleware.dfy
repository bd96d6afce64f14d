/** The access decision of the dashboard's request middleware: which
    requests go through and which are sent to the login page. */
module Middleware {

  /** The middleware's answer: let the request through, or redirect it. */
  datatype Response = Next | Redirect(location: string)

  /** The cookie that marks a signed-in administrator, and its one accepted value. */
  const AuthCookie := "admin_auth"
  const Authenticated := "authenticated"

  /** Where unauthenticated requests are sent. */
  const LoginPath := "/login"

  /** The paths that are reachable without signing in: the login page and
      the login endpoint. */
  predicate IsPublicPath(pathname: string) {
    pathname == LoginPath || pathname == "/api/auth/login"
  }

  /** `middleware`, as a function of the request's path and its cookies
      (name to value). */
  function Decide(pathname: string, cookies: map<string, string>): (r: Response)
    ensures r == Next || r == Redirect(LoginPath)
    ensures IsPublicPath(pathname) ==> r == Next
    ensures !IsPublicPath(pathname) ==>
      (r == Next <==> AuthCookie in cookies && cookies[AuthCookie] == Authenticated)
  {
    if IsPublicPath(pathname) then Next
    else if AuthCookie !in cookies || cookies[AuthCookie] != Authenticated then Redirect(LoginPath)
    else Next
  }

  /** The decision reads no cookie but the auth cookie: two cookie jars that
      agree on it get the same answer for every path. */
  lemma OnlyAuthCookieMatters(pathname: string, jar1: map<string, string>, jar2: map<string, string>)
    requires AuthCookie in jar1 <==> AuthCookie in jar2
    requires AuthCookie in jar1 ==> jar1[AuthCookie] == jar2[AuthCookie]
    ensures Decide(pathname, jar1) == Decide(pathname, jar2)
  {
  }

  /** A request that gets through is for a public path or carries the
      authenticated cookie. This is one direction of `Decide`'s contract,
      kept as a stand-alone statement of the access rule. */
  lemma AdmittedMeansAuthorised(pathname: string, cookies: map<string, string>)
    requires Decide(pathname, cookies) == Next
    ensures IsPublicPath(pathname) || (AuthCookie in cookies && cookies[AuthCookie] == Authenticated)
  {
  }
}
