/** The `authorized` callback of the authentication middleware: whether a
    request for `pathname` may proceed, given whether it carries a session
    token. */
module Middleware {
  import opened Common

  /** The paths every visitor may reach: the authentication API and the two
      sign-in pages, then the home page and the video API. */
  predicate PublicPath(pathname: string)
  {
    || StartsWith(pathname, "/api/auth") || pathname == "/login" || pathname == "/register"
    || pathname == "/" || StartsWith(pathname, "/api/videos")
  }

  function Authorized(pathname: string, hasToken: bool): (r: bool)
    ensures hasToken ==> r
    ensures PublicPath(pathname) ==> r
    ensures !PublicPath(pathname) ==> (r <==> hasToken)
  {
    if StartsWith(pathname, "/api/auth") || pathname == "/login" || pathname == "/register" then true
    else if pathname == "/" || StartsWith(pathname, "/api/videos") then true
    else hasToken
  }

  // ------------------------------------------------------------- properties

  /** The public checks compare prefixes, so any extension of "/api/auth" or
      "/api/videos" is public too, "/api/authX" and "/api/videosX" included. */
  lemma {:induction false} PrefixesArePublic(suffix: string)
    ensures Authorized("/api/auth" + suffix, false)
    ensures Authorized("/api/videos" + suffix, false)
  {
    assert ("/api/auth" + suffix)[..|"/api/auth"|] == "/api/auth";
    assert ("/api/videos" + suffix)[..|"/api/videos"|] == "/api/videos";
  }

  /** The sign-in pages match exactly: a path below them needs a token. */
  lemma {:induction false} SignInPagesAreExact(suffix: string)
    requires suffix != ""
    ensures !Authorized("/login/" + suffix, false)
    ensures !Authorized("/register/" + suffix, false)
    ensures Authorized("/login", false) && Authorized("/register", false)
  {
    var l := "/login/" + suffix;
    var g := "/register/" + suffix;
    assert l[1] == 'l' && g[1] == 'r';
    assert |l| > 1 && |g| > 1;
  }

  /** A path outside the public ones is reachable exactly with a token. */
  lemma PrivateNeedsToken(pathname: string)
    requires !PublicPath(pathname)
    ensures Authorized(pathname, true) && !Authorized(pathname, false)
  {
  }
}
