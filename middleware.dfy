/** The route gate that runs before every page (src/middleware.ts): signed-in
    users are sent away from the sign-in pages, anonymous users away from the
    protected pages. */
module Middleware {

  datatype Outcome = Redirect(location: string) | Next

  const ProtectedPrefixes: seq<string> := ["/dashboard", "/sandbox"]
  const PublicRootPaths: seq<string> := ["/", "/login", "/signup"]
  const AuthPaths: seq<string> := ["/login", "/signup"]

  /** `s.startsWith(prefix)`. */
  predicate StartsWith(s: string, prefix: string) {
    prefix <= s
  }

  /** `protectedPrefixes.some((prefix) => pathname.startsWith(prefix))`. */
  predicate IsProtectedPrefix(pathname: string) {
    exists i :: 0 <= i < |ProtectedPrefixes| && StartsWith(pathname, ProtectedPrefixes[i])
  }

  /** `/^\/[^\/]+$/.test(pathname)`: a slash followed by one or more
      characters none of which is a slash. */
  predicate IsOneSegment(pathname: string) {
    |pathname| >= 2 && pathname[0] == '/' && forall i :: 1 <= i < |pathname| ==> pathname[i] != '/'
  }

  /** A root-level dynamic route such as `/[spaceId]` that is not a known
      public root path nor under `/spaces/`. */
  predicate IsRootDynamicProtected(pathname: string) {
    IsOneSegment(pathname) && pathname !in PublicRootPaths && !StartsWith(pathname, "/spaces/")
  }

  predicate IsProtectedRoute(pathname: string) {
    IsProtectedPrefix(pathname) || IsRootDynamicProtected(pathname)
  }

  /** `middleware`: a signed-in user on an auth page goes to the dashboard;
      an anonymous user on a protected route goes to the login page;
      everything else passes. */
  function Decide(hasSession: bool, pathname: string): (r: Outcome)
    ensures r == Next || r == Redirect("/dashboard") || r == Redirect("/login")
    ensures r == Redirect("/dashboard") ==> hasSession
    ensures r == Redirect("/login") ==> !hasSession
  {
    if hasSession && pathname in AuthPaths then Redirect("/dashboard")
    else if !hasSession && IsProtectedRoute(pathname) then Redirect("/login")
    else Next
  }

  /** With a session exactly "/login" and "/signup" are redirected, to the
      dashboard; every other path passes. */
  lemma SignedInRedirectsOnlyAuthPages(pathname: string)
    ensures Decide(true, pathname) == Redirect("/dashboard") <==> pathname == "/login" || pathname == "/signup"
    ensures Decide(true, pathname) != Redirect("/dashboard") ==> Decide(true, pathname) == Next
  {
  }

  /** Without a session everything under "/dashboard" or "/sandbox" goes to
      the login page. */
  lemma ProtectedPrefixRedirects(pathname: string)
    requires StartsWith(pathname, "/dashboard") || StartsWith(pathname, "/sandbox")
    ensures Decide(false, pathname) == Redirect("/login")
  {
    if StartsWith(pathname, "/dashboard") {
      assert StartsWith(pathname, ProtectedPrefixes[0]);
    } else {
      assert StartsWith(pathname, ProtectedPrefixes[1]);
    }
  }

  /** The prefix test is exactly "starts with /dashboard or /sandbox". */
  lemma ProtectedPrefixIsEither(pathname: string)
    ensures IsProtectedPrefix(pathname) <==> StartsWith(pathname, "/dashboard") || StartsWith(pathname, "/sandbox")
  {
    if StartsWith(pathname, "/dashboard") {
      assert StartsWith(pathname, ProtectedPrefixes[0]);
    }
    if StartsWith(pathname, "/sandbox") {
      assert StartsWith(pathname, ProtectedPrefixes[1]);
    }
  }

  /** A path of one segment can never start with "/spaces/", so that
      exclusion never changes the outcome. */
  lemma OneSegmentIsNeverUnderSpaces(pathname: string)
    requires IsOneSegment(pathname)
    ensures !StartsWith(pathname, "/spaces/")
  {
    if |pathname| > 7 {
      assert pathname[7] != "/spaces/"[7];
    }
  }

  /** Without a session a one-segment path other than "/", "/login" and
      "/signup" goes to the login page. */
  lemma OneSegmentRedirects(pathname: string)
    requires IsOneSegment(pathname) && pathname != "/login" && pathname != "/signup"
    ensures Decide(false, pathname) == Redirect("/login")
  {
    OneSegmentIsNeverUnderSpaces(pathname);
  }

  /** "/login" and "/signup" pass for anonymous users. */
  lemma AuthPagesPassWithoutSession()
    ensures Decide(false, "/login") == Next && Decide(false, "/signup") == Next
  {
    ProtectedPrefixIsEither("/login");
    ProtectedPrefixIsEither("/signup");
  }

  /** Without a session, a path goes to the login page exactly when it is
      under a protected prefix or is a one-segment path that is not public. */
  lemma AnonymousRedirectIff(pathname: string)
    ensures Decide(false, pathname) == Redirect("/login") <==>
      StartsWith(pathname, "/dashboard") || StartsWith(pathname, "/sandbox")
      || (IsOneSegment(pathname) && pathname !in PublicRootPaths)
  {
    ProtectedPrefixIsEither(pathname);
    if IsOneSegment(pathname) {
      OneSegmentIsNeverUnderSpaces(pathname);
    }
  }

  /** A path with a slash after its first character that is not under a
      protected prefix is never redirected, signed in or not. */
  lemma MultiSegmentPasses(hasSession: bool, pathname: string, j: nat)
    requires 1 <= j < |pathname| && pathname[j] == '/'
    requires !StartsWith(pathname, "/dashboard") && !StartsWith(pathname, "/sandbox")
    ensures Decide(hasSession, pathname) == Next
  {
    ProtectedPrefixIsEither(pathname);
  }

  /** The collector page of any space is reachable by everyone. */
  lemma CollectorPagePasses(hasSession: bool, spaceId: string)
    ensures Decide(hasSession, "/spaces/" + spaceId + "/collector") == Next
  {
    var p := "/spaces/" + spaceId + "/collector";
    assert p[7] == '/';
    assert !StartsWith(p, "/dashboard") by { assert p[1] == 's'; }
    assert !StartsWith(p, "/sandbox") by { assert p[2] == 'p'; }
    MultiSegmentPasses(hasSession, p, 7);
  }
}
