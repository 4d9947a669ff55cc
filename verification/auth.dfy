/** lib/auth.ts: the admin checks, a shared token presented as a bearer
    token (section 2.1 of RFC 6750), an `x-admin-token` header or the
    session cookie. */
module Auth {
  import opened Wrappers
  import opened Text
  import opened Http
  import opened Foreign
  import opened Env

  const AdminCookieName := "sc_admin_session"

  /** `timingSafeMatch`: equal UTF-8 bytes; buffers of different lengths
      never match. The comparison's constant time is not modelled. */
  function TimingSafeMatch(expected: string, candidate: string, x: Externals): (r: bool)
    ensures r <==> x.utf8(expected) == x.utf8(candidate)
    ensures |x.utf8(expected)| != |x.utf8(candidate)| ==> !r
  {
    var a := x.utf8(expected);
    var b := x.utf8(candidate);
    if |a| != |b| then false else a == b
  }

  /** An encoding that tells strings apart: then matching is string
      equality. */
  lemma MatchIsEquality(expected: string, candidate: string, x: Externals)
    requires forall s, t :: x.utf8(s) == x.utf8(t) ==> s == t
    ensures TimingSafeMatch(expected, candidate, x) <==> expected == candidate
  {
  }

  /** `isValidAdminToken`: an absent or empty candidate is rejected before
      the configuration is read; otherwise the configured token is required
      (its absence is the exception of `requireEnv`) and must match. */
  function IsValidAdminToken(candidate: Option<string>, env: AppEnv, x: Externals): (r: Result<bool, string>)
    ensures !Truthy(candidate) ==> r == Success(false)
    ensures Truthy(candidate) && !Truthy(env.adminToken) ==> r == Failure("Missing required environment variable: " + "ADMIN_TOKEN")
    ensures Truthy(candidate) && Truthy(env.adminToken) ==>
              r == Success(x.utf8(env.adminToken.value) == x.utf8(candidate.value))
  {
    if !Truthy(candidate) then Success(false)
    else
      match RequireSetting("ADMIN_TOKEN", env.adminToken)
      case Failure(e) => Failure(e)
      case Success(token) => Success(TimingSafeMatch(token, candidate.value, x))
  }

  /** `getBearerToken`: the first two space-separated parts of the
      `authorization` header, both non-empty, the first `bearer` in any
      letter case; the second part trimmed. Parts after the second are
      ignored. */
  function BearerToken(h: Headers): (r: Option<string>)
    ensures !Truthy(Header(h, "authorization")) ==> r.None?
    ensures r.Some? ==>
              var parts := Split(h["authorization"], ' ');
              && |parts| >= 2 && parts[0] != "" && parts[1] != ""
              && Lower(parts[0]) == "bearer" && r.value == Trim(parts[1])
    ensures Truthy(Header(h, "authorization")) && r.None? ==>
              var parts := Split(h["authorization"], ' ');
              |parts| < 2 || parts[0] == "" || parts[1] == "" || Lower(parts[0]) != "bearer"
  {
    var authorization := Header(h, "authorization");
    if !Truthy(authorization) then None
    else
      var parts := Split(authorization.value, ' ');
      if parts[0] == "" || |parts| < 2 || parts[1] == "" then None
      else if Lower(parts[0]) != "bearer" then None
      else Some(Trim(parts[1]))
  }

  /** `Authorization: <scheme> <token>` with a bearer scheme in any letter
      case and a space-free token gives the token back. */
  lemma BearerTokenOfHeader(h: Headers, scheme: string, token: string)
    requires Lower(scheme) == "bearer"
    requires token != "" && ' ' !in token && Trim(token) == token
    requires Header(h, "authorization") == Some(scheme + " " + token)
    ensures BearerToken(h) == Some(token)
  {
    assert ' ' !in scheme by {
      forall i | 0 <= i < |scheme| ensures scheme[i] != ' ' {
        assert Lower(scheme)[i] == LowerChar(scheme[i]);
      }
    }
    SplitAtSeparator(scheme, ' ', token);
    SplitNoSeparator(token, ' ');
    assert scheme + " " + token == scheme + [' '] + token;
  }

  /** `assertAdmin`: the bearer token, then the `x-admin-token` header, then
      the session cookie, stopping at the first valid one. A failure is the
      exception of the first candidate that needs the missing configured
      token. */
  function AssertAdmin(h: Headers, sessionCookie: Option<string>, env: AppEnv, x: Externals): (r: Result<bool, string>)
    ensures IsValidAdminToken(BearerToken(h), env, x) == Success(true) ==> r == Success(true)
    ensures r == Success(true) ==> Truthy(env.adminToken)
    ensures !Truthy(BearerToken(h)) && !Truthy(Header(h, "x-admin-token")) && !Truthy(sessionCookie) ==> r == Success(false)
  {
    var bearer :- IsValidAdminToken(BearerToken(h), env, x);
    if bearer then Success(true)
    else
      var header :- IsValidAdminToken(Header(h, "x-admin-token"), env, x);
      if header then Success(true)
      else IsValidAdminToken(sessionCookie, env, x)
  }

  /** With a configured token, an administrator is one whose bearer token,
      `x-admin-token` header or session cookie matches it. */
  lemma AdminIffSomeCandidateMatches(h: Headers, sessionCookie: Option<string>, env: AppEnv, x: Externals)
    requires Truthy(env.adminToken)
    ensures var matches := (c: Option<string>) => Truthy(c) && x.utf8(env.adminToken.value) == x.utf8(c.value);
      AssertAdmin(h, sessionCookie, env, x)
        == Success(matches(BearerToken(h)) || matches(Header(h, "x-admin-token")) || matches(sessionCookie))
  {
  }

  /** Without a configured token no request is an administrator: the check
      fails exactly when some candidate is present. */
  lemma NoTokenConfigured(h: Headers, sessionCookie: Option<string>, env: AppEnv, x: Externals)
    requires !Truthy(env.adminToken)
    ensures AssertAdmin(h, sessionCookie, env, x).Failure? <==>
              Truthy(BearerToken(h)) || Truthy(Header(h, "x-admin-token")) || Truthy(sessionCookie)
    ensures AssertAdmin(h, sessionCookie, env, x) != Success(true)
  {
  }
}
