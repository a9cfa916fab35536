/** The servlet and Spring Security values the controllers and filters read
    and write: request cookies, the `Authorization` header, response cookies
    and the request-scoped security context. */
module Http {
  import opened Wrappers
  import opened Text
  import opened Identity

  datatype Cookie = Cookie(name: string, value: string)

  const AccessTokenCookie: string := "accessToken"
  const RefreshTokenCookie: string := "refreshToken"
  const BearerPrefix: string := "Bearer "

  /** The value of the first cookie with that name: the loops over
      `request.getCookies()` that `break` on the first match. */
  function CookieValue(cookies: seq<Cookie>, name: string): (r: Option<string>)
    ensures r.None? <==> forall i :: 0 <= i < |cookies| ==> cookies[i].name != name
    ensures r.Some? ==> exists i :: 0 <= i < |cookies| && cookies[i].name == name && cookies[i].value == r.value
                                    && forall j :: 0 <= j < i ==> cookies[j].name != name
  {
    if |cookies| == 0 then None
    else if cookies[0].name == name then Some(cookies[0].value)
    else
      var r := CookieValue(cookies[1..], name);
      assert r.Some? ==> exists i :: 0 <= i < |cookies| && cookies[i].name == name && cookies[i].value == r.value
                                     && forall j :: 0 <= j < i ==> cookies[j].name != name by {
        if r.Some? {
          var i :| 0 <= i < |cookies[1..]| && cookies[1..][i].name == name && cookies[1..][i].value == r.value
                   && forall j :: 0 <= j < i ==> cookies[1..][j].name != name;
          assert cookies[i + 1].name == name && cookies[i + 1].value == r.value;
          assert forall j :: 0 <= j < i + 1 ==> cookies[j].name != name by {
            forall j | 0 <= j < i + 1 ensures cookies[j].name != name {
              if j > 0 { assert cookies[j] == cookies[1..][j - 1]; }
            }
          }
        }
      }
      r
  }

  /** `header.startsWith("Bearer ") ? header.substring(7) : null`. */
  function BearerToken(header: Option<string>): (r: Option<string>)
    ensures r.Some? <==> header.Some? && StartsWith(header.value, BearerPrefix)
    ensures r.Some? ==> header.value == BearerPrefix + r.value
  {
    if header.Some? && StartsWith(header.value, BearerPrefix) then
      var t := header.value[|BearerPrefix|..];
      assert header.value == header.value[..|BearerPrefix|] + t;
      Some(t)
    else None
  }

  lemma BearerTokenOfHeader(token: string)
    ensures BearerToken(Some(BearerPrefix + token)) == Some(token)
  {
    StartsWithConcat(BearerPrefix, token);
  }

  /** A `Set-Cookie` directive as `ResponseCookie` builds it. */
  datatype ResponseCookie = ResponseCookie(
    name: string, value: string, maxAgeSeconds: int,
    httpOnly: bool, secure: bool, sameSite: string, path: string)

  /** The HTTP-only, SameSite=Lax, path-`/` cookie every auth response sets. */
  function AuthCookie(name: string, value: string, maxAgeSeconds: int, secure: bool): ResponseCookie {
    ResponseCookie(name, value, maxAgeSeconds, true, secure, "Lax", "/")
  }

  /** An authenticated principal with its authorities, or the anonymous token
      Spring installs for requests nobody authenticated. */
  datatype Authentication = UserAuthentication(principal: UserDetails) | AnonymousAuthentication {
    function Authorities(): seq<string> {
      if UserAuthentication? then principal.authorities else []
    }
  }

  /** `SecurityContextHolder`'s context for the current request or frame. */
  datatype SecurityContext = SecurityContext(authentication: Option<Authentication>)

  const EmptyContext: SecurityContext := SecurityContext(None)
}
