/** `JwtAuthenticationFilter`: authenticates each HTTP request from its
    access token. Every failure is soft: the chain always continues, at most
    with the security context cleared. */
module RequestFilter {
  import opened Wrappers
  import opened Text
  import opened Domain
  import opened Identity
  import opened Jwt
  import opened TokenStore
  import opened Http
  import Session

  datatype FilterRequest = FilterRequest(authorization: Option<string>, cookies: seq<Cookie>)

  /** The context after the filter, and how many times it passed the request
      down the chain. */
  datatype FilterOutcome = FilterOutcome(context: SecurityContext, chainCalls: int)

  /** The `accessToken` cookie when there is one, even alongside a header;
      otherwise the bearer header's suffix. Query and form parameters are
      never consulted. */
  function Candidate(req: FilterRequest): (r: Option<string>)
    ensures CookieValue(req.cookies, AccessTokenCookie).Some? ==> r == CookieValue(req.cookies, AccessTokenCookie)
    ensures CookieValue(req.cookies, AccessTokenCookie).None? ==> r == BearerToken(req.authorization)
  {
    match CookieValue(req.cookies, AccessTokenCookie)
    case Some(v) => Some(v)
    case None => BearerToken(req.authorization)
  }

  /** `doFilterInternal` on context `ctx`. `online` says whether the
      blacklist lookup answers; a lookup that throws counts as a hit.
      `chainThrows` says whether the rest of the chain throws on this
      request. Its exception leaves the filter after the last call, but the
      call made for a blacklisted token sits inside the handler around the
      lookup, which catches it and passes the request down a second time. */
  function Filter(cfg: Config, members: seq<MemberRecord>, store: Redis, online: bool,
                  ctx: SecurityContext, req: FilterRequest, now: int, chainThrows: bool): (o: FilterOutcome)
    ensures o.chainCalls == 2 <==> chainThrows && Candidate(req).Some? && online && IsBlacklisted(store, Candidate(req).value)
    ensures o.chainCalls == 1 || o.chainCalls == 2
    ensures Candidate(req).None? ==> o.context == ctx
    ensures Candidate(req).Some? && (!online || IsBlacklisted(store, Candidate(req).value)) ==> o.context == EmptyContext
    ensures (Candidate(req).Some? && ExtractUsername(cfg, Candidate(req).value, now).Err?
             && online && !IsBlacklisted(store, Candidate(req).value)) ==> o.context == ctx
    // an authentication already in place is kept or cleared, never replaced
    ensures ctx.authentication.Some? ==> o.context == ctx || o.context == EmptyContext
    ensures o.context != ctx ==> o.context == EmptyContext || o.context.authentication.value.UserAuthentication?
    // a new principal is installed only for a live, signed, unrevoked token naming a known user
    ensures o.context != ctx && o.context.authentication.Some? ==>
      && Candidate(req).Some?
      && var token := Candidate(req).value;
      && online && !IsBlacklisted(store, token)
      && ParseClaims(cfg, token, now).Ok?
      && var username := ParseClaims(cfg, token, now).value.subject;
      && LoadUserByUsername(members, username).Ok?
      && o.context.authentication == Some(UserAuthentication(LoadUserByUsername(members, username).value))
    // and it always is installed for one, on an empty context
    ensures (Candidate(req).Some? && online && !IsBlacklisted(store, Candidate(req).value)
             && ctx.authentication.None? && ParseClaims(cfg, Candidate(req).value, now).Ok?
             && LoadUserByUsername(members, ParseClaims(cfg, Candidate(req).value, now).value.subject).Ok?)
            ==> o.context.authentication.Some?
  {
    match Candidate(req)
    case None => FilterOutcome(ctx, 1)
    case Some(token) =>
      if !online then FilterOutcome(EmptyContext, 1)
      else if IsBlacklisted(store, token) then FilterOutcome(EmptyContext, if chainThrows then 2 else 1)
      else match ExtractUsername(cfg, token, now)
        case Err(_) => FilterOutcome(ctx, 1)
        case Ok(username) =>
          if ctx.authentication.Some? then FilterOutcome(ctx, 1)
          else match LoadUserByUsername(members, username)
            case Err(_) => FilterOutcome(EmptyContext, 1)
            case Ok(user) =>
              match ValidateToken(cfg, token, user, now)
              case Ok(true) => FilterOutcome(SecurityContext(Some(UserAuthentication(user))), 1)
              case _ => FilterOutcome(EmptyContext, 1)
  }

  /** Only the blacklist is read from the store: two stores that agree on it
      give the same outcome, whatever access and refresh tokens they hold. */
  lemma {:induction false} FilterReadsOnlyBlacklist(cfg: Config, members: seq<MemberRecord>, s1: Redis, s2: Redis, online: bool,
                                                    ctx: SecurityContext, req: FilterRequest, now: int, chainThrows: bool)
    requires forall t :: IsBlacklisted(s1, t) <==> IsBlacklisted(s2, t)
    ensures Filter(cfg, members, s1, online, ctx, req, now, chainThrows) == Filter(cfg, members, s2, online, ctx, req, now, chainThrows)
  {
    if Candidate(req).Some? {
      assert IsBlacklisted(s1, Candidate(req).value) == IsBlacklisted(s2, Candidate(req).value);
    }
  }

  /** The `type` claim is not checked: a live refresh token presented as the
      access cookie authenticates its user. */
  lemma {:induction false} RefreshTokenAcceptedAsAccess(cfg: Config, members: seq<MemberRecord>, store: Redis,
                                                       username: string, issued: int, now: int, chainThrows: bool)
    requires Lawful(cfg.signer)
    requires LoadUserByUsername(members, username).Ok?
    requires !ExpiredAt(RefreshClaims(cfg, LoadUserByUsername(members, username).value, issued), now)
    requires !IsBlacklisted(store, GenerateRefreshToken(cfg, LoadUserByUsername(members, username).value, issued))
    ensures var user := LoadUserByUsername(members, username).value;
            var req := FilterRequest(None, [Cookie(AccessTokenCookie, GenerateRefreshToken(cfg, user, issued))]);
            Filter(cfg, members, store, true, EmptyContext, req, now, chainThrows).context
              == SecurityContext(Some(UserAuthentication(user)))
  {
    var user := LoadUserByUsername(members, username).value;
    var token := GenerateRefreshToken(cfg, user, issued);
    var req := FilterRequest(None, [Cookie(AccessTokenCookie, token)]);
    assert Candidate(req) == Some(token);
    ExtractUsernameOfGenerated(cfg, user, issued, now);
    ValidateTokenIgnoresType(cfg, user, issued, now);
  }

  /** After a logout that named an access token, a request carrying that
      token is not authenticated, whatever it carried before. */
  lemma {:induction false} LogoutRevokesAccessToken(env: Session.Env, store: Redis, logout: Session.LogoutRequest,
                                                   ctx: SecurityContext, req: FilterRequest, now: int, chainThrows: bool)
    requires Session.Logout(env, store, logout).response.LoggedOut?
    requires Session.LogoutAccessToken(logout).Some? && !IsBlank(Session.LogoutAccessToken(logout).value)
    requires Candidate(req) == Session.LogoutAccessToken(logout)
    ensures Filter(env.cfg, env.members, Session.Logout(env, store, logout).store, true, ctx, req, now, chainThrows).context
            == EmptyContext
  {
  }

  /** What the `validateToken` endpoint answers for a request the filter
      started on an empty context: the subject of the presented token when it
      is live, signed, unrevoked and names a known user, and 401 otherwise. */
  lemma {:induction false} ValidateSessionAfterFilter(cfg: Config, members: seq<MemberRecord>, store: Redis, online: bool,
                                                     req: FilterRequest, now: int, chainThrows: bool)
    ensures var r := Session.ValidateSession(Filter(cfg, members, store, online, EmptyContext, req, now, chainThrows).context);
            && (r.SessionValid? <==>
                  && Candidate(req).Some? && online && !IsBlacklisted(store, Candidate(req).value)
                  && ParseClaims(cfg, Candidate(req).value, now).Ok?
                  && LoadUserByUsername(members, ParseClaims(cfg, Candidate(req).value, now).value.subject).Ok?)
            && (r.SessionValid? ==> r.username == ParseClaims(cfg, Candidate(req).value, now).value.subject)
  {
    var o := Filter(cfg, members, store, online, EmptyContext, req, now, chainThrows);
    if o.context.authentication.Some? {
      var username := ParseClaims(cfg, Candidate(req).value, now).value.subject;
      assert LoadUserByUsername(members, username).value.username == username;
    }
  }

  /** A request with a revoked token whose downstream chain throws is passed
      down twice: once before the throw and once more from the handler. */
  lemma {:induction false} RevokedTokenThrowingChainRunsTwice(cfg: Config, members: seq<MemberRecord>, store: Redis,
                                                             ctx: SecurityContext, token: string, now: int)
    requires IsBlacklisted(store, token)
    ensures Filter(cfg, members, store, true, ctx, FilterRequest(None, [Cookie(AccessTokenCookie, token)]), now, true).chainCalls == 2
    ensures Filter(cfg, members, store, true, ctx, FilterRequest(None, [Cookie(AccessTokenCookie, token)]), now, false).chainCalls == 1
  {
    assert Candidate(FilterRequest(None, [Cookie(AccessTokenCookie, token)])) == Some(token);
  }

  /** Whether the chain throws never changes the context the filter leaves. */
  lemma {:induction false} ContextIgnoresChain(cfg: Config, members: seq<MemberRecord>, store: Redis, online: bool,
                                              ctx: SecurityContext, req: FilterRequest, now: int)
    ensures Filter(cfg, members, store, online, ctx, req, now, true).context
            == Filter(cfg, members, store, online, ctx, req, now, false).context
  {
  }
}
