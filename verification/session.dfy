/** `AuthController`: the login, refresh, logout and validate endpoints as
    transitions over the token store. Each takes the store and an `Env`
    holding what the request sees of the rest of the system, and returns the
    response with the new store. */
module Session {
  import opened Wrappers
  import opened Text
  import opened Domain
  import opened Identity
  import opened Jwt
  import opened TokenStore
  import opened Http

  const AccessTokenExpirationMs: int := 3600000
  const RefreshTokenExpirationMs: int := 43200000
  /** Logout blacklists for one hour, whatever the token's remaining life. */
  const LogoutBlacklistTtlMs: int := 3600000

  /** Signing configuration, member table, password encoder, whether Redis
      answers, whether the request came over TLS, and the current instant. */
  datatype Env = Env(
    cfg: Config,
    members: seq<MemberRecord>,
    encoder: PasswordEncoder,
    online: bool,
    secure: bool,
    now: int)

  datatype Transition<+R> = Transition(response: R, store: Redis)

  /** The store holds this pair as `username`'s session, with the TTLs the
      controller writes. */
  ghost predicate HoldsSession(r: Redis, username: string, access: string, refresh: string) {
    && GetAccessToken(r, username) == Some(access)
    && AccessKey(username) in r && r[AccessKey(username)].ttlMillis == AccessTokenExpirationMs
    && GetRefreshToken(r, username) == Some(refresh)
    && RefreshKey(username) in r && r[RefreshKey(username)].ttlMillis == RefreshTokenExpirationMs
  }

  /** The two `saveAccessToken`/`saveRefreshToken` calls of login, refresh
      and auto-login. */
  function StoreSession(r: Redis, username: string, access: string, refresh: string): (r': Redis)
    ensures HoldsSession(r', username, access, refresh)
    ensures SameTokensExcept(r, r', {username})
    ensures forall t :: IsBlacklisted(r', t) <==> IsBlacklisted(r, t)
  {
    var r1 := SaveAccessToken(r, username, access, AccessTokenExpirationMs);
    KeysDistinct(username, username, [], []);
    SaveRefreshToken(r1, username, refresh, RefreshTokenExpirationMs)
  }

  /** The two cookies a successful login or refresh sets; max-age is in
      seconds. */
  function SessionCookies(access: string, refresh: string, secure: bool): (cs: seq<ResponseCookie>)
    ensures |cs| == 2
    ensures cs[0].name == AccessTokenCookie && cs[0].value == access && cs[0].maxAgeSeconds == 3600
    ensures cs[1].name == RefreshTokenCookie && cs[1].value == refresh && cs[1].maxAgeSeconds == 43200
    ensures forall i :: 0 <= i < 2 ==> cs[i].httpOnly && cs[i].secure == secure && cs[i].path == "/"
  {
    [AuthCookie(AccessTokenCookie, access, AccessTokenExpirationMs / 1000, secure),
     AuthCookie(RefreshTokenCookie, refresh, RefreshTokenExpirationMs / 1000, secure)]
  }

  /** The cookies logout sets to delete both tokens in the browser. */
  function ClearedCookies(secure: bool): (cs: seq<ResponseCookie>)
    ensures |cs| == 2 && cs[0].name == AccessTokenCookie && cs[1].name == RefreshTokenCookie
    ensures forall i :: 0 <= i < 2 ==> cs[i].value == "" && cs[i].maxAgeSeconds == 0
  {
    [AuthCookie(AccessTokenCookie, "", 0, secure), AuthCookie(RefreshTokenCookie, "", 0, secure)]
  }

  // ---------------------------------------------------------------- login

  datatype AuthFailure = BadCredentials

  /** What the `AuthenticationManager` (a DAO provider over
      `CustomUserDetailsService` and the encoder) does with a user name and
      password: missing credentials, an unknown user and a wrong password are
      all the same `BadCredentials`. */
  function Authenticate(members: seq<MemberRecord>, encoder: PasswordEncoder,
                        username: Option<string>, password: Option<string>): (r: Result<UserDetails, AuthFailure>)
    ensures r.Ok? <==> username.Some? && password.Some? && FindByUsername(members, username.value).Some?
                       && encoder.matches(password.value, members[FindByUsername(members, username.value).value].passwordHash)
    ensures r.Ok? ==> r.value.username == username.value
    ensures r.Ok? ==> exists i :: (0 <= i < |members| && members[i].username == username.value
                                  && encoder.matches(password.value, members[i].passwordHash)
                                  && r.value.authorities == Authorities(members[i].roles))
  {
    if username.None? || password.None? then Err(BadCredentials)
    else match LoadUserByUsername(members, username.value)
      case Err(_) => Err(BadCredentials)
      case Ok(user) =>
        if encoder.matches(password.value, user.password) then Ok(user) else Err(BadCredentials)
  }

  datatype LoginResponse =
    | LoggedIn(accessToken: string, username: string, cookies: seq<ResponseCookie>)
    | LoginRejected
    | LoginError
  {
    function Status(): int {
      match this
      case LoggedIn(_, _, _) => 200
      case LoginRejected => 401
      case LoginError => 500
    }
  }

  /** `login`: authenticate, issue both tokens, store them under the name
      the client sent, and return the access token with both cookies. */
  function Login(env: Env, store: Redis, username: Option<string>, password: Option<string>): (t: Transition<LoginResponse>)
    ensures t.response == LoginRejected <==> Authenticate(env.members, env.encoder, username, password).Err?
    ensures t.response == LoginError <==> Authenticate(env.members, env.encoder, username, password).Ok? && !env.online
    ensures !t.response.LoggedIn? ==> t.store == store
    ensures t.response.LoggedIn? ==>
      var user := Authenticate(env.members, env.encoder, username, password).value;
      var refresh := GenerateRefreshToken(env.cfg, user, env.now);
      && t.response.username == username.value
      && t.response.accessToken == GenerateAccessToken(env.cfg, user, env.now)
      && HoldsSession(t.store, username.value, t.response.accessToken, refresh)
      && SameTokensExcept(store, t.store, {username.value})
      && (forall tok :: IsBlacklisted(t.store, tok) <==> IsBlacklisted(store, tok))
      && t.response.cookies == SessionCookies(t.response.accessToken, refresh, env.secure)
  {
    match Authenticate(env.members, env.encoder, username, password)
    case Err(_) => Transition(LoginRejected, store)
    case Ok(user) =>
      var access := GenerateAccessToken(env.cfg, user, env.now);
      var refresh := GenerateRefreshToken(env.cfg, user, env.now);
      if !env.online then Transition(LoginError, store)
      else
        Transition(LoggedIn(access, username.value, SessionCookies(access, refresh, env.secure)),
                   StoreSession(store, username.value, access, refresh))
  }

  // -------------------------------------------------------------- refresh

  datatype RefreshResponse =
    | Refreshed(accessToken: string, username: string, cookies: seq<ResponseCookie>)
    | MissingRefreshToken
    | InvalidRefreshToken
    | ExpiredRefreshToken
    | ReusedRefreshToken
    | RefreshFailed
  {
    function Status(): int {
      match this
      case Refreshed(_, _, _) => 200
      case MissingRefreshToken => 401
      case _ => 400
    }
  }

  /** The `refreshToken` cookie, when present and not blank. */
  function PresentedRefreshToken(cookies: seq<Cookie>): (r: Option<string>)
    ensures r.Some? <==> CookieValue(cookies, RefreshTokenCookie).Some? && !IsBlank(CookieValue(cookies, RefreshTokenCookie).value)
    ensures r.Some? ==> r == CookieValue(cookies, RefreshTokenCookie)
  {
    match CookieValue(cookies, RefreshTokenCookie)
    case None => None
    case Some(v) => if IsBlank(v) then None else Some(v)
  }

  /** `refresh`: rotation with reuse detection. The checks run in the order
      the controller makes them, and nothing is written unless all pass. */
  function Refresh(env: Env, store: Redis, cookies: seq<Cookie>): (t: Transition<RefreshResponse>)
    ensures t.response == MissingRefreshToken <==> PresentedRefreshToken(cookies).None?
    ensures t.response == InvalidRefreshToken <==>
      PresentedRefreshToken(cookies).Some? && !IsRefreshToken(env.cfg, PresentedRefreshToken(cookies).value, env.now)
    ensures t.response == ReusedRefreshToken <==>
      && env.online
      && PresentedRefreshToken(cookies).Some?
      && IsRefreshToken(env.cfg, PresentedRefreshToken(cookies).value, env.now)
      && var username := ParseClaims(env.cfg, PresentedRefreshToken(cookies).value, env.now).value.subject;
         && LoadUserByUsername(env.members, username).Ok?
         && GetRefreshToken(store, username) != PresentedRefreshToken(cookies)
    ensures t.response == RefreshFailed <==>
      && PresentedRefreshToken(cookies).Some?
      && IsRefreshToken(env.cfg, PresentedRefreshToken(cookies).value, env.now)
      && (|| LoadUserByUsername(env.members, ParseClaims(env.cfg, PresentedRefreshToken(cookies).value, env.now).value.subject).Err?
          || !env.online)
    ensures !t.response.Refreshed? ==> t.store == store
    ensures t.response.Refreshed? <==>
      && env.online
      && PresentedRefreshToken(cookies).Some?
      && IsRefreshToken(env.cfg, PresentedRefreshToken(cookies).value, env.now)
      && var username := ParseClaims(env.cfg, PresentedRefreshToken(cookies).value, env.now).value.subject;
         && LoadUserByUsername(env.members, username).Ok?
         && GetRefreshToken(store, username) == PresentedRefreshToken(cookies)
    ensures t.response.Refreshed? ==>
      var username := t.response.username;
      && username == ParseClaims(env.cfg, PresentedRefreshToken(cookies).value, env.now).value.subject
      && LoadUserByUsername(env.members, username).Ok?
      && var user := LoadUserByUsername(env.members, username).value;
      var refresh := GenerateRefreshToken(env.cfg, user, env.now);
      && t.response.accessToken == GenerateAccessToken(env.cfg, user, env.now)
      && HoldsSession(t.store, username, t.response.accessToken, refresh)
      && SameTokensExcept(store, t.store, {username})
      && (forall tok :: IsBlacklisted(t.store, tok) <==> IsBlacklisted(store, tok))
      && t.response.cookies == SessionCookies(t.response.accessToken, refresh, env.secure)
  {
    match PresentedRefreshToken(cookies)
    case None => Transition(MissingRefreshToken, store)
    case Some(token) =>
      if !IsRefreshToken(env.cfg, token, env.now) then Transition(InvalidRefreshToken, store)
      else match ExtractUsername(env.cfg, token, env.now)
        case Err(_) => Transition(RefreshFailed, store)
        case Ok(username) =>
          match LoadUserByUsername(env.members, username)
          case Err(_) => Transition(RefreshFailed, store)
          case Ok(user) =>
            // the token parsed and names this user, so validation cannot fail
            assert ValidateToken(env.cfg, token, user, env.now) == Ok(true);
            match ValidateToken(env.cfg, token, user, env.now)
            case Err(_) => Transition(RefreshFailed, store)
            case Ok(valid) =>
              if !valid then Transition(ExpiredRefreshToken, store)
              else if !env.online then Transition(RefreshFailed, store)
              else if GetRefreshToken(store, username) != Some(token) then Transition(ReusedRefreshToken, store)
              else
                var access := GenerateAccessToken(env.cfg, user, env.now);
                var refresh := GenerateRefreshToken(env.cfg, user, env.now);
                Transition(Refreshed(access, username, SessionCookies(access, refresh, env.secure)),
                           StoreSession(store, username, access, refresh))
  }

  /** The cookies a browser sends back after receiving `cs`. */
  function Returned(cs: seq<ResponseCookie>): seq<Cookie> {
    seq(|cs|, i requires 0 <= i < |cs| => Cookie(cs[i].name, cs[i].value))
  }

  /** A browser that returns the cookies of a login gets a refresh for as
      long as the refresh token is unexpired: the cookie carries the token
      login stored, under the name the token names. */
  lemma {:induction false} LoginThenRefresh(env: Env, store: Redis, username: Option<string>, password: Option<string>, later: int)
    requires Lawful(env.cfg.signer)
    requires Login(env, store, username, password).response.LoggedIn?
    requires var user := Authenticate(env.members, env.encoder, username, password).value;
             && !IsBlank(GenerateRefreshToken(env.cfg, user, env.now))
             && !ExpiredAt(RefreshClaims(env.cfg, user, env.now), later)
    ensures var t := Login(env, store, username, password);
            && PresentedRefreshToken(Returned(t.response.cookies))
                 == Some(GenerateRefreshToken(env.cfg, Authenticate(env.members, env.encoder, username, password).value, env.now))
            && Refresh(env.(now := later), t.store, Returned(t.response.cookies)).response.Refreshed?
  {
    var t := Login(env, store, username, password);
    var user := Authenticate(env.members, env.encoder, username, password).value;
    var refresh := GenerateRefreshToken(env.cfg, user, env.now);
    var sent := Returned(t.response.cookies);
    assert sent == [Cookie(AccessTokenCookie, t.response.accessToken), Cookie(RefreshTokenCookie, refresh)];
    assert AccessTokenCookie[0] != RefreshTokenCookie[0];
    assert CookieValue(sent, RefreshTokenCookie) == Some(refresh);
    RefreshTokenIsRefresh(env.cfg, user, env.now, later);
    ExtractUsernameOfGenerated(env.cfg, user, env.now, later);
  }

  /** Within one request instant the "expired" answer cannot occur: a token
      that `isRefreshToken` accepted is unexpired, and the loaded user's name
      is the token's subject, so `validateToken` holds. Expiry shows up as the
      "invalid" answer instead. */
  lemma {:induction false} RefreshNeverReportsExpired(env: Env, store: Redis, cookies: seq<Cookie>)
    ensures Refresh(env, store, cookies).response != ExpiredRefreshToken
  {
    match PresentedRefreshToken(cookies)
    case None =>
    case Some(token) =>
      if IsRefreshToken(env.cfg, token, env.now) {
        var username := ExtractUsername(env.cfg, token, env.now).value;
        match LoadUserByUsername(env.members, username)
        case Err(_) =>
        case Ok(user) =>
          assert user.username == username;
          assert ValidateToken(env.cfg, token, user, env.now) == Ok(true);
      }
  }

  /** An expired refresh token issued by this application gets the
      "invalid" answer. */
  lemma {:induction false} ExpiredRefreshTokenIsInvalid(env: Env, store: Redis, user: UserDetails, issued: int)
    requires Lawful(env.cfg.signer)
    requires ExpiredAt(RefreshClaims(env.cfg, user, issued), env.now)
    requires !IsBlank(GenerateRefreshToken(env.cfg, user, issued))
    ensures Refresh(env, store, [Cookie(RefreshTokenCookie, GenerateRefreshToken(env.cfg, user, issued))]).response
            == InvalidRefreshToken
  {
    var cookies := [Cookie(RefreshTokenCookie, GenerateRefreshToken(env.cfg, user, issued))];
    assert CookieValue(cookies, RefreshTokenCookie) == Some(GenerateRefreshToken(env.cfg, user, issued));
    RefreshTokenIsRefresh(env.cfg, user, issued, env.now);
  }

  /** After a rotation, presenting the old refresh token again is refused
      whenever the rotation produced a different string, at any later time
      and whatever the state of the store connection. */
  lemma {:induction false} RotationRejectsOldToken(env: Env, store: Redis, cookies: seq<Cookie>, later: Env)
    requires Refresh(env, store, cookies).response.Refreshed?
    requires later.cfg == env.cfg
    requires GenerateRefreshToken(env.cfg, LoadUserByUsername(env.members, Refresh(env, store, cookies).response.username).value, env.now)
             != PresentedRefreshToken(cookies).value
    ensures !Refresh(later, Refresh(env, store, cookies).store, cookies).response.Refreshed?
  {
    var t := Refresh(env, store, cookies);
    var presented := PresentedRefreshToken(cookies).value;
    var username := t.response.username;
    var refresh := GenerateRefreshToken(env.cfg, LoadUserByUsername(env.members, username).value, env.now);
    assert GetRefreshToken(t.store, username) == Some(refresh);
    if IsRefreshToken(later.cfg, presented, later.now) {
      // the signature check does not depend on the instant, so the subject is the same
      assert ParseClaims(later.cfg, presented, later.now).value.subject == username;
    }
  }

  /** If the rotation produced the same string (same user, same second), the
      old token is accepted again: reuse goes undetected. */
  lemma {:induction false} SameSecondReplayAccepted(env: Env, store: Redis, cookies: seq<Cookie>)
    requires Refresh(env, store, cookies).response.Refreshed?
    requires GenerateRefreshToken(env.cfg, LoadUserByUsername(env.members, Refresh(env, store, cookies).response.username).value, env.now)
             == PresentedRefreshToken(cookies).value
    ensures Refresh(env, Refresh(env, store, cookies).store, cookies).response.Refreshed?
  {
    var t := Refresh(env, store, cookies);
    var username := t.response.username;
    assert GetRefreshToken(t.store, username) == PresentedRefreshToken(cookies);
  }

  /** The precondition of `SameSecondReplayAccepted` is met by any refresh
      made in the same second as the one that issued the presented token. */
  lemma {:induction false} SameSecondRotationRepeatsToken(env: Env, store: Redis, cookies: seq<Cookie>, issued: int)
    requires Refresh(env, store, cookies).response.Refreshed?
    requires PresentedRefreshToken(cookies).value
             == GenerateRefreshToken(env.cfg, LoadUserByUsername(env.members, Refresh(env, store, cookies).response.username).value, issued)
    requires Seconds(issued) == Seconds(env.now)
    requires Seconds(issued + env.cfg.refreshValidity) == Seconds(env.now + env.cfg.refreshValidity)
    ensures Refresh(env, Refresh(env, store, cookies).store, cookies).response.Refreshed?
  {
    var user := LoadUserByUsername(env.members, Refresh(env, store, cookies).response.username).value;
    SameSecondSameToken(env.cfg, user, issued, env.now);
    SameSecondReplayAccepted(env, store, cookies);
  }

  // --------------------------------------------------------------- logout

  /** What the logout request carries: the `accessToken` field of the JSON
      body (absent when there is no body), the `Authorization` header and
      the cookies. */
  datatype LogoutRequest = LogoutRequest(bodyAccessToken: Option<string>, authorization: Option<string>, cookies: seq<Cookie>)

  datatype LogoutResponse = LoggedOut(cookies: seq<ResponseCookie>) | LogoutFailed
  {
    function Status(): int { if LoggedOut? then 200 else 400 }
  }

  /** The access token logout acts on: the body field, else the bearer
      header's suffix, else the `accessToken` cookie. The first source that
      is present wins, even when its value is blank. */
  function LogoutAccessToken(req: LogoutRequest): (r: Option<string>)
    ensures r.None? <==> req.bodyAccessToken.None? && BearerToken(req.authorization).None?
                         && CookieValue(req.cookies, AccessTokenCookie).None?
    ensures req.bodyAccessToken.Some? ==> r == req.bodyAccessToken
    ensures req.bodyAccessToken.None? && BearerToken(req.authorization).Some? ==> r == BearerToken(req.authorization)
    ensures req.bodyAccessToken.None? && BearerToken(req.authorization).None? ==> r == CookieValue(req.cookies, AccessTokenCookie)
  {
    if req.bodyAccessToken.Some? then req.bodyAccessToken
    else if BearerToken(req.authorization).Some? then BearerToken(req.authorization)
    else CookieValue(req.cookies, AccessTokenCookie)
  }

  /** The user whose tokens logout deletes: the subject of a non-blank access
      token, else the subject of the first `refreshToken` cookie. A token that
      does not parse yields nothing, without error. */
  function LogoutUsername(cfg: Config, req: LogoutRequest, now: int): (r: Option<string>)
    ensures var a := LogoutAccessToken(req);
            a.Some? && !IsBlank(a.value) && ExtractUsername(cfg, a.value, now).Ok? ==>
              r == Some(ExtractUsername(cfg, a.value, now).value)
    ensures r.Some? ==>
      || (var a := LogoutAccessToken(req);
          a.Some? && !IsBlank(a.value) && ExtractUsername(cfg, a.value, now) == Ok(r.value))
      || (var c := CookieValue(req.cookies, RefreshTokenCookie);
          c.Some? && ExtractUsername(cfg, c.value, now) == Ok(r.value))
    ensures r.None? <==>
      && (var a := LogoutAccessToken(req); a.None? || IsBlank(a.value) || ExtractUsername(cfg, a.value, now).Err?)
      && (var c := CookieValue(req.cookies, RefreshTokenCookie); c.None? || ExtractUsername(cfg, c.value, now).Err?)
  {
    var fromAccess :=
      match LogoutAccessToken(req)
      case Some(a) =>
        if IsBlank(a) then None
        else (match ExtractUsername(cfg, a, now) case Ok(u) => Some(u) case Err(_) => None)
      case None => None;
    if fromAccess.Some? then fromAccess
    else match CookieValue(req.cookies, RefreshTokenCookie)
      case None => None
      case Some(c) => (match ExtractUsername(cfg, c, now) case Ok(u) => Some(u) case Err(_) => None)
  }

  /** `logout`: best effort. Blacklist the access token when there is a
      non-blank one, delete the user's stored tokens when a non-blank name was
      found, and clear both cookies. Only a failing store call turns the
      answer into a 400, and a logout with nothing to do never touches the
      store. */
  function Logout(env: Env, store: Redis, req: LogoutRequest): (t: Transition<LogoutResponse>)
    ensures var a := LogoutAccessToken(req);
            var u := LogoutUsername(env.cfg, req, env.now);
            var blacklists := a.Some? && !IsBlank(a.value);
            var deletes := u.Some? && !IsBlank(u.value);
            && (t.response == LogoutFailed <==> !env.online && (blacklists || deletes))
            && (t.response == LogoutFailed ==> t.store == store)
            && (t.response.LoggedOut? ==>
                  && t.response.cookies == ClearedCookies(env.secure)
                  && (blacklists ==> IsBlacklisted(t.store, a.value)
                                     && t.store[BlacklistKey(a.value)].ttlMillis == LogoutBlacklistTtlMs)
                  && (forall tok :: (!blacklists || tok != a.value) ==> (IsBlacklisted(t.store, tok) <==> IsBlacklisted(store, tok)))
                  && (deletes ==> GetAccessToken(t.store, u.value).None? && GetRefreshToken(t.store, u.value).None?
                                  && SameTokensExcept(store, t.store, {u.value}))
                  && (!deletes ==> SameTokensExcept(store, t.store, {})))
  {
    var a := LogoutAccessToken(req);
    var u := LogoutUsername(env.cfg, req, env.now);
    var blacklists := a.Some? && !IsBlank(a.value);
    var deletes := u.Some? && !IsBlank(u.value);
    if !env.online && (blacklists || deletes) then Transition(LogoutFailed, store)
    else
      var s1 := if blacklists then AddToBlacklist(store, a.value, LogoutBlacklistTtlMs) else store;
      var s2 := if deletes then DeleteUserTokens(s1, u.value) else s1;
      var user := if u.Some? then u.value else [];
      var token := if a.Some? then a.value else [];
      KeysDistinct(user, user, token, token);
      Transition(LoggedOut(ClearedCookies(env.secure)), s2)
  }

  /** A logout that sends its access token only as a bearer header
      blacklists exactly that token, whatever cookies come with it. */
  lemma {:induction false} LogoutBlacklistsBearerToken(env: Env, store: Redis, token: string, cookies: seq<Cookie>)
    requires env.online && !IsBlank(token)
    ensures LogoutAccessToken(LogoutRequest(None, Some(BearerPrefix + token), cookies)) == Some(token)
    ensures var t := Logout(env, store, LogoutRequest(None, Some(BearerPrefix + token), cookies));
            && t.response.LoggedOut?
            && IsBlacklisted(t.store, token)
            && forall tok :: tok != token ==> (IsBlacklisted(t.store, tok) <==> IsBlacklisted(store, tok))
  {
    BearerTokenOfHeader(token);
  }

  /** Logging out with a user's current access token leaves nothing of the
      session in the store and blacklists the token. */
  lemma {:induction false} LogoutEndsSession(env: Env, store: Redis, user: UserDetails, issued: int, access: string, refresh: string)
    requires Lawful(env.cfg.signer) && env.online
    requires access == GenerateAccessToken(env.cfg, user, issued)
    requires !ExpiredAt(AccessClaims(env.cfg, user, issued), env.now)
    requires !IsBlank(access) && !IsBlank(user.username)
    requires HoldsSession(store, user.username, access, refresh)
    ensures var t := Logout(env, store, LogoutRequest(Some(access), None, []));
            && t.response.LoggedOut?
            && IsBlacklisted(t.store, access)
            && GetAccessToken(t.store, user.username).None?
            && GetRefreshToken(t.store, user.username).None?
  {
    var req := LogoutRequest(Some(access), None, []);
    ExtractUsernameOfGenerated(env.cfg, user, issued, env.now);
    assert LogoutUsername(env.cfg, req, env.now) == Some(user.username);
  }

  // ------------------------------------------------------------- validate

  datatype ValidateResponse = SessionValid(username: string) | NotAuthenticated
  {
    function Status(): int { if SessionValid? then 200 else 401 }
  }

  /** `validateToken` endpoint: reports the name of the principal the
      request filter installed; no authentication or the anonymous token
      gives 401. */
  function ValidateSession(ctx: SecurityContext): (r: ValidateResponse)
    ensures r.SessionValid? <==> ctx.authentication.Some? && ctx.authentication.value.UserAuthentication?
    ensures r.SessionValid? ==> r.username == ctx.authentication.value.principal.username
  {
    match ctx.authentication
    case Some(UserAuthentication(p)) => SessionValid(p.username)
    case _ => NotAuthenticated
  }
}
