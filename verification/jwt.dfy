/** `JwtTokenUtil`: issuing and inspecting JSON Web Tokens (RFC 7519) signed
    with HS256 under one process-wide key. Signing and signature checking are
    the parameter `Signer`: `sign` renders and signs a claims set, `verify`
    returns the claims of a token whose signature checks under the key.
    The parse step adds the expiry check that jjwt performs itself. */
module Jwt {
  import opened Wrappers
  import opened Identity

  const TokenTypeRefresh: string := "refresh"

  /** The registered and private claims the application writes.
      `issuedAt` and `expiration` are NumericDate values: whole seconds. */
  datatype Claims = Claims(
    subject: string,
    tokenType: Option<string>,
    roles: Option<seq<string>>,
    issuedAt: int,
    expiration: int)

  datatype Signer = Signer(sign: Claims -> string, verify: string -> Option<Claims>)

  /** What HS256 under a single secret key guarantees: a signed token verifies
      to the claims it was made from (so different claims give different
      tokens). */
  ghost predicate Lawful(s: Signer) {
    forall c :: s.verify(s.sign(c)) == Some(c)
  }

  /** `jwt.access-token-validity` and `jwt.refresh-token-validity`, in ms. */
  datatype Config = Config(signer: Signer, accessValidity: int, refreshValidity: int)

  /** `Date` to NumericDate: Java's `long / 1000`, truncating toward zero. */
  function Seconds(millis: int): (s: int)
    ensures millis >= 0 ==> s * 1000 <= millis < s * 1000 + 1000
    ensures millis <= 0 ==> s * 1000 - 1000 < millis <= s * 1000
  {
    if millis >= 0 then millis / 1000 else -((-millis) / 1000)
  }

  /** jjwt rejects a token whose expiration instant lies before `now`, and
      `isTokenExpired` uses the same comparison (`Date.before`). */
  predicate ExpiredAt(c: Claims, now: int) {
    c.expiration * 1000 < now
  }

  datatype ParseError = Invalid | Expired

  /** `extractAllClaims`: signature first, then expiry. */
  function ParseClaims(cfg: Config, token: string, now: int): (r: Result<Claims, ParseError>)
    ensures r.Ok? ==> cfg.signer.verify(token) == Some(r.value) && !ExpiredAt(r.value, now)
    ensures r == Err(Invalid) <==> cfg.signer.verify(token).None?
    ensures r == Err(Expired) <==> cfg.signer.verify(token).Some? && ExpiredAt(cfg.signer.verify(token).value, now)
  {
    match cfg.signer.verify(token)
    case None => Err(Invalid)
    case Some(c) => if ExpiredAt(c, now) then Err(Expired) else Ok(c)
  }

  /** The claims `createToken` signs at time `now` (ms). */
  function TokenClaims(tokenType: Option<string>, roles: Option<seq<string>>, subject: string, validity: int, now: int): Claims {
    Claims(subject, tokenType, roles, Seconds(now), Seconds(now + validity))
  }

  function AccessClaims(cfg: Config, user: UserDetails, now: int): Claims {
    TokenClaims(None, Some(user.authorities), user.username, cfg.accessValidity, now)
  }

  function RefreshClaims(cfg: Config, user: UserDetails, now: int): Claims {
    TokenClaims(Some(TokenTypeRefresh), None, user.username, cfg.refreshValidity, now)
  }

  function GenerateAccessToken(cfg: Config, user: UserDetails, now: int): string {
    cfg.signer.sign(AccessClaims(cfg, user, now))
  }

  function GenerateRefreshToken(cfg: Config, user: UserDetails, now: int): string {
    cfg.signer.sign(RefreshClaims(cfg, user, now))
  }

  /** `extractUsername`: the subject, or the parse failure propagated. */
  function ExtractUsername(cfg: Config, token: string, now: int): (r: Result<string, ParseError>)
    ensures r.Ok? <==> ParseClaims(cfg, token, now).Ok?
    ensures r.Ok? ==> r.value == ParseClaims(cfg, token, now).value.subject
    ensures r.Err? ==> r.error == ParseClaims(cfg, token, now).error
  {
    var c :- ParseClaims(cfg, token, now);
    Ok(c.subject)
  }

  /** `validateToken`: subject equals the principal's name and not expired.
      The `type` claim is never consulted. */
  function ValidateToken(cfg: Config, token: string, user: UserDetails, now: int): (r: Result<bool, ParseError>)
    ensures r.Ok? <==> ParseClaims(cfg, token, now).Ok?
    ensures r == Ok(true) <==> ParseClaims(cfg, token, now).Ok? && ParseClaims(cfg, token, now).value.subject == user.username
  {
    match ExtractUsername(cfg, token, now)
    case Err(e) => Err(e)
    case Ok(username) =>
      // `isTokenExpired` parses the token a second time at the same instant
      var c := ParseClaims(cfg, token, now).value;
      Ok(username == user.username && !ExpiredAt(c, now))
  }

  /** `isRefreshToken`: never throws; any parse failure gives false. */
  predicate IsRefreshToken(cfg: Config, token: string, now: int)
    ensures IsRefreshToken(cfg, token, now) ==> ParseClaims(cfg, token, now).Ok?
  {
    match ParseClaims(cfg, token, now)
    case Ok(c) => c.tokenType == Some(TokenTypeRefresh)
    case Err(_) => false
  }

  /** The expiration is the issue instant plus the validity, in whole seconds;
      for a validity that is a whole number of seconds the two claims differ
      by exactly that many seconds. */
  lemma {:induction false} ExpirationIsIssuePlusValidity(cfg: Config, user: UserDetails, now: int)
    requires now >= 0 && cfg.accessValidity >= 0 && cfg.refreshValidity >= 0
    ensures AccessClaims(cfg, user, now).expiration * 1000 <= now + cfg.accessValidity < AccessClaims(cfg, user, now).expiration * 1000 + 1000
    ensures RefreshClaims(cfg, user, now).expiration * 1000 <= now + cfg.refreshValidity < RefreshClaims(cfg, user, now).expiration * 1000 + 1000
    ensures cfg.accessValidity % 1000 == 0 ==>
      AccessClaims(cfg, user, now).expiration == AccessClaims(cfg, user, now).issuedAt + cfg.accessValidity / 1000
    ensures cfg.refreshValidity % 1000 == 0 ==>
      RefreshClaims(cfg, user, now).expiration == RefreshClaims(cfg, user, now).issuedAt + cfg.refreshValidity / 1000
  {
    WholeSecondsShift(now, cfg.accessValidity);
    WholeSecondsShift(now, cfg.refreshValidity);
  }

  lemma WholeSecondsShift(now: int, validity: int)
    requires now >= 0 && validity >= 0
    ensures validity % 1000 == 0 ==> Seconds(now + validity) == Seconds(now) + validity / 1000
  {
    if validity % 1000 == 0 {
      var k := validity / 1000;
      assert validity == k * 1000;
      assert Seconds(now) * 1000 <= now < Seconds(now) * 1000 + 1000;
      assert (Seconds(now) + k) * 1000 <= now + validity < (Seconds(now) + k) * 1000 + 1000;
      assert Seconds(now + validity) * 1000 <= now + validity < Seconds(now + validity) * 1000 + 1000;
    }
  }

  /** A refresh token is recognised as one for as long as it parses, and an
      expired one is not recognised at all (so refresh reports it as invalid,
      not as expired). */
  lemma {:induction false} RefreshTokenIsRefresh(cfg: Config, user: UserDetails, issued: int, now: int)
    requires Lawful(cfg.signer)
    ensures IsRefreshToken(cfg, GenerateRefreshToken(cfg, user, issued), now)
        <==> !ExpiredAt(RefreshClaims(cfg, user, issued), now)
  {
    assert cfg.signer.verify(GenerateRefreshToken(cfg, user, issued)) == Some(RefreshClaims(cfg, user, issued));
  }

  /** An access token carries roles and no `type` claim. */
  lemma {:induction false} AccessTokenIsNotRefresh(cfg: Config, user: UserDetails, issued: int, now: int)
    requires Lawful(cfg.signer)
    ensures !IsRefreshToken(cfg, GenerateAccessToken(cfg, user, issued), now)
    ensures AccessClaims(cfg, user, issued).roles == Some(user.authorities)
  {
    assert cfg.signer.verify(GenerateAccessToken(cfg, user, issued)) == Some(AccessClaims(cfg, user, issued));
  }

  /** `extractUsername` of an issued token is the user's name while the token
      is unexpired, and an `Expired` failure afterwards. */
  lemma {:induction false} ExtractUsernameOfGenerated(cfg: Config, user: UserDetails, issued: int, now: int)
    requires Lawful(cfg.signer)
    ensures !ExpiredAt(AccessClaims(cfg, user, issued), now) ==>
      ExtractUsername(cfg, GenerateAccessToken(cfg, user, issued), now) == Ok(user.username)
    ensures ExpiredAt(AccessClaims(cfg, user, issued), now) ==>
      ExtractUsername(cfg, GenerateAccessToken(cfg, user, issued), now) == Err(Expired)
    ensures !ExpiredAt(RefreshClaims(cfg, user, issued), now) ==>
      ExtractUsername(cfg, GenerateRefreshToken(cfg, user, issued), now) == Ok(user.username)
    ensures ExpiredAt(RefreshClaims(cfg, user, issued), now) ==>
      ExtractUsername(cfg, GenerateRefreshToken(cfg, user, issued), now) == Err(Expired)
  {
    assert cfg.signer.verify(GenerateAccessToken(cfg, user, issued)) == Some(AccessClaims(cfg, user, issued));
    assert cfg.signer.verify(GenerateRefreshToken(cfg, user, issued)) == Some(RefreshClaims(cfg, user, issued));
  }

  /** `validateToken` accepts a refresh token for its own user exactly like an
      access token: the `type` claim plays no part. */
  lemma {:induction false} ValidateTokenIgnoresType(cfg: Config, user: UserDetails, issued: int, now: int)
    requires Lawful(cfg.signer)
    requires !ExpiredAt(RefreshClaims(cfg, user, issued), now)
    ensures ValidateToken(cfg, GenerateRefreshToken(cfg, user, issued), user, now) == Ok(true)
  {
    assert cfg.signer.verify(GenerateRefreshToken(cfg, user, issued)) == Some(RefreshClaims(cfg, user, issued));
  }

  /** `validateToken` on an unexpired token is true exactly for the principal
      named by the subject, whichever kind of token it is. */
  lemma {:induction false} ValidateTokenMeansSubject(cfg: Config, token: string, user: UserDetails, now: int)
    requires Lawful(cfg.signer)
    requires cfg.signer.verify(token).Some? && !ExpiredAt(cfg.signer.verify(token).value, now)
    ensures ValidateToken(cfg, token, user, now) == Ok(cfg.signer.verify(token).value.subject == user.username)
  {
  }

  /** NumericDate has whole-second resolution and HS256 is deterministic: two
      tokens of one kind for one user issued within the same second are the
      same string. */
  lemma {:induction false} SameSecondSameToken(cfg: Config, user: UserDetails, t1: int, t2: int)
    requires Seconds(t1) == Seconds(t2)
    requires Seconds(t1 + cfg.refreshValidity) == Seconds(t2 + cfg.refreshValidity)
    ensures GenerateRefreshToken(cfg, user, t1) == GenerateRefreshToken(cfg, user, t2)
  {
  }

  /** Tokens issued in different seconds are different strings. */
  lemma {:induction false} DifferentSecondsDifferentTokens(cfg: Config, user: UserDetails, t1: int, t2: int)
    requires Lawful(cfg.signer)
    requires Seconds(t1) != Seconds(t2)
    ensures GenerateRefreshToken(cfg, user, t1) != GenerateRefreshToken(cfg, user, t2)
    ensures GenerateAccessToken(cfg, user, t1) != GenerateAccessToken(cfg, user, t2)
  {
    assert cfg.signer.verify(GenerateRefreshToken(cfg, user, t1)) == Some(RefreshClaims(cfg, user, t1));
    assert cfg.signer.verify(GenerateRefreshToken(cfg, user, t2)) == Some(RefreshClaims(cfg, user, t2));
    assert cfg.signer.verify(GenerateAccessToken(cfg, user, t1)) == Some(AccessClaims(cfg, user, t1));
    assert cfg.signer.verify(GenerateAccessToken(cfg, user, t2)) == Some(AccessClaims(cfg, user, t2));
  }
}
