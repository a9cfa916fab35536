/** `WebSocketAuthChannelInterceptor`: authenticates a STOMP CONNECT frame
    from its `Authorization` native header. Unlike the HTTP filter, every
    failure rejects the frame. */
module Handshake {
  import opened Wrappers
  import opened Domain
  import opened Identity
  import opened Jwt
  import opened TokenStore
  import opened Http
  import RequestFilter

  datatype StompCommand = Connect | Subscribe | Send | Disconnect | OtherCommand

  /** An inbound frame: its command, first `Authorization` native header,
      and everything else it carries, which the interceptor never reads. */
  datatype Frame = Frame(command: StompCommand, authorization: Option<string>, rest: string)

  /** The two `IllegalStateException` messages a CONNECT can fail with. */
  datatype Rejection = MissingAuthorizationHeader | AuthenticationFailed

  /** The frame passed on, the user set on the header accessor (`wrap` makes
      a copy, so the frame itself is returned as it came), and the security
      context afterwards. */
  datatype Accepted = Accepted(frame: Frame, accessorUser: Option<Authentication>, context: SecurityContext)

  /** `preSend`. `online` says whether the blacklist lookup answers. */
  function PreSend(cfg: Config, members: seq<MemberRecord>, store: Redis, online: bool,
                   ctx: SecurityContext, frame: Frame, now: int): (r: Result<Accepted, Rejection>)
    ensures frame.command != Connect ==> r == Ok(Accepted(frame, None, ctx))
    ensures frame.command == Connect && BearerToken(frame.authorization).None? ==> r == Err(MissingAuthorizationHeader)
    ensures frame.command == Connect && BearerToken(frame.authorization).Some? ==> r != Err(MissingAuthorizationHeader)
    ensures r.Ok? ==> r.value.frame == frame
    ensures frame.command == Connect && r.Ok? ==>
      && var token := BearerToken(frame.authorization).value;
      && online && !IsBlacklisted(store, token)
      && ParseClaims(cfg, token, now).Ok?
      && var username := ParseClaims(cfg, token, now).value.subject;
      && LoadUserByUsername(members, username).Ok?
      && var auth := UserAuthentication(LoadUserByUsername(members, username).value);
      && r.value.accessorUser == Some(auth)
      && r.value.context == SecurityContext(Some(auth))
    ensures (frame.command == Connect && BearerToken(frame.authorization).Some?
             && online && !IsBlacklisted(store, BearerToken(frame.authorization).value)
             && ParseClaims(cfg, BearerToken(frame.authorization).value, now).Ok?
             && LoadUserByUsername(members, ParseClaims(cfg, BearerToken(frame.authorization).value, now).value.subject).Ok?)
            ==> r.Ok?
  {
    if frame.command != Connect then Ok(Accepted(frame, None, ctx))
    else match BearerToken(frame.authorization)
      case None => Err(MissingAuthorizationHeader)
      case Some(token) =>
        if !online || IsBlacklisted(store, token) then Err(AuthenticationFailed)
        else match ExtractUsername(cfg, token, now)
          case Err(_) => Err(AuthenticationFailed)
          case Ok(username) =>
            match LoadUserByUsername(members, username)
            case Err(_) => Err(AuthenticationFailed)
            case Ok(user) =>
              match ValidateToken(cfg, token, user, now)
              case Ok(true) =>
                var auth := UserAuthentication(user);
                Ok(Accepted(frame, Some(auth), SecurityContext(Some(auth))))
              case _ => Err(AuthenticationFailed)
  }

  /** A token blacklisted by logout can no longer open a socket. */
  lemma {:induction false} BlacklistedTokenRejected(cfg: Config, members: seq<MemberRecord>, store: Redis, online: bool,
                                                   ctx: SecurityContext, token: string, rest: string, now: int)
    requires IsBlacklisted(store, token)
    ensures PreSend(cfg, members, store, online, ctx, Frame(Connect, Some(BearerPrefix + token), rest), now)
            == Err(AuthenticationFailed)
  {
    BearerTokenOfHeader(token);
  }

  /** The interceptor and the HTTP filter agree: a CONNECT succeeds exactly
      when the same token, as the only credential of an unauthenticated HTTP
      request, would have authenticated the same principal. */
  lemma {:induction false} AgreesWithRequestFilter(cfg: Config, members: seq<MemberRecord>, store: Redis, online: bool,
                                                  ctx: SecurityContext, token: string, rest: string, now: int,
                                                  chainThrows: bool)
    ensures var r := PreSend(cfg, members, store, online, ctx, Frame(Connect, Some(BearerPrefix + token), rest), now);
            var o := RequestFilter.Filter(cfg, members, store, online, EmptyContext,
                                          RequestFilter.FilterRequest(Some(BearerPrefix + token), []), now, chainThrows);
            && (r.Ok? <==> o.context.authentication.Some?)
            && (r.Ok? ==> r.value.context == o.context)
  {
    BearerTokenOfHeader(token);
    assert RequestFilter.Candidate(RequestFilter.FilterRequest(Some(BearerPrefix + token), [])) == Some(token);
  }
}
