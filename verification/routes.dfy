/** `SecurityConfig`: the URL authorization rules, applied first match wins,
    and the entry point that answers unauthenticated requests. Ant patterns
    are reduced to the two shapes the rules use: an exact path, and a
    directory pattern (`/dir/` followed by two stars) that matches `/dir`
    and everything below. */
module Routes {
  import opened Wrappers
  import opened Text
  import opened Domain
  import opened Http

  datatype Pattern = Exact(path: string) | Under(dir: string) | AnyRequest

  predicate Matches(p: Pattern, path: string) {
    match p
    case Exact(q) => path == q
    case Under(d) => path == d || StartsWith(path, d + "/")
    case AnyRequest => true
  }

  datatype Access = PermitAll | HasAuthority(authority: string) | Authenticated

  datatype Rule = Rule(patterns: seq<Pattern>, access: Access)

  const PublicPatterns: seq<Pattern> := [
    Exact("/"), Exact("/members/register"), Exact("/members/loginForm"),
    Exact("/members/reset-request"), Exact("/members/reset-password"),
    Under("/api/auth"), Exact("/health"),
    Under("/css"), Under("/js"), Under("/images"), Under("/static")]

  /** The rule table of `securityFilterChain`, in order. `hasRole("ADMIN")`
      is the authority `ROLE_ADMIN`. */
  const Rules: seq<Rule> := [
    Rule(PublicPatterns, PermitAll),
    Rule([Under("/admin")], HasAuthority(RoleAdmin)),
    Rule([Under("/games"), Under("/members/profile"), Under("/messages")], Authenticated),
    Rule([AnyRequest], Authenticated)]

  predicate RuleMatches(rule: Rule, path: string) {
    exists i :: 0 <= i < |rule.patterns| && Matches(rule.patterns[i], path)
  }

  /** The index of the first rule that matches. */
  function FirstMatch(rules: seq<Rule>, path: string): (r: Option<nat>)
    ensures r.Some? ==> r.value < |rules| && RuleMatches(rules[r.value], path)
                        && forall j :: 0 <= j < r.value ==> !RuleMatches(rules[j], path)
    ensures r.None? <==> forall j :: 0 <= j < |rules| ==> !RuleMatches(rules[j], path)
  {
    if |rules| == 0 then None
    else if RuleMatches(rules[0], path) then Some(0)
    else match FirstMatch(rules[1..], path)
      case None => None
      case Some(k) =>
        assert forall j :: 0 <= j < k + 1 ==> !RuleMatches(rules[j], path) by {
          forall j | 0 <= j < k + 1 ensures !RuleMatches(rules[j], path) {
            if j > 0 { assert rules[j] == rules[1..][j - 1]; }
          }
        }
        Some(k + 1)
  }

  /** The public paths, described directly. */
  predicate IsPublic(path: string) {
    || path == "/" || path == "/members/register" || path == "/members/loginForm"
    || path == "/members/reset-request" || path == "/members/reset-password" || path == "/health"
    || Matches(Under("/api/auth"), path)
    || Matches(Under("/css"), path) || Matches(Under("/js"), path)
    || Matches(Under("/images"), path) || Matches(Under("/static"), path)
  }

  predicate IsAdminPath(path: string) {
    Matches(Under("/admin"), path)
  }

  /** What the rule table demands of a request for `path`. */
  function RequiredAccess(path: string): (a: Access)
    ensures IsPublic(path) ==> a == PermitAll
    ensures !IsPublic(path) && IsAdminPath(path) ==> a == HasAuthority(RoleAdmin)
    ensures !IsPublic(path) && !IsAdminPath(path) ==> a == Authenticated
  {
    assert RuleMatches(Rules[3], path) by { assert Matches(Rules[3].patterns[0], path); }
    assert IsPublic(path) ==> RuleMatches(Rules[0], path) by {
      if IsPublic(path) {
        var ps := PublicPatterns;
        if path == "/" { assert Matches(ps[0], path); }
        else if path == "/members/register" { assert Matches(ps[1], path); }
        else if path == "/members/loginForm" { assert Matches(ps[2], path); }
        else if path == "/members/reset-request" { assert Matches(ps[3], path); }
        else if path == "/members/reset-password" { assert Matches(ps[4], path); }
        else if Matches(Under("/api/auth"), path) { assert Matches(ps[5], path); }
        else if path == "/health" { assert Matches(ps[6], path); }
        else if Matches(Under("/css"), path) { assert Matches(ps[7], path); }
        else if Matches(Under("/js"), path) { assert Matches(ps[8], path); }
        else if Matches(Under("/images"), path) { assert Matches(ps[9], path); }
        else { assert Matches(ps[10], path); }
      }
    }
    assert IsAdminPath(path) ==> RuleMatches(Rules[1], path) by {
      if IsAdminPath(path) { assert Matches(Rules[1].patterns[0], path); }
    }
    assert !IsPublic(path) ==> !RuleMatches(Rules[0], path);
    assert !IsAdminPath(path) ==> !RuleMatches(Rules[1], path);
    match FirstMatch(Rules, path)
    case Some(i) => Rules[i].access
    case None => Authenticated
  }

  /** No public pattern reaches under `/admin`, so the admin rule is never
      shadowed by the public one. */
  lemma {:induction false} AdminPathsAreNotPublic(path: string)
    requires IsAdminPath(path)
    ensures !IsPublic(path)
    ensures RequiredAccess(path) == HasAuthority(RoleAdmin)
  {
    assert |path| >= 6 && path[..6] == "/admin";
    assert path[1] == 'a' && path[2] == 'd';
  }

  /** Every path outside the public list needs an authenticated principal. */
  lemma {:induction false} NonPublicNeedsAuthentication(path: string)
    ensures !IsPublic(path) <==> RequiredAccess(path) != PermitAll
  {
  }

  /** The unauthenticated answer: JSON 401 for the API, a redirect to the
      login form for pages. */
  datatype EntryResponse =
    | Unauthorized(status: int, contentType: string, body: string)
    | RedirectTo(location: string)

  function EntryPoint(uri: Option<string>): (r: EntryResponse)
    ensures r.Unauthorized? <==> uri.Some? && StartsWith(uri.value, "/api")
    ensures r.Unauthorized? ==> r == Unauthorized(401, "application/json;charset=UTF-8", "{\"error\":\"unauthorized\"}")
    ensures r.RedirectTo? ==> r.location == "/members/loginForm"
  {
    if uri.Some? && StartsWith(uri.value, "/api") then
      Unauthorized(401, "application/json;charset=UTF-8", "{\"error\":\"unauthorized\"}")
    else RedirectTo("/members/loginForm")
  }

  predicate IsAuthenticated(ctx: SecurityContext) {
    ctx.authentication.Some? && ctx.authentication.value.UserAuthentication?
  }

  datatype Decision = Proceed | Challenge(response: EntryResponse) | Forbidden

  /** The authorization filter after the JWT filter has run: a request that
      lacks authentication goes to the entry point; an authenticated one that
      lacks the authority is refused with 403. */
  function Authorize(path: string, ctx: SecurityContext): (d: Decision)
    ensures IsPublic(path) ==> d == Proceed
    ensures !IsPublic(path) && !IsAuthenticated(ctx) ==> d == Challenge(EntryPoint(Some(path)))
    ensures !IsPublic(path) && IsAuthenticated(ctx) && !IsAdminPath(path) ==> d == Proceed
    ensures !IsPublic(path) && IsAuthenticated(ctx) && IsAdminPath(path) ==>
      (d == Proceed <==> RoleAdmin in ctx.authentication.value.Authorities())
    ensures d.Forbidden? ==> IsAuthenticated(ctx) && IsAdminPath(path)
  {
    match RequiredAccess(path)
    case PermitAll => Proceed
    case Authenticated => if IsAuthenticated(ctx) then Proceed else Challenge(EntryPoint(Some(path)))
    case HasAuthority(a) =>
      if !IsAuthenticated(ctx) then Challenge(EntryPoint(Some(path)))
      else if a in ctx.authentication.value.Authorities() then Proceed
      else Forbidden
  }

  /** An unauthenticated API call is answered with the JSON 401, never with
      a redirect. */
  lemma {:induction false} UnauthenticatedApiGets401(rest: string, ctx: SecurityContext)
    requires !IsAuthenticated(ctx)
    requires !IsPublic("/api" + rest)
    ensures Authorize("/api" + rest, ctx).Challenge?
    ensures Authorize("/api" + rest, ctx).response.Unauthorized?
  {
    StartsWithConcat("/api", rest);
  }
}
