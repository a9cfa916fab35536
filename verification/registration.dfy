/** `AuthController.register`: the password-confirmation check, the
    registration itself, and the automatic login that follows it. */
module Registration {
  import opened Wrappers
  import opened Domain
  import opened TokenStore
  import opened Session
  import opened Accounts
  import opened Http

  /** The fields of the sign-up form the endpoint reads. */
  datatype SignUpForm = SignUpForm(
    username: string,
    email: string,
    password: Option<string>,
    passwordConfirm: Option<string>,
    nickname: Option<string>,
    country: string)

  datatype SignUpResponse =
    /** Registered and logged in: the body and cookies of a login. */
    | SignedUpAndLoggedIn(accessToken: string, username: string, cookies: seq<ResponseCookie>)
    /** Registered, but the automatic login failed: the client must log in. */
    | SignedUpOnly(username: string)
    | PasswordsDiffer
    | AlreadyRegistered(reason: RegisterError)
  {
    function Status(): int {
      if SignedUpAndLoggedIn? || SignedUpOnly? then 200 else 400
    }
  }

  datatype SignUp = SignUp(response: SignUpResponse, members: seq<MemberRecord>, store: Redis)

  /** The row the endpoint builds: the encoded password, the `ROLE_USER`
      role (found or created, so its row is a parameter) and no reset token. */
  function NewMember(encoder: PasswordEncoder, form: SignUpForm, password: string, userRole: Role): (m: MemberRecord)
    ensures m.username == form.username && m.email == form.email && m.nickname == form.nickname
    ensures m.passwordHash == encoder.encode(password)
    ensures m.roles == [userRole] && m.resetToken.None? && m.resetTokenExpiry.None?
  {
    MemberRecord(0, form.username, encoder.encode(password), form.email, form.nickname, form.country, None, None, [userRole])
  }

  /** `register`. The automatic login runs without a request, so its cookies
      are never marked secure; any failure in it (rejected credentials, an
      unreachable token store) still answers 200 with the sign-up alone. */
  function SignUpApi(env: Env, store: Redis, form: SignUpForm, userRole: Role): (s: SignUp)
    ensures s.response == PasswordsDiffer <==>
      form.password.None? || form.passwordConfirm.None? || form.password != form.passwordConfirm
    ensures s.response.PasswordsDiffer? || s.response.AlreadyRegistered? ==> s.members == env.members && s.store == store
    ensures s.response.AlreadyRegistered? ==>
      Register(env.members, NewMember(env.encoder, form, form.password.value, userRole)) == Err(s.response.reason)
    ensures s.response.SignedUpAndLoggedIn? || s.response.SignedUpOnly? ==>
      && form.password.Some? && form.password == form.passwordConfirm
      && var reg := Register(env.members, NewMember(env.encoder, form, form.password.value, userRole));
      && reg.Ok? && s.members == reg.value.members
      && var login := Login(env.(members := s.members, secure := false), store, Some(form.username), form.password);
      && s.store == login.store
      && (s.response.SignedUpAndLoggedIn? <==> login.response.LoggedIn?)
      && (s.response.SignedUpAndLoggedIn? ==> s.response.accessToken == login.response.accessToken)
      && (s.response.SignedUpAndLoggedIn? ==> s.response.cookies == login.response.cookies)
    ensures s.response.SignedUpAndLoggedIn? ==>
      && |s.response.cookies| == 2
      && s.response.cookies[1].name == RefreshTokenCookie
      && forall i :: 0 <= i < |s.response.cookies| ==> !s.response.cookies[i].secure
  {
    if form.password.None? || form.passwordConfirm.None? || form.password != form.passwordConfirm then
      SignUp(PasswordsDiffer, env.members, store)
    else
      var member := NewMember(env.encoder, form, form.password.value, userRole);
      match Register(env.members, member)
      case Err(e) => SignUp(AlreadyRegistered(e), env.members, store)
      case Ok(reg) =>
        var login := Login(env.(members := reg.members, secure := false), store, Some(form.username), form.password);
        match login.response
        case LoggedIn(access, _, cookies) => SignUp(SignedUpAndLoggedIn(access, form.username, cookies), reg.members, login.store)
        case _ => SignUp(SignedUpOnly(form.username), reg.members, login.store)
  }

  /** With an encoder whose hashes match their own passwords and a reachable
      store, a sign-up that passes the duplicate checks is logged in at once. */
  lemma {:induction false} SignUpLogsIn(env: Env, store: Redis, form: SignUpForm, userRole: Role)
    requires forall p :: env.encoder.matches(p, env.encoder.encode(p))
    requires env.online
    requires form.password.Some? && form.password == form.passwordConfirm
    requires Register(env.members, NewMember(env.encoder, form, form.password.value, userRole)).Ok?
    ensures SignUpApi(env, store, form, userRole).response.SignedUpAndLoggedIn?
  {
    var member := NewMember(env.encoder, form, form.password.value, userRole);
    var ms' := Register(env.members, member).value.members;
    var k := |env.members|;
    assert ms'[k] == member.(id := ms'[k].id);
    assert FindByUsername(ms', form.username) == Some(k) by {
      assert FindByUsername(env.members, form.username).None?;
      forall j | 0 <= j < k ensures ms'[j].username != form.username {
        assert ms'[j] == env.members[j];
      }
    }
    assert env.encoder.matches(form.password.value, ms'[k].passwordHash);
  }
}
