/** `MemberController`'s password-reset pages: the request for a reset mail,
    the form that carries the token, and the form's submission. */
module PasswordReset {
  import opened Wrappers
  import opened Domain
  import opened Accounts

  const LoginForm: string := "/members/loginForm"
  const ResetPasswordPage: string := "/members/reset-password"

  const MailSentMessage: string := "입력하신 이메일로 비밀번호 재설정 메일이 발송되었습니다."
  const InvalidOrExpiredMessage: string := "유효하지 않거나 만료된 토큰입니다."
  const PasswordsDifferMessage: string := "비밀번호가 일치하지 않습니다."
  const InvalidTokenMessage: string := "유효하지 않은 토큰입니다."
  const TokenExpiredMessage: string := "토큰이 만료되었습니다."
  const PasswordChangedMessage: string := "비밀번호가 성공적으로 변경되었습니다."

  /** The message of the exception `resetPassword` throws. */
  function ResetErrorMessage(e: ResetError): string {
    match e
    case InvalidResetToken => InvalidTokenMessage
    case ResetTokenExpired => TokenExpiredMessage
  }

  datatype Flash = FlashMessage(msg: string) | FlashError(error: string)

  /** A redirect with its flash attribute and, when sent back to the form,
      the token as a query parameter. */
  datatype Redirect = Redirect(location: string, flash: Flash, token: Option<string>)

  datatype ResetRequestResult = ResetRequestResult(page: Redirect, members: seq<MemberRecord>, mail: Option<ResetMail>)

  /** `handleResetRequest`: whatever the address, the same redirect and the
      same message. */
  function HandleResetRequest(ms: seq<MemberRecord>, email: string, token: string, now: int): (r: ResetRequestResult)
    ensures r.page == Redirect(LoginForm, FlashMessage(MailSentMessage), None)
    ensures r.members == CreatePasswordResetToken(ms, email, token, now).members
    ensures r.mail == CreatePasswordResetToken(ms, email, token, now).mail
  {
    var created := CreatePasswordResetToken(ms, email, token, now);
    ResetRequestResult(Redirect(LoginForm, FlashMessage(MailSentMessage), None), created.members, created.mail)
  }

  /** The page cannot be used to learn whether an address is registered:
      a known and an unknown address get the same answer, and only the known
      one gets a mail. */
  lemma {:induction false} ResetRequestRevealsNothing(ms: seq<MemberRecord>, known: string, unknown: string, token: string, now: int)
    requires FindByEmail(ms, known).Some? && FindByEmail(ms, unknown).None?
    ensures HandleResetRequest(ms, known, token, now).page == HandleResetRequest(ms, unknown, token, now).page
    ensures HandleResetRequest(ms, known, token, now).mail == Some(ResetMail(known, token))
    ensures HandleResetRequest(ms, unknown, token, now) == ResetRequestResult(HandleResetRequest(ms, known, token, now).page, ms, None)
  {
  }

  /** The model of the form view: the token when it may be used, an error
      otherwise. */
  datatype FormView = FormView(token: Option<string>, error: Option<string>)

  /** `resetPasswordForm`. */
  function ResetPasswordForm(ms: seq<MemberRecord>, token: string, now: int): (v: FormView)
    ensures v.token.Some? <==> IsResetTokenValid(ms, token, now)
    ensures v.token.Some? ==> v.token.value == token && v.error.None?
    ensures v.token.None? ==> v.error == Some(InvalidOrExpiredMessage)
  {
    if !IsResetTokenValid(ms, token, now) then FormView(None, Some(InvalidOrExpiredMessage))
    else FormView(Some(token), None)
  }

  datatype ResetSubmitted = ResetSubmitted(page: Redirect, members: seq<MemberRecord>)

  /** `handleResetPassword`: a confirmation that differs sends the user back
      before the service is called; a service error sends the user back with
      its message; success leads to the login form. */
  function HandleResetPassword(ms: seq<MemberRecord>, encoder: PasswordEncoder, token: string,
                               password: string, passwordConfirm: string, now: int): (r: ResetSubmitted)
    ensures password != passwordConfirm ==>
      r == ResetSubmitted(Redirect(ResetPasswordPage, FlashError(PasswordsDifferMessage), Some(token)), ms)
    ensures password == passwordConfirm ==>
      var reset := ResetPassword(ms, encoder, token, password, now);
      && (reset.Err? ==> r == ResetSubmitted(Redirect(ResetPasswordPage, FlashError(ResetErrorMessage(reset.error)), Some(token)), ms))
      && (reset.Ok? ==> r == ResetSubmitted(Redirect(LoginForm, FlashMessage(PasswordChangedMessage), None), reset.value))
  {
    if password != passwordConfirm then
      ResetSubmitted(Redirect(ResetPasswordPage, FlashError(PasswordsDifferMessage), Some(token)), ms)
    else
      match ResetPassword(ms, encoder, token, password, now)
      case Err(e) => ResetSubmitted(Redirect(ResetPasswordPage, FlashError(ResetErrorMessage(e)), Some(token)), ms)
      case Ok(ms') => ResetSubmitted(Redirect(LoginForm, FlashMessage(PasswordChangedMessage), None), ms')
  }

  /** The form and its submission disagree at the expiry instant: the form
      turns the user away while a submission made then would succeed. */
  lemma {:induction false} FormRefusesWhatSubmitAccepts(ms: seq<MemberRecord>, encoder: PasswordEncoder, token: string,
                                                       password: string, now: int)
    requires FindByResetToken(ms, token).Some?
    requires ms[FindByResetToken(ms, token).value].resetTokenExpiry == Some(now)
    ensures ResetPasswordForm(ms, token, now).token.None?
    ensures HandleResetPassword(ms, encoder, token, password, password, now).page.location == LoginForm
  {
    ResetBoundaryDisagreement(ms, encoder, token, password, now);
  }

  /** Only a submission whose reset succeeded changes the member table, and
      then (tokens being unique, as random UUIDs are) the token can no longer
      be found. */
  lemma {:induction false} SubmissionChangesOnlyOnSuccess(ms: seq<MemberRecord>, encoder: PasswordEncoder, token: string,
                                                         password: string, passwordConfirm: string, now: int)
    requires forall i, j :: 0 <= i < |ms| && 0 <= j < |ms| && ms[i].resetToken == Some(token) && ms[j].resetToken == Some(token) ==> i == j
    ensures var r := HandleResetPassword(ms, encoder, token, password, passwordConfirm, now);
            r.members != ms ==> r.page.location == LoginForm && password == passwordConfirm
                                && FindByResetToken(r.members, token).None?
  {
    var r := HandleResetPassword(ms, encoder, token, password, passwordConfirm, now);
    if r.members != ms {
      var i := FindByResetToken(ms, token).value;
      forall j | 0 <= j < |r.members| ensures r.members[j].resetToken != Some(token) {
        if j != i { assert r.members[j] == ms[j]; }
      }
    }
  }
}
