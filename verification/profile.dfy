/** `ProfileController`: account deletion, nickname change and password
    change from the profile page, with their form checks and the mapping of
    service errors to the flash message shown after the redirect. */
module Profile {
  import opened Wrappers
  import opened Text
  import opened Domain
  import opened TokenStore
  import opened Http
  import opened Session
  import opened Accounts
  import opened PasswordMatches

  const EmailInputError: string := "email_input_error"
  const PasswordInputErrorKey: string := "password_input_error"
  const DeleteFailed: string := "delete_failed"
  const DuplicateNicknameKey: string := "duplicate_nickname"
  const MemberNotFoundMessage: string := "회원을 찾을 수 없습니다."
  const NicknameTakenMessage: string := "이미 존재하는 닉네임입니다."

  /** The message of the `IllegalArgumentException` each service error is. */
  function ErrorMessage(e: MemberError): (msg: string)
    ensures !IsBlank(msg)
  {
    match e
    case MemberNotFound =>
      assert !IsWhitespace(MemberNotFoundMessage[0]);
      MemberNotFoundMessage
    case NicknameTaken =>
      assert !IsWhitespace(NicknameTakenMessage[0]);
      NicknameTakenMessage
    case PasswordInputError =>
      assert !IsWhitespace(PasswordInputErrorKey[0]);
      PasswordInputErrorKey
  }

  /** A blank exception message is shown as `password_input_error`. */
  function Reason(msg: string): (r: string)
    ensures IsBlank(msg) ==> r == PasswordInputErrorKey
    ensures !IsBlank(msg) ==> r == msg
  {
    if IsBlank(msg) then PasswordInputErrorKey else msg
  }

  /** Every service error is shown with its own message, so the blank
      fallback is never reached from a service error, and the flash message
      tells the errors apart. */
  lemma {:induction false} ServiceErrorsShownVerbatim(e1: MemberError, e2: MemberError)
    ensures Reason(ErrorMessage(e1)) == ErrorMessage(e1)
    ensures Reason(ErrorMessage(e1)) == Reason(ErrorMessage(e2)) <==> e1 == e2
  {
    assert MemberNotFoundMessage[0] != NicknameTakenMessage[0];
    assert MemberNotFoundMessage[0] != PasswordInputErrorKey[0];
    assert NicknameTakenMessage[0] != PasswordInputErrorKey[0];
  }

  datatype Flash = FlashError(error: string) | FlashSuccess(success: string)

  /** Where the browser is sent, what it is told, and the cookies set. */
  datatype Page = Page(location: string, flash: Flash, cookies: seq<ResponseCookie>)

  const ProfilePage: string := "/members/profile"

  function ToProfile(flash: Flash): Page {
    Page(ProfilePage, flash, [])
  }

  // --------------------------------------------------------- form checks

  /** The declarative constraints of the request objects, evaluated: each
      returns the names of the fields that fail. `@Email` is library code,
      so it is a parameter. `@NotBlank` is Hibernate's check: present, and
      not empty once `String.trim` has removed the characters at or below
      U+0020 at both ends. `@Size` counts UTF-16 code units. */
  predicate NotBlank(v: Option<string>) {
    v.Some? && |Trim(v.value)| > 0
  }

  /** A value passes `@NotBlank` exactly when some character of it is above
      U+0020. */
  lemma {:induction false} NotBlankHasVisibleChar(v: Option<string>)
    ensures NotBlank(v) <==> v.Some? && exists i :: 0 <= i < |v.value| && !IsTrimmed(v.value[i])
  {
  }

  predicate AtLeastSix(v: Option<string>) {
    v.None? || Utf16Length(v.value) >= 6
  }

  datatype DeleteAccountForm = DeleteAccountForm(email: Option<string>, password: Option<string>, confirmPassword: Option<string>)

  function DeleteAccountFieldErrors(form: DeleteAccountForm, isEmail: string -> bool): (fields: seq<string>)
    ensures "email" in fields <==> !NotBlank(form.email) || !isEmail(form.email.value)
    ensures |fields| == 0 <==> NotBlank(form.email) && isEmail(form.email.value)
                               && NotBlank(form.password) && AtLeastSix(form.password) && NotBlank(form.confirmPassword)
  {
    (if NotBlank(form.email) && isEmail(form.email.value) then [] else ["email"])
    + (if NotBlank(form.password) && AtLeastSix(form.password) then [] else ["password"])
    + (if NotBlank(form.confirmPassword) then [] else ["confirmPassword"])
  }

  /** Whether binding recorded any error: a field constraint, or the
      class-level password confirmation. */
  predicate DeleteAccountHasErrors(form: DeleteAccountForm, isEmail: string -> bool) {
    |DeleteAccountFieldErrors(form, isEmail)| > 0 || !IsValid(Some(PasswordPair(form.password, form.confirmPassword)))
  }

  // ---------------------------------------------------- account deletion

  datatype Outcome = Outcome(page: Page, db: Db, store: Redis)

  /** `deleteAccount`: form errors, then the member lookup, then the e-mail
      (trimmed, case-insensitive), then the service deletion; only after it
      succeeds are the tokens deleted and the cookies cleared. A store that
      does not answer then yields `delete_failed`, with the account already
      gone. */
  function DeleteAccount(db: Db, store: Redis, encoder: PasswordEncoder, online: bool, secure: bool,
                         isEmail: string -> bool, username: string, form: DeleteAccountForm): (o: Outcome)
    ensures DeleteAccountHasErrors(form, isEmail) ==>
      && o.page == ToProfile(FlashError(if "email" in DeleteAccountFieldErrors(form, isEmail) then EmailInputError else PasswordInputErrorKey))
      && o.db == db && o.store == store
    ensures !DeleteAccountHasErrors(form, isEmail) && FindByUsername(db.members, username).None? ==>
      o == Outcome(ToProfile(FlashError(MemberNotFoundMessage)), db, store)
    ensures !DeleteAccountHasErrors(form, isEmail) && FindByUsername(db.members, username).Some? ==>
      var member := db.members[FindByUsername(db.members, username).value];
      var typed := Trim(if form.email.Some? then form.email.value else "");
      && (!EqualsIgnoreCase(member.email, typed) ==> o == Outcome(ToProfile(FlashError(EmailInputError)), db, store))
      && (EqualsIgnoreCase(member.email, typed) ==>
            var deleted := DeleteOwnAccount(db, encoder, username, form.password.value);
            && (deleted.Err? ==> o == Outcome(ToProfile(FlashError(Reason(ErrorMessage(deleted.error)))), db, store))
            && (deleted.Ok? && !online ==> o == Outcome(ToProfile(FlashError(DeleteFailed)), deleted.value, store))
            && (deleted.Ok? && online ==>
                  && o.page == Page("/", FlashSuccess("account_deleted"), ClearedCookies(secure))
                  && o.db == deleted.value
                  && o.store == DeleteUserTokens(store, username)))
  {
    if DeleteAccountHasErrors(form, isEmail) then
      var emailError := "email" in DeleteAccountFieldErrors(form, isEmail);
      Outcome(ToProfile(FlashError(if emailError then EmailInputError else PasswordInputErrorKey)), db, store)
    else
      match FindByUsername(db.members, username)
      case None => Outcome(ToProfile(FlashError(Reason(ErrorMessage(MemberNotFound)))), db, store)
      case Some(i) =>
        var typed := Trim(if form.email.Some? then form.email.value else "");
        if !EqualsIgnoreCase(db.members[i].email, typed) then Outcome(ToProfile(FlashError(EmailInputError)), db, store)
        else
          match DeleteOwnAccount(db, encoder, username, form.password.value)
          case Err(e) => Outcome(ToProfile(FlashError(Reason(ErrorMessage(e)))), db, store)
          case Ok(db') =>
            if !online then Outcome(ToProfile(FlashError(DeleteFailed)), db', store)
            else Outcome(Page("/", FlashSuccess("account_deleted"), ClearedCookies(secure)), db', DeleteUserTokens(store, username))
  }

  /** The tokens are only ever touched after the account is gone, and the
      account is only ever gone with the password checked. */
  lemma {:induction false} TokensOutliveNoAccount(db: Db, store: Redis, encoder: PasswordEncoder, online: bool, secure: bool,
                                                 isEmail: string -> bool, username: string, form: DeleteAccountForm)
    ensures var o := DeleteAccount(db, store, encoder, online, secure, isEmail, username, form);
            && (o.store != store ==> o.db != db)
            && (o.db != db ==> form.password.Some? && DeleteOwnAccount(db, encoder, username, form.password.value) == Ok(o.db))
            && (o.page.flash == FlashSuccess("account_deleted") ==> o.store == DeleteUserTokens(store, username))
  {
    var o := DeleteAccount(db, store, encoder, online, secure, isEmail, username, form);
    if !DeleteAccountHasErrors(form, isEmail) && FindByUsername(db.members, username).Some? {
      var member := db.members[FindByUsername(db.members, username).value];
      var typed := Trim(if form.email.Some? then form.email.value else "");
      if EqualsIgnoreCase(member.email, typed) {
        var deleted := DeleteOwnAccount(db, encoder, username, form.password.value);
        if deleted.Ok? {
          assert o.db == deleted.value;
          assert deleted.value != db;
        } else {
          assert o.db == db && o.store == store;
        }
      } else {
        assert o.db == db && o.store == store;
      }
    } else {
      assert o.db == db && o.store == store;
    }
  }

  /** A wrong password is reported as `password_input_error` and deletes
      nothing. */
  lemma {:induction false} WrongPasswordDeletesNothing(db: Db, store: Redis, encoder: PasswordEncoder, online: bool, secure: bool,
                                                      isEmail: string -> bool, username: string, form: DeleteAccountForm)
    requires !DeleteAccountHasErrors(form, isEmail)
    requires FindByUsername(db.members, username).Some?
    requires EqualsIgnoreCase(db.members[FindByUsername(db.members, username).value].email, Trim(form.email.value))
    requires !encoder.matches(form.password.value, db.members[FindByUsername(db.members, username).value].passwordHash)
    ensures DeleteAccount(db, store, encoder, online, secure, isEmail, username, form)
         == Outcome(ToProfile(FlashError(PasswordInputErrorKey)), db, store)
  {
    assert ErrorMessage(PasswordInputError) == PasswordInputErrorKey;
  }

  // ------------------------------------------------------------ nickname

  /** Java's `\s`: space, tab, newline, vertical tab, form feed, return. */
  predicate IsRegexSpace(c: char) {
    c == ' ' || c == '\t' || c == '\n' || c == '\U{B}' || c == '\U{C}' || c == '\r'
  }

  /** `@NotBlank`, `@Size(max = 12)` and `@Pattern("^\\S+$")`. */
  predicate IsValidNicknameInput(nickname: Option<string>) {
    && NotBlank(nickname)
    && Utf16Length(nickname.value) <= 12
    && |nickname.value| > 0
    && forall i :: 0 <= i < |nickname.value| ==> !IsRegexSpace(nickname.value[i])
  }

  /** The profile endpoints' result: a redirect, or the framework's 400 for a
      request object that failed its constraints (there is no
      `BindingResult` to catch them). */
  datatype ProfileResult = Redirected(page: Page, members: seq<MemberRecord>) | RejectedByValidation

  /** `updateNicknameConfirmed`: every service error, a missing member
      included, is shown as `duplicate_nickname`. */
  function UpdateNicknameConfirmed(ms: seq<MemberRecord>, username: string, nickname: Option<string>): (r: ProfileResult)
    ensures r == RejectedByValidation <==> !IsValidNicknameInput(nickname)
    ensures r.Redirected? ==>
      var u := UpdateNickname(ms, username, nickname);
      && (u.Err? ==> r == Redirected(ToProfile(FlashError(DuplicateNicknameKey)), ms))
      && (u.Ok? ==> r == Redirected(ToProfile(FlashSuccess("nickname_updated")), u.value))
  {
    if !IsValidNicknameInput(nickname) then RejectedByValidation
    else match UpdateNickname(ms, username, nickname)
      case Err(_) => Redirected(ToProfile(FlashError(DuplicateNicknameKey)), ms)
      case Ok(ms') => Redirected(ToProfile(FlashSuccess("nickname_updated")), ms')
  }

  // ------------------------------------------------------------ password

  datatype ChangePasswordForm = ChangePasswordForm(currentPassword: Option<string>, newPassword: Option<string>,
                                                   confirmPassword: Option<string>)

  predicate ChangePasswordFormValid(form: ChangePasswordForm) {
    && NotBlank(form.currentPassword)
    && NotBlank(form.newPassword) && AtLeastSix(form.newPassword)
    && NotBlank(form.confirmPassword)
    && IsValid(Some(PasswordPair(form.newPassword, form.confirmPassword)))
  }

  /** `changePassword`: a service error is shown by its message (a blank one
      as `password_input_error`). */
  function ChangePasswordPage(ms: seq<MemberRecord>, encoder: PasswordEncoder, username: string, form: ChangePasswordForm)
    : (r: ProfileResult)
    ensures r == RejectedByValidation <==> !ChangePasswordFormValid(form)
    ensures r.Redirected? ==>
      var c := ChangePassword(ms, encoder, username, form.currentPassword.value, form.newPassword.value, form.confirmPassword.value);
      && (c.Err? ==> r == Redirected(ToProfile(FlashError(Reason(ErrorMessage(c.error)))), ms))
      && (c.Ok? ==> r == Redirected(ToProfile(FlashSuccess("password_updated")), c.value))
  {
    if !ChangePasswordFormValid(form) then RejectedByValidation
    else match ChangePassword(ms, encoder, username, form.currentPassword.value, form.newPassword.value, form.confirmPassword.value)
      case Err(e) => Redirected(ToProfile(FlashError(Reason(ErrorMessage(e)))), ms)
      case Ok(ms') => Redirected(ToProfile(FlashSuccess("password_updated")), ms')
  }

  /** Once the form is accepted the new password equals its confirmation. */
  lemma {:induction false} AcceptedFormConfirmsPassword(ms: seq<MemberRecord>, encoder: PasswordEncoder, username: string,
                                                       form: ChangePasswordForm)
    ensures ChangePasswordPage(ms, encoder, username, form).Redirected? ==> form.newPassword == form.confirmPassword
  {
    if ChangePasswordFormValid(form) {
      IsValidFacts(form.newPassword, form.confirmPassword);
    }
  }
}
