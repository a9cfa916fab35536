/** `MemberService`: registration with its duplicate checks, the password
    reset token, nickname and password changes, and account deletion, as
    functions of the database tables. */
module Accounts {
  import opened Wrappers
  import opened Text
  import opened Domain
  import opened Seqs
  import opened MessageRepository

  /** The tables the account operations touch. */
  datatype Db = Db(members: seq<MemberRecord>, ownerships: seq<Ownership>, messages: seq<MessageRecord>)

  /** A reset token lives for one hour. */
  const ResetTokenValidityMs: int := 3600000

  /** A nickname the duplicate check looks at: present and not blank. */
  predicate IsRealNickname(nickname: Option<string>) {
    nickname.Some? && !IsBlank(nickname.value)
  }

  /** What the unique constraints and the duplicate checks keep: identifiers,
      e-mails and user names are unique, and so are the non-blank nicknames. */
  ghost predicate UniqueAccounts(ms: seq<MemberRecord>) {
    forall i, j :: 0 <= i < j < |ms| ==>
      && ms[i].id != ms[j].id
      && ms[i].email != ms[j].email
      && ms[i].username != ms[j].username
      && (IsRealNickname(ms[i].nickname) ==> ms[i].nickname != ms[j].nickname)
  }

  // ------------------------------------------------------------ register

  datatype RegisterError = DuplicateEmail | DuplicateUsername | DuplicateNickname

  /** The identity column's next value: above every identifier in use. */
  function NextId(ms: seq<MemberRecord>): (r: int)
    ensures r >= 1
    ensures forall i :: 0 <= i < |ms| ==> ms[i].id < r
  {
    if |ms| == 0 then 1
    else
      var rest := NextId(ms[1..]);
      assert forall i :: 1 <= i < |ms| ==> ms[i] == ms[1..][i - 1];
      if ms[0].id >= rest then ms[0].id + 1 else rest
  }

  datatype Registered = Registered(id: int, members: seq<MemberRecord>)

  /** `register` with `validateDuplicateMember`: e-mail, then user name, then
      (only when it is not blank) nickname; the first clash fails and nothing
      is saved. */
  function Register(ms: seq<MemberRecord>, m: MemberRecord): (r: Result<Registered, RegisterError>)
    ensures r == Err(DuplicateEmail) <==> FindByEmail(ms, m.email).Some?
    ensures r == Err(DuplicateUsername) <==> FindByEmail(ms, m.email).None? && FindByUsername(ms, m.username).Some?
    ensures r == Err(DuplicateNickname) <==>
      && FindByEmail(ms, m.email).None? && FindByUsername(ms, m.username).None?
      && IsRealNickname(m.nickname) && ExistsByNickname(ms, m.nickname.value)
    ensures r.Ok? ==>
      && (forall i :: 0 <= i < |ms| ==> ms[i].id != r.value.id)
      && r.value.members == ms + [m.(id := r.value.id)]
  {
    if FindByEmail(ms, m.email).Some? then Err(DuplicateEmail)
    else if FindByUsername(ms, m.username).Some? then Err(DuplicateUsername)
    else if IsRealNickname(m.nickname) && ExistsByNickname(ms, m.nickname.value) then Err(DuplicateNickname)
    else
      var id := NextId(ms);
      Ok(Registered(id, ms + [m.(id := id)]))
  }

  /** The duplicate checks keep the table's uniqueness. */
  lemma {:induction false} RegisterKeepsAccountsUnique(ms: seq<MemberRecord>, m: MemberRecord)
    requires UniqueAccounts(ms)
    ensures var r := Register(ms, m); r.Ok? ==> UniqueAccounts(r.value.members)
  {
    var r := Register(ms, m);
    if r.Ok? {
      var ms' := r.value.members;
      forall i, j | 0 <= i < j < |ms'|
        ensures && ms'[i].id != ms'[j].id
                && ms'[i].email != ms'[j].email
                && ms'[i].username != ms'[j].username
                && (IsRealNickname(ms'[i].nickname) ==> ms'[i].nickname != ms'[j].nickname)
      {
        if j == |ms| {
          assert ms'[i] == ms[i] && ms'[j].email == m.email && ms'[j].username == m.username;
          if IsRealNickname(ms[i].nickname) && ms[i].nickname == m.nickname {
            assert ExistsByNickname(ms, m.nickname.value);
          }
        } else {
          assert ms'[i] == ms[i] && ms'[j] == ms[j];
        }
      }
    }
  }

  // ------------------------------------------------- password reset token

  /** The reset mail: to the address asked for, carrying the token. */
  datatype ResetMail = ResetMail(to: string, token: string)

  datatype ResetRequested = ResetRequested(members: seq<MemberRecord>, mail: Option<ResetMail>)

  /** `createPasswordResetToken`: the token (a random UUID) and the clock are
      parameters. Only the member with that e-mail changes, and only that
      member is mailed; an unknown address changes nothing. */
  function CreatePasswordResetToken(ms: seq<MemberRecord>, email: string, token: string, now: int): (r: ResetRequested)
    ensures |r.members| == |ms|
    ensures FindByEmail(ms, email).None? ==> r.members == ms && r.mail.None?
    ensures FindByEmail(ms, email).Some? ==>
      var i := FindByEmail(ms, email).value;
      && r.members[i] == ms[i].(resetToken := Some(token), resetTokenExpiry := Some(now + ResetTokenValidityMs))
      && (forall j :: 0 <= j < |ms| && j != i ==> r.members[j] == ms[j])
      && r.mail == Some(ResetMail(email, token))
  {
    match FindByEmail(ms, email)
    case None => ResetRequested(ms, None)
    case Some(i) =>
      var m := ms[i].(resetToken := Some(token), resetTokenExpiry := Some(now + ResetTokenValidityMs));
      ResetRequested(ms[i := m], Some(ResetMail(email, token)))
  }

  /** `isResetTokenValid`: the expiry must be strictly after now. */
  predicate IsResetTokenValid(ms: seq<MemberRecord>, token: string, now: int) {
    var i := FindByResetToken(ms, token);
    i.Some? && ms[i.value].resetTokenExpiry.Some? && ms[i.value].resetTokenExpiry.value > now
  }

  /** Both carry the message text of their exception. */
  datatype ResetError = InvalidResetToken | ResetTokenExpired

  /** `resetPassword`: an unknown token fails; a missing expiry or one
      strictly before now fails; otherwise the new password is stored encoded
      and the token is cleared. */
  function ResetPassword(ms: seq<MemberRecord>, encoder: PasswordEncoder, token: string, newPassword: string, now: int)
    : (r: Result<seq<MemberRecord>, ResetError>)
    ensures r == Err(InvalidResetToken) <==> FindByResetToken(ms, token).None?
    ensures r == Err(ResetTokenExpired) <==>
      var i := FindByResetToken(ms, token);
      i.Some? && (ms[i.value].resetTokenExpiry.None? || ms[i.value].resetTokenExpiry.value < now)
    ensures r.Ok? ==>
      var i := FindByResetToken(ms, token).value;
      && |r.value| == |ms|
      && r.value[i] == ms[i].(passwordHash := encoder.encode(newPassword), resetToken := None, resetTokenExpiry := None)
      && (forall j :: 0 <= j < |ms| && j != i ==> r.value[j] == ms[j])
  {
    match FindByResetToken(ms, token)
    case None => Err(InvalidResetToken)
    case Some(i) =>
      if ms[i].resetTokenExpiry.None? || ms[i].resetTokenExpiry.value < now then Err(ResetTokenExpired)
      else Ok(ms[i := ms[i].(passwordHash := encoder.encode(newPassword), resetToken := None, resetTokenExpiry := None)])
  }

  /** The two checks disagree at exactly one instant: at `expiry == now` the
      form calls the token invalid, yet the reset itself still succeeds. */
  lemma {:induction false} ResetBoundaryDisagreement(ms: seq<MemberRecord>, encoder: PasswordEncoder, token: string,
                                                    newPassword: string, now: int)
    requires FindByResetToken(ms, token).Some?
    requires ms[FindByResetToken(ms, token).value].resetTokenExpiry == Some(now)
    ensures !IsResetTokenValid(ms, token, now)
    ensures ResetPassword(ms, encoder, token, newPassword, now).Ok?
  {
  }

  /** Apart from that instant the two checks agree: the reset succeeds
      exactly when the token is valid or expires right now. */
  lemma {:induction false} ResetAgreesWithValidity(ms: seq<MemberRecord>, encoder: PasswordEncoder, token: string,
                                                  newPassword: string, now: int)
    ensures ResetPassword(ms, encoder, token, newPassword, now).Ok? <==>
            IsResetTokenValid(ms, token, now)
            || (FindByResetToken(ms, token).Some? && ms[FindByResetToken(ms, token).value].resetTokenExpiry == Some(now))
  {
  }

  /** A fresh token just issued to a known address is valid for the next
      hour and then invalid; a successful reset uses it up. */
  lemma {:induction false} FreshResetTokenLifecycle(ms: seq<MemberRecord>, email: string, token: string, issued: int,
                                                   encoder: PasswordEncoder, newPassword: string, now: int)
    requires FindByEmail(ms, email).Some?
    requires FindByResetToken(ms, token).None?
    ensures var ms' := CreatePasswordResetToken(ms, email, token, issued).members;
            && (IsResetTokenValid(ms', token, now) <==> now < issued + ResetTokenValidityMs)
            && (ResetPassword(ms', encoder, token, newPassword, now).Ok? <==> now <= issued + ResetTokenValidityMs)
            && (ResetPassword(ms', encoder, token, newPassword, now).Ok? ==>
                  FindByResetToken(ResetPassword(ms', encoder, token, newPassword, now).value, token).None?)
  {
    var i := FindByEmail(ms, email).value;
    var ms' := CreatePasswordResetToken(ms, email, token, issued).members;
    assert FindByResetToken(ms', token) == Some(i) by {
      assert ms'[i].resetToken == Some(token);
      forall j | 0 <= j < i ensures ms'[j].resetToken != Some(token) {
        assert ms'[j] == ms[j];
      }
    }
    var r := ResetPassword(ms', encoder, token, newPassword, now);
    if r.Ok? {
      forall j | 0 <= j < |r.value| ensures r.value[j].resetToken != Some(token) {
        if j != i { assert r.value[j] == ms'[j] == ms[j]; }
      }
    }
  }

  // ------------------------------------------------------------- nickname

  datatype MemberError = MemberNotFound | NicknameTaken | PasswordInputError

  /** `updateNickname`: a non-blank nickname any member already has (the
      caller included) is refused; anything else, blank or absent included,
      replaces the nickname. */
  function UpdateNickname(ms: seq<MemberRecord>, username: string, nickname: Option<string>)
    : (r: Result<seq<MemberRecord>, MemberError>)
    ensures r == Err(MemberNotFound) <==> FindByUsername(ms, username).None?
    ensures r == Err(NicknameTaken) <==>
      FindByUsername(ms, username).Some? && IsRealNickname(nickname) && ExistsByNickname(ms, nickname.value)
    ensures r.Ok? ==>
      var i := FindByUsername(ms, username).value;
      && |r.value| == |ms|
      && r.value[i] == ms[i].(nickname := nickname)
      && (forall j :: 0 <= j < |ms| && j != i ==> r.value[j] == ms[j])
  {
    match FindByUsername(ms, username)
    case None => Err(MemberNotFound)
    case Some(i) =>
      if IsRealNickname(nickname) && ExistsByNickname(ms, nickname.value) then Err(NicknameTaken)
      else Ok(ms[i := ms[i].(nickname := nickname)])
  }

  /** Asking for the nickname one already has is refused as a duplicate. */
  lemma {:induction false} OwnNicknameIsTaken(ms: seq<MemberRecord>, username: string)
    requires FindByUsername(ms, username).Some?
    requires IsRealNickname(ms[FindByUsername(ms, username).value].nickname)
    ensures UpdateNickname(ms, username, ms[FindByUsername(ms, username).value].nickname) == Err(NicknameTaken)
  {
    var i := FindByUsername(ms, username).value;
    assert ms[i].nickname == Some(ms[i].nickname.value);
  }

  /** The nickname check keeps the table's uniqueness. */
  lemma {:induction false} UpdateNicknameKeepsAccountsUnique(ms: seq<MemberRecord>, username: string, nickname: Option<string>)
    requires UniqueAccounts(ms)
    ensures var r := UpdateNickname(ms, username, nickname); r.Ok? ==> UniqueAccounts(r.value)
  {
    var r := UpdateNickname(ms, username, nickname);
    if r.Ok? {
      var k := FindByUsername(ms, username).value;
      var ms' := r.value;
      forall i, j | 0 <= i < j < |ms'|
        ensures && ms'[i].id != ms'[j].id
                && ms'[i].email != ms'[j].email
                && ms'[i].username != ms'[j].username
                && (IsRealNickname(ms'[i].nickname) ==> ms'[i].nickname != ms'[j].nickname)
      {
        if i == k {
          assert ms'[j] == ms[j];
          if IsRealNickname(nickname) && nickname == ms[j].nickname { assert ExistsByNickname(ms, nickname.value); }
        } else if j == k {
          assert ms'[i] == ms[i];
          if IsRealNickname(ms[i].nickname) && nickname == ms[i].nickname { assert ExistsByNickname(ms, nickname.value); }
        } else {
          assert ms'[i] == ms[i] && ms'[j] == ms[j];
        }
      }
    }
  }

  // ------------------------------------------------------------- password

  /** `changePassword`: the current password must match the stored hash.
      The confirmation is accepted and ignored. */
  function ChangePassword(ms: seq<MemberRecord>, encoder: PasswordEncoder, username: string,
                          currentPassword: string, newPassword: string, confirmPassword: string)
    : (r: Result<seq<MemberRecord>, MemberError>)
    ensures r == Err(MemberNotFound) <==> FindByUsername(ms, username).None?
    ensures r == Err(PasswordInputError) <==>
      FindByUsername(ms, username).Some? && !encoder.matches(currentPassword, ms[FindByUsername(ms, username).value].passwordHash)
    ensures r.Ok? ==>
      var i := FindByUsername(ms, username).value;
      && |r.value| == |ms|
      && r.value[i] == ms[i].(passwordHash := encoder.encode(newPassword))
      && (forall j :: 0 <= j < |ms| && j != i ==> r.value[j] == ms[j])
  {
    match FindByUsername(ms, username)
    case None => Err(MemberNotFound)
    case Some(i) =>
      if !encoder.matches(currentPassword, ms[i].passwordHash) then Err(PasswordInputError)
      else Ok(ms[i := ms[i].(passwordHash := encoder.encode(newPassword))])
  }

  /** The confirmation field has no influence on the outcome. */
  lemma {:induction false} ChangePasswordIgnoresConfirmation(ms: seq<MemberRecord>, encoder: PasswordEncoder, username: string,
                                                            currentPassword: string, newPassword: string, c1: string, c2: string)
    ensures ChangePassword(ms, encoder, username, currentPassword, newPassword, c1)
         == ChangePassword(ms, encoder, username, currentPassword, newPassword, c2)
  {
  }

  // ------------------------------------------------------ account deletion

  /** Removes the row at `i`, keeping the order of the others. */
  function RemoveMember(ms: seq<MemberRecord>, i: nat): (r: seq<MemberRecord>)
    requires i < |ms|
    ensures |r| == |ms| - 1
    ensures forall j :: 0 <= j < i ==> r[j] == ms[j]
    ensures forall j :: i < j < |ms| ==> r[j - 1] == ms[j]
  {
    ms[..i] + ms[i + 1..]
  }

  /** `deleteMember` of the repository's `deleteByMember`. */
  function DeleteOwnershipsOf(os: seq<Ownership>, memberId: int): (r: seq<Ownership>)
    ensures forall o :: o in r <==> o in os && o.memberId != memberId
  {
    Filter(os, (o: Ownership) => o.memberId != memberId)
  }

  /** `deleteOwnAccount`: after the password check, the member's received
      messages, then the sent ones, then the game ownerships, then the member
      row itself are deleted. */
  function DeleteOwnAccount(db: Db, encoder: PasswordEncoder, username: string, rawPassword: string)
    : (r: Result<Db, MemberError>)
    ensures r == Err(MemberNotFound) <==> FindByUsername(db.members, username).None?
    ensures r == Err(PasswordInputError) <==>
      && FindByUsername(db.members, username).Some?
      && !encoder.matches(rawPassword, db.members[FindByUsername(db.members, username).value].passwordHash)
    ensures r.Ok? ==>
      var i := FindByUsername(db.members, username).value;
      var id := db.members[i].id;
      && r.value.members == RemoveMember(db.members, i)
      && (forall m :: m in r.value.messages <==> m in db.messages && m.receiverId != id && m.senderId != Some(id))
      && (forall o :: o in r.value.ownerships <==> o in db.ownerships && o.memberId != id)
  {
    match FindByUsername(db.members, username)
    case None => Err(MemberNotFound)
    case Some(i) =>
      if !encoder.matches(rawPassword, db.members[i].passwordHash) then Err(PasswordInputError)
      else
        var id := db.members[i].id;
        var messages := DeleteAllBySenderId(DeleteAllByReceiverId(db.messages, id), id);
        Ok(Db(RemoveMember(db.members, i), DeleteOwnershipsOf(db.ownerships, id), messages))
  }

  /** With unique identifiers, the deleted account's id is gone from the
      member table and every other member is still there. */
  lemma {:induction false} DeleteOwnAccountRemovesOnlyTheMember(db: Db, encoder: PasswordEncoder, username: string, rawPassword: string)
    requires UniqueAccounts(db.members)
    ensures var r := DeleteOwnAccount(db, encoder, username, rawPassword);
            r.Ok? ==>
              var id := db.members[FindByUsername(db.members, username).value].id;
              && FindById(r.value.members, id).None?
              && FindByUsername(r.value.members, username).None?
              && (forall m :: m in db.members && m.id != id ==> m in r.value.members)
  {
    var r := DeleteOwnAccount(db, encoder, username, rawPassword);
    if r.Ok? {
      var ms := db.members;
      var i := FindByUsername(ms, username).value;
      var id := ms[i].id;
      var ms' := r.value.members;
      forall j | 0 <= j < |ms'| ensures ms'[j].id != id && ms'[j].username != username {
        if j < i { assert ms'[j] == ms[j]; } else { assert ms'[j] == ms[j + 1]; }
      }
      forall m | m in ms && m.id != id ensures m in ms' {
        var k :| 0 <= k < |ms| && ms[k] == m;
        if k < i { assert ms'[k] == m; } else { assert k != i; assert ms'[k - 1] == m; }
      }
    }
  }
}
