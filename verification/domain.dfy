/** Database rows of the entities the services read and write (`Member`,
    `Role`, `MemberGame`, `Message`), the BCrypt encoder as an opaque pair of
    functions, and the derived finders of `MemberRepository`. */
module Domain {
  import opened Wrappers

  /** A role row; `name` is the authority string, e.g. "ROLE_ADMIN". */
  datatype Role = Role(id: int, name: string)

  const RoleAdmin: string := "ROLE_ADMIN"
  const RoleUser: string := "ROLE_USER"

  /** A `members` row. `passwordHash` is the stored BCrypt hash; times are
      milliseconds on one clock. */
  datatype MemberRecord = MemberRecord(
    id: int,
    username: string,
    passwordHash: string,
    email: string,
    nickname: Option<string>,
    country: string,
    resetToken: Option<string>,
    resetTokenExpiry: Option<int>,
    roles: seq<Role>)
  {
    predicate IsAdmin() {
      exists i :: 0 <= i < |roles| && roles[i].name == RoleAdmin
    }
  }

  /** A `member_game` row: member `memberId` has game `gameId` in the collection. */
  datatype Ownership = Ownership(memberId: int, gameId: int)

  /** A `message` row; the sender may be null, the receiver may not. */
  datatype MessageRecord = MessageRecord(
    id: int,
    senderId: Option<int>,
    receiverId: int,
    content: string,
    createdAt: int,
    isRead: bool)

  /** `PasswordEncoder`: `encode` hashes a raw password, `matches(raw, hash)`
      checks a raw password against a stored hash. */
  datatype PasswordEncoder = PasswordEncoder(encode: string -> string, matches: (string, string) -> bool)

  /** Index of the first member satisfying `p` (the derived `findBy...` queries;
      the unique constraints make the first match the only one). */
  function FindFirst(ms: seq<MemberRecord>, p: MemberRecord -> bool): (r: Option<nat>)
    ensures r.Some? ==> r.value < |ms| && p(ms[r.value])
    ensures r.Some? ==> forall j :: 0 <= j < r.value ==> !p(ms[j])
    ensures r.None? <==> forall j :: 0 <= j < |ms| ==> !p(ms[j])
  {
    if |ms| == 0 then None
    else if p(ms[0]) then Some(0)
    else match FindFirst(ms[1..], p)
      case None => None
      case Some(i) => Some(i + 1)
  }

  function FindByUsername(ms: seq<MemberRecord>, username: string): Option<nat> {
    FindFirst(ms, (m: MemberRecord) => m.username == username)
  }

  function FindByEmail(ms: seq<MemberRecord>, email: string): Option<nat> {
    FindFirst(ms, (m: MemberRecord) => m.email == email)
  }

  function FindById(ms: seq<MemberRecord>, id: int): Option<nat> {
    FindFirst(ms, (m: MemberRecord) => m.id == id)
  }

  function FindByResetToken(ms: seq<MemberRecord>, token: string): Option<nat> {
    FindFirst(ms, (m: MemberRecord) => m.resetToken == Some(token))
  }

  predicate ExistsByNickname(ms: seq<MemberRecord>, nickname: string) {
    exists i :: 0 <= i < |ms| && ms[i].nickname == Some(nickname)
  }
}
