/** `GameController`: adding a game to and removing it from a member's
    collection, capped at five games, and the flags of the collection page. */
module GameCollection {
  import opened Wrappers
  import opened Text
  import opened Seqs
  import opened Domain

  const MaxSelectedGames: nat := 5

  const MemberNotFoundMessage: string := "회원을 찾을 수 없습니다."
  const GameNotFoundMessage: string := "해당 게임을 찾을 수 없습니다."
  const AlreadyOwnedMessage: string := "이미 보유한 게임입니다."
  const LimitMessage: string := "'최대 5개까지 선택 가능합니다, 기존 게임을 삭제하고 다시 추가해주세요"
  const AddedMessage: string := "게임이 컬렉션에 추가되었습니다."
  const AddFailedPrefix: string := "게임 추가 중 오류가 발생했습니다: "
  const RemovedMessage: string := "게임이 컬렉션에서 제거되었습니다."
  const RemoveFailedPrefix: string := "게임 제거 중 오류가 발생했습니다: "

  /** A plain-text response: status code and body. */
  datatype Reply = Reply(status: int, body: string)

  /** The response and the `member_game` table afterwards. */
  datatype CollectionResult = CollectionResult(reply: Reply, ownerships: seq<Ownership>)

  /** `existsByMemberAndGame`. */
  predicate Owns(os: seq<Ownership>, memberId: int, gameId: int) {
    Ownership(memberId, gameId) in os
  }

  /** `countByMember`. */
  function OwnedCount(os: seq<Ownership>, memberId: int): nat {
    Count(os, (o: Ownership) => o.memberId == memberId)
  }

  /** The two lookups both endpoints start with; either failure is an
      exception that the handler turns into a 500 with its message. */
  function Lookup(members: seq<MemberRecord>, games: set<int>, username: string, gameId: int): (r: Result<int, string>)
    ensures r.Ok? <==> FindByUsername(members, username).Some? && gameId in games
    ensures r.Ok? ==> r.value == members[FindByUsername(members, username).value].id
    ensures FindByUsername(members, username).None? ==> r == Err(MemberNotFoundMessage)
    ensures FindByUsername(members, username).Some? && gameId !in games ==> r == Err(GameNotFoundMessage)
  {
    match FindByUsername(members, username)
    case None => Err(MemberNotFoundMessage)
    case Some(i) => if gameId in games then Ok(members[i].id) else Err(GameNotFoundMessage)
  }

  /** With unique user names (the column's constraint), the lookup finds
      the member who has the name, and an add can only write that member's
      row for that game. */
  lemma {:induction false} LookupFindsNamedMember(members: seq<MemberRecord>, games: set<int>, os: seq<Ownership>,
                                                  username: string, gameId: int, i: int)
    requires forall a, b :: 0 <= a < b < |members| ==> members[a].username != members[b].username
    requires 0 <= i < |members| && members[i].username == username && gameId in games
    ensures Lookup(members, games, username, gameId) == Ok(members[i].id)
    ensures AddGame(members, games, os, username, gameId).ownerships in {os, os + [Ownership(members[i].id, gameId)]}
  {
    var k := FindByUsername(members, username);
    assert k.Some?;
    assert members[k.value].username == username;
  }

  /** `addGameToCollection`: ownership is checked before the cap, and only
      the last branch writes. */
  function AddGame(members: seq<MemberRecord>, games: set<int>, os: seq<Ownership>, username: string, gameId: int)
    : (r: CollectionResult)
    ensures Lookup(members, games, username, gameId).Err? ==>
              r == CollectionResult(Reply(500, AddFailedPrefix + Lookup(members, games, username, gameId).error), os)
    ensures Lookup(members, games, username, gameId).Ok? ==>
              var memberId := Lookup(members, games, username, gameId).value;
              && (Owns(os, memberId, gameId) ==> r == CollectionResult(Reply(200, AlreadyOwnedMessage), os))
              && (!Owns(os, memberId, gameId) && OwnedCount(os, memberId) >= MaxSelectedGames ==>
                    r == CollectionResult(Reply(400, LimitMessage), os))
              && (!Owns(os, memberId, gameId) && OwnedCount(os, memberId) < MaxSelectedGames ==>
                    r == CollectionResult(Reply(200, AddedMessage), os + [Ownership(memberId, gameId)]))
    ensures r.ownerships != os <==> r.reply == Reply(200, AddedMessage)
  {
    match Lookup(members, games, username, gameId)
    case Err(e) => CollectionResult(Reply(500, AddFailedPrefix + e), os)
    case Ok(memberId) =>
      if Owns(os, memberId, gameId) then
        assert AlreadyOwnedMessage[0] != AddedMessage[0];
        CollectionResult(Reply(200, AlreadyOwnedMessage), os)
      else if OwnedCount(os, memberId) >= MaxSelectedGames then CollectionResult(Reply(400, LimitMessage), os)
      else
        CollectionResult(Reply(200, AddedMessage), os + [Ownership(memberId, gameId)])
  }

  /** Adds one after another never take a member above five games. */
  lemma {:induction false} AddKeepsCap(members: seq<MemberRecord>, games: set<int>, os: seq<Ownership>,
                                       username: string, gameId: int, memberId: int)
    requires OwnedCount(os, memberId) <= MaxSelectedGames
    ensures OwnedCount(AddGame(members, games, os, username, gameId).ownerships, memberId) <= MaxSelectedGames
  {
    var r := AddGame(members, games, os, username, gameId);
    if r.ownerships != os {
      var owner := Lookup(members, games, username, gameId).value;
      CountAppend(os, Ownership(owner, gameId), (o: Ownership) => o.memberId == memberId);
    }
  }

  /** The ownership check comes first: a member at the cap who adds a game
      already owned is told so with a 200, not refused with a 400. */
  lemma {:induction false} OwnedBeforeCap(members: seq<MemberRecord>, games: set<int>, os: seq<Ownership>,
                                          username: string, gameId: int)
    requires Lookup(members, games, username, gameId).Ok?
    requires Owns(os, Lookup(members, games, username, gameId).value, gameId)
    ensures AddGame(members, games, os, username, gameId) == CollectionResult(Reply(200, AlreadyOwnedMessage), os)
  {
  }

  /** No (member, game) pair is stored twice. */
  lemma {:induction false} AddKeepsPairsUnique(members: seq<MemberRecord>, games: set<int>, os: seq<Ownership>,
                                               username: string, gameId: int)
    requires Distinct(os)
    ensures Distinct(AddGame(members, games, os, username, gameId).ownerships)
  {
    var r := AddGame(members, games, os, username, gameId);
    if r.ownerships != os {
      var pair := Ownership(Lookup(members, games, username, gameId).value, gameId);
      assert r.ownerships == os + [pair] && pair !in os;
      forall i, j | 0 <= i < j < |r.ownerships| ensures r.ownerships[i] != r.ownerships[j] {
        if j == |os| {
          assert r.ownerships[i] == os[i];
        } else {
          assert r.ownerships[i] == os[i] && r.ownerships[j] == os[j];
        }
      }
    }
  }

  /** `deleteByMemberAndGame`: every row of the pair is deleted. */
  function DeletePair(os: seq<Ownership>, memberId: int, gameId: int): seq<Ownership> {
    Filter(os, (o: Ownership) => o != Ownership(memberId, gameId))
  }

  /** `removeGameFromCollection`: the pair is deleted if present; its
      absence is not an error. */
  function RemoveGame(members: seq<MemberRecord>, games: set<int>, os: seq<Ownership>, username: string, gameId: int)
    : (r: CollectionResult)
    ensures Lookup(members, games, username, gameId).Err? ==>
              r == CollectionResult(Reply(500, RemoveFailedPrefix + Lookup(members, games, username, gameId).error), os)
    ensures Lookup(members, games, username, gameId).Ok? ==>
              var memberId := Lookup(members, games, username, gameId).value;
              && r.reply == Reply(200, RemovedMessage)
              && !Owns(r.ownerships, memberId, gameId)
              && (forall o :: o in r.ownerships <==> o in os && o != Ownership(memberId, gameId))
  {
    match Lookup(members, games, username, gameId)
    case Err(e) => CollectionResult(Reply(500, RemoveFailedPrefix + e), os)
    case Ok(memberId) => CollectionResult(Reply(200, RemovedMessage), DeletePair(os, memberId, gameId))
  }

  /** Removing a game the member does not have succeeds and changes nothing. */
  lemma {:induction false} RemoveAbsentIsNoOp(members: seq<MemberRecord>, games: set<int>, os: seq<Ownership>,
                                              username: string, gameId: int)
    requires Lookup(members, games, username, gameId).Ok?
    requires !Owns(os, Lookup(members, games, username, gameId).value, gameId)
    ensures RemoveGame(members, games, os, username, gameId) == CollectionResult(Reply(200, RemovedMessage), os)
  {
    var memberId := Lookup(members, games, username, gameId).value;
    FilterKeepsAll(os, (o: Ownership) => o != Ownership(memberId, gameId));
  }

  /** Removing twice is removing once. */
  lemma {:induction false} RemoveIdempotent(members: seq<MemberRecord>, games: set<int>, os: seq<Ownership>,
                                            username: string, gameId: int)
    ensures var once := RemoveGame(members, games, os, username, gameId);
            RemoveGame(members, games, once.ownerships, username, gameId) == once
  {
    var once := RemoveGame(members, games, os, username, gameId);
    if Lookup(members, games, username, gameId).Ok? {
      RemoveAbsentIsNoOp(members, games, once.ownerships, username, gameId);
    }
  }

  /** A successful add is undone by a remove of the same game. */
  lemma {:induction false} RemoveUndoesAdd(members: seq<MemberRecord>, games: set<int>, os: seq<Ownership>,
                                           username: string, gameId: int)
    requires AddGame(members, games, os, username, gameId).reply == Reply(200, AddedMessage)
    ensures RemoveGame(members, games, AddGame(members, games, os, username, gameId).ownerships, username, gameId).ownerships == os
  {
    var memberId := Lookup(members, games, username, gameId).value;
    var pair := Ownership(memberId, gameId);
    var p := (o: Ownership) => o != pair;
    FilterAppend(os, pair, p);
    FilterKeepsAll(os, p);
  }

  /** What the collection page shows about a page of games. */
  datatype CollectionFlags = CollectionFlags(userHasGame: seq<bool>, hasResults: bool)

  /** `gameCollection`: each listed game is marked when it is in the user's
      collection; a search always reports results, a plain listing only
      when the page is not empty. A search is a parameter whose trimmed
      text is not empty. */
  function Flags(page: seq<int>, userGameIds: seq<int>, search: string): (f: CollectionFlags)
    ensures |f.userHasGame| == |page|
    ensures forall i :: 0 <= i < |page| ==> (f.userHasGame[i] <==> page[i] in userGameIds)
    ensures f.hasResults <==> (exists i :: 0 <= i < |search| && !IsTrimmed(search[i])) || |page| > 0
  {
    TrimEmptyIff(search);
    var marks := seq(|page|, i requires 0 <= i < |page| => page[i] in userGameIds);
    if |Trim(search)| > 0 then CollectionFlags(marks, true)
    else CollectionFlags(marks, |page| > 0)
  }
}
