/** `MemberGameService.getSameGameUsersForAllGames`: for each game of the
    user's collection, the other members who own it, grouped by game from
    the rows of one joined query. */
module CoOwners {
  import opened Wrappers
  import opened Seqs

  /** One row of `findGameUserSummariesByGameIds`: a game and one member who
      owns it. */
  datatype GameUserRow = GameUserRow(gameId: int, memberId: int, username: string, nickname: Option<string>, country: string)

  /** `MemberSummaryDTO`. */
  datatype MemberSummary = MemberSummary(memberId: int, username: string, nickname: Option<string>, country: string)

  function SummaryOf(row: GameUserRow): MemberSummary {
    MemberSummary(row.memberId, row.username, row.nickname, row.country)
  }

  /** The rows of one game, other than the current user's. */
  function Selects(gameId: int, currentUserId: int): GameUserRow -> bool {
    (row: GameUserRow) => row.gameId == gameId && row.memberId != currentUserId
  }

  function Summaries(rows: seq<GameUserRow>): (r: seq<MemberSummary>)
    ensures |r| == |rows|
    ensures forall i :: 0 <= i < |rows| ==> r[i] == SummaryOf(rows[i])
  {
    seq(|rows|, i requires 0 <= i < |rows| => SummaryOf(rows[i]))
  }

  /** The stream: rows of the current user dropped, the rest collected with
      `groupingBy` into a list per game, in encounter order. */
  function Group(rows: seq<GameUserRow>, currentUserId: int): map<int, seq<MemberSummary>> {
    if |rows| == 0 then map[]
    else
      var n := |rows| - 1;
      var groups := Group(rows[..n], currentUserId);
      var row := rows[n];
      if row.memberId == currentUserId then groups
      else groups[row.gameId := (if row.gameId in groups then groups[row.gameId] else []) + [SummaryOf(row)]]
  }

  /** The `putIfAbsent` loop: every requested game gets a key, and an
      existing group is never replaced. */
  function PutIfAbsentAll(groups: map<int, seq<MemberSummary>>, gameIds: seq<int>): (r: map<int, seq<MemberSummary>>)
    ensures forall k :: k in r <==> k in groups || k in gameIds
    ensures forall k :: k in groups ==> r[k] == groups[k]
    ensures forall k :: k in r && k !in groups ==> r[k] == []
    decreases |gameIds|
  {
    if |gameIds| == 0 then groups
    else
      var k := gameIds[0];
      PutIfAbsentAll(if k in groups then groups else groups[k := []], gameIds[1..])
  }

  function SameGameUsers(rows: seq<GameUserRow>, gameIds: seq<int>, currentUserId: int): map<int, seq<MemberSummary>> {
    PutIfAbsentAll(Group(rows, currentUserId), gameIds)
  }

  /** One step of the grouping, seen from one key. */
  lemma {:induction false} GroupLast(rows: seq<GameUserRow>, currentUserId: int, k: int)
    requires |rows| > 0
    ensures var row := rows[|rows| - 1];
            var groups := Group(rows[..|rows| - 1], currentUserId);
            var hit := row.memberId != currentUserId && row.gameId == k;
            && (k in Group(rows, currentUserId) <==> k in groups || hit)
            && (k in Group(rows, currentUserId) ==>
                  Group(rows, currentUserId)[k]
                    == if hit then (if k in groups then groups[k] else []) + [SummaryOf(row)] else groups[k])
  {
  }

  lemma {:induction false} SummariesAppend(rows: seq<GameUserRow>, row: GameUserRow)
    ensures Summaries(rows + [row]) == Summaries(rows) + [SummaryOf(row)]
  {
  }

  /** The grouping agrees with filtering: a game has a group exactly when
      some other member's row names it, and the group is those rows in
      query order. */
  lemma {:induction false} GroupIsFilter(rows: seq<GameUserRow>, currentUserId: int, k: int)
    ensures k in Group(rows, currentUserId) <==> |Filter(rows, Selects(k, currentUserId))| > 0
    ensures k in Group(rows, currentUserId) ==>
              Group(rows, currentUserId)[k] == Summaries(Filter(rows, Selects(k, currentUserId)))
  {
    if |rows| > 0 {
      var n := |rows| - 1;
      var sel := Selects(k, currentUserId);
      var row := rows[n];
      var before := Filter(rows[..n], sel);
      GroupIsFilter(rows[..n], currentUserId, k);
      FilterLast(rows, sel);
      GroupLast(rows, currentUserId, k);
      assert sel(row) <==> row.memberId != currentUserId && row.gameId == k;
      var groups := Group(rows[..n], currentUserId);
      if sel(row) {
        var prior := if k in groups then groups[k] else [];
        assert prior == Summaries(before) by {
          if k !in groups { assert before == []; }
        }
        SummariesAppend(before, row);
        assert Filter(rows, sel) == before + [row];
        assert Group(rows, currentUserId)[k] == prior + [SummaryOf(row)];
      } else {
        assert Filter(rows, sel) == before;
      }
    }
  }

  /** What the map holds: a key for every requested game and for every game
      of another member's row, each with that game's rows other than the
      current user's, in query order (an empty list when there are none). */
  lemma {:induction false} SameGameUsersSpec(rows: seq<GameUserRow>, gameIds: seq<int>, currentUserId: int, k: int)
    ensures k in SameGameUsers(rows, gameIds, currentUserId) <==>
              k in gameIds || |Filter(rows, Selects(k, currentUserId))| > 0
    ensures k in SameGameUsers(rows, gameIds, currentUserId) ==>
              SameGameUsers(rows, gameIds, currentUserId)[k] == Summaries(Filter(rows, Selects(k, currentUserId)))
  {
    GroupIsFilter(rows, currentUserId, k);
    if |Filter(rows, Selects(k, currentUserId))| == 0 {
      assert Summaries(Filter(rows, Selects(k, currentUserId))) == [];
    }
  }

  /** The current user is never listed as a co-owner. */
  lemma {:induction false} CurrentUserExcluded(rows: seq<GameUserRow>, gameIds: seq<int>, currentUserId: int, k: int)
    requires k in SameGameUsers(rows, gameIds, currentUserId)
    ensures forall s :: s in SameGameUsers(rows, gameIds, currentUserId)[k] ==> s.memberId != currentUserId
  {
    SameGameUsersSpec(rows, gameIds, currentUserId, k);
    var kept := Filter(rows, Selects(k, currentUserId));
    forall s | s in SameGameUsers(rows, gameIds, currentUserId)[k] ensures s.memberId != currentUserId {
      var i :| 0 <= i < |kept| && s == Summaries(kept)[i];
      assert Selects(k, currentUserId)(kept[i]);
    }
  }

  /** The query only returns rows of the requested games, so the keys are
      exactly the requested games. */
  lemma {:induction false} KeysAreRequestedGames(rows: seq<GameUserRow>, gameIds: seq<int>, currentUserId: int)
    requires forall i :: 0 <= i < |rows| ==> rows[i].gameId in gameIds
    ensures forall k :: k in SameGameUsers(rows, gameIds, currentUserId) <==> k in gameIds
  {
    forall k ensures k in SameGameUsers(rows, gameIds, currentUserId) <==> k in gameIds {
      SameGameUsersSpec(rows, gameIds, currentUserId, k);
      var kept := Filter(rows, Selects(k, currentUserId));
      if |kept| > 0 {
        assert kept[0] in rows && Selects(k, currentUserId)(kept[0]);
      }
    }
  }
}
