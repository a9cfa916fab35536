/** `MessageRepository`: each query as a function of the `message` table
    (and, for the conversation list, the `members` table). Table order stands
    for the database's unspecified row order. */
module MessageRepository {
  import opened Wrappers
  import opened Domain
  import opened Seqs

  /** `m` belongs to the conversation between `a` and `b`, in either direction. */
  predicate InConversation(m: MessageRecord, a: int, b: int) {
    (m.senderId == Some(a) && m.receiverId == b) || (m.senderId == Some(b) && m.receiverId == a)
  }

  function FindConversation(ms: seq<MessageRecord>, a: int, b: int): (r: seq<MessageRecord>)
    ensures forall m :: m in r <==> m in ms && InConversation(m, a, b)
  {
    Filter(ms, (m: MessageRecord) => InConversation(m, a, b))
  }

  /** The conversation is the same whichever participant asks. */
  lemma {:induction false} FindConversationSymmetric(ms: seq<MessageRecord>, a: int, b: int)
    ensures FindConversation(ms, a, b) == FindConversation(ms, b, a)
  {
    FilterCongruent(ms, (m: MessageRecord) => InConversation(m, a, b), (m: MessageRecord) => InConversation(m, b, a));
  }

  /** `findBySenderId`; the inner join on the receiver never drops a row. */
  function FindBySenderId(ms: seq<MessageRecord>, id: int): (r: seq<MessageRecord>)
    ensures forall m :: m in r <==> m in ms && m.senderId == Some(id)
  {
    Filter(ms, (m: MessageRecord) => m.senderId == Some(id))
  }

  /** `findByReceiverId`; the inner join on the sender drops messages whose
      sender is null. */
  function FindByReceiverId(ms: seq<MessageRecord>, id: int): (r: seq<MessageRecord>)
    ensures forall m :: m in r <==> m in ms && m.receiverId == id && m.senderId.Some?
  {
    Filter(ms, (m: MessageRecord) => m.receiverId == id && m.senderId.Some?)
  }

  function DeleteAllBySenderId(ms: seq<MessageRecord>, id: int): (r: seq<MessageRecord>)
    ensures forall m :: m in r <==> m in ms && m.senderId != Some(id)
    ensures |r| == |ms| - |FindBySenderId(ms, id)|
  {
    FilterSplits(ms, (m: MessageRecord) => m.senderId == Some(id), (m: MessageRecord) => m.senderId != Some(id));
    Filter(ms, (m: MessageRecord) => m.senderId != Some(id))
  }

  function DeleteAllByReceiverId(ms: seq<MessageRecord>, id: int): (r: seq<MessageRecord>)
    ensures forall m :: m in r <==> m in ms && m.receiverId != id
    ensures |r| == |ms| - |Filter(ms, (m: MessageRecord) => m.receiverId == id)|
  {
    FilterSplits(ms, (m: MessageRecord) => m.receiverId == id, (m: MessageRecord) => m.receiverId != id);
    Filter(ms, (m: MessageRecord) => m.receiverId != id)
  }

  // ------------------------------------------------------ oldest deletion

  /** Index of the first message with the smallest `created_at`. */
  function OldestIndex(ms: seq<MessageRecord>): (i: nat)
    requires |ms| > 0
    ensures i < |ms|
    ensures forall j :: 0 <= j < |ms| ==> ms[i].createdAt <= ms[j].createdAt
  {
    if |ms| == 1 then 0
    else
      var k := OldestIndex(ms[1..]);
      if ms[0].createdAt <= ms[1 + k].createdAt then 0 else k + 1
  }

  function RemoveAt(ms: seq<MessageRecord>, i: nat): (r: seq<MessageRecord>)
    requires i < |ms|
    ensures |r| == |ms| - 1
    ensures multiset(ms) == multiset(r) + multiset{ms[i]}
  {
    assert ms == ms[..i] + [ms[i]] + ms[i + 1..];
    ms[..i] + ms[i + 1..]
  }

  /** Every message of `gone` is no later than every message of `kept`. */
  ghost predicate NoLaterThan(gone: multiset<MessageRecord>, kept: seq<MessageRecord>) {
    forall x, y :: x in gone && y in kept ==> x.createdAt <= y.createdAt
  }

  /** `deleteOldestMessages(k)`: `ORDER BY created_at ASC LIMIT k`. Among
      messages with equal times the database may pick any; this model takes
      them in table order. */
  function DeleteOldestMessages(ms: seq<MessageRecord>, k: nat): (r: seq<MessageRecord>)
    ensures |r| == if k >= |ms| then 0 else |ms| - k
    ensures multiset(r) <= multiset(ms)
    ensures NoLaterThan(multiset(ms) - multiset(r), r)
    decreases k
  {
    if k == 0 || |ms| == 0 then ms
    else
      var i := OldestIndex(ms);
      var rest := RemoveAt(ms, i);
      var r := DeleteOldestMessages(rest, k - 1);
      OldestFirstStep(ms, i, rest, r);
      r
  }

  /** Removing one oldest message before the rest keeps every removed
      message no later than every kept one. */
  lemma {:induction false} OldestFirstStep(ms: seq<MessageRecord>, i: nat, rest: seq<MessageRecord>, r: seq<MessageRecord>)
    requires i < |ms| && forall j :: 0 <= j < |ms| ==> ms[i].createdAt <= ms[j].createdAt
    requires multiset(ms) == multiset(rest) + multiset{ms[i]}
    requires multiset(r) <= multiset(rest)
    requires NoLaterThan(multiset(rest) - multiset(r), r)
    ensures multiset(r) <= multiset(ms)
    ensures NoLaterThan(multiset(ms) - multiset(r), r)
  {
    forall x, y | x in multiset(ms) - multiset(r) && y in r ensures x.createdAt <= y.createdAt {
      assert y in multiset(rest);
      assert y in multiset(ms);
      if x != ms[i] {
        assert x in multiset(rest) - multiset(r);
      }
    }
  }

  // ---------------------------------------------------- conversation list

  /** The other party of `m` as the first branch of the `UNION` (messages
      the user sent) or the second (messages with a non-null sender the user
      received) sees it. */
  function Counterpart(m: MessageRecord, user: int): (r: Option<int>)
    ensures r.Some? <==> m.senderId == Some(user) || (m.receiverId == user && m.senderId.Some?)
    ensures r.Some? ==> InConversation(m, user, r.value)
  {
    if m.senderId == Some(user) then Some(m.receiverId)
    else if m.receiverId == user && m.senderId.Some? then Some(m.senderId.value)
    else None
  }

  predicate IsCounterpart(ms: seq<MessageRecord>, user: int, other: int) {
    exists i :: 0 <= i < |ms| && InConversation(ms[i], user, other)
  }

  /** The counterparts of `user` that pass `keep`, each once. */
  function CounterpartsWhere(ms: seq<MessageRecord>, user: int, keep: int -> bool): (r: seq<int>)
    ensures forall i, j :: 0 <= i < j < |r| ==> r[i] != r[j]
    ensures forall o :: o in r <==> IsCounterpart(ms, user, o) && keep(o)
  {
    if |ms| == 0 then []
    else
      var rest := CounterpartsWhere(ms[1..], user, keep);
      assert forall o :: IsCounterpart(ms, user, o) <==> InConversation(ms[0], user, o) || IsCounterpart(ms[1..], user, o) by {
        forall o ensures IsCounterpart(ms, user, o) <==> InConversation(ms[0], user, o) || IsCounterpart(ms[1..], user, o) {
          if IsCounterpart(ms, user, o) {
            var i :| 0 <= i < |ms| && InConversation(ms[i], user, o);
            if i > 0 { assert ms[1..][i - 1] == ms[i]; }
          }
          if IsCounterpart(ms[1..], user, o) {
            var i :| 0 <= i < |ms[1..]| && InConversation(ms[1..][i], user, o);
            assert ms[i + 1] == ms[1..][i];
          }
        }
      }
      match Counterpart(ms[0], user)
      case Some(c) =>
        // a message is in the conversation with at most its own counterpart
        assert forall o :: InConversation(ms[0], user, o) ==> o == c;
        if keep(c) && c !in rest then [c] + rest else rest
      case None => rest
  }

  /** A counterpart the query lists: it joins a `members` row, and that
      member does not hold `ROLE_ADMIN`. */
  predicate Listed(members: seq<MemberRecord>, other: int) {
    FindById(members, other).Some? && !members[FindById(members, other).value].IsAdmin()
  }

  /** The `NOT EXISTS` filter alone, as the count query applies it. */
  predicate NotAdmin(members: seq<MemberRecord>, other: int) {
    FindById(members, other).None? || !members[FindById(members, other).value].IsAdmin()
  }

  /** `a` comes after `b` in `ORDER BY created_at DESC, id DESC`'s sense. */
  predicate Later(a: MessageRecord, b: MessageRecord) {
    a.createdAt > b.createdAt || (a.createdAt == b.createdAt && a.id > b.id)
  }

  /** The first of the latest messages of a non-empty sequence. */
  function Latest(s: seq<MessageRecord>): (r: MessageRecord)
    requires |s| > 0
    ensures r in s
    ensures forall m :: m in s ==> !Later(m, r)
  {
    if |s| == 1 then s[0]
    else
      var t := Latest(s[1..]);
      assert forall m :: m in s ==> m == s[0] || m in s[1..];
      if Later(t, s[0]) then t else s[0]
  }

  function LastMessage(ms: seq<MessageRecord>, user: int, other: int): (r: MessageRecord)
    requires IsCounterpart(ms, user, other)
    ensures r in ms && InConversation(r, user, other)
    ensures forall m :: m in ms && InConversation(m, user, other) ==> !Later(m, r)
  {
    assert forall i :: 0 <= i < |ms| && InConversation(ms[i], user, other) ==> ms[i] in FindConversation(ms, user, other);
    Latest(FindConversation(ms, user, other))
  }

  function UnreadCount(ms: seq<MessageRecord>, user: int, other: int): nat {
    Count(ms, (m: MessageRecord) => m.receiverId == user && m.senderId == Some(other) && !m.isRead)
  }

  /** One row of `findConversationsForUser`, before the service decodes it. */
  datatype ConversationRow = ConversationRow(
    otherMemberId: int,
    otherMemberNickname: Option<string>,
    lastMessageContent: string,
    lastMessageTime: int,
    isLastFromMe: bool,
    unreadCount: nat)

  /** A listed counterpart with its last message: what the rows are sorted
      by. */
  datatype Conversation = Conversation(other: int, last: MessageRecord)

  ghost predicate SortedLatestFirst(cs: seq<Conversation>) {
    forall i, j :: 0 <= i < j < |cs| ==> !Later(cs[j].last, cs[i].last)
  }

  /** Prepending an element no earlier than the head keeps the order. */
  lemma {:induction false} PrependSorted(h: Conversation, cs: seq<Conversation>)
    requires SortedLatestFirst(cs)
    requires forall x :: x in cs ==> !Later(x.last, h.last)
    ensures SortedLatestFirst([h] + cs)
  {
    var r := [h] + cs;
    forall i, j | 0 <= i < j < |r| ensures !Later(r[j].last, r[i].last) {
      if i == 0 { assert r[j] == cs[j - 1]; }
      else { assert r[i] == cs[i - 1] && r[j] == cs[j - 1]; }
    }
  }

  function InsertLatestFirst(c: Conversation, cs: seq<Conversation>): (r: seq<Conversation>)
    requires SortedLatestFirst(cs)
    ensures SortedLatestFirst(r)
    ensures multiset(r) == multiset(cs) + multiset{c}
  {
    if |cs| == 0 || !Later(cs[0].last, c.last) then
      assert forall x :: x in cs ==> !Later(x.last, c.last) by {
        forall x | x in cs ensures !Later(x.last, c.last) {
          var j :| 0 <= j < |cs| && cs[j] == x;
          if j > 0 { assert !Later(cs[j].last, cs[0].last); }
        }
      }
      PrependSorted(c, cs);
      [c] + cs
    else
      var rest := InsertLatestFirst(c, cs[1..]);
      assert cs == [cs[0]] + cs[1..];
      assert forall x :: x in rest ==> !Later(x.last, cs[0].last) by {
        forall x | x in rest ensures !Later(x.last, cs[0].last) {
          assert x in multiset(rest);
          if x != c {
            assert x in multiset(cs[1..]);
            var j :| 0 <= j < |cs[1..]| && cs[1..][j] == x;
            assert cs[j + 1] == x;
          }
        }
      }
      PrependSorted(cs[0], rest);
      [cs[0]] + rest
  }

  function SortLatestFirst(cs: seq<Conversation>): (r: seq<Conversation>)
    ensures SortedLatestFirst(r)
    ensures multiset(r) == multiset(cs)
  {
    if |cs| == 0 then []
    else
      assert cs == [cs[0]] + cs[1..];
      InsertLatestFirst(cs[0], SortLatestFirst(cs[1..]))
  }

  /** `c` pairs a counterpart with that pair's last message. */
  ghost predicate IsConversationOf(ms: seq<MessageRecord>, user: int, c: Conversation) {
    IsCounterpart(ms, user, c.other) && c.last == LastMessage(ms, user, c.other)
  }

  function Conversations(ms: seq<MessageRecord>, user: int, others: seq<int>): (r: seq<Conversation>)
    requires forall o :: o in others ==> IsCounterpart(ms, user, o)
    ensures |r| == |others|
    ensures forall i :: 0 <= i < |r| ==> r[i].other == others[i] && IsConversationOf(ms, user, r[i])
  {
    if |others| == 0 then []
    else [Conversation(others[0], LastMessage(ms, user, others[0]))] + Conversations(ms, user, others[1..])
  }

  function ListedIn(members: seq<MemberRecord>): int -> bool {
    (o: int) => Listed(members, o)
  }

  function NotAdminIn(members: seq<MemberRecord>): int -> bool {
    (o: int) => NotAdmin(members, o)
  }

  /** The listed counterparts with their last messages, latest first, each
      counterpart once. */
  function SortedConversations(ms: seq<MessageRecord>, members: seq<MemberRecord>, user: int): (cs: seq<Conversation>)
    ensures |cs| == |CounterpartsWhere(ms, user, ListedIn(members))|
    ensures SortedLatestFirst(cs)
    ensures forall i :: 0 <= i < |cs| ==> IsConversationOf(ms, user, cs[i]) && Listed(members, cs[i].other)
    ensures forall o :: (exists i :: 0 <= i < |cs| && cs[i].other == o) <==> IsCounterpart(ms, user, o) && Listed(members, o)
    ensures forall i, j :: 0 <= i < j < |cs| ==> cs[i].other != cs[j].other
  {
    var others := CounterpartsWhere(ms, user, ListedIn(members));
    var unsorted := Conversations(ms, user, others);
    var cs := SortLatestFirst(unsorted);
    SortedConversationsFacts(ms, members, user, others, unsorted, cs);
    cs
  }

  lemma {:induction false} SortedConversationsFacts(ms: seq<MessageRecord>, members: seq<MemberRecord>, user: int,
                                                   others: seq<int>, unsorted: seq<Conversation>, cs: seq<Conversation>)
    requires Distinct(others)
    requires forall o :: o in others <==> IsCounterpart(ms, user, o) && Listed(members, o)
    requires |unsorted| == |others|
    requires forall i :: 0 <= i < |unsorted| ==> unsorted[i].other == others[i] && IsConversationOf(ms, user, unsorted[i])
    requires multiset(cs) == multiset(unsorted)
    ensures |cs| == |others|
    ensures forall i :: 0 <= i < |cs| ==> IsConversationOf(ms, user, cs[i]) && Listed(members, cs[i].other)
    ensures forall o :: (exists i :: 0 <= i < |cs| && cs[i].other == o) <==> IsCounterpart(ms, user, o) && Listed(members, o)
    ensures forall i, j :: 0 <= i < j < |cs| ==> cs[i].other != cs[j].other
  {
    SameMultisetSameMembers(cs, unsorted);
    assert Distinct(unsorted) by {
      forall i, j | 0 <= i < j < |unsorted| ensures unsorted[i] != unsorted[j] {
        assert unsorted[i].other == others[i] && unsorted[j].other == others[j];
      }
    }
    DistinctPermutation(cs, unsorted);
    forall i | 0 <= i < |cs| ensures IsConversationOf(ms, user, cs[i]) && Listed(members, cs[i].other) {
      assert cs[i] in unsorted;
      var k :| 0 <= k < |unsorted| && unsorted[k] == cs[i];
      assert others[k] in others;
    }
    forall i, j | 0 <= i < j < |cs| ensures cs[i].other != cs[j].other {
      assert IsConversationOf(ms, user, cs[i]) && IsConversationOf(ms, user, cs[j]);
    }
    forall o | IsCounterpart(ms, user, o) && Listed(members, o) ensures exists i :: 0 <= i < |cs| && cs[i].other == o {
      assert o in others;
      var k :| 0 <= k < |others| && others[k] == o;
      assert unsorted[k] in cs;
    }
  }

  function RowOf(ms: seq<MessageRecord>, members: seq<MemberRecord>, user: int, c: Conversation): ConversationRow
    requires Listed(members, c.other)
  {
    ConversationRow(
      c.other,
      members[FindById(members, c.other).value].nickname,
      c.last.content,
      c.last.createdAt,
      c.last.senderId == Some(user),
      UnreadCount(ms, user, c.other))
  }

  function Rows(ms: seq<MessageRecord>, members: seq<MemberRecord>, user: int, cs: seq<Conversation>): (rows: seq<ConversationRow>)
    requires forall i :: 0 <= i < |cs| ==> Listed(members, cs[i].other)
    ensures |rows| == |cs|
    ensures forall i :: 0 <= i < |cs| ==> rows[i] == RowOf(ms, members, user, cs[i])
  {
    if |cs| == 0 then []
    else [RowOf(ms, members, user, cs[0])] + Rows(ms, members, user, cs[1..])
  }

  /** `findConversationsForUser` over all pages: one row per listed
      counterpart, carrying the pair's latest message and the unread count,
      latest conversation first. */
  function FindConversationsForUser(ms: seq<MessageRecord>, members: seq<MemberRecord>, user: int): (rows: seq<ConversationRow>)
    ensures |rows| == |CounterpartsWhere(ms, user, ListedIn(members))|
    ensures forall i, j :: 0 <= i < j < |rows| ==> rows[i].otherMemberId != rows[j].otherMemberId
    ensures forall o :: (exists i :: 0 <= i < |rows| && rows[i].otherMemberId == o) <==> IsCounterpart(ms, user, o) && Listed(members, o)
    ensures forall i :: 0 <= i < |rows| ==>
      var o := rows[i].otherMemberId;
      && IsCounterpart(ms, user, o) && Listed(members, o)
      && var last := LastMessage(ms, user, o);
      && rows[i].lastMessageContent == last.content
      && rows[i].lastMessageTime == last.createdAt
      && (rows[i].isLastFromMe <==> last.senderId == Some(user))
      && rows[i].unreadCount == UnreadCount(ms, user, o)
      && rows[i].otherMemberNickname == members[FindById(members, o).value].nickname
    ensures forall i, j :: 0 <= i < j < |rows| ==> rows[j].lastMessageTime <= rows[i].lastMessageTime
    ensures forall i, j :: 0 <= i < j < |rows| ==>
      !Later(LastMessage(ms, user, rows[j].otherMemberId), LastMessage(ms, user, rows[i].otherMemberId))
  {
    var cs := SortedConversations(ms, members, user);
    var rows := Rows(ms, members, user, cs);
    RowsFacts(ms, members, user, cs, rows);
    rows
  }

  lemma {:induction false} RowsFacts(ms: seq<MessageRecord>, members: seq<MemberRecord>, user: int,
                                    cs: seq<Conversation>, rows: seq<ConversationRow>)
    requires forall i :: 0 <= i < |cs| ==> IsConversationOf(ms, user, cs[i]) && Listed(members, cs[i].other)
    requires SortedLatestFirst(cs)
    requires |rows| == |cs| && forall i :: 0 <= i < |cs| ==> rows[i] == RowOf(ms, members, user, cs[i])
    ensures forall i :: 0 <= i < |rows| ==>
      var o := rows[i].otherMemberId;
      && o == cs[i].other
      && IsCounterpart(ms, user, o) && Listed(members, o)
      && var last := LastMessage(ms, user, o);
      && rows[i].lastMessageContent == last.content
      && rows[i].lastMessageTime == last.createdAt
      && (rows[i].isLastFromMe <==> last.senderId == Some(user))
      && rows[i].unreadCount == UnreadCount(ms, user, o)
      && rows[i].otherMemberNickname == members[FindById(members, o).value].nickname
    ensures forall i, j :: 0 <= i < j < |rows| ==> rows[j].lastMessageTime <= rows[i].lastMessageTime
    ensures forall i, j :: 0 <= i < j < |rows| ==>
      !Later(LastMessage(ms, user, rows[j].otherMemberId), LastMessage(ms, user, rows[i].otherMemberId))
  {
    forall i, j | 0 <= i < j < |rows|
      ensures rows[j].lastMessageTime <= rows[i].lastMessageTime
      ensures !Later(LastMessage(ms, user, rows[j].otherMemberId), LastMessage(ms, user, rows[i].otherMemberId))
    {
      assert !Later(cs[j].last, cs[i].last);
    }
  }

  /** The count query applies the admin filter but not the join with
      `members`. */
  function CountConversationsForUser(ms: seq<MessageRecord>, members: seq<MemberRecord>, user: int): nat {
    |CounterpartsWhere(ms, user, NotAdminIn(members))|
  }

  /** With referential integrity (every counterpart has a `members` row) the
      count query agrees with the number of rows. */
  lemma {:induction false} CountMatchesRows(ms: seq<MessageRecord>, members: seq<MemberRecord>, user: int)
    requires forall o :: IsCounterpart(ms, user, o) ==> FindById(members, o).Some?
    ensures CountConversationsForUser(ms, members, user) == |FindConversationsForUser(ms, members, user)|
  {
    CounterpartsWhereCongruent(ms, user, NotAdminIn(members), ListedIn(members));
  }

  lemma {:induction false} CounterpartsWhereCongruent(ms: seq<MessageRecord>, user: int, p: int -> bool, q: int -> bool)
    requires forall o :: IsCounterpart(ms, user, o) ==> p(o) == q(o)
    ensures CounterpartsWhere(ms, user, p) == CounterpartsWhere(ms, user, q)
  {
    if |ms| > 0 {
      assert forall o :: IsCounterpart(ms[1..], user, o) ==> IsCounterpart(ms, user, o) by {
        forall o | IsCounterpart(ms[1..], user, o) ensures IsCounterpart(ms, user, o) {
          var i :| 0 <= i < |ms[1..]| && InConversation(ms[1..][i], user, o);
          assert ms[i + 1] == ms[1..][i];
        }
      }
      CounterpartsWhereCongruent(ms[1..], user, p, q);
      match Counterpart(ms[0], user)
      case Some(c) => assert IsCounterpart(ms, user, c) by { assert InConversation(ms[0], user, c); }
      case None =>
    }
  }
}
