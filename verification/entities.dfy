/** The JPA entities' in-memory association helpers (`Member`, `Game`,
    `MemberGame`, `Message`). The object graph is an explicit heap: one map
    per class from object references to field values, so that reference
    identity (`==`, `contains` on a list without an `equals` override) is
    equality of references, and every helper is a function from heap to
    heap whose contract says what it leaves alone. */
module Entities {
  import opened Wrappers
  import opened Seqs

  /** A reference to an object of the class whose map it indexes. */
  type Ref = nat

  /** The `Member` fields the helpers touch; `id` is null until persisted. */
  datatype MemberObj = MemberObj(
    id: Option<int>,
    nickname: Option<string>,
    password: string,
    resetToken: Option<string>,
    resetTokenExpiry: Option<int>,
    memberGames: seq<Ref>,
    sentMessages: seq<Ref>,
    receivedMessages: seq<Ref>)

  datatype GameObj = GameObj(
    id: Option<int>,
    appid: Option<int>,
    name: Option<string>,
    headerImageUrl: Option<string>,
    releaseDate: Option<int>,
    userHasGame: bool,
    memberGames: seq<Ref>)

  /** A `MemberGame`: its two back-references, either of which may be null. */
  datatype MemberGameObj = MemberGameObj(member: Option<Ref>, game: Option<Ref>)

  datatype MessageObj = MessageObj(sender: Option<Ref>, receiver: Option<Ref>, content: string, isRead: bool)

  datatype Heap = Heap(
    members: map<Ref, MemberObj>,
    games: map<Ref, GameObj>,
    links: map<Ref, MemberGameObj>,
    messages: map<Ref, MessageObj>)

  /** `b` is `a` with at most the object `r` changed. */
  predicate AgreeExcept<V(==)>(a: map<Ref, V>, b: map<Ref, V>, r: Ref) {
    a.Keys == b.Keys && forall k :: k in a && k != r ==> b[k] == a[k]
  }

  // -------------------------------------------------- lists of references

  /** `List.remove(Object)` without an `equals` override: the first
      occurrence of the reference, if any, is removed. */
  function RemoveFirst(s: seq<Ref>, x: Ref): (r: seq<Ref>)
    ensures x !in s ==> r == s
    ensures x in s ==> |r| == |s| - 1 && multiset(r) == multiset(s) - multiset{x}
  {
    if |s| == 0 then s
    else if s[0] == x then
      assert s == [x] + s[1..];
      s[1..]
    else
      assert s == [s[0]] + s[1..];
      [s[0]] + RemoveFirst(s[1..], x)
  }

  /** In a list without repetitions the reference goes altogether, the order
      of the rest is kept, and the list stays without repetitions. */
  lemma {:induction false} RemoveFirstDistinct(s: seq<Ref>, x: Ref)
    requires Distinct(s)
    ensures x !in RemoveFirst(s, x)
    ensures Distinct(RemoveFirst(s, x))
    ensures forall y :: y in RemoveFirst(s, x) <==> y in s && y != x
  {
    if |s| > 0 {
      assert Distinct(s[1..]);
      RemoveFirstDistinct(s[1..], x);
      if s[0] != x {
        var rest := RemoveFirst(s[1..], x);
        assert s[0] !in s[1..];
        forall i, j | 0 <= i < j < |[s[0]] + rest| ensures ([s[0]] + rest)[i] != ([s[0]] + rest)[j] {
          if i == 0 {
            assert ([s[0]] + rest)[j] in rest;
          } else {
            assert ([s[0]] + rest)[i] == rest[i - 1] && ([s[0]] + rest)[j] == rest[j - 1];
          }
        }
      } else {
        assert s[0] !in s[1..];
      }
    }
  }

  /** Appending a reference that is absent, then removing it, gives the
      list back. */
  lemma {:induction false} RemoveFirstUndoesAppend(s: seq<Ref>, x: Ref)
    requires x !in s
    ensures RemoveFirst(s + [x], x) == s
  {
    if |s| > 0 {
      assert (s + [x])[1..] == s[1..] + [x];
      RemoveFirstUndoesAppend(s[1..], x);
    }
  }

  /** Appending a reference not already present keeps a list without
      repetitions. */
  lemma {:induction false} AppendFreshDistinct(s: seq<Ref>, x: Ref)
    requires Distinct(s) && x !in s
    ensures Distinct(s + [x])
  {
    forall i, j | 0 <= i < j < |s + [x]| ensures (s + [x])[i] != (s + [x])[j] {
      assert (s + [x])[i] == s[i];
      if j < |s| { assert (s + [x])[j] == s[j]; }
    }
  }

  // --------------------------------------------------- Member <-> MemberGame

  /** `Member.addMemberGame`: a null or already listed link changes nothing;
      otherwise the link is appended and its member set to this one. */
  function MemberAddLink(h: Heap, m: Ref, mg: Option<Ref>): (h': Heap)
    requires m in h.members && (mg.Some? ==> mg.value in h.links)
    ensures mg.None? || mg.value in h.members[m].memberGames ==> h' == h
    ensures mg.Some? && mg.value !in h.members[m].memberGames ==>
              && AgreeExcept(h.members, h'.members, m) && AgreeExcept(h.links, h'.links, mg.value)
              && h'.members[m].memberGames == h.members[m].memberGames + [mg.value]
              && h'.members[m] == h.members[m].(memberGames := h'.members[m].memberGames)
              && h'.links[mg.value] == h.links[mg.value].(member := Some(m))
              && h'.games == h.games && h'.messages == h.messages
  {
    if mg.None? || mg.value in h.members[m].memberGames then h
    else
      var x := mg.value;
      var member := h.members[m];
      var linked := h.members[m := member.(memberGames := member.memberGames + [x])];
      var link := h.links[x];
      h.(members := linked,
         links := if link.member != Some(m) then h.links[x := link.(member := Some(m))] else h.links)
  }

  /** `Member.removeMemberGame`: a listed link is removed, and its member
      cleared only if it pointed to this one. */
  function MemberRemoveLink(h: Heap, m: Ref, mg: Option<Ref>): (h': Heap)
    requires m in h.members && (mg.Some? ==> mg.value in h.links)
    ensures mg.None? || mg.value !in h.members[m].memberGames ==> h' == h
    ensures mg.Some? && mg.value in h.members[m].memberGames ==>
              && AgreeExcept(h.members, h'.members, m) && AgreeExcept(h.links, h'.links, mg.value)
              && h'.members[m].memberGames == RemoveFirst(h.members[m].memberGames, mg.value)
              && h'.members[m] == h.members[m].(memberGames := h'.members[m].memberGames)
              && h'.links[mg.value].member == (if h.links[mg.value].member == Some(m) then None else h.links[mg.value].member)
              && h'.links[mg.value].game == h.links[mg.value].game
              && h'.games == h.games && h'.messages == h.messages
  {
    if mg.None? || mg.value !in h.members[m].memberGames then h
    else
      var x := mg.value;
      var member := h.members[m];
      var unlinked := h.members[m := member.(memberGames := RemoveFirst(member.memberGames, x))];
      var link := h.links[x];
      h.(members := unlinked,
         links := if link.member == Some(m) then h.links[x := link.(member := None)] else h.links)
  }

  /** The member's list stays without repetitions under both helpers. */
  lemma {:induction false} MemberLinksStayDistinct(h: Heap, m: Ref, mg: Option<Ref>)
    requires m in h.members && (mg.Some? ==> mg.value in h.links)
    requires Distinct(h.members[m].memberGames)
    ensures Distinct(MemberAddLink(h, m, mg).members[m].memberGames)
    ensures Distinct(MemberRemoveLink(h, m, mg).members[m].memberGames)
  {
    if mg.Some? {
      if mg.value !in h.members[m].memberGames {
        AppendFreshDistinct(h.members[m].memberGames, mg.value);
      } else {
        RemoveFirstDistinct(h.members[m].memberGames, mg.value);
      }
    }
  }

  /** Removing a link just added restores the member's list and leaves the
      link without a member. */
  lemma {:induction false} MemberRemoveUndoesAdd(h: Heap, m: Ref, x: Ref)
    requires m in h.members && x in h.links && x !in h.members[m].memberGames
    ensures MemberRemoveLink(MemberAddLink(h, m, Some(x)), m, Some(x)).members == h.members
    ensures MemberRemoveLink(MemberAddLink(h, m, Some(x)), m, Some(x)).links[x].member.None?
  {
    RemoveFirstUndoesAppend(h.members[m].memberGames, x);
    var h2 := MemberRemoveLink(MemberAddLink(h, m, Some(x)), m, Some(x));
    assert h2.members[m] == h.members[m];
  }

  // ----------------------------------------------------- Game <-> MemberGame

  /** `Game.addMemberGame`: as the member's, with the game back-reference. */
  function GameAddLink(h: Heap, g: Ref, mg: Option<Ref>): (h': Heap)
    requires g in h.games && (mg.Some? ==> mg.value in h.links)
    ensures mg.None? || mg.value in h.games[g].memberGames ==> h' == h
    ensures mg.Some? && mg.value !in h.games[g].memberGames ==>
              && AgreeExcept(h.games, h'.games, g) && AgreeExcept(h.links, h'.links, mg.value)
              && h'.games[g].memberGames == h.games[g].memberGames + [mg.value]
              && h'.games[g] == h.games[g].(memberGames := h'.games[g].memberGames)
              && h'.links[mg.value] == h.links[mg.value].(game := Some(g))
              && h'.members == h.members && h'.messages == h.messages
  {
    if mg.None? || mg.value in h.games[g].memberGames then h
    else
      var x := mg.value;
      var game := h.games[g];
      var linked := h.games[g := game.(memberGames := game.memberGames + [x])];
      var link := h.links[x];
      h.(games := linked,
         links := if link.game != Some(g) then h.links[x := link.(game := Some(g))] else h.links)
  }

  /** `Game.removeMemberGame`. */
  function GameRemoveLink(h: Heap, g: Ref, mg: Option<Ref>): (h': Heap)
    requires g in h.games && (mg.Some? ==> mg.value in h.links)
    ensures mg.None? || mg.value !in h.games[g].memberGames ==> h' == h
    ensures mg.Some? && mg.value in h.games[g].memberGames ==>
              && AgreeExcept(h.games, h'.games, g) && AgreeExcept(h.links, h'.links, mg.value)
              && h'.games[g].memberGames == RemoveFirst(h.games[g].memberGames, mg.value)
              && h'.games[g] == h.games[g].(memberGames := h'.games[g].memberGames)
              && h'.links[mg.value].game == (if h.links[mg.value].game == Some(g) then None else h.links[mg.value].game)
              && h'.links[mg.value].member == h.links[mg.value].member
              && h'.members == h.members && h'.messages == h.messages
  {
    if mg.None? || mg.value !in h.games[g].memberGames then h
    else
      var x := mg.value;
      var game := h.games[g];
      var unlinked := h.games[g := game.(memberGames := RemoveFirst(game.memberGames, x))];
      var link := h.links[x];
      h.(games := unlinked,
         links := if link.game == Some(g) then h.links[x := link.(game := None)] else h.links)
  }

  lemma {:induction false} GameLinksStayDistinct(h: Heap, g: Ref, mg: Option<Ref>)
    requires g in h.games && (mg.Some? ==> mg.value in h.links)
    requires Distinct(h.games[g].memberGames)
    ensures Distinct(GameAddLink(h, g, mg).games[g].memberGames)
    ensures Distinct(GameRemoveLink(h, g, mg).games[g].memberGames)
  {
    if mg.Some? {
      if mg.value !in h.games[g].memberGames {
        AppendFreshDistinct(h.games[g].memberGames, mg.value);
      } else {
        RemoveFirstDistinct(h.games[g].memberGames, mg.value);
      }
    }
  }

  /** The game's list can be removed from only through the link's own game:
      a link whose game is another one keeps it. */
  lemma {:induction false} GameRemoveKeepsForeignBackReference(h: Heap, g: Ref, x: Ref)
    requires g in h.games && x in h.links && x in h.games[g].memberGames
    requires h.links[x].game != Some(g)
    ensures GameRemoveLink(h, g, Some(x)).links[x] == h.links[x]
  {
  }

  // ---------------------------------------------------------------- fields

  /** `changeNickname`, `changePassword`, `setResetToken`,
      `setResetTokenExpiry`: each replaces one field of one member. */
  function ChangeNickname(h: Heap, m: Ref, nickname: Option<string>): (h': Heap)
    requires m in h.members
    ensures AgreeExcept(h.members, h'.members, m) && h'.(members := h.members) == h
    ensures h'.members[m].nickname == nickname
    ensures h'.members[m].(nickname := h.members[m].nickname) == h.members[m]
  {
    h.(members := h.members[m := h.members[m].(nickname := nickname)])
  }

  function ChangePassword(h: Heap, m: Ref, encodedPassword: string): (h': Heap)
    requires m in h.members
    ensures AgreeExcept(h.members, h'.members, m) && h'.(members := h.members) == h
    ensures h'.members[m].password == encodedPassword
    ensures h'.members[m].(password := h.members[m].password) == h.members[m]
  {
    h.(members := h.members[m := h.members[m].(password := encodedPassword)])
  }

  function SetResetToken(h: Heap, m: Ref, token: Option<string>): (h': Heap)
    requires m in h.members
    ensures AgreeExcept(h.members, h'.members, m) && h'.(members := h.members) == h
    ensures h'.members[m].resetToken == token
    ensures h'.members[m].(resetToken := h.members[m].resetToken) == h.members[m]
  {
    h.(members := h.members[m := h.members[m].(resetToken := token)])
  }

  function SetResetTokenExpiry(h: Heap, m: Ref, expiry: Option<int>): (h': Heap)
    requires m in h.members
    ensures AgreeExcept(h.members, h'.members, m) && h'.(members := h.members) == h
    ensures h'.members[m].resetTokenExpiry == expiry
    ensures h'.members[m].(resetTokenExpiry := h.members[m].resetTokenExpiry) == h.members[m]
  {
    h.(members := h.members[m := h.members[m].(resetTokenExpiry := expiry)])
  }

  /** `Game`'s builder constructor: not persisted, no links, and
      `userHasGame` false. */
  function NewGame(appid: Option<int>, name: Option<string>, headerImageUrl: Option<string>, releaseDate: Option<int>)
    : (g: GameObj)
    ensures g.id.None? && !g.userHasGame && g.memberGames == []
    ensures g.appid == appid && g.name == name && g.headerImageUrl == headerImageUrl && g.releaseDate == releaseDate
  {
    GameObj(None, appid, name, headerImageUrl, releaseDate, false, [])
  }

  /** `updateGameInfo`: name, release date and image replaced; the Steam
      identifier, the id and the links kept. */
  function UpdateGameInfo(h: Heap, g: Ref, name: Option<string>, releaseDate: Option<int>, headerImageUrl: Option<string>)
    : (h': Heap)
    requires g in h.games
    ensures AgreeExcept(h.games, h'.games, g) && h'.(games := h.games) == h
    ensures h'.games[g].name == name && h'.games[g].releaseDate == releaseDate && h'.games[g].headerImageUrl == headerImageUrl
    ensures h'.games[g].appid == h.games[g].appid && h'.games[g].id == h.games[g].id
    ensures h'.games[g].memberGames == h.games[g].memberGames && h'.games[g].userHasGame == h.games[g].userHasGame
  {
    h.(games := h.games[g := h.games[g].(name := name, releaseDate := releaseDate, headerImageUrl := headerImageUrl)])
  }

  // -------------------------------------------------------------- equality

  /** `Member.equals` and `Game.equals` over the same class: the same object,
      or both persisted with the same id; an unpersisted object equals only
      itself. */
  predicate EntityEquals(thisRef: Ref, thisId: Option<int>, other: Option<Ref>, otherId: Option<int>) {
    other.Some? && (thisRef == other.value || (thisId.Some? && thisId == otherId))
  }

  predicate MemberEquals(h: Heap, a: Ref, b: Option<Ref>)
    requires a in h.members && (b.Some? ==> b.value in h.members)
  {
    EntityEquals(a, h.members[a].id, b, if b.Some? then h.members[b.value].id else None)
  }

  predicate GameEquals(h: Heap, a: Ref, b: Option<Ref>)
    requires a in h.games && (b.Some? ==> b.value in h.games)
  {
    EntityEquals(a, h.games[a].id, b, if b.Some? then h.games[b.value].id else None)
  }

  /** Two persisted games are equal exactly when their ids are; nothing
      equals null; and the relation is symmetric. */
  lemma {:induction false} GameEqualsFacts(h: Heap, a: Ref, b: Ref)
    requires a in h.games && b in h.games
    ensures h.games[a].id.Some? && h.games[b].id.Some? && a != b ==>
              (GameEquals(h, a, Some(b)) <==> h.games[a].id == h.games[b].id)
    ensures !GameEquals(h, a, None)
    ensures GameEquals(h, a, Some(b)) <==> GameEquals(h, b, Some(a))
  {
  }

  lemma {:induction false} MemberEqualsFacts(h: Heap, a: Ref, b: Ref)
    requires a in h.members && b in h.members
    ensures h.members[a].id.Some? && h.members[b].id.Some? && a != b ==>
              (MemberEquals(h, a, Some(b)) <==> h.members[a].id == h.members[b].id)
    ensures !MemberEquals(h, a, None)
    ensures MemberEquals(h, a, Some(b)) <==> MemberEquals(h, b, Some(a))
    ensures MemberEquals(h, a, Some(a))
  {
  }

  // ------------------------------------------------------------ MemberGame

  /** The builder constructor: `@NonNull` on both arguments, so a null one
      throws; otherwise a new link holding exactly the two objects. It is not
      added to either side's list. */
  function NewMemberGame(h: Heap, newRef: Ref, member: Option<Ref>, game: Option<Ref>): (r: Option<Heap>)
    requires newRef !in h.links
    ensures r.Some? <==> member.Some? && game.Some?
    ensures r.Some? ==> r.value == h.(links := h.links[newRef := MemberGameObj(member, game)])
  {
    if member.None? || game.None? then None
    else Some(h.(links := h.links[newRef := MemberGameObj(member, game)]))
  }

  /** `setMember` and `setGame`: each replaces one back-reference. */
  function SetMember(h: Heap, x: Ref, member: Option<Ref>): (h': Heap)
    requires x in h.links
    ensures AgreeExcept(h.links, h'.links, x) && h'.(links := h.links) == h
    ensures h'.links[x].member == member && h'.links[x].game == h.links[x].game
  {
    h.(links := h.links[x := h.links[x].(member := member)])
  }

  function SetGame(h: Heap, x: Ref, game: Option<Ref>): (h': Heap)
    requires x in h.links
    ensures AgreeExcept(h.links, h'.links, x) && h'.(links := h.links) == h
    ensures h'.links[x].game == game && h'.links[x].member == h.links[x].member
  {
    h.(links := h.links[x := h.links[x].(game := game)])
  }

  // --------------------------------------------------------------- Message

  /** Every message reference in a member's lists is an allocated message. */
  ghost predicate MessagesClosed(h: Heap) {
    forall m :: m in h.members ==>
      (forall x :: x in h.members[m].sentMessages ==> x in h.messages)
      && (forall x :: x in h.members[m].receivedMessages ==> x in h.messages)
  }

  /** `Message.create`: a new unread message holding exactly the given
      sender, receiver and content, appended to the sender's sent list and
      the receiver's received list when each is not null. */
  function CreateMessage(h: Heap, newRef: Ref, sender: Option<Ref>, receiver: Option<Ref>, content: string): (h': Heap)
    requires newRef !in h.messages && MessagesClosed(h)
    requires sender.Some? ==> sender.value in h.members
    requires receiver.Some? ==> receiver.value in h.members
    ensures h'.messages == h.messages[newRef := MessageObj(sender, receiver, content, false)]
    ensures h'.members.Keys == h.members.Keys && h'.games == h.games && h'.links == h.links
    ensures forall m :: m in h.members ==>
              && h'.members[m].sentMessages
                   == h.members[m].sentMessages + (if sender == Some(m) then [newRef] else [])
              && h'.members[m].receivedMessages
                   == h.members[m].receivedMessages + (if receiver == Some(m) then [newRef] else [])
              && h'.members[m].(sentMessages := h.members[m].sentMessages,
                                receivedMessages := h.members[m].receivedMessages) == h.members[m]
  {
    var h1 := if sender.Some? then
                var s := h.members[sender.value];
                h.(members := h.members[sender.value := s.(sentMessages := s.sentMessages + [newRef])])
              else h;
    var h2 := if receiver.Some? then
                var r := h1.members[receiver.value];
                h1.(members := h1.members[receiver.value := r.(receivedMessages := r.receivedMessages + [newRef])])
              else h1;
    h2.(messages := h.messages[newRef := MessageObj(sender, receiver, content, false)])
  }

  /** The new message appears exactly once in its sender's sent list and in
      its receiver's received list, even when the two are the same member. */
  lemma {:induction false} CreateListsOnce(h: Heap, newRef: Ref, sender: Option<Ref>, receiver: Option<Ref>, content: string)
    requires newRef !in h.messages && MessagesClosed(h)
    requires sender.Some? ==> sender.value in h.members
    requires receiver.Some? ==> receiver.value in h.members
    ensures var h' := CreateMessage(h, newRef, sender, receiver, content);
            && (sender.Some? ==> multiset(h'.members[sender.value].sentMessages)[newRef] == 1)
            && (receiver.Some? ==> multiset(h'.members[receiver.value].receivedMessages)[newRef] == 1)
  {
    var h' := CreateMessage(h, newRef, sender, receiver, content);
    if sender.Some? {
      var before := h.members[sender.value].sentMessages;
      assert newRef !in before;
      assert h'.members[sender.value].sentMessages == before + [newRef];
    }
    if receiver.Some? {
      var before := h.members[receiver.value].receivedMessages;
      assert newRef !in before;
      assert h'.members[receiver.value].receivedMessages == before + [newRef];
    }
  }

  /** `markAsRead`. */
  function MarkAsRead(h: Heap, x: Ref): (h': Heap)
    requires x in h.messages
    ensures AgreeExcept(h.messages, h'.messages, x) && h'.(messages := h.messages) == h
    ensures h'.messages[x].isRead
    ensures h'.messages[x].(isRead := h.messages[x].isRead) == h.messages[x]
  {
    h.(messages := h.messages[x := h.messages[x].(isRead := true)])
  }

  lemma {:induction false} MarkAsReadIdempotent(h: Heap, x: Ref)
    requires x in h.messages
    ensures MarkAsRead(MarkAsRead(h, x), x) == MarkAsRead(h, x)
  {
  }
}
