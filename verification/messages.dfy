/** `MessageService`: sending under the table-wide message cap, and decoding
    the untyped rows of the conversation-list query. */
module Messages {
  import opened Wrappers
  import opened Text
  import opened Numbers
  import opened Domain
  import opened MessageRepository

  /** The table-wide cap; reaching it evicts the oldest few. */
  const MessageLimit: nat := 1000
  const EvictionCount: nat := 10

  predicate IsMessageLimitReached(ms: seq<MessageRecord>) {
    |ms| >= MessageLimit
  }

  /** `ensureMessageLimit`: below the cap nothing happens; at or above it the
      ten oldest messages go. */
  function EnsureMessageLimit(ms: seq<MessageRecord>): (r: seq<MessageRecord>)
    ensures !IsMessageLimitReached(ms) ==> r == ms
    ensures IsMessageLimitReached(ms) ==> |r| == |ms| - EvictionCount
    ensures multiset(r) <= multiset(ms)
    ensures NoLaterThan(multiset(ms) - multiset(r), r)
  {
    if IsMessageLimitReached(ms) then DeleteOldestMessages(ms, EvictionCount) else ms
  }

  datatype SendError = SenderNotFound | ReceiverNotFound

  /** `Message.create` followed by the save: a new message is unread. The
      identifier and the creation time are the database's and the clock's,
      so they are parameters. */
  function NewMessage(id: int, senderId: int, receiverId: int, content: string, now: int): (m: MessageRecord)
    ensures m.senderId == Some(senderId) && m.receiverId == receiverId
    ensures m.content == content && m.createdAt == now
    ensures !m.isRead
  {
    MessageRecord(id, Some(senderId), receiverId, content, now, false)
  }

  datatype Sent = Sent(message: MessageRecord, messages: seq<MessageRecord>)

  /** `sendMessage`: the sender is looked up first, then the receiver; only
      when both exist is the cap enforced and the message appended. */
  function SendMessage(ms: seq<MessageRecord>, members: seq<MemberRecord>, senderId: int, receiverId: int,
                       content: string, newId: int, now: int): (r: Result<Sent, SendError>)
    ensures r == Err(SenderNotFound) <==> FindById(members, senderId).None?
    ensures r == Err(ReceiverNotFound) <==> FindById(members, senderId).Some? && FindById(members, receiverId).None?
    ensures r.Ok? ==>
      && r.value.message == NewMessage(newId, senderId, receiverId, content, now)
      && r.value.messages == EnsureMessageLimit(ms) + [r.value.message]
      && |r.value.messages| == (if |ms| < MessageLimit then |ms| + 1 else |ms| - EvictionCount + 1)
  {
    if FindById(members, senderId).None? then Err(SenderNotFound)
    else if FindById(members, receiverId).None? then Err(ReceiverNotFound)
    else
      var m := NewMessage(newId, senderId, receiverId, content, now);
      Ok(Sent(m, EnsureMessageLimit(ms) + [m]))
  }

  /** Sending one message at a time from below the cap never takes the table
      past it. */
  lemma {:induction false} SendKeepsTableBounded(ms: seq<MessageRecord>, members: seq<MemberRecord>, senderId: int,
                                                receiverId: int, content: string, newId: int, now: int)
    requires |ms| <= MessageLimit
    ensures var r := SendMessage(ms, members, senderId, receiverId, content, newId, now);
            r.Ok? ==> |r.value.messages| <= MessageLimit
  {
  }

  /** The message just sent is never the one evicted: it is the last row of
      the new table, and every message from before is kept or evicted as the
      oldest. */
  lemma {:induction false} SentMessageSurvives(ms: seq<MessageRecord>, members: seq<MemberRecord>, senderId: int,
                                              receiverId: int, content: string, newId: int, now: int)
    ensures var r := SendMessage(ms, members, senderId, receiverId, content, newId, now);
            r.Ok? ==> r.value.message in r.value.messages && multiset(r.value.messages) <= multiset(ms) + multiset{r.value.message}
  {
    var r := SendMessage(ms, members, senderId, receiverId, content, newId, now);
    if r.Ok? {
      var kept := EnsureMessageLimit(ms);
      assert r.value.messages == kept + [r.value.message];
      assert r.value.messages[|kept|] == r.value.message;
    }
  }

  // ------------------------------------------------------- row decoding

  /** A column value as the JDBC driver hands it over. `SqlTime` covers both
      `LocalDateTime` and `Timestamp`, which decode alike. */
  datatype SqlValue =
    | SqlNull
    | SqlBool(b: bool)
    | SqlNumber(n: int)
    | SqlText(s: string)
    | SqlTime(t: int)

  /** `toString()` of non-text values and `LocalDateTime.parse` are library
      code: they are parameters. */
  datatype Codecs = Codecs(show: SqlValue -> string, parseDateTime: string -> Option<int>)

  datatype RawRow = RawRow(otherId: SqlValue, nickname: SqlValue, content: SqlValue,
                           time: SqlValue, fromMe: SqlValue, unread: SqlValue)

  datatype ConversationSummary = ConversationSummary(
    otherMemberId: Option<int>,
    otherMemberNickname: Option<string>,
    lastMessageContent: Option<string>,
    lastMessageTime: Option<int>,
    isLastFromMe: bool,
    unreadCount: int)

  /** A cast to `Number` that fails, or a date string that does not parse. */
  datatype DecodeError = NotANumber | UnparsableTime

  /** `String.valueOf`: a null prints as "null". */
  function StringValueOf(c: Codecs, v: SqlValue): string {
    match v
    case SqlNull => "null"
    case SqlText(s) => s
    case _ => c.show(v)
  }

  function NullableNumber(v: SqlValue): (r: Result<Option<int>, DecodeError>)
    ensures r.Ok? <==> v.SqlNull? || v.SqlNumber?
    ensures r == Ok(None) <==> v.SqlNull?
    ensures v.SqlNumber? ==> r == Ok(Some(v.n))
  {
    match v
    case SqlNull => Ok(None)
    case SqlNumber(n) => Ok(Some(n))
    case _ => Err(NotANumber)
  }

  function NullableString(c: Codecs, v: SqlValue): (r: Option<string>)
    ensures r.None? <==> v.SqlNull?
    ensures v.SqlText? ==> r == Some(v.s)
  {
    if v.SqlNull? then None else Some(StringValueOf(c, v))
  }

  function DecodeTime(c: Codecs, v: SqlValue): (r: Result<Option<int>, DecodeError>)
    ensures v.SqlNull? ==> r == Ok(None)
    ensures v.SqlTime? ==> r == Ok(Some(v.t))
    ensures r.Err? <==> !v.SqlNull? && !v.SqlTime? && c.parseDateTime(StringValueOf(c, v)).None?
  {
    match v
    case SqlNull => Ok(None)
    case SqlTime(t) => Ok(Some(t))
    case _ =>
      match c.parseDateTime(StringValueOf(c, v))
      case Some(t) => Ok(Some(t))
      case None => Err(UnparsableTime)
  }

  /** `isLastFromMe`: a boolean as is, a number through `intValue() != 0`,
      anything else by `Boolean.parseBoolean` of its string form. */
  function DecodeFromMe(c: Codecs, v: SqlValue): (r: bool)
    ensures v.SqlBool? ==> r == v.b
    ensures v.SqlNumber? ==> (r <==> IntValue(v.n) != 0)
    ensures v.SqlNull? ==> !r
    ensures v.SqlText? ==> (r <==> EqualsIgnoreCase(v.s, "true"))
  {
    match v
    case SqlBool(b) => b
    case SqlNumber(n) => IntValue(n) != 0
    case SqlNull =>
      assert ToLowerAscii("null"[0]) != ToLowerAscii("true"[0]);
      EqualsIgnoreCase("null", "true")
    case _ => EqualsIgnoreCase(StringValueOf(c, v), "true")
  }

  /** `mapConversationRow`. The columns are decoded left to right, so the
      first failing cast is the one reported. */
  function DecodeRow(c: Codecs, row: RawRow): (r: Result<ConversationSummary, DecodeError>)
    ensures r.Ok? <==>
      && (row.otherId.SqlNull? || row.otherId.SqlNumber?)
      && DecodeTime(c, row.time).Ok?
      && (row.unread.SqlNull? || row.unread.SqlNumber?)
    ensures r.Ok? ==>
      && r.value.otherMemberId == (if row.otherId.SqlNull? then None else Some(row.otherId.n))
      && (r.value.otherMemberNickname.None? <==> row.nickname.SqlNull?)
      && (r.value.lastMessageContent.None? <==> row.content.SqlNull?)
      && r.value.isLastFromMe == DecodeFromMe(c, row.fromMe)
      && r.value.unreadCount == (if row.unread.SqlNull? then 0 else row.unread.n)
  {
    var otherId :- NullableNumber(row.otherId);
    var time :- DecodeTime(c, row.time);
    var unread :- NullableNumber(row.unread);
    Ok(ConversationSummary(
      otherId,
      NullableString(c, row.nickname),
      NullableString(c, row.content),
      time,
      DecodeFromMe(c, row.fromMe),
      if unread.Some? then unread.value else 0))
  }

  /** How the conversation query's columns reach the service: numbers for
      the identifier and the count, text for the nickname and the content,
      a timestamp, and the `CASE` flag as a boolean or as the number 0 or 1
      depending on the driver. */
  function EncodeRow(row: ConversationRow, flagAsNumber: bool): RawRow {
    RawRow(
      SqlNumber(row.otherMemberId),
      if row.otherMemberNickname.Some? then SqlText(row.otherMemberNickname.value) else SqlNull,
      SqlText(row.lastMessageContent),
      SqlTime(row.lastMessageTime),
      if flagAsNumber then SqlNumber(if row.isLastFromMe then 1 else 0) else SqlBool(row.isLastFromMe),
      SqlNumber(row.unreadCount))
  }

  function Summary(row: ConversationRow): ConversationSummary {
    ConversationSummary(Some(row.otherMemberId), row.otherMemberNickname, Some(row.lastMessageContent),
                        Some(row.lastMessageTime), row.isLastFromMe, row.unreadCount)
  }

  /** Decoding what the query produces gives back the query's row, whichever
      way the driver sends the flag. */
  lemma {:induction false} DecodeEncodedRow(c: Codecs, row: ConversationRow, flagAsNumber: bool)
    ensures DecodeRow(c, EncodeRow(row, flagAsNumber)) == Ok(Summary(row))
  {
    IntValueFacts(1);
    IntValueFacts(0);
  }

  /** `intValue()` keeps only the low 32 bits, so a numeric flag of 2^32 reads
      as "not from me" although it is non-zero. */
  lemma {:induction false} WideFlagReadsAsFalse(c: Codecs)
    ensures !DecodeFromMe(c, SqlNumber(TwoTo32))
  {
    IntValueFacts(0);
    assert IntValue(0 + TwoTo32) == IntValue(0);
  }

  /** `getConversations`: every row of the page decoded; one bad row fails
      the whole page. */
  function DecodeRows(c: Codecs, rows: seq<RawRow>): (r: Result<seq<ConversationSummary>, DecodeError>)
    ensures r.Ok? <==> forall i :: 0 <= i < |rows| ==> DecodeRow(c, rows[i]).Ok?
    ensures r.Ok? ==> |r.value| == |rows| && forall i :: 0 <= i < |rows| ==> r.value[i] == DecodeRow(c, rows[i]).value
  {
    if |rows| == 0 then Ok([])
    else
      match DecodeRow(c, rows[0])
      case Err(e) => Err(e)
      case Ok(first) =>
        match DecodeRows(c, rows[1..])
        case Err(e) =>
          Err(e)
        case Ok(rest) =>
          assert forall i :: 1 <= i < |rows| ==> rows[i] == rows[1..][i - 1];
          Ok([first] + rest)
  }
}
