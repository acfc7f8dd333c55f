/** `MessageRepository`: the queries over the message table. `m.isDeleted =
    false` and the other column tests follow SQL: a `null` column matches no
    comparison. `ORDER BY sentAt` keeps table order among equal times. */
module MessageRepository {
  import opened Common
  import opened Ordering
  import opened Messages

  /** `sentAt` as an ordering key; the store never holds a `null` one. */
  function SentAt(m: Message): int { m.sentAt.GetOr(0) }
  function NewestFirst(m: Message): int { -SentAt(m) }
  function OldestFirst(m: Message): int { SentAt(m) }

  const TYPE_IMAGE := "IMAGE"
  const TYPE_VIDEO := "VIDEO"
  const TYPE_DOCUMENT := "DOCUMENT"
  const TYPE_AUDIO := "AUDIO"

  // ---------------------------------------------------------------------------
  // WHERE clauses
  // ---------------------------------------------------------------------------

  function LiveIn(cid: Id): Message -> bool {
    (m: Message) => m.conversation == cid && m.IsLive()
  }

  function LiveFrom(senderId: Id): Message -> bool {
    (m: Message) => m.senderId == senderId && m.IsLive()
  }

  function LiveOfType(cid: Id, messageType: string): Message -> bool {
    (m: Message) => m.conversation == cid && m.messageType == Some(messageType) && m.IsLive()
  }

  function LiveMatching(cid: Id, searchTerm: string): Message -> bool {
    (m: Message) => m.conversation == cid && m.content.Some? && LikeContainsIgnoreCase(m.content.value, searchTerm) && m.IsLive()
  }

  function LiveBetween(cid: Id, startDate: Time, endDate: Time): Message -> bool {
    (m: Message) => m.conversation == cid && m.sentAt.Some? && startDate <= m.sentAt.value <= endDate && m.IsLive()
  }

  function LiveAfter(cid: Id, afterTime: Time): Message -> bool {
    (m: Message) => m.conversation == cid && m.sentAt.Some? && m.sentAt.value > afterTime && m.IsLive()
  }

  function Unread(cid: Id, userId: Id): Message -> bool {
    (m: Message) => m.conversation == cid && m.senderId != userId && m.status.Some? && m.status.value != "read" && m.IsLive()
  }

  predicate IsMediaType(t: Option<string>) {
    t == Some(TYPE_IMAGE) || t == Some(TYPE_VIDEO) || t == Some(TYPE_DOCUMENT) || t == Some(TYPE_AUDIO)
  }

  function LiveMedia(cid: Id): Message -> bool {
    (m: Message) => m.conversation == cid && IsMediaType(m.messageType) && m.IsLive()
  }

  function LiveMediaOrAttachment(cid: Id): Message -> bool {
    (m: Message) => m.conversation == cid && (IsMediaType(m.messageType) || m.messageType == Some(TYPE_ATTACHMENT)) && m.IsLive()
  }

  function LiveWithStatus(cid: Id, status: string): Message -> bool {
    (m: Message) => m.conversation == cid && m.status == Some(status) && m.IsLive()
  }

  // ---------------------------------------------------------------------------
  // Pages
  // ---------------------------------------------------------------------------

  /** `findByConversation_IdAndIsDeletedFalse(conversationId, pageable)`: the
      page of the conversation's non-deleted messages in the order `key` asks. */
  function FindByConversation_IdAndIsDeletedFalse(ms: seq<Message>, cid: Id, p: Pageable, key: Message -> int): (r: Page<Message>)
    requires p.size >= 1
    ensures forall m :: m in r.content ==> m in ms && m.conversation == cid && m.IsLive()
    ensures r.totalElements == Count(ms, LiveIn(cid))
    ensures forall i, j :: 0 <= i < j < |r.content| ==> key(r.content[i]) <= key(r.content[j])
    ensures r.number == p.page && |r.content| <= p.size
    ensures IsSliceOf(r.content, OrderedFilter(ms, LiveIn(cid), key), p)
  {
    OrderedPage(ms, LiveIn(cid), key, p)
  }

  /** Paging through the conversation visits every live message: the `i`-th
      of them in the requested order is entry `i % size` of page `i / size`. */
  lemma ConversationMessageOnItsPage(ms: seq<Message>, cid: Id, key: Message -> int, size: nat, i: nat)
    requires size >= 1 && i < Count(ms, LiveIn(cid))
    ensures var page := FindByConversation_IdAndIsDeletedFalse(ms, cid, Pageable(i / size, size), key).content;
      i % size < |page| && page[i % size] == OrderedFilter(ms, LiveIn(cid), key)[i]
  {
    OrderedPageCoversRow(ms, LiveIn(cid), key, size, i);
  }

  /** `findBySenderIdAndIsDeletedFalse(senderId, pageable)`: the page of the
      sender's non-deleted messages in the order `key` asks. */
  function FindBySenderIdAndIsDeletedFalse(ms: seq<Message>, senderId: Id, p: Pageable, key: Message -> int): (r: Page<Message>)
    requires p.size >= 1
    ensures forall m :: m in r.content ==> m in ms && m.senderId == senderId && m.IsLive()
    ensures r.totalElements == Count(ms, LiveFrom(senderId))
    ensures forall i, j :: 0 <= i < j < |r.content| ==> key(r.content[i]) <= key(r.content[j])
    ensures r.number == p.page && |r.content| <= p.size
    ensures IsSliceOf(r.content, OrderedFilter(ms, LiveFrom(senderId), key), p)
  {
    OrderedPage(ms, LiveFrom(senderId), key, p)
  }

  /** Paging through the sender's messages visits every live one: the `i`-th
      of them in the requested order is entry `i % size` of page `i / size`. */
  lemma SenderMessageOnItsPage(ms: seq<Message>, senderId: Id, key: Message -> int, size: nat, i: nat)
    requires size >= 1 && i < Count(ms, LiveFrom(senderId))
    ensures var page := FindBySenderIdAndIsDeletedFalse(ms, senderId, Pageable(i / size, size), key).content;
      i % size < |page| && page[i % size] == OrderedFilter(ms, LiveFrom(senderId), key)[i]
  {
    OrderedPageCoversRow(ms, LiveFrom(senderId), key, size, i);
  }

  // ---------------------------------------------------------------------------
  // Lists
  // ---------------------------------------------------------------------------

  /** `findByConversationIdAndMessageType`: newest first. */
  function FindByConversationIdAndMessageType(ms: seq<Message>, cid: Id, messageType: string): (r: seq<Message>)
    ensures forall m :: m in r <==> m in ms && m.conversation == cid && m.messageType == Some(messageType) && m.IsLive()
    ensures forall i, j :: 0 <= i < j < |r| ==> SentAt(r[i]) >= SentAt(r[j])
  {
    OrderedFilter(ms, LiveOfType(cid, messageType), NewestFirst)
  }

  /** `searchMessagesByContent`: a case-insensitive LIKE on the content, newest first. */
  function SearchMessagesByContent(ms: seq<Message>, cid: Id, searchTerm: string): (r: seq<Message>)
    ensures forall m :: m in r <==>
              (m in ms && m.conversation == cid && m.IsLive() &&
               m.content.Some? && LikeContainsIgnoreCase(m.content.value, searchTerm))
    ensures forall i, j :: 0 <= i < j < |r| ==> SentAt(r[i]) >= SentAt(r[j])
  {
    OrderedFilter(ms, LiveMatching(cid, searchTerm), NewestFirst)
  }

  /** A search text without wildcards finds exactly the messages whose
      lower-cased content contains it. */
  lemma SearchIsSubstring(ms: seq<Message>, cid: Id, searchTerm: string, m: Message)
    requires NoWildcards(searchTerm)
    requires m in ms && m.conversation == cid && m.IsLive() && m.content.Some?
    ensures m in SearchMessagesByContent(ms, cid, searchTerm) <==> IsSubstring(ToLower(searchTerm), ToLower(m.content.value))
  {
    LikeContainsIgnoreCaseIsSubstring(m.content.value, searchTerm);
  }

  /** `findMessagesByDateRange`: `BETWEEN` is inclusive at both ends; newest first. */
  function FindMessagesByDateRange(ms: seq<Message>, cid: Id, startDate: Time, endDate: Time): (r: seq<Message>)
    ensures forall m :: m in r <==>
              (m in ms && m.conversation == cid && m.IsLive() &&
               m.sentAt.Some? && startDate <= m.sentAt.value <= endDate)
    ensures forall i, j :: 0 <= i < j < |r| ==> SentAt(r[i]) >= SentAt(r[j])
  {
    OrderedFilter(ms, LiveBetween(cid, startDate, endDate), NewestFirst)
  }

  /** `findMessagesAfter`: strictly after the given time, oldest first. */
  function FindMessagesAfter(ms: seq<Message>, cid: Id, afterTime: Time): (r: seq<Message>)
    ensures forall m :: m in r <==>
              (m in ms && m.conversation == cid && m.IsLive() &&
               m.sentAt.Some? && m.sentAt.value > afterTime)
    ensures forall i, j :: 0 <= i < j < |r| ==> SentAt(r[i]) <= SentAt(r[j])
  {
    OrderedFilter(ms, LiveAfter(cid, afterTime), OldestFirst)
  }

  /** The two time windows differ at the boundary: a message sent exactly at
      `t` is in the range [t, t] and not after `t`. */
  lemma TimeWindowBoundaries(ms: seq<Message>, cid: Id, m: Message, t: Time)
    requires m in ms && m.conversation == cid && m.IsLive() && m.sentAt == Some(t)
    ensures m in FindMessagesByDateRange(ms, cid, t, t)
    ensures m !in FindMessagesAfter(ms, cid, t)
  {
  }

  /** `findMessagesByStatus`: newest first. */
  function FindMessagesByStatus(ms: seq<Message>, cid: Id, status: string): (r: seq<Message>)
    ensures forall m :: m in r <==> m in ms && m.conversation == cid && m.status == Some(status) && m.IsLive()
    ensures forall i, j :: 0 <= i < j < |r| ==> SentAt(r[i]) >= SentAt(r[j])
  {
    OrderedFilter(ms, LiveWithStatus(cid, status), NewestFirst)
  }

  /** `findLatestMessageInConversation` (`ORDER BY sentAt DESC LIMIT 1`): the
      first row of the newest-first order, or nothing. */
  function FindLatestMessageInConversation(ms: seq<Message>, cid: Id): (r: Option<Message>)
    ensures r.None? <==> forall m :: m in ms ==> !(m.conversation == cid && m.IsLive())
    ensures r.Some? ==> r.value in ms && r.value.conversation == cid && r.value.IsLive()
    ensures r.Some? ==> forall m :: m in ms && m.conversation == cid && m.IsLive() ==> SentAt(m) <= SentAt(r.value)
  {
    var rows := OrderedFilter(ms, LiveIn(cid), NewestFirst);
    if rows == [] then None
    else
      HeadIsLeast(rows, NewestFirst);
      assert rows[0] in rows;
      Some(rows[0])
  }

  /** The query and the entity's `getLatestMessage()` agree: both find a message
      exactly when the conversation has a non-deleted one, and both find the
      same send time. */
  lemma LatestQueryAgreesWithEntity(ms: seq<Message>, cid: Id)
    requires Comparable(Filter(ms, InConversation(cid)))
    ensures FindLatestMessageInConversation(ms, cid).None? <==> Latest(Filter(ms, InConversation(cid))).None?
    ensures FindLatestMessageInConversation(ms, cid).Some? ==>
              SentAt(FindLatestMessageInConversation(ms, cid).value) == SentAt(Latest(Filter(ms, InConversation(cid))).value)
  {
    var own := Filter(ms, InConversation(cid));
    var q := FindLatestMessageInConversation(ms, cid);
    var e := Latest(own);
    LiveInOwnRows(ms, cid);
    if q.Some? {
      assert e.Some?;
      assert SentAt(e.value) <= SentAt(q.value);
      if q.value != e.value {
        assert q.value in own;
        var i :| 0 <= i < |own| && own[i] == q.value;
        assert SentNotAfter(own[i], e.value);
      }
    }
  }

  /** With every `isDeleted` of the conversation present, its non-deleted
      messages are the live rows of `ms` in the conversation, and the others
      are deleted. */
  lemma LiveInOwnRows(ms: seq<Message>, cid: Id)
    requires Comparable(Filter(ms, InConversation(cid)))
    ensures var own := Filter(ms, InConversation(cid));
      forall m :: m in own ==> (m.IsLive() <==> !m.IsDeleted()) && m in ms && m.conversation == cid
    ensures var own := Filter(ms, InConversation(cid));
      forall m :: m in ms && m.conversation == cid ==> m in own
  {
    var own := Filter(ms, InConversation(cid));
    forall m | m in own ensures m.IsLive() <==> !m.IsDeleted() {
      var k :| 0 <= k < |own| && own[k] == m;
    }
  }

  function InConversation(cid: Id): Message -> bool {
    (m: Message) => m.conversation == cid
  }

  /** `countUnreadMessages`: the conversation's non-deleted messages from other
      senders whose status is not the lower-case literal 'read'. */
  function CountUnreadMessages(ms: seq<Message>, cid: Id, userId: Id): (n: nat)
    ensures n <= Count(ms, LiveIn(cid))
    ensures n == 0 <==> forall i :: 0 <= i < |ms| ==>
              !(ms[i].conversation == cid && ms[i].senderId != userId && ms[i].status.Some? &&
                ms[i].status.value != "read" && ms[i].IsLive())
  {
    CountMonotone(ms, LiveIn(cid), Unread(cid, userId));
    CountExtremes(ms, Unread(cid, userId));
    Count(ms, Unread(cid, userId))
  }

  /** The comparison is case-sensitive and against lower case: a message marked
      "READ" still counts as unread, one marked "read" does not, and the
      reader's own messages never count. */
  lemma UnreadIgnoresUpperCaseRead(m: Message, userId: Id)
    requires m.IsLive() && m.senderId != userId
    ensures m.status == Some("READ") ==> CountUnreadMessages([m], m.conversation, userId) == 1
    ensures m.status == Some("read") ==> CountUnreadMessages([m], m.conversation, userId) == 0
    ensures CountUnreadMessages([m.(senderId := userId)], m.conversation, userId) == 0
  {
    assert [m][1..] == [];
    assert [m.(senderId := userId)][1..] == [];
  }

  /** `findMessagesWithAttachments` as written: only the types IMAGE, VIDEO,
      DOCUMENT and AUDIO. */
  function FindMessagesWithAttachmentsAsWritten(ms: seq<Message>, cid: Id): (r: seq<Message>)
    ensures forall m :: m in r <==> m in ms && m.conversation == cid && IsMediaType(m.messageType) && m.IsLive()
    ensures forall i, j :: 0 <= i < j < |r| ==> SentAt(r[i]) >= SentAt(r[j])
  {
    OrderedFilter(ms, LiveMedia(cid), NewestFirst)
  }

  /** `findMessagesWithAttachments` as evidently intended: also the type
      ATTACHMENT, which is the type `sendMessageWithAttachment` stores. */
  function FindMessagesWithAttachments(ms: seq<Message>, cid: Id): (r: seq<Message>)
    ensures forall m :: m in r <==>
              (m in ms && m.conversation == cid && m.IsLive() &&
               (IsMediaType(m.messageType) || m.messageType == Some(TYPE_ATTACHMENT)))
    ensures forall m :: m in FindMessagesWithAttachmentsAsWritten(ms, cid) ==> m in r
    ensures forall i, j :: 0 <= i < j < |r| ==> SentAt(r[i]) >= SentAt(r[j])
  {
    OrderedFilter(ms, LiveMediaOrAttachment(cid), NewestFirst)
  }

  /** The message the attachment upload stores is missed by the query as written
      and found by the corrected one. */
  lemma AttachmentMessageMissed(ms: seq<Message>, m: Message)
    requires m in ms && m.messageType == Some(TYPE_ATTACHMENT) && m.IsLive()
    ensures m !in FindMessagesWithAttachmentsAsWritten(ms, m.conversation)
    ensures m in FindMessagesWithAttachments(ms, m.conversation)
  {
  }

  // ---------------------------------------------------------------------------
  // The two @Modifying updates
  // ---------------------------------------------------------------------------

  /** `updateMessageStatus`: the row with that id gets the status, whatever it was. */
  function UpdateMessageStatus(ms: seq<Message>, messageId: Id, status: string): (r: seq<Message>)
    ensures |r| == |ms|
    ensures forall i :: 0 <= i < |ms| && ms[i].id == messageId ==> r[i] == ms[i].(status := Some(status))
    ensures forall i :: 0 <= i < |ms| && ms[i].id != messageId ==> r[i] == ms[i]
  {
    seq(|ms|, i requires 0 <= i < |ms| => if ms[i].id == messageId then ms[i].(status := Some(status)) else ms[i])
  }

  /** `markMessageAsDeleted`: sets only the flag; the content stays in the row. */
  function MarkMessageAsDeleted(ms: seq<Message>, messageId: Id): (r: seq<Message>)
    ensures |r| == |ms|
    ensures forall i :: 0 <= i < |ms| && ms[i].id == messageId ==>
              r[i].IsDeleted() && r[i].content == ms[i].content && r[i].(isDeleted := ms[i].isDeleted) == ms[i]
    ensures forall i :: 0 <= i < |ms| && ms[i].id != messageId ==> r[i] == ms[i]
  {
    seq(|ms|, i requires 0 <= i < |ms| => if ms[i].id == messageId then ms[i].(isDeleted := Some(true)) else ms[i])
  }

  /** Status updates are not ordered: a READ message can be set back to SENT. */
  lemma StatusCanGoBack(ms: seq<Message>, i: nat)
    requires i < |ms| && ms[i].status == Some("READ")
    ensures UpdateMessageStatus(ms, ms[i].id, STATUS_SENT)[i].status == Some(STATUS_SENT)
  {
  }

  /** A deleted message keeps its content but drops out of every conversation
      view, and the latest message moves to another one. */
  lemma {:induction false} DeletedMessageLeavesViews(ms: seq<Message>, i: nat)
    requires i < |ms|
    requires forall j :: 0 <= j < |ms| && j != i ==> ms[j].id != ms[i].id
    ensures var r := MarkMessageAsDeleted(ms, ms[i].id);
      && r[i].content == ms[i].content
      && r[i] !in FindMessagesAfter(r, ms[i].conversation, SentAt(ms[i]) - 1)
      && (FindLatestMessageInConversation(r, ms[i].conversation).Some? ==>
            FindLatestMessageInConversation(r, ms[i].conversation).value != r[i])
  {
  }
}
