/** `Message`: one message of a conversation. `conversation` is the foreign key
    held through the entity reference; `conversationId` is the separate
    read-only mirror of the same column (`insertable = false, updatable =
    false`), which only a row read back from the database carries. */
module Messages {
  import opened Common

  const TYPE_TEXT := "TEXT"
  const TYPE_ATTACHMENT := "ATTACHMENT"
  const STATUS_SENT := "SENT"

  datatype Message = Message(
    id: Id,
    conversation: Id,
    conversationId: Option<Id>,
    senderId: Id,
    content: Option<string>,
    messageType: Option<string>,
    sentAt: Option<Time>,
    isDeleted: Option<bool>,
    isEdited: Option<bool>,
    status: Option<string>)
  {
    /** `@PrePersist onCreate()`: fills `sentAt`, `isDeleted`, `isEdited` and
        `status` when they are `null`, and nothing else. */
    function OnCreate(now: Time): Message {
      this.(sentAt := if sentAt.None? then Some(now) else sentAt,
            isDeleted := if isDeleted.None? then Some(false) else isDeleted,
            isEdited := if isEdited.None? then Some(false) else isEdited,
            status := if status.None? then Some(STATUS_SENT) else status)
    }

    /** Every `nullable = false` column holds a value. */
    predicate Persistable() {
      messageType.Some? && sentAt.Some? && isDeleted.Some? && isEdited.Some? && status.Some?
    }

    /** The entity as a later read from the database gives it back: the mirror
        column now carries the foreign key. */
    function Reloaded(): (m: Message)
      ensures m.conversationId == Some(conversation)
      ensures m.(conversationId := conversationId) == this
    {
      this.(conversationId := Some(conversation))
    }

    /** `isDeleted = true` in SQL: a `null` flag matches neither test. */
    predicate IsDeleted() { isDeleted.Some? && isDeleted.value }
    predicate IsLive() { isDeleted.Some? && !isDeleted.value }
  }

  /** `Message.builder()...build()` as the services call it: the conversation
      reference, sender, content, type and send time given, `isDeleted` false,
      status SENT; `isEdited` and the mirror column are left `null` (the
      builder ignores field initializers). */
  function NewMessage(conversation: Id, senderId: Id, content: Option<string>, messageType: string, now: Time): (m: Message)
    ensures m.conversation == conversation && m.senderId == senderId && m.content == content
    ensures m.messageType == Some(messageType) && m.sentAt == Some(now)
    ensures m.isDeleted == Some(false) && m.status == Some(STATUS_SENT)
    ensures m.isEdited.None? && m.conversationId.None?
  {
    Message(0, conversation, None, senderId, content, Some(messageType), Some(now), Some(false), None, Some(STATUS_SENT))
  }

  /** `onCreate` never overwrites a value that is present, fills each `null` with
      its default, and leaves every other field as it was. */
  lemma OnCreateDefaults(m: Message, now: Time)
    ensures var c := m.OnCreate(now);
      && (m.sentAt.Some? ==> c.sentAt == m.sentAt)
      && (m.sentAt.None? ==> c.sentAt == Some(now))
      && (m.isDeleted.Some? ==> c.isDeleted == m.isDeleted)
      && (m.isDeleted.None? ==> c.isDeleted == Some(false))
      && (m.isEdited.Some? ==> c.isEdited == m.isEdited)
      && (m.isEdited.None? ==> c.isEdited == Some(false))
      && (m.status.Some? ==> c.status == m.status)
      && (m.status.None? ==> c.status == Some(STATUS_SENT))
      && c.(sentAt := m.sentAt, isDeleted := m.isDeleted, isEdited := m.isEdited, status := m.status) == m
      && (m.messageType.Some? ==> c.Persistable())
  {
  }

  /** Running the hook twice is running it once. */
  lemma OnCreateIdempotent(m: Message, t1: Time, t2: Time)
    ensures m.OnCreate(t1).OnCreate(t2) == m.OnCreate(t1)
  {
  }

  /** The hook never writes the mirror column or the reference it mirrors. */
  lemma OnCreateKeepsMirror(m: Message, now: Time)
    ensures m.OnCreate(now).conversationId == m.conversationId
    ensures m.OnCreate(now).conversation == m.conversation
  {
  }

  /** The service-built message persists with the server clock, not deleted, not
      edited, status SENT, and its mirror column still `null`. */
  lemma BuiltMessagePersists(conversation: Id, senderId: Id, content: Option<string>, messageType: string, now: Time, later: Time)
    ensures var c := NewMessage(conversation, senderId, content, messageType, now).OnCreate(later);
      && c.Persistable() && c.sentAt == Some(now)
      && c.isDeleted == Some(false) && c.isEdited == Some(false) && c.status == Some(STATUS_SENT)
      && c.conversationId.None?
  {
  }

  // ---------------------------------------------------------------------------
  // The latest non-deleted message
  // ---------------------------------------------------------------------------

  /** What `filter(m -> !m.getIsDeleted()).max(by sentAt)` needs to finish
      without a `NullPointerException`: the filter unboxes every `isDeleted`,
      and the comparator dereferences the `sentAt` of both messages it is
      given, which happens only when there are two non-deleted messages. A
      lone non-deleted message is returned without a comparison, whatever its
      `sentAt`. */
  predicate Comparable(ms: seq<Message>) {
    && (forall i :: 0 <= i < |ms| ==> ms[i].isDeleted.Some?)
    && (forall i, j :: 0 <= i < |ms| && 0 <= j < |ms| && i != j && ms[i].IsLive() && ms[j].IsLive() ==>
          ms[i].sentAt.Some?)
  }

  /** `a` was sent strictly before `b`, both send times present. */
  predicate SentBefore(a: Message, b: Message) {
    a.sentAt.Some? && b.sentAt.Some? && a.sentAt.value < b.sentAt.value
  }

  /** `a` was not sent after `b`, both send times present. */
  predicate SentNotAfter(a: Message, b: Message) {
    a.sentAt.Some? && b.sentAt.Some? && a.sentAt.value <= b.sentAt.value
  }

  /** The stream reduction `maxBy`: the running maximum is kept unless the
      next message was sent strictly later, so the first of several maximal
      ones wins. */
  function Latest(ms: seq<Message>): (r: Option<Message>)
    requires Comparable(ms)
    ensures r.None? <==> forall i :: 0 <= i < |ms| ==> ms[i].IsDeleted()
    ensures r.Some? ==> r.value in ms && r.value.IsLive()
    ensures r.Some? ==> forall i :: 0 <= i < |ms| && ms[i].IsLive() && ms[i] != r.value ==> SentNotAfter(ms[i], r.value)
    ensures r.Some? ==>
              exists k :: 0 <= k < |ms| && ms[k] == r.value &&
                (forall i :: 0 <= i < k && ms[i].IsLive() ==> SentBefore(ms[i], r.value))
  {
    if ms == [] then None
    else
      var n := |ms| - 1;
      var init := ms[..n];
      assert Comparable(init) by {
        assert forall i :: 0 <= i < n ==> init[i] == ms[i];
      }
      var acc := Latest(init);
      var last := ms[n];
      if last.IsDeleted() then
        LatestExtend(ms, acc, acc);
        acc
      else if acc.None? || SentBefore(acc.value, last) then
        LatestExtend(ms, acc, Some(last));
        Some(last)
      else
        LatestExtend(ms, acc, acc);
        acc
  }

  /** The step of `Latest`: extending the prefix by one message. */
  lemma LatestExtend(ms: seq<Message>, acc: Option<Message>, r: Option<Message>)
    requires ms != [] && Comparable(ms)
    requires var init := ms[..|ms| - 1];
      && (acc.None? <==> forall i :: 0 <= i < |init| ==> init[i].IsDeleted())
      && (acc.Some? ==> acc.value in init && acc.value.IsLive())
      && (acc.Some? ==> forall i :: 0 <= i < |init| && init[i].IsLive() && init[i] != acc.value ==> SentNotAfter(init[i], acc.value))
      && (acc.Some? ==>
            exists k :: 0 <= k < |init| && init[k] == acc.value &&
              (forall i :: 0 <= i < k && init[i].IsLive() ==> SentBefore(init[i], acc.value)))
    requires var last := ms[|ms| - 1];
      if last.IsDeleted() then r == acc
      else if acc.None? || SentBefore(acc.value, last) then r == Some(last)
      else r == acc
    ensures r.None? <==> forall i :: 0 <= i < |ms| ==> ms[i].IsDeleted()
    ensures r.Some? ==> r.value in ms && r.value.IsLive()
    ensures r.Some? ==> forall i :: 0 <= i < |ms| && ms[i].IsLive() && ms[i] != r.value ==> SentNotAfter(ms[i], r.value)
    ensures r.Some? ==>
              exists k :: 0 <= k < |ms| && ms[k] == r.value &&
                (forall i :: 0 <= i < k && ms[i].IsLive() ==> SentBefore(ms[i], r.value))
  {
    var n := |ms| - 1;
    var init := ms[..n];
    var last := ms[n];
    assert forall i :: 0 <= i < n ==> ms[i] == init[i];
    assert last.isDeleted.Some?;
    if acc.Some? {
      var k :| 0 <= k < |init| && init[k] == acc.value &&
            forall i :: 0 <= i < k && init[i].IsLive() ==> SentBefore(init[i], acc.value);
      assert ms[k] == acc.value;
      if last.IsLive() {
        // Two non-deleted messages: both send times are present.
        assert acc.value.sentAt.Some? && last.sentAt.Some?;
      }
      if r == acc {
        assert ms[k] == r.value;
      } else {
        assert ms[n] == r.value && SentBefore(acc.value, last);
        forall i | 0 <= i < n && ms[i].IsLive() ensures SentBefore(ms[i], r.value) {
          assert init[i].IsLive();
        }
      }
    } else if r.Some? {
      assert ms[n] == r.value;
    }
  }

  /** A lone non-deleted message is the latest one even without a send time:
      the comparator is never called on it. */
  lemma LoneUnstampedMessageIsLatest(m: Message, deleted: seq<Message>)
    requires m.IsLive() && m.sentAt.None?
    requires forall i :: 0 <= i < |deleted| ==> deleted[i].IsDeleted()
    ensures Comparable(deleted + [m]) && Latest(deleted + [m]) == Some(m)
  {
    var ms := deleted + [m];
    assert ms[..|deleted|] == deleted && ms[|deleted|] == m;
    assert Latest(deleted).None?;
  }

  // ---------------------------------------------------------------------------
  // The entity object the services build and hand to `save`
  // ---------------------------------------------------------------------------

  class ManagedMessage {
    var id: Id
    var conversation: Id
    var conversationId: Option<Id>
    var senderId: Id
    var content: Option<string>
    var messageType: Option<string>
    var sentAt: Option<Time>
    var isDeleted: Option<bool>
    var isEdited: Option<bool>
    var status: Option<string>

    function State(): Message
      reads this
    {
      Message(id, conversation, conversationId, senderId, content, messageType, sentAt, isDeleted, isEdited, status)
    }

    constructor (m: Message)
      ensures State() == m
    {
      id := m.id;
      conversation := m.conversation;
      conversationId := m.conversationId;
      senderId := m.senderId;
      content := m.content;
      messageType := m.messageType;
      sentAt := m.sentAt;
      isDeleted := m.isDeleted;
      isEdited := m.isEdited;
      status := m.status;
    }

    method OnCreate(now: Time)
      modifies this
      ensures State() == old(State()).OnCreate(now)
    {
      if sentAt.None? { sentAt := Some(now); }
      if isDeleted.None? { isDeleted := Some(false); }
      if isEdited.None? { isEdited := Some(false); }
      if status.None? { status := Some(STATUS_SENT); }
    }
  }
}
