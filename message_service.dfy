/** `MessageService`: sending a message between two users, the WebSocket
    entry point, typing indicators, the private-conversation lookup and the
    conversions to `MessageDTO`. `sendMessage`, `sendMessageWithAttachment`
    and `saveWebSocketMessage` are `@Transactional` (a failure rolls every
    write back); `sendTypingIndicator` is not, so what it wrote before a
    failure stays. The broker is a log of published events, appended only
    after the store write it reports. */
module MessageService {
  import opened Common
  import opened Ordering
  import opened Users
  import opened Participants
  import opened Messages
  import opened Attachments
  import opened Conversations
  import opened ParticipantRepository
  import opened UserRepository
  import opened ConversationRepository
  import opened Store
  import opened MessageDtos
  import MessageRepository
  import FileUploadService

  const SENDER_NOT_FOUND := "Sender not found"
  const RECIPIENT_NOT_FOUND := "Recipient not found"
  const FILE_TOO_LARGE := "File size exceeds 10MB limit"
  const CONVERSATION_NOT_FOUND := "Conversation not found"
  const ID_MUST_NOT_BE_NULL := "The given id must not be null"
  const SENDER_NOT_ACTIVE := "Sender is not an active participant"
  const UNKNOWN_SENDER := "Unknown"
  const UPLOAD_DIR := "root/"
  const TOPIC_PREFIX := "/topic/conversation/"
  const TYPING_SUFFIX := "/typing"
  const MAX_ATTACHMENT_SIZE: nat := 10 * 1024 * 1024

  type UploadedFile = FileUploadService.UploadedFile

  // ---------------------------------------------------------------------------
  // The broker
  // ---------------------------------------------------------------------------

  /** What `convertAndSend` publishes: a message, or a typing indicator
      (`TypingIndicatorDTO(senderId, username, isTyping)`). */
  datatype Event =
    | MessageEvent(topic: string, payload: MessageDTO)
    | TypingEvent(topic: string, senderId: Id, senderUsername: string, isTyping: bool)

  class Broker {
    var log: seq<Event>

    constructor ()
      ensures log == []
    {
      log := [];
    }

    method Publish(e: Event)
      modifies this
      ensures log == old(log) + [e]
    {
      log := log + [e];
    }
  }

  /** `"/topic/conversation/" + id`: Java renders a `null` id as "null". */
  function Topic(cid: Option<Id>): string {
    TOPIC_PREFIX + (if cid.Some? then NatToString(cid.value) else "null")
  }

  /** Each conversation has its own topic, and the "null" topic is none of them. */
  lemma TopicNamesConversation(a: Id, b: Id)
    ensures Topic(Some(a)) == Topic(Some(b)) <==> a == b
    ensures Topic(None) != Topic(Some(a))
  {
    var n := |TOPIC_PREFIX|;
    if Topic(Some(a)) == Topic(Some(b)) {
      assert Topic(Some(a))[n..] == NatToString(a);
      assert Topic(Some(b))[n..] == NatToString(b);
      ParseNatToString(a);
      ParseNatToString(b);
    }
    assert Topic(None)[n] == 'n';
    assert Topic(Some(a))[n] == NatToString(a)[0];
  }

  // ---------------------------------------------------------------------------
  // Pure helpers
  // ---------------------------------------------------------------------------

  /** `determineFileType(mimeType)`: the upload sub directory. */
  function DetermineFileType(mimeType: Option<string>): string {
    if mimeType.None? then "documents"
    else if StartsWith(mimeType.value, IMAGE_PREFIX) then "picture"
    else if StartsWith(mimeType.value, VIDEO_PREFIX) then "video"
    else if StartsWith(mimeType.value, AUDIO_PREFIX) then "audio"
    else "documents"
  }

  /** The directory agrees with the attachment's own classification: images
      go to "picture", videos to "video", audio to "audio", and documents and
      files without a type to "documents". */
  lemma FileTypeMatchesAttachment(a: Attachment)
    ensures a.IsImage() <==> DetermineFileType(a.mimeType) == "picture"
    ensures a.IsVideo() <==> DetermineFileType(a.mimeType) == "video"
    ensures a.IsAudio() <==> DetermineFileType(a.mimeType) == "audio"
    ensures a.IsDocument() || a.mimeType.None? <==> DetermineFileType(a.mimeType) == "documents"
  {
    MimeCategories(a);
  }

  /** The WebSocket payload `ChatMessageDTO`, as far as the service reads it;
      the client's `sentAt` and the other fields are ignored. Both ids are
      `Long` there and may be missing from the payload. */
  datatype ChatMessage = ChatMessage(
    conversationId: Option<Id>,
    senderId: Option<Id>,
    content: Option<string>,
    messageType: Option<string>,
    sentAt: Option<Time>)

  /** `buildEntity(chatMessage)`: the server clock, not deleted, status SENT,
      and the type the client gave or TEXT. It runs only after the sender's
      participant row was saved, which a missing sender id never is. */
  function BuildEntity(msg: ChatMessage, conversation: Conversation, now: Time): Message
    requires msg.senderId.Some?
  {
    NewMessage(conversation.id, msg.senderId.value, msg.content, msg.messageType.GetOr(TYPE_TEXT), now)
  }

  /** Whatever the client sent as `sentAt`, the stored message carries the
      server's time, is not deleted or edited, has status SENT, and has the
      client's type or TEXT. */
  lemma BuiltEntityDefaults(msg: ChatMessage, conversation: Conversation, now: Time, later: Time)
    requires msg.senderId.Some?
    ensures var m := BuildEntity(msg, conversation, now).OnCreate(later);
      && m.Persistable() && m.sentAt == Some(now)
      && m.isDeleted == Some(false) && m.isEdited == Some(false) && m.status == Some(STATUS_SENT)
      && (msg.messageType.Some? ==> m.messageType == msg.messageType)
      && (msg.messageType.None? ==> m.messageType == Some(TYPE_TEXT))
      && m.conversation == conversation.id && m.senderId == msg.senderId.value && m.content == msg.content
  {
    BuiltMessagePersists(conversation.id, msg.senderId.value, msg.content, msg.messageType.GetOr(TYPE_TEXT), now, later);
  }

  // ---------------------------------------------------------------------------
  // searchUsers and findUserByUsername
  // ---------------------------------------------------------------------------

  /** `UserDTO`, as `convertUserToDTO` fills it. */
  datatype UserDTO = UserDTO(
    id: Id,
    username: string,
    email: string,
    displayName: Option<string>,
    isOnline: Option<bool>)

  /** `convertUserToDTO(user)`. */
  function ConvertUserToDTO(u: User): UserDTO {
    UserDTO(u.id, u.username, u.email, u.displayName, u.isOnline)
  }

  /** `searchUsers(username, currentUserId)`: every other active user whose
      name contains the text, ignoring case, each once per row and in row order. */
  function SearchUsers(us: seq<User>, username: string, currentUserId: Id): (r: seq<UserDTO>)
    ensures |r| == |FindByUsernameContainingIgnoreCaseAndIdNotAndIsActiveTrue(us, username, currentUserId)|
    ensures forall d :: d in r ==>
              exists u :: u in us && u.id != currentUserId && u.IsCurrentlyActive()
                && IsSubstring(ToLower(username), ToLower(u.username)) && d == ConvertUserToDTO(u)
    ensures forall u :: (u in us && u.id != currentUserId && u.IsCurrentlyActive()
                           && IsSubstring(ToLower(username), ToLower(u.username))) ==> ConvertUserToDTO(u) in r
  {
    var rows := FindByUsernameContainingIgnoreCaseAndIdNotAndIsActiveTrue(us, username, currentUserId);
    MapSeqMembers(rows, ConvertUserToDTO);
    MapSeq(rows, ConvertUserToDTO)
  }

  /** `findUserByUsername(username)`: the active account with exactly that
      name, converted; absent when the only such accounts are deactivated. */
  function FindUserByUsername(us: seq<User>, username: string): (r: Result<Option<UserDTO>>)
    ensures r.Success? && r.value.Some? ==>
              exists u :: u in us && u.username == username && u.IsCurrentlyActive() && r.value.value == ConvertUserToDTO(u)
    ensures r.Success? && r.value.None? ==> forall u :: u in us && u.username == username ==> !u.IsCurrentlyActive()
    ensures UniqueColumns(us) ==> r.Success?
  {
    var found := FindByUsernameAndIsActiveTrue(us, username);
    if found.Failure? then Failure(found.error)
    else if found.value.None? then Success(None)
    else Success(Some(ConvertUserToDTO(found.value.value)))
  }

  // ---------------------------------------------------------------------------
  // convertMessageToDTO
  // ---------------------------------------------------------------------------

  /** The sender's username, or "Unknown" when the id names no user. */
  function SenderName(us: seq<User>, senderId: Id): string {
    var sender := FindById(us, IdOfUser, senderId);
    if sender.Some? then sender.value.username else UNKNOWN_SENDER
  }

  /** `convertMessageToDTO` as written: the conversation id is read from the
      read-only mirror column, which a freshly saved entity does not carry. */
  function ConvertMessageToDTOAsWritten(us: seq<User>, m: Message): MessageDTO {
    EmptyDto().(id := Some(m.id), conversationId := m.conversationId, senderId := Some(m.senderId),
                senderUsername := Some(SenderName(us, m.senderId)), content := m.content,
                messageType := m.messageType, sentAt := m.sentAt, isDeleted := m.isDeleted, status := m.status)
  }

  /** `convertMessageToDTO`, taking the conversation id from the conversation
      reference, which is set on every message the services save. */
  function ConvertMessageToDTO(us: seq<User>, m: Message): (d: MessageDTO)
    ensures d.id == Some(m.id) && d.conversationId == Some(m.conversation) && d.senderId == Some(m.senderId)
    ensures d.content == m.content && d.messageType == m.messageType && d.sentAt == m.sentAt
    ensures d.isDeleted == m.isDeleted && d.status == m.status && d.isEdited.None?
    ensures d.senderUsername.Some? && d.attachments.None?
  {
    ConvertMessageToDTOAsWritten(us, m).(conversationId := Some(m.conversation))
  }

  /** The as-written conversion loses the conversation id of every message
      the services have just saved (the mirror column is `null` until the row
      is read back), so the DTOs `sendMessage`, `sendMessageWithAttachment`
      and `saveWebSocketMessage` return and broadcast carry none; on a row
      read back from the database both conversions agree. */
  lemma ConversionLosesConversationId(us: seq<User>, cid: Id, senderId: Id, content: Option<string>,
                                      messageType: string, now: Time, id: Id)
    ensures var saved := NewMessage(cid, senderId, content, messageType, now).OnCreate(now).(id := id);
      && ConvertMessageToDTOAsWritten(us, saved).conversationId.None?
      && ConvertMessageToDTO(us, saved).conversationId == Some(cid)
      && ConvertMessageToDTOAsWritten(us, saved.Reloaded()) == ConvertMessageToDTO(us, saved)
  {
  }

  /** A converted stored message passes the DTO's validation exactly when its
      content is within the 5000-character limit, and names its sender
      whenever the sender is a stored user. */
  lemma ConvertedMessageValid(us: seq<User>, m: Message)
    requires m.Persistable()
    ensures ConvertMessageToDTO(us, m).IsValid() <==> m.content.None? || Utf16Length(m.content.value) <= MAX_CONTENT
    ensures (exists u :: u in us && u.id == m.senderId) ==>
              ConvertMessageToDTO(us, m).senderUsername != Some(UNKNOWN_SENDER) || UNKNOWN_SENDER in UsernamesOf(us)
  {
    if exists u :: u in us && u.id == m.senderId {
      var sender := FindById(us, IdOfUser, m.senderId);
      assert sender.Some?;
      assert sender.value.username in UsernamesOf(us);
    }
  }

  /** The usernames of the stored users. */
  function UsernamesOf(us: seq<User>): set<string> {
    set u | u in us :: u.username
  }

  // ---------------------------------------------------------------------------
  // findOrCreatePrivateConversation
  // ---------------------------------------------------------------------------

  /** The PRIVATE conversation the lookup creates when none exists. */
  function PrivateConversationOf(t: Tables, user1Id: Id, now: Time): Conversation {
    NewConversation(PRIVATE, None, user1Id, now).(id := t.nextConversationId)
  }

  /** The two MEMBER rows of a new private conversation, in save order. */
  function PrivateRows(t: Tables, user1Id: Id, user2Id: Id, now: Time): seq<Participant> {
    var cid := t.nextConversationId;
    [NewParticipant(cid, user1Id, MEMBER, now).(id := t.nextParticipantId),
     NewParticipant(cid, user2Id, MEMBER, now).(id := t.nextParticipantId + 1)]
  }

  /** The tables once the new conversation and the first `rows` of its two
      MEMBER rows are saved. */
  function OpenPrivate(t: Tables, user1Id: Id, user2Id: Id, now: Time, rows: nat): Tables
    requires 1 <= rows <= 2
  {
    var first := t.participants + [PrivateRows(t, user1Id, user2Id, now)[0]];
    t.(conversations := t.conversations + [PrivateConversationOf(t, user1Id, now)],
       nextConversationId := t.nextConversationId + 1,
       participants := if rows == 1 then first else first + [PrivateRows(t, user1Id, user2Id, now)[1]],
       nextParticipantId := t.nextParticipantId + rows)
  }

  /** What `findOrCreatePrivateConversation(user1, user2)` answers: the existing
      conversation, the lookup's error, or the new conversation; with the
      same user on both sides the second row collides with the first. */
  function PrivateOutcome(t: Tables, user1Id: Id, user2Id: Id, now: Time): Result<Conversation> {
    var found := FindPrivateConversationBetweenUsers(t.conversations, t.participants, user1Id, user2Id);
    if found.Failure? then Failure(found.error)
    else if found.value.Some? then Success(found.value.value)
    else if user1Id == user2Id then Failure(Error(ConstraintViolation, CONSTRAINT_VIOLATED))
    else Success(PrivateConversationOf(t, user1Id, now))
  }

  /** The tables after `findOrCreatePrivateConversation`, before any rollback
      of the caller. */
  function PrivateState(t: Tables, user1Id: Id, user2Id: Id, now: Time): Tables {
    var found := FindPrivateConversationBetweenUsers(t.conversations, t.participants, user1Id, user2Id);
    if found.Failure? || found.value.Some? then t
    else OpenPrivate(t, user1Id, user2Id, now, if user1Id == user2Id then 1 else 2)
  }

  /** The first writes of the creating half: the conversation and the first
      user's row, which never collides. */
  method SaveConversationAndFirstMember(db: Database, user1Id: Id, user2Id: Id, now: Time) returns (conversation: Conversation)
    requires db.State().Valid()
    modifies db
    ensures db.State().Valid()
    ensures conversation == PrivateConversationOf(old(db.State()), user1Id, now)
    ensures db.State() == OpenPrivate(old(db.State()), user1Id, user2Id, now, 1)
    ensures db.State().FindConversationById(conversation.id) == Some(conversation)
  {
    ghost var t := db.State();
    ghost var rows := PrivateRows(t, user1Id, user2Id, now);
    conversation := db.InsertConversation(NewConversation(PRIVATE, None, user1Id, now), now);
    FindByIdFindsRow(db.conversations, IdOfConversation, |t.conversations|);
    CountExtremes(t.participants, KeyIs(conversation.id, user1Id));
    var participant1 := db.InsertParticipant(NewParticipant(conversation.id, user1Id, MEMBER, now), now);
    assert participant1.Success?;
  }

  /** The second row's key is taken exactly when both sides are one user. */
  lemma SecondRowCollidesIffSame(t: Tables, user1Id: Id, user2Id: Id, now: Time)
    requires BelowCounter(t)
    ensures Count(t.participants + [PrivateRows(t, user1Id, user2Id, now)[0]], KeyIs(t.nextConversationId, user2Id)) ==
            if user1Id == user2Id then 1 else 0
  {
    var key := KeyIs(t.nextConversationId, user2Id);
    CountExtremes(t.participants, key);
    CountAppend(t.participants, PrivateRows(t, user1Id, user2Id, now)[0], key);
  }

  /** The creating half of the lookup: the conversation, then one row per
      user; the second row of a user talking to themself collides. */
  method OpenPrivateConversation(db: Database, user1Id: Id, user2Id: Id, now: Time) returns (r: Result<Conversation>)
    requires db.State().Valid()
    modifies db
    ensures db.State().Valid()
    ensures user1Id != user2Id ==>
              r == Success(PrivateConversationOf(old(db.State()), user1Id, now))
              && db.State() == OpenPrivate(old(db.State()), user1Id, user2Id, now, 2)
    ensures user1Id == user2Id ==>
              r == Failure(Error(ConstraintViolation, CONSTRAINT_VIOLATED))
              && db.State() == OpenPrivate(old(db.State()), user1Id, user2Id, now, 1)
  {
    ghost var t := db.State();
    ghost var rows := PrivateRows(t, user1Id, user2Id, now);
    ValidIsBelowCounter(t);
    SecondRowCollidesIffSame(t, user1Id, user2Id, now);
    var conversation := SaveConversationAndFirstMember(db, user1Id, user2Id, now);
    assert db.participants == t.participants + [rows[0]];
    if user1Id == user2Id {
      var participant2 := db.InsertParticipant(NewParticipant(conversation.id, user2Id, MEMBER, now), now);
      return Failure(Error(ConstraintViolation, CONSTRAINT_VIOLATED));
    }
    ghost var first := db.State();
    var participant2 := db.InsertParticipant(NewParticipant(conversation.id, user2Id, MEMBER, now), now);
    assert participant2.Success?;
    assert participant2.value == rows[1];
    assert db.State() == first.(participants := first.participants + [rows[1]], nextParticipantId := first.nextParticipantId + 1);
    r := Success(conversation);
  }

  /** `findOrCreatePrivateConversation(user1, user2)` (it reads only the ids). */
  method FindOrCreatePrivateConversation(db: Database, user1Id: Id, user2Id: Id, now: Time) returns (r: Result<Conversation>)
    requires db.State().Valid()
    modifies db
    ensures db.State().Valid()
    ensures r == PrivateOutcome(old(db.State()), user1Id, user2Id, now)
    ensures db.State() == PrivateState(old(db.State()), user1Id, user2Id, now)
  {
    var found := FindPrivateConversationBetweenUsers(db.conversations, db.participants, user1Id, user2Id);
    if found.Failure? {
      return Failure(found.error);
    }
    if found.value.Some? {
      return Success(found.value.value);
    }
    r := OpenPrivateConversation(db, user1Id, user2Id, now);
  }

  /** What the lemmas below need of a valid store: every conversation and
      every participant row refers to an id below the conversation counter. */
  predicate BelowCounter(t: Tables) {
    && (forall c :: c in t.conversations ==> c.id < t.nextConversationId)
    && (forall i :: 0 <= i < |t.participants| ==> t.participants[i].conversationId < t.nextConversationId)
  }

  lemma ValidIsBelowCounter(t: Tables)
    requires t.Valid()
    ensures BelowCounter(t)
  {
    forall c | c in t.conversations ensures c.id < t.nextConversationId {
      var i :| 0 <= i < |t.conversations| && t.conversations[i] == c;
    }
  }

  /** Rows of a new conversation do not change who is active in the old
      conversations. */
  lemma NewRowsKeepOldMembership(t: Tables, rows: seq<Participant>, uid: Id)
    requires BelowCounter(t)
    requires forall k :: 0 <= k < |rows| ==> rows[k].conversationId == t.nextConversationId
    ensures forall c :: c in t.conversations ==>
              (IsActiveMember(t.participants + rows, c.id, uid) <==> IsActiveMember(t.participants, c.id, uid))
  {
    forall c | c in t.conversations && IsActiveMember(t.participants + rows, c.id, uid)
      ensures IsActiveMember(t.participants, c.id, uid)
    {
      var p :| p in t.participants + rows && p.conversationId == c.id && p.userId == uid && p.isActive;
      var k :| 0 <= k < |t.participants + rows| && (t.participants + rows)[k] == p;
      assert k < |t.participants|;
      assert t.participants[k] == p;
    }
  }

  /** The two new rows are the conversation's only rows. */
  lemma PrivateRowsCount(t: Tables, user1Id: Id, user2Id: Id, now: Time)
    requires BelowCounter(t)
    ensures Count(t.participants + PrivateRows(t, user1Id, user2Id, now), InConversation(t.nextConversationId)) == 2
  {
    var rows := PrivateRows(t, user1Id, user2Id, now);
    var p := InConversation(t.nextConversationId);
    CountConcat(t.participants, rows, p);
    CountExtremes(t.participants, p);
    CountExtremes(rows, p);
  }

  /** Both new rows are active. */
  lemma PrivateRowsActiveCount(t: Tables, user1Id: Id, user2Id: Id, now: Time)
    requires BelowCounter(t)
    ensures CountActiveParticipants(t.participants + PrivateRows(t, user1Id, user2Id, now), t.nextConversationId) == 2
  {
    var rows := PrivateRows(t, user1Id, user2Id, now);
    var p := ActiveInConversation(t.nextConversationId);
    CountConcat(t.participants, rows, p);
    CountExtremes(t.participants, p);
    CountExtremes(rows, p);
  }

  /** Both users are active members through the new rows, which have the
      MEMBER role. */
  lemma PrivateRowsAreTheMembers(t: Tables, user1Id: Id, user2Id: Id, now: Time)
    requires BelowCounter(t)
    ensures var cid := t.nextConversationId; var ps := t.participants + PrivateRows(t, user1Id, user2Id, now);
      && IsActiveMember(ps, cid, user1Id) && IsActiveMember(ps, cid, user2Id)
      && forall p :: p in ps && p.conversationId == cid ==> p.IsMember()
  {
    var cid := t.nextConversationId;
    var rows := PrivateRows(t, user1Id, user2Id, now);
    var ps := t.participants + rows;
    assert rows[0] in ps && rows[1] in ps;
    forall p | p in ps && p.conversationId == cid ensures p.IsMember() {
      var k :| 0 <= k < |ps| && ps[k] == p;
      assert k >= |t.participants|;
    }
  }

  /** A new private conversation has type PRIVATE, is created by the first
      user, and has exactly two participant rows, both active MEMBER rows,
      one per user. */
  lemma NewPrivateConversationShape(t: Tables, user1Id: Id, user2Id: Id, now: Time)
    requires BelowCounter(t) && user1Id != user2Id
    requires FindPrivateConversationBetweenUsers(t.conversations, t.participants, user1Id, user2Id) == Success(None)
    ensures var c := PrivateOutcome(t, user1Id, user2Id, now);
      var ps := PrivateState(t, user1Id, user2Id, now).participants;
      && c.Success? && c.value.IsPrivate() && c.value.createdBy == user1Id && c.value.name.None?
      && Count(ps, InConversation(c.value.id)) == 2
      && CountActiveParticipants(ps, c.value.id) == 2
      && IsActiveMember(ps, c.value.id, user1Id) && IsActiveMember(ps, c.value.id, user2Id)
      && forall p :: p in ps && p.conversationId == c.value.id ==> p.IsMember()
  {
    var rows := PrivateRows(t, user1Id, user2Id, now);
    assert PrivateState(t, user1Id, user2Id, now).participants == t.participants + rows;
    PrivateRowsCount(t, user1Id, user2Id, now);
    PrivateRowsActiveCount(t, user1Id, user2Id, now);
    PrivateRowsAreTheMembers(t, user1Id, user2Id, now);
  }

  /** Once the conversation of two different users is created, the lookup
      finds it and nothing else. */
  lemma LookupFindsNewConversation(t: Tables, user1Id: Id, user2Id: Id, now: Time)
    requires BelowCounter(t) && user1Id != user2Id
    requires FindPrivateConversationBetweenUsers(t.conversations, t.participants, user1Id, user2Id) == Success(None)
    ensures var s := OpenPrivate(t, user1Id, user2Id, now, 2);
      FindPrivateConversationBetweenUsers(s.conversations, s.participants, user1Id, user2Id) ==
        Success(Some(PrivateConversationOf(t, user1Id, now)))
  {
    var c := PrivateConversationOf(t, user1Id, now);
    var rows := PrivateRows(t, user1Id, user2Id, now);
    var s := OpenPrivate(t, user1Id, user2Id, now, 2);
    assert s.participants == t.participants + rows;
    NewRowsKeepOldMembership(t, rows, user1Id);
    NewRowsKeepOldMembership(t, rows, user2Id);
    PrivateRowsAreTheMembers(t, user1Id, user2Id, now);
    var both := PrivateWithBoth(s.participants, user1Id, user2Id);
    forall i | 0 <= i < |t.conversations| ensures !both(t.conversations[i]) {
      assert t.conversations[i] in t.conversations;
    }
    FilterOnlyAppended(t.conversations, c, both);
  }

  /** The lookup is idempotent for two different users: asking again, at any
      later time, returns the same conversation and writes nothing. */
  lemma PrivateLookupIdempotent(t: Tables, user1Id: Id, user2Id: Id, now: Time, later: Time)
    requires BelowCounter(t) && user1Id != user2Id
    requires PrivateOutcome(t, user1Id, user2Id, now).Success?
    ensures var s := PrivateState(t, user1Id, user2Id, now);
      && PrivateOutcome(s, user1Id, user2Id, later) == PrivateOutcome(t, user1Id, user2Id, now)
      && PrivateState(s, user1Id, user2Id, later) == s
  {
    var found := FindPrivateConversationBetweenUsers(t.conversations, t.participants, user1Id, user2Id);
    if found.value.None? {
      LookupFindsNewConversation(t, user1Id, user2Id, now);
    }
  }

  /** With the same user on both sides and no PRIVATE conversation in which
      that user is active, the lookup creates a conversation and one row and
      then fails on the second: outside a transaction a one-member private
      conversation is left behind. */
  lemma SelfConversationHalfOpened(t: Tables, uid: Id, now: Time)
    requires BelowCounter(t)
    requires forall c :: c in t.conversations && c.IsPrivate() ==> !IsActiveMember(t.participants, c.id, uid)
    ensures PrivateOutcome(t, uid, uid, now) == Failure(Error(ConstraintViolation, CONSTRAINT_VIOLATED))
    ensures var s := PrivateState(t, uid, uid, now); var cid := t.nextConversationId;
      && s.conversations == t.conversations + [PrivateConversationOf(t, uid, now)]
      && CountActiveParticipants(s.participants, cid) == 1
  {
    var both := PrivateWithBoth(t.participants, uid, uid);
    forall i | 0 <= i < |t.conversations| ensures !both(t.conversations[i]) {
      assert t.conversations[i] in t.conversations;
    }
    CountExtremes(t.conversations, both);
    var cid := t.nextConversationId;
    var rows := PrivateRows(t, uid, uid, now);
    assert PrivateState(t, uid, uid, now) == OpenPrivate(t, uid, uid, now, 1);
    CountAppend(t.participants, rows[0], ActiveInConversation(cid));
    CountExtremes(t.participants, ActiveInConversation(cid));
  }

  // ---------------------------------------------------------------------------
  // The message send paths
  // ---------------------------------------------------------------------------

  /** `userRepository.findByUsernameAndIsActiveTrue(recipientUsername)`. */
  function RecipientOf(t: Tables, username: string): Option<User>
    requires t.Valid()
  {
    FindByUsernameAndIsActiveTrue(t.users, username).value
  }

  /** The two lookups every send path starts with: the sender by id, then the
      active recipient by username. */
  function ResolveRecipient(t: Tables, senderId: Id, recipientUsername: string): (r: Result<User>)
    requires t.Valid()
    ensures t.FindUserById(senderId).None? ==> r == Failure(Error(IllegalArgument, SENDER_NOT_FOUND))
    ensures t.FindUserById(senderId).Some? && RecipientOf(t, recipientUsername).None? ==>
              r == Failure(Error(IllegalArgument, RECIPIENT_NOT_FOUND))
    ensures r.Success? <==> t.FindUserById(senderId).Some? && RecipientOf(t, recipientUsername).Some?
    ensures r.Success? ==>
              r.value in t.users && r.value.username == recipientUsername && r.value.IsCurrentlyActive()
  {
    if t.FindUserById(senderId).None? then Failure(Error(IllegalArgument, SENDER_NOT_FOUND))
    else if RecipientOf(t, recipientUsername).None? then Failure(Error(IllegalArgument, RECIPIENT_NOT_FOUND))
    else Success(RecipientOf(t, recipientUsername).value)
  }

  /** The saved entity: the row the hook completed, with the next id. */
  function SavedMessage(t: Tables, m: Message, now: Time): Message {
    m.OnCreate(now).(id := t.nextMessageId)
  }

  /** The tables once the saved message is stored. */
  function WithMessage(t: Tables, saved: Message): Tables {
    t.(messages := t.messages + [saved.Reloaded()], nextMessageId := t.nextMessageId + 1)
  }

  /** A stored live message of the conversation is one more row that the
      conversation's message listing counts. */
  lemma StoredMessageIsListed(t: Tables, saved: Message)
    requires saved.IsLive()
    ensures Count(WithMessage(t, saved).messages, MessageRepository.LiveIn(saved.conversation)) ==
            Count(t.messages, MessageRepository.LiveIn(saved.conversation)) + 1
    ensures saved.Reloaded() in WithMessage(t, saved).messages
  {
    CountAppend(t.messages, saved.Reloaded(), MessageRepository.LiveIn(saved.conversation));
  }

  /** The common tail of the send paths: save the entity, convert the saved
      message and publish it on its conversation's topic. */
  method Deliver(db: Database, broker: Broker, m: Message, now: Time) returns (dto: MessageDTO)
    requires db.State().Valid() && m.OnCreate(now).Persistable()
    modifies db, broker
    ensures db.State().Valid()
    ensures var saved := SavedMessage(old(db.State()), m, now);
      && db.State() == WithMessage(old(db.State()), saved)
      && dto == ConvertMessageToDTO(old(db.State()).users, saved)
      && broker.log == old(broker.log) + [MessageEvent(Topic(Some(m.conversation)), dto)]
  {
    var saved := db.InsertMessage(m, now);
    dto := ConvertMessageToDTO(db.users, saved.value);
    broker.Publish(MessageEvent(Topic(Some(saved.value.conversation)), dto));
  }

  /** `sendMessage(senderId, recipientUsername, content)`. */
  method SendMessage(db: Database, broker: Broker, senderId: Id, recipientUsername: string, content: Option<string>, now: Time)
    returns (r: Result<MessageDTO>)
    requires db.State().Valid()
    modifies db, broker
    ensures db.State().Valid()
    ensures var check := ResolveRecipient(old(db.State()), senderId, recipientUsername);
      && (check.Failure? ==> r == Failure(check.error))
      && (r.Success? <==> check.Success? && PrivateOutcome(old(db.State()), senderId, check.value.id, now).Success?)
    ensures r.Failure? ==> db.State() == old(db.State()) && broker.log == old(broker.log)
    ensures r.Success? ==>
              var recipient := ResolveRecipient(old(db.State()), senderId, recipientUsername).value;
              var prepared := PrivateState(old(db.State()), senderId, recipient.id, now);
              var c := PrivateOutcome(old(db.State()), senderId, recipient.id, now).value;
              var saved := SavedMessage(prepared, NewMessage(c.id, senderId, content, TYPE_TEXT, now), now);
              && db.State() == WithMessage(prepared, saved)
              && r.value == ConvertMessageToDTO(prepared.users, saved)
              && broker.log == old(broker.log) + [MessageEvent(Topic(Some(c.id)), r.value)]
  {
    var t := db.State();
    var recipient := ResolveRecipient(db.State(), senderId, recipientUsername);
    if recipient.Failure? {
      return Failure(recipient.error);
    }
    var conversation := FindOrCreatePrivateConversation(db, senderId, recipient.value.id, now);
    if conversation.Failure? {
      db.Restore(t);
      return Failure(conversation.error);
    }
    BuiltMessagePersists(conversation.value.id, senderId, content, TYPE_TEXT, now, now);
    var dto := Deliver(db, broker, NewMessage(conversation.value.id, senderId, content, TYPE_TEXT, now), now);
    r := Success(dto);
  }

  /** Where `sendMessageWithAttachment` stores the file: the upload directory,
      the type's sub directory, and the UUID joined to the original name. */
  function StoredFilePath(f: UploadedFile, uuid: string): string {
    UPLOAD_DIR + DetermineFileType(f.contentType) + "/" + uuid + "_" + f.originalFilename.GetOr("null")
  }

  /** The attachment row `sendMessageWithAttachment` builds. */
  function AttachmentFor(messageId: Id, f: UploadedFile, uuid: string, now: Time): Attachment {
    Attachment(0, messageId, f.originalFilename, Some(StoredFilePath(f, uuid)), Some(f.size), f.contentType, now,
               None, None, None, None, false, None)
  }

  /** The tables once the attachment row is stored. */
  function WithAttachment(t: Tables, a: Attachment): Tables {
    t.(attachments := t.attachments + [a.(id := t.nextAttachmentId)], nextAttachmentId := t.nextAttachmentId + 1)
  }

  /** The writes of `sendMessageWithAttachment` once the conversation is
      known: the ATTACHMENT message, then its attachment row, whose name and
      type columns may not be `null`. */
  method SaveAttachmentMessage(db: Database, cid: Id, senderId: Id, content: Option<string>,
                               f: UploadedFile, uuid: string, now: Time) returns (r: Result<Message>)
    requires db.State().Valid()
    modifies db
    ensures db.State().Valid()
    ensures r.Success? <==> f.originalFilename.Some? && f.contentType.Some?
    ensures r.Failure? ==> r.error == Error(ConstraintViolation, NULL_VIOLATED)
    ensures r.Success? ==>
              var saved := SavedMessage(old(db.State()), NewMessage(cid, senderId, content, TYPE_ATTACHMENT, now), now);
              r.value == saved
              && db.State() == WithAttachment(WithMessage(old(db.State()), saved), AttachmentFor(saved.id, f, uuid, now))
  {
    var saved := db.InsertMessage(NewMessage(cid, senderId, content, TYPE_ATTACHMENT, now), now);
    assert saved.Success?;
    var stored := db.InsertAttachment(AttachmentFor(saved.value.id, f, uuid, now), now);
    if stored.Failure? {
      return Failure(stored.error);
    }
    r := Success(saved.value);
  }

  /** The tail of `sendMessageWithAttachment` once the conversation is known:
      the writes, then the broadcast. */
  method DeliverWithAttachment(db: Database, broker: Broker, cid: Id, senderId: Id, content: Option<string>,
                               f: UploadedFile, uuid: string, now: Time) returns (r: Result<MessageDTO>)
    requires db.State().Valid()
    modifies db, broker
    ensures db.State().Valid()
    ensures r.Success? <==> f.originalFilename.Some? && f.contentType.Some?
    ensures r.Failure? ==> r.error == Error(ConstraintViolation, NULL_VIOLATED) && broker.log == old(broker.log)
    ensures r.Success? ==>
              var saved := SavedMessage(old(db.State()), NewMessage(cid, senderId, content, TYPE_ATTACHMENT, now), now);
              && db.State() == WithAttachment(WithMessage(old(db.State()), saved), AttachmentFor(saved.id, f, uuid, now))
              && r.value == ConvertMessageToDTO(old(db.State()).users, saved)
              && broker.log == old(broker.log) + [MessageEvent(Topic(Some(cid)), r.value)]
  {
    var saved := SaveAttachmentMessage(db, cid, senderId, content, f, uuid, now);
    if saved.Failure? {
      return Failure(saved.error);
    }
    var dto := ConvertMessageToDTO(db.users, saved.value);
    broker.Publish(MessageEvent(Topic(Some(cid)), dto));
    r := Success(dto);
  }

  /** `sendMessageWithAttachment(senderId, recipientUsername, content, file)`:
      the file bytes and directories are not modelled; a missing original name
      or content type leaves a non-null column empty and rolls back. */
  method SendMessageWithAttachment(db: Database, broker: Broker, senderId: Id, recipientUsername: string,
                                   content: Option<string>, f: UploadedFile, uuid: string, now: Time)
    returns (r: Result<MessageDTO>)
    requires db.State().Valid()
    modifies db, broker
    ensures db.State().Valid()
    ensures var check := ResolveRecipient(old(db.State()), senderId, recipientUsername);
      && (check.Failure? ==> r == Failure(check.error))
      && (check.Success? && f.size > MAX_ATTACHMENT_SIZE ==> r == Failure(Error(IllegalArgument, FILE_TOO_LARGE)))
      && (r.Success? <==>
            check.Success? && f.size <= MAX_ATTACHMENT_SIZE
            && PrivateOutcome(old(db.State()), senderId, check.value.id, now).Success?
            && f.originalFilename.Some? && f.contentType.Some?)
    ensures r.Failure? ==> db.State() == old(db.State()) && broker.log == old(broker.log)
    ensures r.Success? ==>
              var recipient := ResolveRecipient(old(db.State()), senderId, recipientUsername).value;
              var prepared := PrivateState(old(db.State()), senderId, recipient.id, now);
              var c := PrivateOutcome(old(db.State()), senderId, recipient.id, now).value;
              var saved := SavedMessage(prepared, NewMessage(c.id, senderId, content, TYPE_ATTACHMENT, now), now);
              && db.State() == WithAttachment(WithMessage(prepared, saved), AttachmentFor(saved.id, f, uuid, now))
              && r.value == ConvertMessageToDTO(prepared.users, saved)
              && broker.log == old(broker.log) + [MessageEvent(Topic(Some(c.id)), r.value)]
  {
    var t := db.State();
    var recipient := ResolveRecipient(db.State(), senderId, recipientUsername);
    if recipient.Failure? {
      return Failure(recipient.error);
    }
    if f.size > MAX_ATTACHMENT_SIZE {
      return Failure(Error(IllegalArgument, FILE_TOO_LARGE));
    }
    var conversation := FindOrCreatePrivateConversation(db, senderId, recipient.value.id, now);
    if conversation.Failure? {
      db.Restore(t);
      return Failure(conversation.error);
    }
    r := DeliverWithAttachment(db, broker, conversation.value.id, senderId, content, f, uuid, now);
    if r.Failure? {
      db.Restore(t);
    }
  }

  /** The size limit is inclusive, and the stored path lies in the sub
      directory of the file's category. */
  lemma AttachmentLimitAndPlace(f: UploadedFile, uuid: string)
    ensures f.size == MAX_ATTACHMENT_SIZE ==> !(f.size > MAX_ATTACHMENT_SIZE)
    ensures var dir := UPLOAD_DIR + DetermineFileType(f.contentType) + "/";
      StartsWith(StoredFilePath(f, uuid), dir)
      && StoredFilePath(f, uuid)[|dir|..] == uuid + "_" + f.originalFilename.GetOr("null")
  {
    var dir := UPLOAD_DIR + DetermineFileType(f.contentType) + "/";
    assert StoredFilePath(f, uuid) == dir + (uuid + "_" + f.originalFilename.GetOr("null"));
  }

  // ---------------------------------------------------------------------------
  // saveWebSocketMessage
  // ---------------------------------------------------------------------------

  /** The sender has a row in the conversation, and it is inactive. */
  predicate SenderRefused(t: Tables, cid: Id, uid: Id)
    requires UniqueMembership(t.participants)
  {
    var found := FindByConversationIdAndUserId(t.participants, cid, uid).value;
    found.Some? && !found.value.isActive
  }

  /** The tables after the auto-join fallback: a new active MEMBER row when
      the sender has no row at all, otherwise unchanged. */
  function Joined(t: Tables, cid: Id, uid: Id, now: Time): Tables
    requires UniqueMembership(t.participants)
  {
    var found := FindByConversationIdAndUserId(t.participants, cid, uid).value;
    if found.Some? then t
    else t.(participants := t.participants + [NewParticipant(cid, uid, MEMBER, now).(id := t.nextParticipantId)],
            nextParticipantId := t.nextParticipantId + 1)
  }

  /** The sender's participant row, created as an active MEMBER row when the
      sender has none (the `orElseGet` fallback). */
  method JoinSender(db: Database, cid: Id, uid: Id, now: Time) returns (sender: Participant)
    requires db.State().Valid() && db.State().FindConversationById(cid).Some?
    modifies db
    ensures db.State().Valid()
    ensures db.State() == Joined(old(db.State()), cid, uid, now)
    ensures sender.isActive <==> !SenderRefused(old(db.State()), cid, uid)
  {
    var found := FindByConversationIdAndUserId(db.participants, cid, uid).value;
    if found.Some? {
      return found.value;
    }
    CountExtremes(db.participants, KeyIs(cid, uid));
    var inserted := db.InsertParticipant(NewParticipant(cid, uid, MEMBER, now), now);
    assert inserted.Success?;
    sender := inserted.value;
  }

  /** `saveWebSocketMessage(chatMessage)`; the broadcast goes to the topic of
      the conversation the message was saved in. A missing conversation id is
      refused by `findById`; a missing sender id finds no row, and the
      fallback row it saves breaks the not-null `user_id` column, which rolls
      the transaction back. */
  method SaveWebSocketMessage(db: Database, broker: Broker, msg: ChatMessage, now: Time) returns (r: Result<MessageDTO>)
    requires db.State().Valid()
    modifies db, broker
    ensures db.State().Valid()
    ensures msg.conversationId.None? ==> r == Failure(Error(InvalidDataAccess, ID_MUST_NOT_BE_NULL))
    ensures msg.conversationId.Some? && old(db.State()).FindConversationById(msg.conversationId.value).None? ==>
              r == Failure(Error(IllegalArgument, CONVERSATION_NOT_FOUND))
    ensures msg.conversationId.Some? && old(db.State()).FindConversationById(msg.conversationId.value).Some?
            && msg.senderId.None? ==>
              r == Failure(Error(ConstraintViolation, NULL_VIOLATED))
    ensures msg.conversationId.Some? && old(db.State()).FindConversationById(msg.conversationId.value).Some?
            && msg.senderId.Some? && SenderRefused(old(db.State()), msg.conversationId.value, msg.senderId.value) ==>
              r == Failure(Error(Security, SENDER_NOT_ACTIVE))
    ensures r.Failure? ==> db.State() == old(db.State()) && broker.log == old(broker.log)
    ensures r.Success? <==>
              msg.conversationId.Some? && msg.senderId.Some?
              && old(db.State()).FindConversationById(msg.conversationId.value).Some?
              && !SenderRefused(old(db.State()), msg.conversationId.value, msg.senderId.value)
    ensures r.Success? ==>
              var joined := Joined(old(db.State()), msg.conversationId.value, msg.senderId.value, now);
              var c := old(db.State()).FindConversationById(msg.conversationId.value).value;
              var saved := SavedMessage(joined, BuildEntity(msg, c, now), now);
              && db.State() == WithMessage(joined, saved)
              && r.value == ConvertMessageToDTO(joined.users, saved)
              && broker.log == old(broker.log) + [MessageEvent(Topic(msg.conversationId), r.value)]
  {
    if msg.conversationId.None? {
      return Failure(Error(InvalidDataAccess, ID_MUST_NOT_BE_NULL));
    }
    var conversation := db.State().FindConversationById(msg.conversationId.value);
    if conversation.None? {
      return Failure(Error(IllegalArgument, CONVERSATION_NOT_FOUND));
    }
    if msg.senderId.None? {
      return Failure(Error(ConstraintViolation, NULL_VIOLATED));
    }
    var c := conversation.value;
    var senderParticipant := JoinSender(db, c.id, msg.senderId.value, now);
    if !senderParticipant.isActive {
      return Failure(Error(Security, SENDER_NOT_ACTIVE));
    }
    BuiltEntityDefaults(msg, c, now, now);
    var dto := Deliver(db, broker, BuildEntity(msg, c, now), now);
    r := Success(dto);
  }

  /** The topic the source broadcasts to is built from the saved entity's
      mirror column, which is `null` right after the save. */
  function WebSocketTopicAsWritten(saved: Message): string {
    Topic(saved.conversationId)
  }

  /** The broadcast topic of a freshly saved WebSocket message, as written, is
      "/topic/conversation/null", which is no conversation's topic: the
      conversation's subscribers never receive it. The corrected topic is the
      conversation's own. */
  lemma WebSocketTopicIsNull(t: Tables, msg: ChatMessage, c: Conversation, now: Time)
    requires msg.senderId.Some?
    ensures var saved := SavedMessage(t, BuildEntity(msg, c, now), now);
      && WebSocketTopicAsWritten(saved) == TOPIC_PREFIX + "null"
      && WebSocketTopicAsWritten(saved) != Topic(Some(c.id))
      && Topic(Some(saved.conversation)) == Topic(Some(c.id))
  {
    TopicNamesConversation(c.id, c.id);
  }

  /** The auto-join admits any sender without a row, even an id that names
      no user, as an active MEMBER, and adds exactly that one row. */
  lemma AutoJoinAdmitsAnySender(t: Tables, cid: Id, uid: Id, now: Time)
    requires UniqueMembership(t.participants)
    ensures !SenderRefused(t, cid, uid) ==> ExistsByConversationIdAndUserId(Joined(t, cid, uid, now).participants, cid, uid)
    ensures (forall i :: 0 <= i < |t.participants| ==> !(t.participants[i].conversationId == cid && t.participants[i].userId == uid)) ==>
              |Joined(t, cid, uid, now).participants| == |t.participants| + 1
  {
    var ps := t.participants;
    var found := FindByConversationIdAndUserId(ps, cid, uid).value;
    if found.Some? {
      ExistsMeansActiveRow(ps, cid, uid);
      var j :| 0 <= j < |ps| && ps[j] == found.value;
    } else {
      var row := NewParticipant(cid, uid, MEMBER, now).(id := t.nextParticipantId);
      ExistsMeansActiveRow(ps + [row], cid, uid);
      assert (ps + [row])[|ps|] == row;
    }
  }

  /** The security check refuses a sender exactly when the sender has a row
      in the conversation and no active one. */
  lemma SenderRefusedOnInactiveRow(t: Tables, cid: Id, uid: Id)
    requires UniqueMembership(t.participants)
    ensures SenderRefused(t, cid, uid) <==>
              (exists i :: 0 <= i < |t.participants| && t.participants[i].conversationId == cid && t.participants[i].userId == uid)
              && !ExistsByConversationIdAndUserId(t.participants, cid, uid)
  {
    var ps := t.participants;
    var found := FindByConversationIdAndUserId(ps, cid, uid).value;
    ExistsMeansActiveRow(ps, cid, uid);
    if found.Some? {
      var j :| 0 <= j < |ps| && ps[j] == found.value;
    } else {
      forall i | 0 <= i < |ps| ensures !(ps[i].conversationId == cid && ps[i].userId == uid) {
        assert ps[i] in ps;
      }
    }
  }

  // ---------------------------------------------------------------------------
  // sendTypingIndicator and getConversationMessages
  // ---------------------------------------------------------------------------

  /** `sendTypingIndicator(senderId, recipientUsername, isTyping)`: not
      transactional, so a failing lookup keeps what it wrote. */
  method SendTypingIndicator(db: Database, broker: Broker, senderId: Id, recipientUsername: string, isTyping: bool, now: Time)
    returns (r: Result<()>)
    requires db.State().Valid()
    modifies db, broker
    ensures db.State().Valid()
    ensures var check := ResolveRecipient(old(db.State()), senderId, recipientUsername);
      check.Failure? ==> r == Failure(check.error) && db.State() == old(db.State())
    ensures r.Failure? ==> broker.log == old(broker.log)
    ensures var check := ResolveRecipient(old(db.State()), senderId, recipientUsername);
      check.Success? ==>
        var c := PrivateOutcome(old(db.State()), senderId, check.value.id, now);
        var sender := old(db.State()).FindUserById(senderId).value;
        && db.State() == PrivateState(old(db.State()), senderId, check.value.id, now)
        && (c.Failure? ==> r == Failure(c.error))
        && (c.Success? ==>
              r == Success(()) &&
              broker.log == old(broker.log) +
                [TypingEvent(Topic(Some(c.value.id)) + TYPING_SUFFIX, senderId, sender.username, isTyping)])
  {
    var recipient := ResolveRecipient(db.State(), senderId, recipientUsername);
    if recipient.Failure? {
      return Failure(recipient.error);
    }
    var sender := db.State().FindUserById(senderId).value;
    var conversation := FindOrCreatePrivateConversation(db, senderId, recipient.value.id, now);
    if conversation.Failure? {
      return Failure(conversation.error);
    }
    broker.Publish(TypingEvent(Topic(Some(conversation.value.id)) + TYPING_SUFFIX, senderId, sender.username, isTyping));
    r := Success(());
  }

  /** The conversion applied to each message of a list, in order. */
  function ConvertAll(us: seq<User>, ms: seq<Message>): (r: seq<MessageDTO>)
    ensures |r| == |ms| && forall i :: 0 <= i < |ms| ==> r[i] == ConvertMessageToDTO(us, ms[i])
  {
    MapSeq(ms, Converter(us))
  }

  /** `this::convertMessageToDTO` as a function value. */
  function Converter(us: seq<User>): Message -> MessageDTO
  {
    m => ConvertMessageToDTO(us, m)
  }

  /** `getConversationMessages(conversationId, pageable)`: the page of the
      conversation's non-deleted messages, each converted; the page and its
      totals are the repository's. */
  function GetConversationMessages(t: Tables, cid: Id, p: Pageable, key: Message -> int): (r: Page<MessageDTO>)
    requires p.size >= 1
    ensures var page := MessageRepository.FindByConversation_IdAndIsDeletedFalse(t.messages, cid, p, key);
      && |r.content| == |page.content| && r.number == p.page && r.size == page.size && |r.content| <= p.size
      && r.totalElements == Count(t.messages, MessageRepository.LiveIn(cid))
      && forall i :: 0 <= i < |r.content| ==>
           r.content[i] == ConvertMessageToDTO(t.users, page.content[i])
           && r.content[i].conversationId == Some(cid) && r.content[i].isDeleted == Some(false)
    ensures IsSliceOf(r.content, ConvertAll(t.users, OrderedFilter(t.messages, MessageRepository.LiveIn(cid), key)), p)
  {
    var page := MessageRepository.FindByConversation_IdAndIsDeletedFalse(t.messages, cid, p, key);
    var content := ConvertAll(t.users, page.content);
    assert forall i :: 0 <= i < |page.content| ==> page.content[i] in page.content;
    assert IsSliceOf(content, ConvertAll(t.users, OrderedFilter(t.messages, MessageRepository.LiveIn(cid), key)), p) by {
      ConvertedSlice(t.users, page.content, OrderedFilter(t.messages, MessageRepository.LiveIn(cid), key), p);
    }
    Page(content, page.number, page.size, page.totalElements)
  }

  /** Converting a page converts the same slice of the converted rows. */
  lemma ConvertedSlice(us: seq<User>, content: seq<Message>, rows: seq<Message>, p: Pageable)
    requires IsSliceOf(content, rows, p)
    ensures IsSliceOf(ConvertAll(us, content), ConvertAll(us, rows), p)
  {
    SliceOfMapped(content, rows, p, Converter(us));
  }

  /** Paging through the conversation lists every live message: the
      conversion of the `i`-th of them in the requested order is entry
      `i % size` of page `i / size`. */
  lemma MessageOnItsPage(t: Tables, cid: Id, key: Message -> int, size: nat, i: nat)
    requires size >= 1 && i < Count(t.messages, MessageRepository.LiveIn(cid))
    ensures var page := GetConversationMessages(t, cid, Pageable(i / size, size), key).content;
      i % size < |page| && page[i % size] == ConvertMessageToDTO(t.users, OrderedFilter(t.messages, MessageRepository.LiveIn(cid), key)[i])
  {
    MessageRepository.ConversationMessageOnItsPage(t.messages, cid, key, size, i);
  }

  /** Every listed DTO is the conversion of a stored, non-deleted message of
      the conversation. */
  lemma ListedMessagesAreStored(t: Tables, cid: Id, p: Pageable, key: Message -> int)
    requires p.size >= 1
    ensures forall d :: d in GetConversationMessages(t, cid, p, key).content ==>
              exists m :: m in t.messages && m.conversation == cid && m.IsLive() && d == ConvertMessageToDTO(t.users, m)
  {
    var page := MessageRepository.FindByConversation_IdAndIsDeletedFalse(t.messages, cid, p, key);
    var r := GetConversationMessages(t, cid, p, key);
    forall d | d in r.content
      ensures exists m :: m in t.messages && m.conversation == cid && m.IsLive() && d == ConvertMessageToDTO(t.users, m)
    {
      var i :| 0 <= i < |r.content| && r.content[i] == d;
      assert page.content[i] in page.content;
    }
  }
}
