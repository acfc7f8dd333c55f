/** The relational store the repositories run against: the five tables with
    their IDENTITY counters, the constraints the schema declares, and the
    writes that `save`, the `@Modifying` queries and a transaction rollback
    perform. Each `save` of a new entity inserts one row with the next id; each
    `save` of a loaded entity replaces the row with the same id. */
module Store {
  import opened Common
  import opened Ordering
  import opened Users
  import opened Participants
  import opened Messages
  import opened Attachments
  import opened Conversations
  import opened ParticipantRepository
  import MessageRepository
  import AttachmentRepository
  import opened UserRepository

  // ---------------------------------------------------------------------------
  // Ids
  // ---------------------------------------------------------------------------

  function IdOfUser(u: User): Id { u.id }
  function IdOfConversation(c: Conversation): Id { c.id }
  function IdOfParticipant(p: Participant): Id { p.id }
  function IdOfMessage(m: Message): Id { m.id }
  function IdOfAttachment(a: Attachment): Id { a.id }

  /** Every id was handed out by the counter: positive and below its next value. */
  predicate IdsBelow<T>(s: seq<T>, id: T -> Id, next: Id) {
    forall i :: 0 <= i < |s| ==> 1 <= id(s[i]) < next
  }

  /** The primary key: no id is used twice. */
  predicate IdsDistinct<T>(s: seq<T>, id: T -> Id) {
    forall i, j :: 0 <= i < j < |s| ==> id(s[i]) != id(s[j])
  }

  /** `findById`: the row with that primary key, if any. */
  function FindById<T>(s: seq<T>, id: T -> Id, key: Id): (r: Option<T>)
    ensures r.Some? ==> r.value in s && id(r.value) == key
    ensures r.None? ==> forall i :: 0 <= i < |s| ==> id(s[i]) != key
  {
    if s == [] then None
    else if id(s[0]) == key then Some(s[0])
    else FindById(s[1..], id, key)
  }

  /** Under the primary key the lookup finds exactly the row that has the id. */
  lemma {:induction false} FindByIdFindsRow<T>(s: seq<T>, id: T -> Id, i: nat)
    requires IdsDistinct(s, id) && i < |s|
    ensures FindById(s, id, id(s[i])) == Some(s[i])
  {
    if i > 0 {
      assert id(s[0]) != id(s[i]);
      assert IdsDistinct(s[1..], id) by {
        forall a, b | 0 <= a < b < |s[1..]| ensures id(s[1..][a]) != id(s[1..][b]) {
          assert s[1..][a] == s[a + 1] && s[1..][b] == s[b + 1];
        }
      }
      assert s[1..][i - 1] == s[i];
      FindByIdFindsRow(s[1..], id, i - 1);
    }
  }

  /** A row appended with an id no earlier row has is what the lookup of that id finds. */
  lemma {:induction false} FindAppended<T>(s: seq<T>, id: T -> Id, x: T)
    requires forall i :: 0 <= i < |s| ==> id(s[i]) != id(x)
    ensures FindById(s + [x], id, id(x)) == Some(x)
  {
    if s != [] {
      assert (s + [x])[1..] == s[1..] + [x];
      assert forall i :: 0 <= i < |s[1..]| ==> s[1..][i] == s[i + 1];
      FindAppended(s[1..], id, x);
    }
  }

  /** A new row with the next id keeps both key properties and moves the counter on. */
  lemma AppendFresh<T>(s: seq<T>, id: T -> Id, next: Id, x: T)
    requires IdsBelow(s, id, next) && IdsDistinct(s, id)
    requires id(x) == next && next >= 1
    ensures IdsBelow(s + [x], id, next + 1) && IdsDistinct(s + [x], id)
  {
    assert forall i :: 0 <= i < |s| ==> (s + [x])[i] == s[i];
  }

  /** `save` of a loaded entity: the row with the same id is overwritten. */
  function ReplaceById<T>(s: seq<T>, id: T -> Id, x: T): (r: seq<T>)
    ensures |r| == |s|
    ensures forall i :: 0 <= i < |s| ==> r[i] == if id(s[i]) == id(x) then x else s[i]
  {
    seq(|s|, i requires 0 <= i < |s| => if id(s[i]) == id(x) then x else s[i])
  }

  /** Overwriting a row keeps the id of every row, so both key properties. */
  lemma ReplaceKeepsIds<T>(s: seq<T>, id: T -> Id, next: Id, x: T)
    requires IdsBelow(s, id, next) && IdsDistinct(s, id)
    ensures IdsBelow(ReplaceById(s, id, x), id, next) && IdsDistinct(ReplaceById(s, id, x), id)
  {
  }

  /** A selection of the rows keeps both key properties. */
  lemma FilterKeepsIds<T(!new)>(s: seq<T>, p: T -> bool, id: T -> Id, next: Id)
    requires IdsBelow(s, id, next) && IdsDistinct(s, id)
    ensures IdsBelow(Filter(s, p), id, next) && IdsDistinct(Filter(s, p), id)
  {
    var rel := (a: T, b: T) => id(a) != id(b);
    FilterKeepsPairwise(s, p, rel);
    var r := Filter(s, p);
    forall i | 0 <= i < |r| ensures 1 <= id(r[i]) < next {
      assert r[i] in s;
    }
  }

  // ---------------------------------------------------------------------------
  // The tables
  // ---------------------------------------------------------------------------

  /** The message of the `DataIntegrityViolationException` a rejected write raises. */
  const CONSTRAINT_VIOLATED := "could not execute statement"

  /** The message Hibernate raises for a `nullable = false` column left null. */
  const NULL_VIOLATED := "not-null property references a null value"

  datatype Tables = Tables(
    users: seq<User>,
    conversations: seq<Conversation>,
    participants: seq<Participant>,
    messages: seq<Message>,
    attachments: seq<Attachment>,
    nextUserId: Id,
    nextConversationId: Id,
    nextParticipantId: Id,
    nextMessageId: Id,
    nextAttachmentId: Id)
  {
    /** The schema's constraints: primary keys drawn from the counters, the
        unique username and email, the unique (conversation, user) pair, and
        participant rows pointing at conversations the counter has handed out;
        and what `@PrePersist` leaves in every user row: a creation time and an
        active flag. */
    predicate Valid() {
      && nextUserId >= 1 && nextConversationId >= 1 && nextParticipantId >= 1
      && nextMessageId >= 1 && nextAttachmentId >= 1
      && IdsBelow(users, IdOfUser, nextUserId) && UniqueColumns(users)
      && (forall i :: 0 <= i < |users| ==> users[i].createdAt.Some? && users[i].isActive.Some?)
      && IdsBelow(conversations, IdOfConversation, nextConversationId) && IdsDistinct(conversations, IdOfConversation)
      && IdsBelow(participants, IdOfParticipant, nextParticipantId) && IdsDistinct(participants, IdOfParticipant)
      && IdsBelow(messages, IdOfMessage, nextMessageId) && IdsDistinct(messages, IdOfMessage)
      && IdsBelow(attachments, IdOfAttachment, nextAttachmentId) && IdsDistinct(attachments, IdOfAttachment)
      && UniqueMembership(participants)
      && (forall i :: 0 <= i < |participants| ==> participants[i].conversationId < nextConversationId)
    }

    /** `userRepository.findById`. */
    function FindUserById(uid: Id): (r: Option<User>)
      ensures r.Some? ==> r.value in users && r.value.id == uid
      ensures r.None? ==> forall u :: u in users ==> u.id != uid
    {
      FindById(users, IdOfUser, uid)
    }

    /** `conversationRepository.findById`. */
    function FindConversationById(cid: Id): (r: Option<Conversation>)
      ensures r.Some? ==> r.value in conversations && r.value.id == cid
      ensures r.None? ==> forall c :: c in conversations ==> c.id != cid
    {
      FindById(conversations, IdOfConversation, cid)
    }
  }

  /** The usernames are distinct, so are the ids. */
  lemma UserIdsDistinct(t: Tables)
    requires t.Valid()
    ensures IdsDistinct(t.users, IdOfUser)
  {
  }

  /** A fresh database. */
  function EmptyTables(): (t: Tables)
    ensures t.Valid()
    ensures t.users == [] && t.conversations == [] && t.participants == [] && t.messages == [] && t.attachments == []
  {
    Tables([], [], [], [], [], 1, 1, 1, 1, 1)
  }

  /** A conversation the lookup finds has an id the counter handed out, so no
      participant row can yet point at the counter's next value. */
  lemma FoundConversationIsOld(t: Tables, cid: Id)
    requires t.Valid() && t.FindConversationById(cid).Some?
    ensures cid < t.nextConversationId
  {
    var c := t.FindConversationById(cid).value;
    var i :| 0 <= i < |t.conversations| && t.conversations[i] == c;
  }

  /** The row a user inserts: `@PrePersist` defaults, then the next id. */
  function UserRow(t: Tables, u: User, now: Time): User {
    u.OnCreate(now).(id := t.nextUserId)
  }

  /** Whether inserting `u` violates a constraint: Bean Validation on the
      credentials, then the unique username and email. */
  predicate UserInsertable(t: Tables, u: User, now: Time) {
    UserRow(t, u, now).SatisfiesConstraints()
    && !ExistsByUsername(t.users, u.username) && !ExistsByEmail(t.users, u.email)
  }

  /** `save` of a new user keeps the constraints whenever its username and
      email are unused, which an accepted insert guarantees. */
  lemma InsertUserKeepsValid(t: Tables, u: User, now: Time)
    requires t.Valid() && !ExistsByUsername(t.users, u.username) && !ExistsByEmail(t.users, u.email)
    ensures var row := UserRow(t, u, now);
      t.(users := t.users + [row], nextUserId := t.nextUserId + 1).Valid()
  {
    var row := UserRow(t, u, now);
    UsersAppendKeepsUnique(t.users, row, t.nextUserId);
    var us := t.users + [row];
    assert forall i :: 0 <= i < |t.users| ==> us[i] == t.users[i];
  }

  /** A user row with the next id and an unused username and email keeps the
      user columns unique. */
  lemma UsersAppendKeepsUnique(us: seq<User>, row: User, next: Id)
    requires IdsBelow(us, IdOfUser, next) && UniqueColumns(us) && next >= 1 && row.id == next
    requires Count(us, UsernameIs(row.username)) == 0 && Count(us, EmailIs(row.email)) == 0
    ensures IdsBelow(us + [row], IdOfUser, next + 1) && UniqueColumns(us + [row])
  {
    CountExtremes(us, UsernameIs(row.username));
    CountExtremes(us, EmailIs(row.email));
    UniqueColumnsDistinctIds(us);
    AppendFresh(us, IdOfUser, next, row);
    var us2 := us + [row];
    forall i, j | 0 <= i < j < |us2|
      ensures us2[i].id != us2[j].id && us2[i].username != us2[j].username && us2[i].email != us2[j].email
    {
      if j == |us| {
        assert !UsernameIs(row.username)(us[i]) && !EmailIs(row.email)(us[i]);
        assert IdOfUser(us2[i]) != IdOfUser(us2[j]);
      }
    }
  }

  /** Unique user columns include distinct ids. */
  lemma UniqueColumnsDistinctIds(us: seq<User>)
    requires UniqueColumns(us)
    ensures IdsDistinct(us, IdOfUser)
  {
  }

  /** A new participant row never collides when its key is unused. */
  lemma InsertParticipantKeepsValid(t: Tables, row: Participant)
    requires t.Valid() && row.id == t.nextParticipantId
    requires row.conversationId < t.nextConversationId
    requires Count(t.participants, KeyIs(row.conversationId, row.userId)) == 0
    ensures t.(participants := t.participants + [row], nextParticipantId := t.nextParticipantId + 1).Valid()
  {
    CountExtremes(t.participants, KeyIs(row.conversationId, row.userId));
    AppendFresh(t.participants, IdOfParticipant, t.nextParticipantId, row);
    var ps := t.participants + [row];
    forall i, j | 0 <= i < j < |ps|
      ensures !(ps[i].conversationId == ps[j].conversationId && ps[i].userId == ps[j].userId)
    {
      if j == |t.participants| {
        assert !KeyIs(row.conversationId, row.userId)(t.participants[i]);
      }
    }
  }

  /** Overwriting a participant row with one of the same id and key keeps
      every constraint. */
  lemma UpdateParticipantKeepsValid(t: Tables, k: nat, p: Participant)
    requires t.Valid() && k < |t.participants| && t.participants[k].SameKey(p)
    ensures t.(participants := ReplaceById(t.participants, IdOfParticipant, p)).Valid()
  {
    var ps := ReplaceById(t.participants, IdOfParticipant, p);
    ReplaceKeepsIds(t.participants, IdOfParticipant, t.nextParticipantId, p);
    forall i | 0 <= i < |ps|
      ensures ps[i].conversationId == t.participants[i].conversationId && ps[i].userId == t.participants[i].userId
    {
    }
  }

  /** Overwriting a conversation row keeps every constraint. */
  lemma UpdateConversationKeepsValid(t: Tables, c: Conversation)
    requires t.Valid()
    ensures t.(conversations := ReplaceById(t.conversations, IdOfConversation, c)).Valid()
  {
    ReplaceKeepsIds(t.conversations, IdOfConversation, t.nextConversationId, c);
  }

  /** The `@Modifying` flag updates of the participant table keep every constraint. */
  lemma SetActiveKeepsValid(t: Tables, cid: Id, uid: Id, flag: bool)
    requires t.Valid()
    ensures t.(participants := SetActive(t.participants, cid, uid, flag)).Valid()
  {
  }

  /** Deleting rows keeps every constraint. */
  lemma DeleteParticipantKeepsValid(t: Tables, cid: Id, uid: Id)
    requires t.Valid()
    ensures t.(participants := DeleteParticipant(t.participants, cid, uid)).Valid()
  {
    var ps := DeleteParticipant(t.participants, cid, uid);
    FilterKeepsIds(t.participants, NotKey(cid, uid), IdOfParticipant, t.nextParticipantId);
    var rel := (a: Participant, b: Participant) => !(a.conversationId == b.conversationId && a.userId == b.userId);
    FilterKeepsPairwise(t.participants, NotKey(cid, uid), rel);
    forall i | 0 <= i < |ps| ensures ps[i].conversationId < t.nextConversationId {
      assert ps[i] in t.participants;
    }
  }

  // ---------------------------------------------------------------------------
  // The database
  // ---------------------------------------------------------------------------

  /** The database as the services share it: every table and counter is a
      field that the writes below reassign. */
  class Database {
    var users: seq<User>
    var conversations: seq<Conversation>
    var participants: seq<Participant>
    var messages: seq<Message>
    var attachments: seq<Attachment>
    var nextUserId: Id
    var nextConversationId: Id
    var nextParticipantId: Id
    var nextMessageId: Id
    var nextAttachmentId: Id

    function State(): Tables
      reads this
    {
      Tables(users, conversations, participants, messages, attachments,
             nextUserId, nextConversationId, nextParticipantId, nextMessageId, nextAttachmentId)
    }

    constructor ()
      ensures State() == EmptyTables()
    {
      users, conversations, participants, messages, attachments := [], [], [], [], [];
      nextUserId, nextConversationId, nextParticipantId, nextMessageId, nextAttachmentId := 1, 1, 1, 1, 1;
    }

    /** Transaction rollback: every table and counter back to a saved state. */
    method Restore(t: Tables)
      modifies this
      ensures State() == t
    {
      users, conversations, participants, messages, attachments := t.users, t.conversations, t.participants, t.messages, t.attachments;
      nextUserId, nextConversationId, nextParticipantId := t.nextUserId, t.nextConversationId, t.nextParticipantId;
      nextMessageId, nextAttachmentId := t.nextMessageId, t.nextAttachmentId;
    }

    /** `userRepository.save(new User)`: runs `@PrePersist`, then the
        validation and unique constraints; a violation stores nothing. */
    method InsertUser(u: User, now: Time) returns (r: Result<User>)
      requires State().Valid()
      modifies this
      ensures State().Valid()
      ensures r.Success? <==> UserInsertable(old(State()), u, now)
      ensures r.Success? ==>
                r.value == UserRow(old(State()), u, now)
                && State() == old(State()).(users := old(users) + [r.value], nextUserId := old(nextUserId) + 1)
      ensures r.Failure? ==> r.error == Error(ConstraintViolation, CONSTRAINT_VIOLATED) && State() == old(State())
    {
      var t := State();
      if !UserInsertable(t, u, now) {
        return Failure(Error(ConstraintViolation, CONSTRAINT_VIOLATED));
      }
      var row := UserRow(t, u, now);
      InsertUserKeepsValid(t, u, now);
      users, nextUserId := t.users + [row], t.nextUserId + 1;
      assert State() == t.(users := t.users + [row], nextUserId := t.nextUserId + 1);
      r := Success(row);
    }

    /** `conversationRepository.save(new Conversation)`: both timestamps are
        generated at insert time. */
    method InsertConversation(c: Conversation, now: Time) returns (saved: Conversation)
      requires State().Valid()
      modifies this
      ensures State().Valid()
      ensures saved == c.(id := old(nextConversationId), createdAt := now, updatedAt := now)
      ensures State() == old(State()).(conversations := old(conversations) + [saved],
                                       nextConversationId := old(nextConversationId) + 1)
    {
      saved := c.(id := nextConversationId, createdAt := now, updatedAt := now);
      AppendFresh(conversations, IdOfConversation, nextConversationId, saved);
      conversations := conversations + [saved];
      nextConversationId := nextConversationId + 1;
    }

    /** `conversationRepository.save(loaded)`: `created_at` is not updatable and
        `@UpdateTimestamp` stamps `updated_at`. */
    method UpdateConversation(c: Conversation, now: Time) returns (saved: Conversation)
      requires State().Valid() && State().FindConversationById(c.id).Some?
      modifies this
      ensures State().Valid()
      ensures saved == c.(createdAt := old(State()).FindConversationById(c.id).value.createdAt, updatedAt := now)
      ensures State() == old(State()).(conversations := ReplaceById(old(conversations), IdOfConversation, saved))
    {
      var stored := State().FindConversationById(c.id).value;
      saved := c.(createdAt := stored.createdAt, updatedAt := now);
      UpdateConversationKeepsValid(State(), saved);
      conversations := ReplaceById(conversations, IdOfConversation, saved);
    }

    /** `participantRepository.save(new row)`: `@CreationTimestamp` stamps
        `joined_at`; the foreign key must name a stored conversation and the
        (conversation, user) pair must be unused, otherwise nothing is stored. */
    method InsertParticipant(p: Participant, now: Time) returns (r: Result<Participant>)
      requires State().Valid()
      modifies this
      ensures State().Valid()
      ensures r.Success? <==>
                old(State()).FindConversationById(p.conversationId).Some?
                && Count(old(participants), KeyIs(p.conversationId, p.userId)) == 0
      ensures r.Success? ==>
                r.value == p.(id := old(nextParticipantId), joinedAt := now)
                && State() == old(State()).(participants := old(participants) + [r.value],
                                            nextParticipantId := old(nextParticipantId) + 1)
      ensures r.Failure? ==> r.error == Error(ConstraintViolation, CONSTRAINT_VIOLATED) && State() == old(State())
    {
      if State().FindConversationById(p.conversationId).None? || Count(participants, KeyIs(p.conversationId, p.userId)) != 0 {
        return Failure(Error(ConstraintViolation, CONSTRAINT_VIOLATED));
      }
      var row := p.(id := nextParticipantId, joinedAt := now);
      FoundConversationIsOld(State(), p.conversationId);
      InsertParticipantKeepsValid(State(), row);
      participants := participants + [row];
      nextParticipantId := nextParticipantId + 1;
      r := Success(row);
    }

    /** `participantRepository.save(loaded)` after the services' in-place
        changes, none of which touches the id or the key. */
    method UpdateParticipant(p: Participant)
      requires State().Valid()
      requires exists k :: 0 <= k < |participants| && participants[k].SameKey(p)
      modifies this
      ensures State().Valid()
      ensures State() == old(State()).(participants := ReplaceById(old(participants), IdOfParticipant, p))
    {
      var k :| 0 <= k < |participants| && participants[k].SameKey(p);
      UpdateParticipantKeepsValid(State(), k, p);
      participants := ReplaceById(participants, IdOfParticipant, p);
    }

    /** `messageRepository.save(new Message)`: `@PrePersist` fills the
        defaults, a `null` in a non-null column is refused, and the row as
        stored carries the mirror column while the returned entity keeps it as
        it was. */
    method InsertMessage(m: Message, now: Time) returns (r: Result<Message>)
      requires State().Valid()
      modifies this
      ensures State().Valid()
      ensures r.Success? <==> m.OnCreate(now).Persistable()
      ensures r.Success? ==>
                r.value == m.OnCreate(now).(id := old(nextMessageId))
                && State() == old(State()).(messages := old(messages) + [r.value.Reloaded()],
                                            nextMessageId := old(nextMessageId) + 1)
      ensures r.Failure? ==> r.error == Error(ConstraintViolation, NULL_VIOLATED) && State() == old(State())
    {
      var entity := new ManagedMessage(m);
      entity.OnCreate(now);
      var created := entity.State();
      if !created.Persistable() {
        return Failure(Error(ConstraintViolation, NULL_VIOLATED));
      }
      var saved := created.(id := nextMessageId);
      AppendFresh(messages, IdOfMessage, nextMessageId, saved.Reloaded());
      messages := messages + [saved.Reloaded()];
      nextMessageId := nextMessageId + 1;
      r := Success(saved);
    }

    /** `attachmentRepository.save(new MessageAttachment)`: `@CreationTimestamp`
        stamps `uploaded_at`; name, path, size and type are non-null columns. */
    method InsertAttachment(a: Attachment, now: Time) returns (r: Result<Attachment>)
      requires State().Valid()
      modifies this
      ensures State().Valid()
      ensures r.Success? <==> a.fileName.Some? && a.filePath.Some? && a.fileSize.Some? && a.mimeType.Some?
      ensures r.Success? ==>
                r.value == a.(id := old(nextAttachmentId), uploadedAt := now)
                && State() == old(State()).(attachments := old(attachments) + [r.value],
                                            nextAttachmentId := old(nextAttachmentId) + 1)
      ensures r.Failure? ==> r.error == Error(ConstraintViolation, NULL_VIOLATED) && State() == old(State())
    {
      if a.fileName.None? || a.filePath.None? || a.fileSize.None? || a.mimeType.None? {
        return Failure(Error(ConstraintViolation, NULL_VIOLATED));
      }
      var row := a.(id := nextAttachmentId, uploadedAt := now);
      AppendFresh(attachments, IdOfAttachment, nextAttachmentId, row);
      attachments := attachments + [row];
      nextAttachmentId := nextAttachmentId + 1;
      r := Success(row);
    }

    // -------------------------------------------------------------------------
    // Bulk writes of the repositories
    // -------------------------------------------------------------------------

    /** `messageRepository.updateMessageStatus`. */
    method UpdateMessageStatus(messageId: Id, status: string)
      requires State().Valid()
      modifies this
      ensures State().Valid()
      ensures State() == old(State()).(messages := MessageRepository.UpdateMessageStatus(old(messages), messageId, status))
    {
      messages := MessageRepository.UpdateMessageStatus(messages, messageId, status);
    }

    /** `messageRepository.markMessageAsDeleted`. */
    method MarkMessageAsDeleted(messageId: Id)
      requires State().Valid()
      modifies this
      ensures State().Valid()
      ensures State() == old(State()).(messages := MessageRepository.MarkMessageAsDeleted(old(messages), messageId))
    {
      messages := MessageRepository.MarkMessageAsDeleted(messages, messageId);
    }

    /** `attachmentRepository.deleteByMessageId`. */
    method DeleteAttachmentsByMessageId(messageId: Id)
      requires State().Valid()
      modifies this
      ensures State().Valid()
      ensures State() == old(State()).(attachments := AttachmentRepository.DeleteByMessageId(old(attachments), messageId))
    {
      var kept := AttachmentRepository.DeleteByMessageId(attachments, messageId);
      FilterKeepsIds(attachments, AttachmentRepository.NotOfMessage(messageId), IdOfAttachment, nextAttachmentId);
      attachments := kept;
    }

    /** `deactivateParticipant` / `reactivateParticipant` with `@Modifying`. */
    method SetParticipantActive(cid: Id, uid: Id, flag: bool)
      requires State().Valid()
      modifies this
      ensures State().Valid()
      ensures State() == old(State()).(participants := SetActive(old(participants), cid, uid, flag))
    {
      SetActiveKeepsValid(State(), cid, uid, flag);
      participants := SetActive(participants, cid, uid, flag);
    }

    /** `deleteParticipant` with `@Modifying`. */
    method DeleteParticipantRow(cid: Id, uid: Id)
      requires State().Valid()
      modifies this
      ensures State().Valid()
      ensures State() == old(State()).(participants := DeleteParticipant(old(participants), cid, uid))
    {
      DeleteParticipantKeepsValid(State(), cid, uid);
      participants := DeleteParticipant(participants, cid, uid);
    }
  }
}
