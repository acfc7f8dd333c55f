# WhatsApp-style chat backend: a Dafny model of its core

The system is a Spring Boot chat server. Users sign up and log in. They exchange
text and file messages in private (two-person) and group conversations, and
group administrators add and remove members. This project models the parts of
the server that decide what is stored and what is answered:

- **Entities** (`user.dfy`, `conversation.dfy`, `participant.dfy`, `message.dfy`,
  `attachment.dfy`). Each table row is a datatype. Its setters and `@PrePersist` /
  `@PreUpdate` hooks are functions that return the updated row. Each entity also
  has a small class (`ManagedUser`, `ManagedConversation`, ...) whose methods
  update the fields in place, as the JPA objects do.
- **The database** (`store.dfy`). `Tables` holds every table and the identity
  counters. `Tables.Valid()` states the declared constraints: non-null columns,
  unique columns, the unique (conversation, user) pair of participant rows and
  ids below the counters. The class `Database` owns the tables. Its methods are
  the repository `save` calls and `@Modifying` statements, and each one keeps
  `Valid()`.
- **Repositories** (`*_repository.dfy`). Each derived or `@Query` method is a
  function over the table sequences. Its contract states which rows it returns.
  An ordered query also states their order. A paged query states which slice of
  the ordered rows its page holds (`LIMIT size OFFSET page * size`), and a
  lemma beside it shows that paging visits every row: row `i` is entry
  `i % size` of page `i / size`.
- **Services** (`group_service.dfy`, `message_service.dfy`, `auth_service.dfy`,
  `file_upload_service.dfy`). These are methods on a `Database`. The message
  broker is a `Broker` object that records what is published. Each operation is
  specified by a function of the old tables, so the lemmas can relate operations.
  A rolled-back transaction leaves the tables as they were.
- **Conversation controller** (`conversation_controller.dfy`). It assembles the
  conversation list and detail views, chooses the message sort order, and marks
  a conversation as read.
- **DTO validation** (`create_group_request.dfy`, `message_dto.dfy`). The
  Bean-Validation constraints of `CreateGroupRequest` and `MessageDTO` become a
  list of violations.

`common.dfy` holds the shared helpers: `Option`/`Result`, errors, string and
`LIKE` matching, and decimal digits. `ordering.dfy` holds filtering, counting,
stable sorting by a key, and page slicing.

The clock (`LocalDateTime.now()`), random UUIDs and uploaded file contents are
parameters. An operation reads one `now` for all its timestamps.

## Model

| member | source | states |
|---|---|---|
| Store.Tables.FindUserById | src/main/java/com/chatapp/whatsapp/respository/UserRepository.java:15 | `findById` on users: a found row has that id; none found means no row has it |
| Store.Tables.FindConversationById | src/main/java/com/chatapp/whatsapp/respository/ConversationRepository.java:15 | `findById` on conversations: a found row has that id; none found means no row has it |
| Store.EmptyTables | src/main/java/com/chatapp/whatsapp/entity/User.java:24-41 | the empty database satisfies every declared constraint |
| Store.InsertUserKeepsValid | src/main/java/com/chatapp/whatsapp/entity/User.java:24-41 | a new user row with the next id and an unused username and email keeps the primary key and both unique columns |
| Store.InsertParticipantKeepsValid | src/main/java/com/chatapp/whatsapp/entity/ConversationParticipant.java:15-32 | a new participant row whose (conversation, user) pair is unused keeps the unique pair constraint |
| Store.UpdateParticipantKeepsValid | src/main/java/com/chatapp/whatsapp/entity/ConversationParticipant.java:15-32 | overwriting a participant row with one of the same key keeps every constraint |
| Store.DeleteParticipantKeepsValid | src/main/java/com/chatapp/whatsapp/respository/ConversationParticipantRepository.java:113-114 | deleting the rows with a key keeps every constraint |
| Store.Database.InsertUser | src/main/java/com/chatapp/whatsapp/entity/User.java:24-41 | `save` of a new user: it succeeds exactly when the Bean Validation constraints hold (`@NotBlank`, `@Size` counted in UTF-16 units, and `@Email` as Hibernate Validator checks a dot-atom address) and the username and email are unused, and then appends the hooked row with the next id; otherwise it fails with a constraint violation and writes nothing |
| Store.Database.InsertConversation | src/main/java/com/chatapp/whatsapp/entity/Conversation.java:23-43 | `save` of a new conversation appends it with the next id and both timestamps set by the Hibernate annotations |
| Store.Database.UpdateConversation | src/main/java/com/chatapp/whatsapp/entity/Conversation.java:37-43 | `save` of a loaded conversation overwrites its row, keeps the stored creation time and moves updatedAt |
| Store.Database.InsertParticipant | src/main/java/com/chatapp/whatsapp/entity/ConversationParticipant.java:15-36 | `save` of a new participant succeeds exactly when its conversation exists and its (conversation, user) pair is unused; it then appends the row with the next id and joinedAt set; otherwise it fails and writes nothing |
| Store.Database.UpdateParticipant | src/main/java/com/chatapp/whatsapp/entity/ConversationParticipant.java:21-60 | `save` of a loaded participant overwrites the row with its id |
| Store.Database.InsertMessage | src/main/java/com/chatapp/whatsapp/entity/Message.java:37-69 | `save` of a new message runs `@PrePersist`, succeeds exactly when the NOT NULL columns are then filled, and stores the row with the next id and its read-only mirror as the database would reload it |
| Store.Database.InsertAttachment | src/main/java/com/chatapp/whatsapp/entity/MessageAttachment.java:29-43 | `save` of a new attachment succeeds exactly when name, path, size and MIME type are set, and appends it with the next id and its upload time |
| Store.Database.UpdateMessageStatus | src/main/java/com/chatapp/whatsapp/respository/MessageRepository.java:93-96 | the `@Modifying` UPDATE changes the messages table as MessageRepository.UpdateMessageStatus says and nothing else |
| Store.Database.MarkMessageAsDeleted | src/main/java/com/chatapp/whatsapp/respository/MessageRepository.java:98-101 | the `@Modifying` UPDATE changes the messages table as MessageRepository.MarkMessageAsDeleted says and nothing else |
| Store.Database.DeleteAttachmentsByMessageId | src/main/java/com/chatapp/whatsapp/respository/MessageAttachmentRepository.java:97 | the derived delete changes the attachments table as AttachmentRepository.DeleteByMessageId says and nothing else |
| Store.Database.DeleteParticipantRow | src/main/java/com/chatapp/whatsapp/respository/ConversationParticipantRepository.java:113-114 | the intended DELETE applied to the participant table, nothing else |
| Store.Database.Restore | src/main/java/com/chatapp/whatsapp/service/MessageService.java:100 | a rollback of a `@Transactional` method puts back the tables as they were |
| Store.Database.SetParticipantActive | src/main/java/com/chatapp/whatsapp/respository/ConversationParticipantRepository.java:75-87 | the intended UPDATE of the active flag applied to the participant table, nothing else |
| Store.UpdateConversationKeepsValid | src/main/java/com/chatapp/whatsapp/entity/Conversation.java:23-43 | overwriting a stored conversation by id keeps every declared constraint of the tables |
| Store.SetActiveKeepsValid | src/main/java/com/chatapp/whatsapp/respository/ConversationParticipantRepository.java:75-87 | flipping the active flag of a (conversation, user) row keeps every declared constraint of the tables |
| Users.User.DisplayNameOrUsername | src/main/java/com/chatapp/whatsapp/entity/User.java:126-128 | the display name when it is set and non-empty, otherwise the username |
| Users.EmptyUser | src/main/java/com/chatapp/whatsapp/entity/User.java:68-93 | a builder-made user carries every `@Builder.Default`: active, offline, PUBLIC, notifications on, no photo and no creation time yet |
| Users.PresenceRules | src/main/java/com/chatapp/whatsapp/entity/User.java:96-116 | setOnline/setOffline set the online flag and status together, setAway/setBusy only the status; all four stamp lastSeen and leave every other field alone |
| Users.OfflineUndoesOnline | src/main/java/com/chatapp/whatsapp/entity/User.java:96-106 | going online then offline returns an offline user to its state except for lastSeen |
| Users.PrivacyExclusive | src/main/java/com/chatapp/whatsapp/entity/User.java:150-160 | at most one of the three privacy tests holds |
| Users.OnCreateDefaults | src/main/java/com/chatapp/whatsapp/entity/User.java:162-172 | `@PrePersist` stamps both timestamps, fills each null flag with its default, keeps every value already set and changes nothing else |
| Users.OnCreateIdempotent | src/main/java/com/chatapp/whatsapp/entity/User.java:162-172 | running the hook twice equals running it once with the later time |
| Users.EmailNeedsLocalPart | src/main/java/com/chatapp/whatsapp/entity/User.java:38 | `@Email` refuses a text without '@' and one with nothing before it |
| Users.EmailRefusesDoubledDot | src/main/java/com/chatapp/whatsapp/entity/User.java:38 | `@Email` refuses two dots in a row in the local part |
| Users.EmailRefusesBadDomain | src/main/java/com/chatapp/whatsapp/entity/User.java:38 | `@Email` refuses a domain that ends in a dot or whose label starts with '-' |
| Users.EmailAcceptsDottedParts | src/main/java/com/chatapp/whatsapp/entity/User.java:38 | `@Email` accepts dotted local and domain parts |
| Users.EmailAcceptsBareHost | src/main/java/com/chatapp/whatsapp/entity/User.java:38 | `@Email` accepts a domain of a single label, with no dot |
| Users.ManagedUser.constructor | src/main/java/com/chatapp/whatsapp/entity/User.java:22-93 | the mutable entity holds exactly the given field values |
| Users.ManagedUser.SetOnline | src/main/java/com/chatapp/whatsapp/entity/User.java:96-100 | the fields are updated in place to the online state described by PresenceRules |
| Users.ManagedUser.SetOffline | src/main/java/com/chatapp/whatsapp/entity/User.java:102-106 | the fields are updated in place to the offline state |
| Users.ManagedUser.SetAway | src/main/java/com/chatapp/whatsapp/entity/User.java:108-111 | status AWAY and lastSeen updated in place, nothing else |
| Users.ManagedUser.SetBusy | src/main/java/com/chatapp/whatsapp/entity/User.java:113-116 | status BUSY and lastSeen updated in place, nothing else |
| Users.ManagedUser.OnCreate | src/main/java/com/chatapp/whatsapp/entity/User.java:162-172 | the in-place hook, statement by statement, ends in the state OnCreateDefaults describes |
| Users.ManagedUser.FillDefaultFlags | src/main/java/com/chatapp/whatsapp/entity/User.java:166-167 | the null online/active flags get their defaults |
| Users.ManagedUser.FillDefaultPreferences | src/main/java/com/chatapp/whatsapp/entity/User.java:168-169 | the null notification/two-factor flags get their defaults |
| Users.ManagedUser.FillDefaultLabels | src/main/java/com/chatapp/whatsapp/entity/User.java:170-171 | the null status and privacy labels get their defaults |
| Users.ManagedUser.OnUpdate | src/main/java/com/chatapp/whatsapp/entity/User.java:174-177 | `@PreUpdate` moves updatedAt only |
| Participants.NewParticipant | src/main/java/com/chatapp/whatsapp/entity/ConversationParticipant.java:34-64 | a freshly built row is active, joined now, unmuted (so never muted at any time), notified of ALL, and has no read marker |
| Participants.RolesExclusive | src/main/java/com/chatapp/whatsapp/entity/ConversationParticipant.java:67-81 | the three role tests are mutually exclusive; canAdministrate holds exactly for ADMIN and MODERATOR |
| Participants.LeaveRejoinFrame | src/main/java/com/chatapp/whatsapp/entity/ConversationParticipant.java:83-92 | leave clears the active flag and sets leftAt; rejoin sets it, clears leftAt and restamps joinedAt; both keep the row's key and every other field |
| Participants.RejoinUndoesLeave | src/main/java/com/chatapp/whatsapp/entity/ConversationParticipant.java:83-92 | leaving then rejoining restores an active row except for its join time |
| Participants.MuteRules | src/main/java/com/chatapp/whatsapp/entity/ConversationParticipant.java:94-108 | an unmuted row is never muted; an open-ended mute always is; a timed mute holds strictly before its end; unmute undoes any mute |
| Participants.HasReadAfterUpdate | src/main/java/com/chatapp/whatsapp/entity/ConversationParticipant.java:110-125 | after updateLastRead(m), message k counts as read exactly when k <= m |
| Participants.UpdateLastReadCanRegress | src/main/java/com/chatapp/whatsapp/entity/ConversationParticipant.java:110-113 | the marker is overwritten, not maximised: reading 5 after 10 un-reads message 10 |
| Participants.NotificationRules | src/main/java/com/chatapp/whatsapp/entity/ConversationParticipant.java:127-139 | muted or NONE receives nothing, MENTIONS receives only MENTION messages, every other setting receives everything |
| Participants.DefaultsReceiveEverything | src/main/java/com/chatapp/whatsapp/entity/ConversationParticipant.java:56-64 | a row with the builder defaults is notified of every message type at every time |
| Participants.ManagedParticipant.constructor | src/main/java/com/chatapp/whatsapp/entity/ConversationParticipant.java:21-60 | the mutable entity holds exactly the given row |
| Participants.ManagedParticipant.Leave | src/main/java/com/chatapp/whatsapp/entity/ConversationParticipant.java:83-86 | in-place soft delete, as LeaveRejoinFrame describes |
| Participants.ManagedParticipant.Rejoin | src/main/java/com/chatapp/whatsapp/entity/ConversationParticipant.java:88-92 | in-place reactivation, as LeaveRejoinFrame describes |
| Participants.ManagedParticipant.Mute | src/main/java/com/chatapp/whatsapp/entity/ConversationParticipant.java:94-97 | sets the mute flag and its end in place |
| Participants.ManagedParticipant.Unmute | src/main/java/com/chatapp/whatsapp/entity/ConversationParticipant.java:99-102 | clears the mute flag and its end in place |
| Participants.ManagedParticipant.UpdateLastRead | src/main/java/com/chatapp/whatsapp/entity/ConversationParticipant.java:110-113 | overwrites the read marker and its time in place |
| Participants.ManagedParticipant.SetRole | src/main/java/com/chatapp/whatsapp/entity/ConversationParticipant.java:115-117 | replaces the role only |
| Participants.ManagedParticipant.SetNotificationSettings | src/main/java/com/chatapp/whatsapp/entity/ConversationParticipant.java:119-121 | replaces the notification setting only |
| Conversations.NewConversation | src/main/java/com/chatapp/whatsapp/entity/Conversation.java:21-43 | a conversation built by the services carries the given type, name and creator and both timestamps set to now |
| Conversations.DefaultConversation | src/main/java/com/chatapp/whatsapp/entity/Conversation.java:27-29 | without an explicit type a conversation is PRIVATE and not a group |
| Conversations.TypesExclusive | src/main/java/com/chatapp/whatsapp/entity/Conversation.java:77-84 | no conversation is both private and a group |
| Conversations.ActiveCount | src/main/java/com/chatapp/whatsapp/entity/Conversation.java:87-91 | the active-participant count is at most the list length, equals it exactly when all rows are active and is zero exactly when none is |
| Conversations.ManagedConversation.constructor | src/main/java/com/chatapp/whatsapp/entity/Conversation.java:21-53 | the mutable entity holds the given row and child lists |
| Conversations.ManagedConversation.AddParticipant | src/main/java/com/chatapp/whatsapp/entity/Conversation.java:56-59 | appends the row, re-pointed at this conversation; the active count grows by one exactly for an active row; the conversation's own columns and its messages are unchanged |
| Conversations.ManagedConversation.RemoveParticipant | src/main/java/com/chatapp/whatsapp/entity/Conversation.java:61-64 | removes the first row equal to the given value (none if absent); the active count drops by one exactly when an active listed row goes; the conversation's own columns and its messages are unchanged |
| Conversations.ManagedConversation.AddMessage | src/main/java/com/chatapp/whatsapp/entity/Conversation.java:66-69 | appends the message, re-pointed at this conversation; the conversation's own columns and its participants are unchanged |
| Conversations.ManagedConversation.RemoveMessage | src/main/java/com/chatapp/whatsapp/entity/Conversation.java:71-74 | removes the first message equal to the given value; the conversation's own columns and its participants are unchanged |
| Conversations.ManagedConversation.SetUpdatedAt | src/main/java/com/chatapp/whatsapp/entity/Conversation.java:41-43 | moves updatedAt only |
| Conversations.RemoveUndoesAdd | src/main/java/com/chatapp/whatsapp/entity/Conversation.java:56-74 | removing what was just added restores the list when the element was not already in it |
| Messages.Latest | src/main/java/com/chatapp/whatsapp/entity/Conversation.java:94-99 | getLatestMessage: none exactly when every message is deleted; otherwise a live message of the list that no other live message was sent after, and the first such one; it needs every isDeleted set, and sentAt set only when two live messages must be compared |
| Messages.LatestExtend | src/main/java/com/chatapp/whatsapp/entity/Conversation.java:94-99 | one more message keeps the running maximum's properties (the reduction step of Latest) |
| Messages.LoneUnstampedMessageIsLatest | src/main/java/com/chatapp/whatsapp/entity/Conversation.java:94-99 | a single live message among deleted ones is the latest even with a null sentAt, since the comparator is never called |
| Messages.Message.Reloaded | src/main/java/com/chatapp/whatsapp/entity/Message.java:27-29 | a message read back from the database has its read-only conversationId mirror equal to its conversation, and differs in nothing else |
| Messages.NewMessage | src/main/java/com/chatapp/whatsapp/entity/Message.java:14-50 | the builder as the services call it sets conversation, sender, content, type, time, not-deleted and SENT, and leaves isEdited and the mirror column null because the builder skips field initialisers |
| Messages.OnCreateDefaults | src/main/java/com/chatapp/whatsapp/entity/Message.java:55-69 | each null among sentAt, isDeleted, isEdited, status gets its default, set values are kept, nothing else changes, and a typed message becomes insertable |
| Messages.OnCreateIdempotent | src/main/java/com/chatapp/whatsapp/entity/Message.java:55-69 | running the hook twice equals running it once |
| Messages.OnCreateKeepsMirror | src/main/java/com/chatapp/whatsapp/entity/Message.java:27-29 | the hook leaves the conversation and its mirror untouched |
| Messages.BuiltMessagePersists | src/main/java/com/chatapp/whatsapp/entity/Message.java:37-69 | a service-built message passes the NOT NULL columns after the hook, keeps its send time, and its mirror is still null |
| Messages.ManagedMessage.constructor | src/main/java/com/chatapp/whatsapp/entity/Message.java:17-53 | the mutable entity holds exactly the given message |
| Messages.ManagedMessage.OnCreate | src/main/java/com/chatapp/whatsapp/entity/Message.java:55-69 | the in-place hook ends in the state OnCreateDefaults describes |
| Attachments.Attachment.FileExtension | src/main/java/com/chatapp/whatsapp/entity/MessageAttachment.java:84-89 | empty without a name or a dot; otherwise the lower-cased text after the last dot, which contains no dot |
| Attachments.Attachment.DurationFormatted | src/main/java/com/chatapp/whatsapp/entity/MessageAttachment.java:118-125 | "00:00" without a positive duration, otherwise digits, a colon and exactly two digits |
| Attachments.MimeCategories | src/main/java/com/chatapp/whatsapp/entity/MessageAttachment.java:65-82 | with a MIME type exactly one of image/video/audio/document holds; without one none does |
| Attachments.DurationRoundTrip | src/main/java/com/chatapp/whatsapp/entity/MessageAttachment.java:118-125 | reading the minutes and seconds back from the formatted text gives the duration |
| Attachments.DurationUnderAnHour | src/main/java/com/chatapp/whatsapp/entity/MessageAttachment.java:118-125 | under an hour the text is exactly five characters |
| Attachments.ExtensionAfterLastDot | src/main/java/com/chatapp/whatsapp/entity/MessageAttachment.java:84-89 | "archive.TAR.GZ" has extension "gz": the last dot counts and the case is folded |
| UserRepository.FindByUsername | src/main/java/com/chatapp/whatsapp/respository/UserRepository.java:18 | a found user has that username; none found means no user has it; with the unique column the query never fails |
| UserRepository.FindByEmail | src/main/java/com/chatapp/whatsapp/respository/UserRepository.java:19 | a found user has that email; none found means no user has it; with the unique column the query never fails |
| UserRepository.FindByUsernameOrEmail | src/main/java/com/chatapp/whatsapp/respository/UserRepository.java:21-22 | a found user has the text as username or email; none found means nobody has; the single-result query fails exactly when more than one row matches |
| UserRepository.UsernameOrEmailCanClash | src/main/java/com/chatapp/whatsapp/respository/UserRepository.java:21-22 | one user's username that is another's email makes that text's lookup fail, although both columns are unique |
| UserRepository.ExistsAgreesWithFind | src/main/java/com/chatapp/whatsapp/respository/UserRepository.java:18-25 | existsByUsername/existsByEmail hold exactly when the matching find returns a user |
| UserRepository.FindAllActiveUsers | src/main/java/com/chatapp/whatsapp/respository/UserRepository.java:27-28 | exactly the active users, each row at most as often as stored |
| UserRepository.FindByUsernameContainingIgnoreCaseAndIsActiveTrue | src/main/java/com/chatapp/whatsapp/respository/UserRepository.java:31 | exactly the slice `LIMIT size OFFSET page * size` of the active users, in table order, whose username contains the text ignoring case |
| UserRepository.NameMatchOnItsPage | src/main/java/com/chatapp/whatsapp/respository/UserRepository.java:31 | every matching user is on some page: the i-th match is entry i % size of page i / size |
| UserRepository.FindByUsernameContainingIgnoreCaseAndIdNotAndIsActiveTrue | src/main/java/com/chatapp/whatsapp/respository/UserRepository.java:34 | exactly the active users other than the given id whose username contains the text ignoring case |
| UserRepository.EmptySearchListsEveryone | src/main/java/com/chatapp/whatsapp/respository/UserRepository.java:34 | the empty search text lists every other active user |
| UserRepository.FindByUsernameAndIsActiveTrue | src/main/java/com/chatapp/whatsapp/respository/UserRepository.java:36 | a found user has that username and is active; none found means the user with that name, if any, is inactive |
| UserRepository.FindByIsActiveTrueOrderByUsernameAsc | src/main/java/com/chatapp/whatsapp/respository/UserRepository.java:38 | exactly the slice `LIMIT size OFFSET page * size` of findAllActiveUsers |
| UserRepository.ActiveUserOnItsPage | src/main/java/com/chatapp/whatsapp/respository/UserRepository.java:38 | every active user is on some page: the i-th of findAllActiveUsers is entry i % size of page i / size |
| UserRepository.SearchActiveUsers | src/main/java/com/chatapp/whatsapp/respository/UserRepository.java:40-44 | exactly the slice `LIMIT size OFFSET page * size` of the active users, in table order, whose username or email matches the LIKE pattern '%term%' ignoring case |
| UserRepository.SearchMatchOnItsPage | src/main/java/com/chatapp/whatsapp/respository/UserRepository.java:40-44 | every matching user is on some page: the i-th match is entry i % size of page i / size |
| UserRepository.PercentMatchesEveryone | src/main/java/com/chatapp/whatsapp/respository/UserRepository.java:40-44 | the term is not escaped: "%" matches every active user |
| UserRepository.CountByIsActiveTrue | src/main/java/com/chatapp/whatsapp/respository/UserRepository.java:46 | the number of active users, which is the size of findAllActiveUsers |
| UserRepository.FindByUsernameContainingIgnoreCase | src/main/java/com/chatapp/whatsapp/respository/UserRepository.java:48 | exactly the users, active or not, whose username contains the text ignoring case |
| UserRepository.CountByIdIn | src/main/java/com/chatapp/whatsapp/respository/UserRepository.java:50 | at most the number of users and, with unique ids, at most the number of distinct ids; equal to the number of users exactly when every user's id is listed |
| UserRepository.RepeatedIdFallsShort | src/main/java/com/chatapp/whatsapp/respository/UserRepository.java:50 | a repeated id makes the count smaller than the list length |
| UserRepository.CountByIdInMatchesLength | src/main/java/com/chatapp/whatsapp/respository/UserRepository.java:50 | the count equals the list length exactly when the ids are distinct and each names a user |
| ConversationRepository.MembershipIsExistsQuery | src/main/java/com/chatapp/whatsapp/respository/ConversationRepository.java:34-37 | the `JOIN c.participants p WHERE p.userId = :userId AND p.isActive = true` condition is exactly existsByConversationIdAndUserId on the participant table |
| ConversationRepository.FindPrivateConversationBetweenUsers | src/main/java/com/chatapp/whatsapp/respository/ConversationRepository.java:20-29 | a found conversation is PRIVATE with both users active in it; none found means no private conversation has both; the single-result query fails exactly when more than one qualifies |
| ConversationRepository.PrivateLookupSymmetric | src/main/java/com/chatapp/whatsapp/respository/ConversationRepository.java:20-29 | the lookup does not depend on the order of the two users |
| ConversationRepository.SelfLookupMatchesAnyPrivate | src/main/java/com/chatapp/whatsapp/respository/ConversationRepository.java:20-29 | with the same user twice the two joins need only one row, so any private conversation of that user matches, and two of them make the lookup fail |
| ConversationRepository.FindUserConversations | src/main/java/com/chatapp/whatsapp/respository/ConversationRepository.java:34-39 | the user's active conversations, newest update first, cut to the slice `LIMIT size OFFSET page * size` of findActiveConversationsByUserId, with the total over all of them |
| ConversationRepository.UserConversationOnItsPage | src/main/java/com/chatapp/whatsapp/respository/ConversationRepository.java:34-39 | every conversation the user is active in is on some page: the i-th of findActiveConversationsByUserId is entry i % size of page i / size |
| ConversationRepository.FindActiveConversationsByUserId | src/main/java/com/chatapp/whatsapp/respository/ConversationRepository.java:44-49 | exactly the conversations with an active row of the user, newest update first, each once |
| ConversationRepository.LeavingHidesConversation | src/main/java/com/chatapp/whatsapp/respository/ConversationRepository.java:44-49 | after the user's row is deactivated the conversation disappears from that user's list and every other user's list is unchanged |
| ConversationRepository.CountActiveConversationsByUserId | src/main/java/com/chatapp/whatsapp/respository/ConversationRepository.java:76-80 | the size of the active list; zero exactly when the user is active in no conversation |
| ConversationRepository.FindByNameContainingIgnoreCase | src/main/java/com/chatapp/whatsapp/respository/ConversationRepository.java:54-58 | exactly the named GROUP conversations whose name matches '%name%' ignoring case, newest update first |
| ConversationRepository.GroupNameSearchIsSubstring | src/main/java/com/chatapp/whatsapp/respository/ConversationRepository.java:54-58 | without wildcard characters in the text the LIKE match is a case-insensitive substring test |
| ConversationRepository.FindByConversationType | src/main/java/com/chatapp/whatsapp/respository/ConversationRepository.java:63 | exactly the conversations of that type |
| ConversationRepository.TypesPartitionTable | src/main/java/com/chatapp/whatsapp/respository/ConversationRepository.java:63 | when every conversation is PRIVATE or GROUP the two type queries together list the whole table |
| ConversationRepository.FindByCreatedBy | src/main/java/com/chatapp/whatsapp/respository/ConversationRepository.java:68-71 | exactly the user's conversations, newest creation first |
| ConversationRepository.FindRecentConversationsWithMessages | src/main/java/com/chatapp/whatsapp/respository/ConversationRepository.java:85-91 | the slice `LIMIT size OFFSET page * size` of the active conversations of the user that have at least one message, newest update first |
| ConversationRepository.RecentConversationOnItsPage | src/main/java/com/chatapp/whatsapp/respository/ConversationRepository.java:85-91 | every such conversation is on some page: the i-th in newest-update order is entry i % size of page i / size |
| ConversationRepository.DeletedMessagesStillCount | src/main/java/com/chatapp/whatsapp/respository/ConversationRepository.java:89 | the EXISTS test ignores the deleted flag: a conversation holding only a deleted message still qualifies |
| ParticipantRepository.FindByConversationId | src/main/java/com/chatapp/whatsapp/respository/ConversationParticipantRepository.java:18-19 | exactly the rows of the conversation, active or not |
| ParticipantRepository.FindByConversationIdAndIsActiveTrue | src/main/java/com/chatapp/whatsapp/respository/ConversationParticipantRepository.java:24-25 | exactly the active rows of the conversation, a subset of all its rows |
| ParticipantRepository.FindByUserId | src/main/java/com/chatapp/whatsapp/respository/ConversationParticipantRepository.java:30 | exactly the user's rows |
| ParticipantRepository.FindByUserIdAndIsActiveTrue | src/main/java/com/chatapp/whatsapp/respository/ConversationParticipantRepository.java:35 | exactly the user's active rows |
| ParticipantRepository.FindByConversationIdAndUserId | src/main/java/com/chatapp/whatsapp/respository/ConversationParticipantRepository.java:40-41 | the row with that key, active or not, or none when no row has it; under the unique key the single-result query never fails |
| ParticipantRepository.AtMostOneRow | src/main/java/com/chatapp/whatsapp/entity/ConversationParticipant.java:15-16 | the unique (conversation_id, user_id) constraint leaves at most one row per key |
| ParticipantRepository.ExistsMeansActiveRow | src/main/java/com/chatapp/whatsapp/respository/ConversationParticipantRepository.java:46-52 | the existence query holds exactly when an active row with that key exists |
| ParticipantRepository.FindSeesInactiveExistsDoesNot | src/main/java/com/chatapp/whatsapp/respository/ConversationParticipantRepository.java:40-52 | for a user who left, the lookup still returns the inactive row while the existence query says no |
| ParticipantRepository.CountActiveParticipants | src/main/java/com/chatapp/whatsapp/respository/ConversationParticipantRepository.java:57-60 | the size of the active list, at most the number of rows of the conversation |
| ParticipantRepository.FindOtherParticipants | src/main/java/com/chatapp/whatsapp/respository/ConversationParticipantRepository.java:65-70 | exactly the active rows of the conversation whose user is not the excluded one |
| ParticipantRepository.FindParticipantsJoinedAfter | src/main/java/com/chatapp/whatsapp/respository/ConversationParticipantRepository.java:93-99 | exactly the active rows that joined strictly after the time, newest join first |
| ParticipantRepository.FindUsersMostActiveConversations | src/main/java/com/chatapp/whatsapp/respository/ConversationParticipantRepository.java:104-108 | exactly the user's active rows whose conversation exists, ordered by the conversation's updatedAt descending |
| ParticipantRepository.DeactivateParticipantAsWritten | src/main/java/com/chatapp/whatsapp/respository/ConversationParticipantRepository.java:75-78 | as declared (an UPDATE `@Query` without `@Modifying`) the call always fails with InvalidDataAccess |
| ParticipantRepository.ReactivateParticipantAsWritten | src/main/java/com/chatapp/whatsapp/respository/ConversationParticipantRepository.java:84-87 | as declared the call always fails with InvalidDataAccess |
| ParticipantRepository.DeleteParticipantAsWritten | src/main/java/com/chatapp/whatsapp/respository/ConversationParticipantRepository.java:113-114 | as declared the call always fails with InvalidDataAccess |
| ParticipantRepository.DeactivateParticipant | src/main/java/com/chatapp/whatsapp/respository/ConversationParticipantRepository.java:75-78 | the intended UPDATE: the keyed row loses its active flag and keeps leftAt and everything else; every other row is unchanged |
| ParticipantRepository.ReactivateParticipant | src/main/java/com/chatapp/whatsapp/respository/ConversationParticipantRepository.java:84-87 | the intended UPDATE: the keyed row is the old row with only isActive set to true (leftAt and joinedAt untouched); every other row is unchanged |
| ParticipantRepository.DeleteParticipant | src/main/java/com/chatapp/whatsapp/respository/ConversationParticipantRepository.java:113-114 | the intended DELETE: exactly the rows without that key remain |
| ParticipantRepository.DmlAsWrittenIsRefused | src/main/java/com/chatapp/whatsapp/respository/ConversationParticipantRepository.java:75-114 | on any active row the three declared statements fail, while the intended ones deactivate it, reactivate it back to the same row, and delete it |
| ParticipantRepository.DeactivateDiffersFromLeave | src/main/java/com/chatapp/whatsapp/respository/ConversationParticipantRepository.java:75-78 | the bulk UPDATE leaves leftAt null where the entity's leave() stamps it |
| MessageRepository.FindByConversation_IdAndIsDeletedFalse | src/main/java/com/chatapp/whatsapp/respository/MessageRepository.java:23 | the slice `LIMIT size OFFSET page * size` of the conversation's non-deleted messages in the requested order, with the requested page number and the total over all of them |
| MessageRepository.ConversationMessageOnItsPage | src/main/java/com/chatapp/whatsapp/respository/MessageRepository.java:23 | every non-deleted message of the conversation is on some page: the i-th in the requested order is entry i % size of page i / size |
| MessageRepository.FindBySenderIdAndIsDeletedFalse | src/main/java/com/chatapp/whatsapp/respository/MessageRepository.java:33 | the slice `LIMIT size OFFSET page * size` of the sender's non-deleted messages in the requested order, with the requested page number and the total over all of them |
| MessageRepository.SenderMessageOnItsPage | src/main/java/com/chatapp/whatsapp/respository/MessageRepository.java:33 | every non-deleted message of the sender is on some page: the i-th in the requested order is entry i % size of page i / size |
| MessageRepository.FindByConversationIdAndMessageType | src/main/java/com/chatapp/whatsapp/respository/MessageRepository.java:38-44 | exactly the conversation's non-deleted messages of that type, newest first |
| MessageRepository.SearchMessagesByContent | src/main/java/com/chatapp/whatsapp/respository/MessageRepository.java:46-52 | exactly the conversation's non-deleted messages whose content matches '%term%' ignoring case, newest first |
| MessageRepository.SearchIsSubstring | src/main/java/com/chatapp/whatsapp/respository/MessageRepository.java:46-52 | without wildcard characters the LIKE match is a case-insensitive substring test |
| MessageRepository.FindMessagesByDateRange | src/main/java/com/chatapp/whatsapp/respository/MessageRepository.java:54-61 | exactly the non-deleted messages sent within the closed interval, newest first |
| MessageRepository.FindMessagesAfter | src/main/java/com/chatapp/whatsapp/respository/MessageRepository.java:85-91 | exactly the non-deleted messages sent strictly after the time, oldest first |
| MessageRepository.TimeWindowBoundaries | src/main/java/com/chatapp/whatsapp/respository/MessageRepository.java:54-91 | BETWEEN includes both ends while `>` excludes the given time |
| MessageRepository.FindMessagesByStatus | src/main/java/com/chatapp/whatsapp/respository/MessageRepository.java:103-109 | exactly the non-deleted messages with that status, newest first |
| MessageRepository.FindLatestMessageInConversation | src/main/java/com/chatapp/whatsapp/respository/MessageRepository.java:63-68 | none exactly when the conversation has no non-deleted message; otherwise such a message whose sentAt is the greatest |
| MessageRepository.LatestQueryAgreesWithEntity | src/main/java/com/chatapp/whatsapp/respository/MessageRepository.java:63-68 | the query and the entity's getLatestMessage agree on whether there is a latest message and on its send time |
| MessageRepository.CountUnreadMessages | src/main/java/com/chatapp/whatsapp/respository/MessageRepository.java:70-76 | at most the conversation's non-deleted messages; zero exactly when none is from someone else with a status other than 'read' (a null status never counts) |
| MessageRepository.UnreadIgnoresUpperCaseRead | src/main/java/com/chatapp/whatsapp/respository/MessageRepository.java:73 | the comparison is with lower-case 'read': a message with status READ stays unread, one with 'read' does not, and the user's own messages never count |
| MessageRepository.FindMessagesWithAttachmentsAsWritten | src/main/java/com/chatapp/whatsapp/respository/MessageRepository.java:78-83 | as written: exactly the non-deleted messages typed IMAGE, VIDEO, DOCUMENT or AUDIO, newest first |
| MessageRepository.FindMessagesWithAttachments | src/main/java/com/chatapp/whatsapp/respository/MessageRepository.java:78-83 | as intended: also the ATTACHMENT type the services write, and everything the written query returns |
| MessageRepository.AttachmentMessageMissed | src/main/java/com/chatapp/whatsapp/respository/MessageRepository.java:80 | a message typed ATTACHMENT is missing from the written query and present in the intended one |
| MessageRepository.UpdateMessageStatus | src/main/java/com/chatapp/whatsapp/respository/MessageRepository.java:93-96 | the message with that id gets the new status, every other row is unchanged |
| MessageRepository.MarkMessageAsDeleted | src/main/java/com/chatapp/whatsapp/respository/MessageRepository.java:98-101 | the message with that id is flagged deleted and keeps its content; every other row is unchanged |
| MessageRepository.StatusCanGoBack | src/main/java/com/chatapp/whatsapp/respository/MessageRepository.java:93-96 | nothing keeps the status monotone: READ can be set back to SENT |
| MessageRepository.DeletedMessageLeavesViews | src/main/java/com/chatapp/whatsapp/respository/MessageRepository.java:63-101 | a soft-deleted message keeps its content in the table but no longer appears in the time queries or as the latest message |
| AttachmentRepository.FindByMessageId | src/main/java/com/chatapp/whatsapp/respository/MessageAttachmentRepository.java:18 | exactly the attachments of the message |
| AttachmentRepository.FindByFilePath | src/main/java/com/chatapp/whatsapp/respository/MessageAttachmentRepository.java:23 | a found attachment has that path; none found means no attachment has it; the path column is not unique, so the single-result query fails exactly when two rows share it |
| AttachmentRepository.FindByConversationIdAndMimeType | src/main/java/com/chatapp/whatsapp/respository/MessageAttachmentRepository.java:28-33 | exactly the attachments of the conversation's messages whose MIME type matches the LIKE pattern, newest upload first |
| AttachmentRepository.FindByMimePrefix | src/main/java/com/chatapp/whatsapp/respository/MessageAttachmentRepository.java:38-51 | `LIKE 'prefix%'` with a wildcard-free prefix selects exactly the conversation's attachments whose type starts with the prefix, newest upload first |
| AttachmentRepository.FindImageAttachmentsByConversation | src/main/java/com/chatapp/whatsapp/respository/MessageAttachmentRepository.java:38-42 | the 'image/%' pattern query, which selects exactly the conversation's attachments that `isImage()` accepts, newest upload first |
| AttachmentRepository.FindVideoAttachmentsByConversation | src/main/java/com/chatapp/whatsapp/respository/MessageAttachmentRepository.java:47-51 | the 'video/%' pattern query, which selects exactly the conversation's attachments that `isVideo()` accepts, newest upload first |
| AttachmentRepository.FindDocumentAttachmentsByConversation | src/main/java/com/chatapp/whatsapp/respository/MessageAttachmentRepository.java:56-62 | exactly the conversation's attachments with a type that matches none of the three media patterns (a null type never matches NOT LIKE), newest upload first |
| AttachmentRepository.PatternsArePrefixTests | src/main/java/com/chatapp/whatsapp/respository/MessageAttachmentRepository.java:40-60 | each 'xxx/%' pattern is the prefix test the entity uses |
| AttachmentRepository.QueriesAgreeWithEntity | src/main/java/com/chatapp/whatsapp/respository/MessageAttachmentRepository.java:38-62 | for an attachment of the conversation the image, video and document queries agree with the entity's isImage, isVideo and isDocument |
| AttachmentRepository.FindByFileNameContainingIgnoreCase | src/main/java/com/chatapp/whatsapp/respository/MessageAttachmentRepository.java:67-70 | exactly the attachments whose name matches '%name%' ignoring case, newest upload first |
| AttachmentRepository.FindByFileSizeGreaterThan | src/main/java/com/chatapp/whatsapp/respository/MessageAttachmentRepository.java:75-78 | exactly the attachments strictly larger than the bound, largest first |
| AttachmentRepository.SumSizesConcat | src/main/java/com/chatapp/whatsapp/respository/MessageAttachmentRepository.java:83-92 | `COALESCE(SUM(fileSize), 0)` is additive over two parts of a table |
| AttachmentRepository.GetTotalStorageByUser | src/main/java/com/chatapp/whatsapp/respository/MessageAttachmentRepository.java:83-85 | zero when no attachment belongs to a message of the user |
| AttachmentRepository.GetTotalStorageByConversation | src/main/java/com/chatapp/whatsapp/respository/MessageAttachmentRepository.java:90-92 | zero when no attachment belongs to a message of the conversation |
| AttachmentRepository.StorageGrowsBySize | src/main/java/com/chatapp/whatsapp/respository/MessageAttachmentRepository.java:90-92 | one more attachment raises its conversation's total by its size (zero for a null size) and leaves every other conversation's total alone |
| AttachmentRepository.UserStorageGrowsBySize | src/main/java/com/chatapp/whatsapp/respository/MessageAttachmentRepository.java:83-85 | one more attachment raises its sender's total by its size and leaves every other user's total alone |
| AttachmentRepository.DeleteByMessageId | src/main/java/com/chatapp/whatsapp/respository/MessageAttachmentRepository.java:97 | exactly the attachments of other messages remain, so findByMessageId then finds none |
| AttachmentRepository.FindRecentAttachments | src/main/java/com/chatapp/whatsapp/respository/MessageAttachmentRepository.java:102-107 | a negative `int` limit fails; otherwise the `limit` newest attachments of the conversation (all of them when fewer), newest first, and no attachment left out is newer than one returned |
| GroupService.MemberRows | src/main/java/com/chatapp/whatsapp/service/GroupService.java:56-65 | the loop's rows: one active MEMBER row per listed member, in list order, with consecutive ids |
| GroupService.CreateGroupCheck | src/main/java/com/chatapp/whatsapp/service/GroupService.java:28-32 | the existence check passes exactly when the member ids plus the creator are pairwise distinct and each names a user; a creator who also lists themself as a member always fails it |
| GroupService.GroupKeysUnused | src/main/java/com/chatapp/whatsapp/service/GroupService.java:46-65 | in a request that passed the check, no row the loop saves collides with an earlier row on the unique pair |
| GroupService.NewConversationHasNoRows | src/main/java/com/chatapp/whatsapp/service/GroupService.java:43 | the freshly saved conversation has no participant row yet |
| GroupService.CreatingGroupStart | src/main/java/com/chatapp/whatsapp/service/GroupService.java:34-53 | before the loop the tables hold the group and the creator's ADMIN row and nothing else new |
| GroupService.CreatingGroupStep | src/main/java/com/chatapp/whatsapp/service/GroupService.java:56-65 | each loop iteration appends exactly one MEMBER row |
| GroupService.GroupStored | src/main/java/com/chatapp/whatsapp/service/GroupService.java:43 | at every point of the loop the new group can be found by its id |
| GroupService.SaveGroupHead | src/main/java/com/chatapp/whatsapp/service/GroupService.java:34-53 | saves the GROUP conversation and the creator's ADMIN row, keeping every constraint |
| GroupService.SaveGroupMembers | src/main/java/com/chatapp/whatsapp/service/GroupService.java:56-65 | the loop saves one MEMBER row per listed member, keeping every constraint, and ends in the fully created group |
| GroupService.CreateGroup | src/main/java/com/chatapp/whatsapp/service/GroupService.java:26-68 | succeeds exactly when the user count matches the id list; a failure is "One or more users not found" with nothing written; a success returns the saved group, leaves the database with the group and its rows, and makes the creator able to administer it |
| GroupService.CreatorAdministers | src/main/java/com/chatapp/whatsapp/service/GroupService.java:46-53 | after creation the conversation is a group and the creator passes the ADMIN gate |
| GroupService.CreatedGroupMembers | src/main/java/com/chatapp/whatsapp/service/GroupService.java:26-68 | the created group is stored under its id with the request's name and creator; the creator has an active ADMIN row, every member an active MEMBER row, and the active count equals the number of ids |
| GroupService.CreatedGroupRows | src/main/java/com/chatapp/whatsapp/service/GroupService.java:46-65 | the creator's ADMIN row and each member's MEMBER row are present and active |
| GroupService.CreatedGroupCount | src/main/java/com/chatapp/whatsapp/service/GroupService.java:46-65 | the new group has exactly members-plus-one active participants |
| GroupService.FoundRowIsTheRow | src/main/java/com/chatapp/whatsapp/service/GroupService.java:111-112 | under the unique pair the lookup returns exactly the row with that key |
| GroupService.FoundRowActiveIffExists | src/main/java/com/chatapp/whatsapp/service/GroupService.java:116-118 | filtering the looked-up row by its active flag agrees with the existence query |
| GroupService.GateIsActiveAdminRow | src/main/java/com/chatapp/whatsapp/service/GroupService.java:77-79 | the permission check passes exactly when the requester has an active row whose role is ADMIN |
| GroupService.ModeratorOrFormerAdminRefused | src/main/java/com/chatapp/whatsapp/service/GroupService.java:77-79 | a MODERATOR, although canAdministrate holds for it, and an admin who left are both refused |
| GroupService.AddParticipant | src/main/java/com/chatapp/whatsapp/service/GroupService.java:70-102 | the result is the first failing check in source order (group, ADMIN gate, user, existing active member, unique pair on save); on success the database gains the MEMBER row and the group's new updatedAt, otherwise it is unchanged |
| GroupService.AddSucceedsIff | src/main/java/com/chatapp/whatsapp/service/GroupService.java:70-98 | adding succeeds exactly when the group exists, the requester is an active ADMIN, the user exists and no row of the user exists in the group at all |
| GroupService.NoRowWithKey | src/main/java/com/chatapp/whatsapp/service/GroupService.java:86-98 | passing the active-member test and then the unique pair on save is the same as having no row with the key |
| GroupService.AddCollidesIff | src/main/java/com/chatapp/whatsapp/service/GroupService.java:86-98 | adding fails on the unique constraint exactly when every earlier check passes and the user's only row in the group is inactive |
| GroupService.AddedMemberIsActive | src/main/java/com/chatapp/whatsapp/service/GroupService.java:90-101 | after a successful add the user is an active MEMBER, the earlier rows are untouched, the active count grew by one and the group was restamped |
| GroupService.LeaveRow | src/main/java/com/chatapp/whatsapp/service/GroupService.java:121-122 | the row with the key is soft-deleted by leave(); every other row is unchanged |
| GroupService.SaveAfterLeaveIsLeaveRow | src/main/java/com/chatapp/whatsapp/service/GroupService.java:121-122 | saving the left row by its id changes exactly the row with its key |
| GroupService.RemoveParticipant | src/main/java/com/chatapp/whatsapp/service/GroupService.java:104-126 | the result is the first failing check in source order; on success the target's row is left and the group restamped, otherwise nothing changes |
| GroupService.LeaveGroup | src/main/java/com/chatapp/whatsapp/service/GroupService.java:120-125 | the two saves of the success path end in the removed state and keep every constraint |
| GroupService.RemoveOutcomeCases | src/main/java/com/chatapp/whatsapp/service/GroupService.java:104-118 | a missing or private conversation gives "Group conversation not found", a failed gate a SecurityException, and removal succeeds exactly when the group exists, the gate passes and the target is an active member |
| GroupService.RemovedRowIsSoftDeleted | src/main/java/com/chatapp/whatsapp/service/GroupService.java:120-122 | the removed row is inactive with leftAt set, every other row is unchanged, the existence query now says no but the row is still there |
| GroupService.RestampKeepsGroup | src/main/java/com/chatapp/whatsapp/service/GroupService.java:124-125 | restamping the group keeps every constraint and keeps it a group |
| GroupService.RemovedValid | src/main/java/com/chatapp/whatsapp/service/GroupService.java:120-125 | the state after removal keeps every constraint and the conversation is still a group |
| GroupService.ReAddAfterRemoveCollides | src/main/java/com/chatapp/whatsapp/service/GroupService.java:86-125 | an admin who removes another member and then adds them back gets the unique-constraint failure, because the soft-deleted row still holds the pair |
| GroupService.OtherRowsSurviveLeave | src/main/java/com/chatapp/whatsapp/service/GroupService.java:121-122 | removing one user changes nothing in the lookup of any other user of the group |
| CreateGroupRequests.CreateGroupRequest.Violations | src/main/java/com/chatapp/whatsapp/dto/CreateGroupRequest.java:17-26 | no violation exactly when the request is valid, and each constraint's message appears exactly when that constraint fails; the name's `@Size` counts UTF-16 units |
| CreateGroupRequests.NameConstraintsIndependent | src/main/java/com/chatapp/whatsapp/dto/CreateGroupRequest.java:17-19 | a blank name violates only `@NotBlank` (whitespace counts toward `@Size`), a two-letter name only `@Size`, and a missing name only `@NotBlank` because `@Size` accepts null |
| CreateGroupRequests.NameSizeCountsUtf16Units | src/main/java/com/chatapp/whatsapp/dto/CreateGroupRequest.java:17-19 | a letter and one character outside the Basic Multilingual Plane make three UTF-16 units and pass `@Size(min = 3)` |
| CreateGroupRequests.MemberConstraintsIndependent | src/main/java/com/chatapp/whatsapp/dto/CreateGroupRequest.java:24-26 | a missing list violates only `@NotNull`, an empty list only `@Size(min = 1)` |
| MessageDtos.MessageDTO.Violations | src/main/java/com/chatapp/whatsapp/dto/MessageDTO.java:22-32 | no violation exactly when the DTO is valid, and each constraint's message appears exactly when that constraint fails; the content's `@Size` counts UTF-16 units |
| MessageDtos.CreateTextMessage | src/main/java/com/chatapp/whatsapp/dto/MessageDTO.java:68-79 | a TEXT message from the sender in the conversation with the content, not deleted, not edited, SENT, stamped now, with no id and no attachments |
| MessageDtos.CreateAttachmentMessage | src/main/java/com/chatapp/whatsapp/dto/MessageDTO.java:82-93 | a message of the given type with the attachments and no content, not deleted, not edited, SENT, stamped now |
| MessageDtos.FactoriesValid | src/main/java/com/chatapp/whatsapp/dto/MessageDTO.java:68-93 | a text message is valid exactly when its content fits the limit in UTF-16 units, an attachment message exactly when the caller gave a type |
| MessageDtos.ContentLimitInclusive | src/main/java/com/chatapp/whatsapp/dto/MessageDTO.java:28-29 | content of 5000 UTF-16 units passes and 5001 violates only the size constraint; 5000 characters of which one lies outside the Basic Multilingual Plane are 5001 units and violate it |
| FileUploadService.Extension | src/main/java/com/chatapp/whatsapp/service/FileUploadService.java:29-34 | empty without a name or a dot; otherwise a suffix of the name that starts at a dot and contains no further dot |
| FileUploadService.UploadFile | src/main/java/com/chatapp/whatsapp/service/FileUploadService.java:20-42 | the returned relative path is the sub-directory, a slash, the generated name and the original extension |
| FileUploadService.UploadPathParts | src/main/java/com/chatapp/whatsapp/service/FileUploadService.java:20-42 | the path splits back into sub-directory, slash, UUID and an extension that is empty exactly when the name has no dot, and otherwise starts at the name's last dot |
| FileUploadService.ValidTypesArePrefixed | src/main/java/com/chatapp/whatsapp/service/FileUploadService.java:45-72 | a valid image is non-empty with an "image/" type, a valid video non-empty with a "video/" type, and no file is both |
| FileUploadService.ImageTypesExact | src/main/java/com/chatapp/whatsapp/service/FileUploadService.java:45-58 | the type comparison is exact: an upper-case type or one with a parameter is refused, an empty file too, and a file without a name is accepted |
| FileUploadService.FileSizeBoundInclusive | src/main/java/com/chatapp/whatsapp/service/FileUploadService.java:74-76 | the size bound is inclusive |
| AuthService.PhotoOutcome | src/main/java/com/chatapp/whatsapp/service/AuthService.java:37-52 | an absent or empty photo stores nothing; a non-image is refused with "Invalid image file format"; an image over 10 MB with "File size exceeds 10MB limit"; a stored photo is a valid image within the limit and lives under profile-pictures/ |
| AuthService.StorePhoto | src/main/java/com/chatapp/whatsapp/service/AuthService.java:37-52 | the upload step returns exactly the photo outcome (the stored path or the refusal) |
| AuthService.SignUp | src/main/java/com/chatapp/whatsapp/service/AuthService.java:26-67 | a taken username is refused first, then a taken email, then a refused photo; sign-up succeeds exactly when the photo is accepted and the row can be inserted (constraints including `@Email` and the UTF-16 `@Size` bounds); a failure changes nothing; a success appends the new user row, keeps the tables valid and returns that row's response |
| AuthService.MalformedEmailRefused | src/main/java/com/chatapp/whatsapp/entity/User.java:38 | a sign-up whose email is not a well-formed address is refused by the save |
| AuthService.SignedUpAccountDefaults | src/main/java/com/chatapp/whatsapp/service/AuthService.java:55-63 | the saved row gets the next id, the request's username, email, password and photo path, is active, offline, public, with notifications on, two-factor off and both timestamps set to the save time |
| AuthService.Login | src/main/java/com/chatapp/whatsapp/service/AuthService.java:70-92 | no account with that username or email gives "User not found"; more than one matching account fails with an incorrect-result-size error; a success is the response of a matching, active account whose password equals the one given |
| AuthService.LoginDecidesOnTheAccount | src/main/java/com/chatapp/whatsapp/service/AuthService.java:74-91 | for the one matching account: deactivated gives "Account is deactivated", a wrong password gives "Invalid password", otherwise login returns that account's response |
| AuthService.SignedUpUserCanLogIn | src/main/java/com/chatapp/whatsapp/service/AuthService.java:26-92 | after a sign-up the tables stay valid and logging in with the new username and password returns the new account's response |
| AuthService.OnlyTheNewAccountMatches | src/main/java/com/chatapp/whatsapp/service/AuthService.java:28-35 | after a sign-up whose username is no other account's username or email, exactly one account matches that username |
| AuthService.SharedTextBlocksLogin | src/main/java/com/chatapp/whatsapp/service/AuthService.java:72 | when one account's username is another account's email, logging in with that text always fails with an incorrect-result-size error, whatever the password |
| AuthService.GetUserById | src/main/java/com/chatapp/whatsapp/service/AuthService.java:95-102 | fails with "User not found" exactly when no account has that id; otherwise returns the response of the account with that id |
| AuthService.LoginThenGetById | src/main/java/com/chatapp/whatsapp/service/AuthService.java:70-102 | looking up the id a successful login returned gives back the same response |
| MessageService.Broker.constructor | src/main/java/com/chatapp/whatsapp/service/MessageService.java:36 | the message broker starts with nothing sent |
| MessageService.Broker.Publish | src/main/java/com/chatapp/whatsapp/service/MessageService.java:89-92 | sending to a topic appends exactly that event to what the broker has carried |
| MessageService.TopicNamesConversation | src/main/java/com/chatapp/whatsapp/service/MessageService.java:89-92 | the topic /topic/conversation/<id> names one conversation: two ids give the same topic only when they are equal, and the "null" topic is no conversation's topic |
| MessageService.FileTypeMatchesAttachment | src/main/java/com/chatapp/whatsapp/service/MessageService.java:327-334 | the upload directory is "picture" exactly for image/ types, "video" for video/, "audio" for audio/, and "documents" for other types and a missing type |
| MessageService.SearchUsers | src/main/java/com/chatapp/whatsapp/service/MessageService.java:44-50 | lists, once per matching row, every other active user whose username contains the text ignoring case, as that user's UserDTO, and nothing else |
| MessageService.FindUserByUsername | src/main/java/com/chatapp/whatsapp/service/MessageService.java:55-58 | returns the UserDTO of an active account with exactly that username, nothing when every such account is deactivated, and never fails while usernames are unique |
| MessageService.BuiltEntityDefaults | src/main/java/com/chatapp/whatsapp/service/MessageService.java:204-217 | the entity built from a WebSocket message, once saved, is sent at the server time, not deleted, not edited, SENT, of the client's type or TEXT, in the given conversation, from the given sender, with the given content |
| MessageService.ConvertMessageToDTO | src/main/java/com/chatapp/whatsapp/service/MessageService.java:295-309 | the DTO carries the message's id, conversation, sender, content, type, time, deletion flag and status, and a sender username |
| MessageService.ConversionLosesConversationId | src/main/java/com/chatapp/whatsapp/service/MessageService.java:300 | for a freshly saved message the as-written conversion leaves the conversation id empty while the corrected one gives the conversation; after a reload the two agree |
| MessageService.ConvertedMessageValid | src/main/java/com/chatapp/whatsapp/service/MessageService.java:295-309 | a converted message passes the MessageDTO constraints exactly when its content is absent or within the length limit in UTF-16 units; a sender that exists is named by its username |
| MessageService.SaveConversationAndFirstMember | src/main/java/com/chatapp/whatsapp/service/MessageService.java:259-286 | saving the new private conversation and its first member row keeps the tables valid and leaves the conversation findable by its id |
| MessageService.SecondRowCollidesIffSame | src/main/java/com/chatapp/whatsapp/service/MessageService.java:278-287 | the second member row collides with the first on the unique (conversation, user) pair exactly when both users are the same |
| MessageService.OpenPrivateConversation | src/main/java/com/chatapp/whatsapp/service/MessageService.java:259-289 | for two different users the conversation and both member rows are saved; for one user twice the second save is refused by the unique pair after the conversation and first row were written |
| MessageService.FindOrCreatePrivateConversation | src/main/java/com/chatapp/whatsapp/service/MessageService.java:251-290 | returns the existing private conversation of the pair when there is one, otherwise opens a new one; the tables stay valid |
| MessageService.ValidIsBelowCounter | src/main/java/com/chatapp/whatsapp/service/MessageService.java:267 | in valid tables every stored conversation id and participant conversation id is below the next conversation id |
| MessageService.NewRowsKeepOldMembership | src/main/java/com/chatapp/whatsapp/service/MessageService.java:286-287 | rows added for the new conversation change no one's membership in any existing conversation |
| MessageService.PrivateRowsCount | src/main/java/com/chatapp/whatsapp/service/MessageService.java:270-287 | the new conversation has exactly two participant rows |
| MessageService.PrivateRowsActiveCount | src/main/java/com/chatapp/whatsapp/service/MessageService.java:270-287 | both rows of the new conversation are active |
| MessageService.PrivateRowsAreTheMembers | src/main/java/com/chatapp/whatsapp/service/MessageService.java:270-287 | both users are active members of the new conversation and every row of it has the MEMBER role |
| MessageService.NewPrivateConversationShape | src/main/java/com/chatapp/whatsapp/service/MessageService.java:259-289 | a newly created private conversation is PRIVATE, created by the first user, unnamed, with exactly two active MEMBER rows, one per user |
| MessageService.LookupFindsNewConversation | src/main/java/com/chatapp/whatsapp/service/MessageService.java:251-290 | once created, the lookup for the pair finds the new conversation |
| MessageService.PrivateLookupIdempotent | src/main/java/com/chatapp/whatsapp/service/MessageService.java:251-290 | calling find-or-create again for the same pair returns the same conversation and changes nothing |
| MessageService.SelfConversationHalfOpened | src/main/java/com/chatapp/whatsapp/service/MessageService.java:251-290 | for a user with no private conversation, messaging themself fails on the unique pair and leaves a new conversation with only one active member |
| MessageService.ResolveRecipient | src/main/java/com/chatapp/whatsapp/service/MessageService.java:65-69 | an unknown sender id gives "Sender not found", then a missing or deactivated recipient gives "Recipient not found"; success means both exist and the recipient is the active account with that username |
| MessageService.StoredMessageIsListed | src/main/java/com/chatapp/whatsapp/service/MessageService.java:85 | a saved live message adds one to its conversation's live-message count and is stored as it would be reloaded |
| MessageService.Deliver | src/main/java/com/chatapp/whatsapp/service/MessageService.java:85-94 | the message is saved, converted and published on its conversation's topic, and the same DTO is returned |
| MessageService.SendMessage | src/main/java/com/chatapp/whatsapp/service/MessageService.java:63-95 | a refused sender or recipient is the error; otherwise the pair's private conversation is found or created, a TEXT message is saved in it and published on its topic; a failure changes neither the tables nor the broker |
| MessageService.SaveAttachmentMessage | src/main/java/com/chatapp/whatsapp/service/MessageService.java:118-148 | the ATTACHMENT message and its attachment row are saved together, or, when the file has no name or no type, the save is refused and the message is not stored |
| MessageService.DeliverWithAttachment | src/main/java/com/chatapp/whatsapp/service/MessageService.java:118-157 | after saving the message and its attachment row, the converted message is published on the conversation's topic and returned |
| MessageService.SendMessageWithAttachment | src/main/java/com/chatapp/whatsapp/service/MessageService.java:100-158 | sender and recipient are checked first, then a file over 10 MB is refused; success saves the message and attachment in the pair's private conversation and publishes it; a failure changes neither the tables nor the broker |
| MessageService.AttachmentLimitAndPlace | src/main/java/com/chatapp/whatsapp/service/MessageService.java:110-137 | a file of exactly 10 MB is accepted, and the file is stored under root/<type directory>/ as <uuid>_<original name> |
| MessageService.JoinSender | src/main/java/com/chatapp/whatsapp/service/MessageService.java:169-182 | the sender's row is looked up or, when none exists, saved as an active MEMBER; the returned row is active exactly when the sender is not refused |
| MessageService.SaveWebSocketMessage | src/main/java/com/chatapp/whatsapp/service/MessageService.java:163-199 | a missing conversation id is refused by the lookup; an unknown conversation gives "Conversation not found"; a missing sender id fails on the not-null `user_id` column of the fallback row; a sender whose row exists but is inactive is refused by the security check; otherwise the sender joins if needed, the built message is saved, converted, published on the conversation's topic and returned; a failure changes nothing |
| MessageService.WebSocketTopicIsNull | src/main/java/com/chatapp/whatsapp/service/MessageService.java:193-196 | as written, the topic is built from the read-only conversation-id column of the just-saved message and names no conversation; the corrected topic names the message's conversation |
| MessageService.AutoJoinAdmitsAnySender | src/main/java/com/chatapp/whatsapp/service/MessageService.java:169-182 | a sender with no row in the conversation, even an id that names no user, becomes an active member, so anyone can post to any existing conversation; joining adds exactly one row |
| MessageService.SenderRefusedOnInactiveRow | src/main/java/com/chatapp/whatsapp/service/MessageService.java:184-186 | the security check refuses the sender exactly when the sender has a row in the conversation and no active one |
| MessageService.SendTypingIndicator | src/main/java/com/chatapp/whatsapp/service/MessageService.java:232-246 | sender and recipient are checked as for a message; the pair's private conversation is found or created and a typing event with the sender's id and username is sent to its /typing topic |
| MessageService.ConvertAll | src/main/java/com/chatapp/whatsapp/service/MessageService.java:226 | the page's messages are converted one by one, in order |
| MessageService.GetConversationMessages | src/main/java/com/chatapp/whatsapp/service/MessageService.java:222-227 | entry k is the conversion of entry k of the repository page, i.e. of the (page * size + k)-th live message of the conversation in the requested order; each carries the conversation's id and is not deleted; the total counts all live messages |
| MessageService.MessageOnItsPage | src/main/java/com/chatapp/whatsapp/service/MessageService.java:222-227 | every live message of the conversation is listed on some page: the conversion of the i-th is entry i % size of page i / size |
| MessageService.ListedMessagesAreStored | src/main/java/com/chatapp/whatsapp/service/MessageService.java:222-227 | every listed DTO is the conversion of a stored live message of that conversation |
| ConversationController.ViewsOfSound | src/main/java/com/chatapp/whatsapp/controller/ConversationController.java:81-91 | the participant list has no more entries than rows, and each entry is the view of some row whose user exists |
| ConversationController.ViewsOfComplete | src/main/java/com/chatapp/whatsapp/controller/ConversationController.java:81-91 | every row whose user exists has its view in the list |
| ConversationController.ParticipantViews | src/main/java/com/chatapp/whatsapp/controller/ConversationController.java:81-91 | the loop that appends one view per row with an existing user builds exactly the participant list |
| ConversationController.MembersAreActiveWithAccount | src/main/java/com/chatapp/whatsapp/controller/ConversationController.java:78-91 | a conversation view lists exactly the views of its active rows whose user record exists |
| ConversationController.MembersHaveActiveRows | src/main/java/com/chatapp/whatsapp/controller/ConversationController.java:78-91 | every listed participant comes from an active row of that conversation with an existing user |
| ConversationController.ActiveRowsAreMembers | src/main/java/com/chatapp/whatsapp/controller/ConversationController.java:78-91 | every active row of the conversation with an existing user is listed |
| ConversationController.ViewsDifferOnlyInJoinedAt | src/main/java/com/chatapp/whatsapp/controller/ConversationController.java:174-187 | the detail view's participant list is the list view's, entry by entry, with joinedAt added |
| ConversationController.LastMessageIsNewest | src/main/java/com/chatapp/whatsapp/controller/ConversationController.java:93-101 | lastMessage is absent exactly when the conversation has no non-deleted message; otherwise it shows the content, the sender's username or "Unknown", the time and the type of a non-deleted message no other non-deleted message of the conversation is newer than |
| ConversationController.PageRequest | src/main/java/com/chatapp/whatsapp/controller/ConversationController.java:66 | a page request is built exactly when the page is not negative and the size is at least one, and otherwise fails with the matching error |
| ConversationController.UserConversationsFailure | src/main/java/com/chatapp/whatsapp/controller/ConversationController.java:59-119 | the list fails exactly when the page request is refused, and then with that error |
| ConversationController.UserConversationsPaging | src/main/java/com/chatapp/whatsapp/controller/ConversationController.java:66-113 | a valid request answers the requested page number, at most size entries, the number of the user's conversations as total, a previous page exactly after page 0, and as entries the summaries of the slice `LIMIT size OFFSET page * size` of the user's active conversations, newest update first |
| ConversationController.ConversationListedOnItsPage | src/main/java/com/chatapp/whatsapp/controller/ConversationController.java:66-113 | every conversation the user is active in is listed on some page: the summary of the i-th, newest update first, is entry i % size of page i / size |
| ConversationController.UserConversationsEntries | src/main/java/com/chatapp/whatsapp/controller/ConversationController.java:67-106 | entry i is the summary (fields, participants, lastMessage, unreadCount) of row i of the repository page, a conversation in which the user has an active row |
| ConversationController.UserConversationsOrder | src/main/java/com/chatapp/whatsapp/controller/ConversationController.java:66-67 | the entries are ordered by updatedAt, newest first |
| ConversationController.Summaries | src/main/java/com/chatapp/whatsapp/controller/ConversationController.java:71-106 | the loop over the page builds exactly the list of summaries, in page order |
| ConversationController.Summarize | src/main/java/com/chatapp/whatsapp/controller/ConversationController.java:72-103 | one conversation's summary is assembled from its fields, its participant list, its last message and its unread count |
| ConversationController.GetUserConversations | src/main/java/com/chatapp/whatsapp/controller/ConversationController.java:59-119 | the endpoint's loops compute exactly the specified list or error |
| ConversationController.ConversationDetailOf | src/main/java/com/chatapp/whatsapp/controller/ConversationController.java:160-190 | not found exactly when no conversation has that id; otherwise the conversation's fields and its participant list with joinedAt |
| ConversationController.GetConversation | src/main/java/com/chatapp/whatsapp/controller/ConversationController.java:160-194 | the endpoint's loop computes exactly the specified detail or not-found |
| ConversationController.DetailAgreesWithSummary | src/main/java/com/chatapp/whatsapp/controller/ConversationController.java:78-91 | a stored conversation is found by the detail endpoint, whose participants are the list endpoint's with joinedAt added |
| ConversationController.SortDirectionCases | src/main/java/com/chatapp/whatsapp/controller/ConversationController.java:136-137 | "desc" in any case gives a descending sort; every other text, including "descending", gives ascending |
| ConversationController.AscendingKey | src/main/java/com/chatapp/whatsapp/entity/Message.java:21-47 | an ascending key exists exactly for the columns that are not text: id, conversationId, senderId, sentAt, isDeleted and isEdited |
| ConversationController.MessageKey | src/main/java/com/chatapp/whatsapp/controller/ConversationController.java:136-137 | a sort is known exactly for the non-text columns; ascending uses the column's key and descending its negation |
| ConversationController.DescendingReversesAscending | src/main/java/com/chatapp/whatsapp/controller/ConversationController.java:136-137 | on every sortable column the descending order is the reverse of the ascending one |
| ConversationController.ConversationMessagesOf | src/main/java/com/chatapp/whatsapp/controller/ConversationController.java:125-154 | succeeds exactly for a non-negative page, a positive size and a known sort property, then giving the service's page in that order; otherwise the internal-error message |
| ConversationController.SentAtOrderFollowsDirection | src/main/java/com/chatapp/whatsapp/controller/ConversationController.java:136-141 | sorted by sentAt, the page is newest first when the direction is "desc" ignoring case, and oldest first otherwise |
| ConversationController.MarkConversationAsRead | src/main/java/com/chatapp/whatsapp/controller/ConversationController.java:236-255 | always reports "Conversation marked as read"; the tables stay valid and become the marked-read state |
| ConversationController.MarkReadWithoutTargetIsNoOp | src/main/java/com/chatapp/whatsapp/controller/ConversationController.java:242-249 | with no non-deleted message in the conversation, or no row for the user, nothing changes |
| ConversationController.FindsTheKeyedRow | src/main/java/com/chatapp/whatsapp/controller/ConversationController.java:244 | the lookup by conversation and user finds the user's row when the pair is unique |
| ConversationController.MarkReadMovesOnlyTheUsersRow | src/main/java/com/chatapp/whatsapp/controller/ConversationController.java:242-248 | the user's row, active or not, gets the latest non-deleted message as last read (even if that lowers it); no other row, table or unread count changes |

## Left out

- The WebSocket fan-out: the broker is a log of published events. Subscriptions, delivery to clients and the STOMP configuration are not modelled.
- File bytes, directory creation and the filesystem: an upload is modelled by its name, content type, size and stored path. `FileUploadService.deleteFile` is not modelled. A rolled-back transaction does not remove a file already written.
- Hibernate's flush order, lazy loading and the first-level cache. A `save` is applied to the tables at once. A row reloaded from the database is modelled by `Message.Reloaded`.
- Concurrency: two requests that race in `findOrCreatePrivateConversation` could both create a conversation. The model runs one operation at a time.
- `searchUserGroups` and `testIdEndpoint` of the conversation controller. The first calls a repository method that does not exist in `ConversationRepository`; the second only echoes its argument.
- The thin controller wrappers `createGroup`, `addGroupParticipant` and `removeGroupParticipant`. They only map `GroupService` results or exceptions to HTTP statuses; the service operations themselves are modelled.
- HTTP statuses and `Map` response bodies: responses are datatypes, and errors are `Result.Failure` values carrying the exception kind and message.
- `getFileSizeFormatted` of the attachment entity, which uses floating point.
- `createdAt.toString()` in `UserResponse`: the timestamp is kept as a number.
- `AuthResponse`, `SignUpRequest` and `LoginRequest` beyond the fields the services read. `SignUpRequest.java` and `LoginRequest.java` are not part of this model.
- The plain-text password comparison is modelled as written. No hashing is assumed.
- The MessageDTO pagination and profile fields that no modelled operation fills.
- UserRepository.FindByIsActiveTrueOrderByUsernameAsc: pages the active users in table order, not in username order, because database collation is not modelled.
- The paged user queries without an ORDER BY (`findByUsernameContainingIgnoreCaseAndIsActiveTrue`, `searchActiveUsers`) page the rows in table order. A database may return such rows in any order.
- ConversationController.ConversationMessagesOf: sorting by a text column (`content`, `messageType`, `status`) is reported as the internal-error response, because database collation is not modelled. So is sorting by `conversation` or `attachments`, which are associations rather than columns.
- GroupService.CreateGroup: requires a creator id and a member list, which `@Valid` on `CreateGroupRequest` guarantees before the service runs.
- AttachmentRepository.GetTotalStorageByUser: its own contract states only that it is zero when the user has no attachment. The sum is stated by UserStorageGrowsBySize.
- AttachmentRepository.GetTotalStorageByConversation: its own contract states only that it is zero when the conversation has no attachment. The sum is stated by StorageGrowsBySize.
- Attachments.Attachment.FileExtension: lower-cases ASCII letters only. Java's `toLowerCase()` also folds non-ASCII letters, which the model leaves unchanged.
- UserRepository.FindByUsernameContainingIgnoreCaseAndIsActiveTrue: ignores case for ASCII letters only. The database's case folding of other letters is not modelled.
- UserRepository.FindByUsernameContainingIgnoreCaseAndIdNotAndIsActiveTrue: ignores case for ASCII letters only, as above.
- UserRepository.SearchActiveUsers: `LOWER` folds ASCII letters only, as above.
- UserRepository.FindByUsernameContainingIgnoreCase: ignores case for ASCII letters only, as above.
- ConversationRepository.FindByNameContainingIgnoreCase: `LOWER` folds ASCII letters only, as above.
- MessageRepository.SearchMessagesByContent: `LOWER` folds ASCII letters only, as above.
- AttachmentRepository.FindByFileNameContainingIgnoreCase: `LOWER` folds ASCII letters only, as above.
- MessageService.SearchUsers: inherits the ASCII-only case folding of its repository query.
- ConversationController.SortDirection: `equalsIgnoreCase` is modelled for ASCII letters only. Java also matches non-ASCII case variants, such as the long s (U+017F) against 's'; "de\u017Fc" is not compared that way here.
- Users.IsWellFormedEmail: the model refuses every quoted local part and every IP-literal domain, which Hibernate Validator can accept. It also counts a domain label's 63-character limit in characters, whereas Hibernate Validator counts it after punycode conversion, so a long non-ASCII label can pass here and fail there.
- MessageService.Deliver: returns and publishes the corrected DTO (`ConvertMessageToDTO`) on the corrected topic (`Topic` of the conversation). The as-written DTO and topic are stated only by the members in the first two rows of Findings.
- MessageService.SendMessage: returns and publishes the corrected DTO and topic, as for Deliver.
- MessageService.DeliverWithAttachment: returns and publishes the corrected DTO and topic, as for Deliver.
- MessageService.SendMessageWithAttachment: returns and publishes the corrected DTO and topic, as for Deliver.
- MessageService.SaveWebSocketMessage: returns and publishes the corrected DTO and topic, as for Deliver.
- Conversations.ManagedConversation.AddParticipant: entities are values, so the caller's own participant object is not re-pointed. Only the copy placed in the list carries this conversation's id. Object identity and aliasing are not modelled.
- Conversations.ManagedConversation.RemoveParticipant: removal compares values, as Lombok's `@Data` equality compares fields. To remove a row added by AddParticipant, the caller passes the re-pointed value. `setConversation(null)` on the removed row is not modelled, because a participant's conversation is a non-null id here.
- Conversations.ManagedConversation.AddMessage: as for AddParticipant, the caller's own message object is not re-pointed. Only the copy in the list is.
- Conversations.ManagedConversation.RemoveMessage: as for RemoveParticipant, removal compares values. Clearing the removed message's conversation is not modelled.

## Findings

| source | as written | input that shows it | evidently intended | confidence | as-written member | corrected member |
|---|---|---|---|---|---|---|
| src/main/java/com/chatapp/whatsapp/service/MessageService.java:300 | `convertMessageToDTO` reads the conversation id from the read-only mirror column, which a message saved in the same transaction does not carry yet | any message just saved by `sendMessage`, `sendMessageWithAttachment` or `saveWebSocketMessage` | the DTO carries the id of the message's conversation | not executed | MessageService.ConvertMessageToDTOAsWritten, MessageService.ConversionLosesConversationId | MessageService.ConvertMessageToDTO, MessageService.Deliver, MessageService.SendMessage, MessageService.DeliverWithAttachment, MessageService.SendMessageWithAttachment, MessageService.SaveWebSocketMessage |
| src/main/java/com/chatapp/whatsapp/service/MessageService.java:193-196 | `saveWebSocketMessage` publishes on `/topic/conversation/` followed by the same unset mirror column, so the topic ends in "null" | any WebSocket message to an existing conversation from an active or new sender | publish on the topic of the message's conversation | not executed | MessageService.WebSocketTopicAsWritten, MessageService.WebSocketTopicIsNull | MessageService.Topic, MessageService.SaveWebSocketMessage |
| src/main/java/com/chatapp/whatsapp/respository/ConversationParticipantRepository.java:75-114 | `deactivateParticipant`, `reactivateParticipant` and `deleteParticipant` are UPDATE/DELETE queries without `@Modifying`, which Spring Data refuses to run | any call, for example deactivating an existing active row | update or delete the (conversation, user) row | not executed | ParticipantRepository.DeactivateParticipantAsWritten, ParticipantRepository.DmlAsWrittenIsRefused | ParticipantRepository.DeactivateParticipant |
| src/main/java/com/chatapp/whatsapp/respository/MessageRepository.java:78-83 | `findMessagesWithAttachments` selects the types IMAGE, VIDEO, DOCUMENT and AUDIO, but the services save every file message with type ATTACHMENT | a live message of type ATTACHMENT saved by `sendMessageWithAttachment` | list the conversation's file messages, including type ATTACHMENT | not executed | MessageRepository.FindMessagesWithAttachmentsAsWritten, MessageRepository.AttachmentMessageMissed | MessageRepository.FindMessagesWithAttachments |
