/** `ConversationController`: the conversation list and detail views, the
    sort choice of the message listing, and the read position. Each view is
    built by loops that append to lists; each such loop is a method proved
    against a function that says what the view holds. */
module ConversationController {
  import opened Common
  import opened Ordering
  import opened Users
  import opened Participants
  import opened Messages
  import opened Conversations
  import opened Store
  import ParticipantRepository
  import ConversationRepository
  import MessageRepository
  import MessageService
  import MessageDtos

  const PAGE_INDEX_NEGATIVE := "Page index must not be less than zero"
  const PAGE_SIZE_TOO_SMALL := "Page size must not be less than one"
  const FETCH_FAILED := "An internal error occurred while fetching messages."
  const MARKED_READ := "Conversation marked as read"
  const DESC := "desc"
  const SORT_SENT_AT := "sentAt"
  const SORT_ID := "id"
  const SORT_SENDER_ID := "senderId"
  const SORT_CONVERSATION_ID := "conversationId"
  const SORT_IS_DELETED := "isDeleted"
  const SORT_IS_EDITED := "isEdited"

  // ---------------------------------------------------------------------------
  // Views
  // ---------------------------------------------------------------------------

  /** One entry of a view's "participants" list; the list view leaves out
      `joinedAt`, the detail view carries it. */
  datatype ParticipantView = ParticipantView(
    id: Id,
    username: string,
    displayName: Option<string>,
    isOnline: Option<bool>,
    joinedAt: Option<Time>)

  /** The "lastMessage" entry of a listed conversation. */
  datatype LastMessageView = LastMessageView(
    content: Option<string>,
    senderUsername: string,
    sentAt: Option<Time>,
    messageType: Option<string>)

  /** One listed conversation of `getUserConversations`. */
  datatype ConversationSummary = ConversationSummary(
    id: Id,
    name: Option<string>,
    conversationType: string,
    createdAt: Time,
    updatedAt: Time,
    participants: seq<ParticipantView>,
    lastMessage: Option<LastMessageView>,
    unreadCount: nat)

  /** The body of `getUserConversations`. */
  datatype UserConversations = UserConversations(
    conversations: seq<ConversationSummary>,
    currentPage: nat,
    totalPages: nat,
    totalElements: nat,
    hasNext: bool,
    hasPrevious: bool)

  /** The body of `getConversation`. */
  datatype ConversationDetail = ConversationDetail(
    id: Id,
    conversationType: string,
    name: Option<string>,
    createdAt: Time,
    updatedAt: Time,
    participants: seq<ParticipantView>)

  function ViewOf(u: User, p: Participant, withJoinedAt: bool): ParticipantView {
    ParticipantView(u.id, u.username, u.displayName, u.isOnline, if withJoinedAt then Some(p.joinedAt) else None)
  }

  /** The participant entries built from `rows`: a row whose user is found
      gives one entry, in the order of the rows; a row without a user gives
      none. */
  function ViewsOf(t: Tables, rows: seq<Participant>, withJoinedAt: bool): seq<ParticipantView>
    decreases |rows|
  {
    if rows == [] then []
    else
      var prev := ViewsOf(t, rows[..|rows| - 1], withJoinedAt);
      var p := rows[|rows| - 1];
      var user := t.FindUserById(p.userId);
      if user.Some? then prev + [ViewOf(user.value, p, withJoinedAt)] else prev
  }

  /** Every entry comes from a row whose user is found, and there are no
      more entries than rows. */
  lemma {:induction false} ViewsOfSound(t: Tables, rows: seq<Participant>, withJoinedAt: bool)
    ensures |ViewsOf(t, rows, withJoinedAt)| <= |rows|
    ensures forall v :: v in ViewsOf(t, rows, withJoinedAt) ==>
              exists p :: p in rows && t.FindUserById(p.userId).Some? && v == ViewOf(t.FindUserById(p.userId).value, p, withJoinedAt)
    decreases |rows|
  {
    if rows != [] {
      var front := rows[..|rows| - 1];
      ViewsOfSound(t, front, withJoinedAt);
      assert rows == front + [rows[|rows| - 1]];
      forall p | p in front ensures p in rows {}
    }
  }

  /** Every row whose user is found has its entry. */
  lemma {:induction false} ViewsOfComplete(t: Tables, rows: seq<Participant>, withJoinedAt: bool, i: nat)
    requires i < |rows| && t.FindUserById(rows[i].userId).Some?
    ensures ViewOf(t.FindUserById(rows[i].userId).value, rows[i], withJoinedAt) in ViewsOf(t, rows, withJoinedAt)
    decreases |rows|
  {
    var front := rows[..|rows| - 1];
    assert rows == front + [rows[|rows| - 1]];
    if i < |rows| - 1 {
      assert rows[i] == front[i];
      ViewsOfComplete(t, front, withJoinedAt, i);
    }
  }

  /** The loop over the participant rows that fills a "participants" list. */
  method ParticipantViews(t: Tables, rows: seq<Participant>, withJoinedAt: bool) returns (views: seq<ParticipantView>)
    ensures views == ViewsOf(t, rows, withJoinedAt)
  {
    views := [];
    var i := 0;
    while i < |rows|
      invariant 0 <= i <= |rows|
      invariant views == ViewsOf(t, rows[..i], withJoinedAt)
    {
      var participant := rows[i];
      var user := t.FindUserById(participant.userId);
      if user.Some? {
        views := views + [ViewOf(user.value, participant, withJoinedAt)];
      }
      assert rows[..i + 1][..i] == rows[..i];
      i := i + 1;
    }
    assert rows[..|rows|] == rows;
  }

  /** The participants of conversation `cid` as both views list them. */
  function MembersOf(t: Tables, cid: Id, withJoinedAt: bool): seq<ParticipantView> {
    ViewsOf(t, ParticipantRepository.FindByConversationIdAndIsActiveTrue(t.participants, cid), withJoinedAt)
  }

  /** A view lists exactly the active participants whose user record exists,
      each with that user's profile. */
  lemma MembersAreActiveWithAccount(t: Tables, cid: Id, withJoinedAt: bool)
    requires t.Valid()
    ensures forall v :: v in MembersOf(t, cid, withJoinedAt) <==>
              exists p, u :: p in t.participants && p.conversationId == cid && p.isActive
                && u in t.users && u.id == p.userId && v == ViewOf(u, p, withJoinedAt)
  {
    MembersHaveActiveRows(t, cid, withJoinedAt);
    ActiveRowsAreMembers(t, cid, withJoinedAt);
  }

  lemma MembersHaveActiveRows(t: Tables, cid: Id, withJoinedAt: bool)
    ensures forall v :: v in MembersOf(t, cid, withJoinedAt) ==>
              exists p, u :: p in t.participants && p.conversationId == cid && p.isActive
                && u in t.users && u.id == p.userId && v == ViewOf(u, p, withJoinedAt)
  {
    var rows := ParticipantRepository.FindByConversationIdAndIsActiveTrue(t.participants, cid);
    ViewsOfSound(t, rows, withJoinedAt);
    forall v | v in MembersOf(t, cid, withJoinedAt)
      ensures exists p, u :: p in t.participants && p.conversationId == cid && p.isActive
                && u in t.users && u.id == p.userId && v == ViewOf(u, p, withJoinedAt)
    {
      var p :| p in rows && t.FindUserById(p.userId).Some? && v == ViewOf(t.FindUserById(p.userId).value, p, withJoinedAt);
      var u := t.FindUserById(p.userId).value;
      assert p in t.participants && u in t.users;
    }
  }

  lemma ActiveRowsAreMembers(t: Tables, cid: Id, withJoinedAt: bool)
    requires t.Valid()
    ensures forall p, u :: p in t.participants && p.conversationId == cid && p.isActive && u in t.users && u.id == p.userId ==>
              ViewOf(u, p, withJoinedAt) in MembersOf(t, cid, withJoinedAt)
  {
    var rows := ParticipantRepository.FindByConversationIdAndIsActiveTrue(t.participants, cid);
    UserIdsDistinct(t);
    forall p, u | p in t.participants && p.conversationId == cid && p.isActive && u in t.users && u.id == p.userId
      ensures ViewOf(u, p, withJoinedAt) in MembersOf(t, cid, withJoinedAt)
    {
      var i :| 0 <= i < |t.users| && t.users[i] == u;
      FindByIdFindsRow(t.users, IdOfUser, i);
      assert p in rows;
      var k :| 0 <= k < |rows| && rows[k] == p;
      ViewsOfComplete(t, rows, withJoinedAt, k);
    }
  }

  /** Both views are built from the same rows and differ only in `joinedAt`. */
  lemma {:induction false} ViewsDifferOnlyInJoinedAt(t: Tables, rows: seq<Participant>)
    ensures |ViewsOf(t, rows, true)| == |ViewsOf(t, rows, false)|
    ensures forall k :: 0 <= k < |ViewsOf(t, rows, true)| ==>
              ViewsOf(t, rows, true)[k].(joinedAt := None) == ViewsOf(t, rows, false)[k]
    decreases |rows|
  {
    if rows != [] {
      ViewsDifferOnlyInJoinedAt(t, rows[..|rows| - 1]);
    }
  }

  /** The "lastMessage" entry: the conversation's newest non-deleted message,
      or no entry. */
  function LastMessageOf(t: Tables, cid: Id): Option<LastMessageView> {
    match MessageRepository.FindLatestMessageInConversation(t.messages, cid)
    case None => None
    case Some(m) => Some(LastMessageView(m.content, MessageService.SenderName(t.users, m.senderId), m.sentAt, m.messageType))
  }

  /** A listed conversation has a "lastMessage" entry exactly when it has a
      non-deleted message, and the entry shows one sent no earlier than any
      other non-deleted message of the conversation, with its sender's name. */
  lemma LastMessageIsNewest(t: Tables, cid: Id)
    ensures var r := LastMessageOf(t, cid);
      && (r.None? <==> forall m :: m in t.messages ==> !(m.conversation == cid && m.IsLive()))
      && (r.Some? ==>
            exists m :: m in t.messages && m.conversation == cid && m.IsLive()
              && r.value == LastMessageView(m.content, MessageService.SenderName(t.users, m.senderId), m.sentAt, m.messageType)
              && forall n :: n in t.messages && n.conversation == cid && n.IsLive() ==>
                   MessageRepository.SentAt(n) <= MessageRepository.SentAt(m))
  {
  }

  /** One listed conversation: its columns, its members, its newest message
      and the number of messages `uid` has not read. */
  function SummaryOf(t: Tables, uid: Id, c: Conversation): ConversationSummary {
    ConversationSummary(c.id, c.name, c.conversationType, c.createdAt, c.updatedAt,
                        MembersOf(t, c.id, false), LastMessageOf(t, c.id),
                        MessageRepository.CountUnreadMessages(t.messages, c.id, uid))
  }

  // ---------------------------------------------------------------------------
  // getUserConversations
  // ---------------------------------------------------------------------------

  /** `PageRequest.of(page, size, ...)`: a negative index or a size below one
      is refused. */
  function PageRequest(page: int, size: int): (r: Result<Pageable>)
    ensures r.Success? <==> page >= 0 && size >= 1
    ensures page < 0 ==> r == Failure(Error(IllegalArgument, PAGE_INDEX_NEGATIVE))
    ensures page >= 0 && size < 1 ==> r == Failure(Error(IllegalArgument, PAGE_SIZE_TOO_SMALL))
    ensures r.Success? ==> r.value.page == page && r.value.size == size && r.value.size >= 1
  {
    if page < 0 then Failure(Error(IllegalArgument, PAGE_INDEX_NEGATIVE))
    else if size < 1 then Failure(Error(IllegalArgument, PAGE_SIZE_TOO_SMALL))
    else Success(Pageable(page, size))
  }

  /** The summaries of the conversations `cs`, in their order. */
  function SummariesOf(t: Tables, uid: Id, cs: seq<Conversation>): seq<ConversationSummary> {
    MapSeq(cs, Summarizer(t, uid))
  }

  /** `SummaryOf` for one user, as the function the listing maps over. */
  function Summarizer(t: Tables, uid: Id): Conversation -> ConversationSummary {
    (c: Conversation) => SummaryOf(t, uid, c)
  }

  /** What `getUserConversations(userId, page, size)` answers: one page of the
      user's active conversations, each summarised, with the paging metadata;
      a bad page request is answered with its message. */
  function UserConversationsOf(t: Tables, uid: Id, page: int, size: int): Result<UserConversations> {
    var request := PageRequest(page, size);
    if request.Failure? then Failure(request.error)
    else
      var found := ConversationRepository.FindUserConversations(t.conversations, t.participants, uid, request.value);
      Success(UserConversations(SummariesOf(t, uid, found.content), found.number, found.TotalPages(),
                                found.totalElements, found.HasNext(), found.HasPrevious()))
  }

  /** The listing fails exactly on a bad page request, with that request's
      message. */
  lemma UserConversationsFailure(t: Tables, uid: Id, page: int, size: int)
    ensures var r := UserConversationsOf(t, uid, page, size);
      && (r.Failure? <==> page < 0 || size < 1)
      && (r.Failure? ==> r == Failure(PageRequest(page, size).error))
  {
  }

  /** A listed page reports the requested index, holds at most `size`
      summaries, counts all the conversations the user is active in and has
      a previous page exactly when it is not the first; its summaries are
      those of the slice `LIMIT size OFFSET page * size` of the user's active
      conversations, most recently updated first. */
  lemma UserConversationsPaging(t: Tables, uid: Id, page: nat, size: nat)
    requires size >= 1
    ensures var r := UserConversationsOf(t, uid, page, size);
      && r.Success?
      && r.value.currentPage == page && |r.value.conversations| <= size
      && r.value.totalElements == Count(t.conversations, ConversationRepository.WithActiveMember(t.participants, uid))
      && r.value.hasPrevious == (page > 0)
      && IsSliceOf(r.value.conversations,
                   SummariesOf(t, uid, ConversationRepository.FindActiveConversationsByUserId(t.conversations, t.participants, uid)),
                   Pageable(page, size))
  {
    var p := Pageable(page, size);
    var found := ConversationRepository.FindUserConversations(t.conversations, t.participants, uid, p);
    var all := ConversationRepository.FindActiveConversationsByUserId(t.conversations, t.participants, uid);
    var r := UserConversationsOf(t, uid, page, size);
    assert r.Success? && r.value.conversations == SummariesOf(t, uid, found.content);
    assert IsSliceOf(r.value.conversations, SummariesOf(t, uid, all), p) by {
      SliceOfMapped(found.content, all, p, Summarizer(t, uid));
    }
  }

  /** Paging through the listing summarises every conversation the user is
      active in: the summary of the `i`-th of them, most recently updated
      first, is entry `i % size` of page `i / size`. */
  lemma ConversationListedOnItsPage(t: Tables, uid: Id, size: nat, i: nat)
    requires size >= 1 && i < Count(t.conversations, ConversationRepository.WithActiveMember(t.participants, uid))
    ensures var r := UserConversationsOf(t, uid, i / size, size);
      && r.Success?
      && i % size < |r.value.conversations|
      && r.value.conversations[i % size]
         == SummaryOf(t, uid, ConversationRepository.FindActiveConversationsByUserId(t.conversations, t.participants, uid)[i])
  {
    var p := Pageable(i / size, size);
    var found := ConversationRepository.FindUserConversations(t.conversations, t.participants, uid, p);
    var r := UserConversationsOf(t, uid, i / size, size);
    assert r.Success? && r.value.conversations == SummariesOf(t, uid, found.content);
    ConversationRepository.UserConversationOnItsPage(t.conversations, t.participants, uid, size, i);
  }

  /** Every listed summary is that of a conversation the user is an active
      member of: entry `i` summarises row `i` of the repository's page. */
  lemma UserConversationsEntries(t: Tables, uid: Id, page: nat, size: nat)
    requires size >= 1
    ensures var r := UserConversationsOf(t, uid, page, size);
      var rows := ConversationRepository.FindUserConversations(t.conversations, t.participants, uid, Pageable(page, size)).content;
      && r.Success? && |r.value.conversations| == |rows|
      && forall i :: 0 <= i < |rows| ==>
           && rows[i] in t.conversations && ConversationRepository.IsActiveMember(t.participants, rows[i].id, uid)
           && r.value.conversations[i] == SummaryOf(t, uid, rows[i])
  {
    var rows := ConversationRepository.FindUserConversations(t.conversations, t.participants, uid, Pageable(page, size)).content;
    var r := UserConversationsOf(t, uid, page, size);
    assert r.Success? && r.value.conversations == SummariesOf(t, uid, rows);
    var entries := r.value.conversations;
    forall i | 0 <= i < |rows|
      ensures rows[i] in t.conversations && ConversationRepository.IsActiveMember(t.participants, rows[i].id, uid)
      ensures entries[i] == SummaryOf(t, uid, rows[i])
    {
      assert rows[i] in rows;
      assert entries[i] == Summarizer(t, uid)(rows[i]);
    }
  }

  /** The most recently updated conversations are listed first. */
  lemma UserConversationsOrder(t: Tables, uid: Id, page: nat, size: nat)
    requires size >= 1
    ensures var r := UserConversationsOf(t, uid, page, size);
      && r.Success?
      && forall i, j :: 0 <= i < j < |r.value.conversations| ==>
           r.value.conversations[i].updatedAt >= r.value.conversations[j].updatedAt
  {
    var found := ConversationRepository.FindUserConversations(t.conversations, t.participants, uid, Pageable(page, size));
    var entries := UserConversationsOf(t, uid, page, size).value.conversations;
    assert entries == SummariesOf(t, uid, found.content);
    forall i, j | 0 <= i < j < |entries| ensures entries[i].updatedAt >= entries[j].updatedAt {
      assert entries[i].updatedAt == found.content[i].updatedAt;
      assert entries[j].updatedAt == found.content[j].updatedAt;
    }
  }

  /** The loop over the page of conversations. */
  method Summaries(t: Tables, uid: Id, cs: seq<Conversation>) returns (out: seq<ConversationSummary>)
    ensures out == SummariesOf(t, uid, cs)
  {
    out := [];
    for i := 0 to |cs|
      invariant out == MapSeq(cs[..i], Summarizer(t, uid))
    {
      var summary := Summarize(t, uid, cs[i]);
      MapSeqStep(cs, i, Summarizer(t, uid));
      out := out + [summary];
    }
    assert cs[..|cs|] == cs;
  }

  /** The body of that loop for one conversation. */
  method Summarize(t: Tables, uid: Id, c: Conversation) returns (summary: ConversationSummary)
    ensures summary == SummaryOf(t, uid, c)
  {
    var members := ParticipantViews(t, ParticipantRepository.FindByConversationIdAndIsActiveTrue(t.participants, c.id), false);
    var lastMessage := LastMessageOf(t, c.id);
    var unreadCount := MessageRepository.CountUnreadMessages(t.messages, c.id, uid);
    summary := ConversationSummary(c.id, c.name, c.conversationType, c.createdAt, c.updatedAt,
                                   members, lastMessage, unreadCount);
  }

  /** `getUserConversations(userId, page, size)`. */
  method GetUserConversations(t: Tables, uid: Id, page: int, size: int) returns (r: Result<UserConversations>)
    ensures r == UserConversationsOf(t, uid, page, size)
  {
    var request := PageRequest(page, size);
    if request.Failure? {
      return Failure(request.error);
    }
    var found := ConversationRepository.FindUserConversations(t.conversations, t.participants, uid, request.value);
    var summaries := Summaries(t, uid, found.content);
    r := Success(UserConversations(summaries, found.number, found.TotalPages(), found.totalElements,
                                   found.HasNext(), found.HasPrevious()));
  }

  // ---------------------------------------------------------------------------
  // getConversation
  // ---------------------------------------------------------------------------

  /** What `getConversation(conversationId)` answers: nothing (404) for an
      unknown id, else the conversation's columns and its members with their
      join times. */
  function ConversationDetailOf(t: Tables, cid: Id): (r: Option<ConversationDetail>)
    ensures r.None? <==> forall c :: c in t.conversations ==> c.id != cid
    ensures r.Some? ==>
              exists c :: c in t.conversations && c.id == cid
                && r.value == ConversationDetail(c.id, c.conversationType, c.name, c.createdAt, c.updatedAt,
                                                 MembersOf(t, cid, true))
  {
    match t.FindConversationById(cid)
    case None => None
    case Some(c) => Some(ConversationDetail(c.id, c.conversationType, c.name, c.createdAt, c.updatedAt,
                                            MembersOf(t, cid, true)))
  }

  /** `getConversation(conversationId)`. */
  method GetConversation(t: Tables, cid: Id) returns (r: Option<ConversationDetail>)
    ensures r == ConversationDetailOf(t, cid)
  {
    var conversation := t.FindConversationById(cid);
    if conversation.None? {
      return None;
    }
    var c := conversation.value;
    var members := ParticipantViews(t, ParticipantRepository.FindByConversationIdAndIsActiveTrue(t.participants, cid), true);
    r := Some(ConversationDetail(c.id, c.conversationType, c.name, c.createdAt, c.updatedAt, members));
  }

  /** The detail of a listed conversation names the same members as its
      summary, in the same order, and adds their join times. */
  lemma DetailAgreesWithSummary(t: Tables, uid: Id, c: Conversation)
    requires c in t.conversations
    ensures ConversationDetailOf(t, c.id).Some?
    ensures var members := ConversationDetailOf(t, c.id).value.participants;
      var listed := SummaryOf(t, uid, c).participants;
      |members| == |listed| && forall k :: 0 <= k < |members| ==> members[k].(joinedAt := None) == listed[k]
  {
    ViewsDifferOnlyInJoinedAt(t, ParticipantRepository.FindByConversationIdAndIsActiveTrue(t.participants, c.id));
  }

  // ---------------------------------------------------------------------------
  // getConversationMessages: the sort choice
  // ---------------------------------------------------------------------------

  datatype Direction = Ascending | Descending

  /** `sortDir.equalsIgnoreCase("desc") ? descending : ascending`. */
  function SortDirection(sortDir: string): Direction {
    if EqualsIgnoreCase(sortDir, DESC) then Descending else Ascending
  }

  /** Any casing of "desc" sorts descending; everything else, "DESCENDING"
      and the empty text included, sorts ascending. */
  lemma SortDirectionCases()
    ensures SortDirection("desc") == Descending && SortDirection("DESC") == Descending
    ensures SortDirection("Desc") == Descending
    ensures SortDirection("asc") == Ascending && SortDirection("") == Ascending
    ensures SortDirection("descending") == Ascending && SortDirection("dsc") == Ascending
  {
    assert ToLower("DESC") == DESC;
    assert ToLower("Desc") == DESC;
    assert ToLower(DESC) == DESC;
    assert ToLower("asc")[0] != DESC[0];
    assert |ToLower("descending")| != |DESC|;
    assert ToLower("dsc")[1] != DESC[1];
  }

  /** The ascending order of each sortable message column that is a number,
      a time or a truth value; `false` sorts before `true`, and a missing
      send time sorts as time zero. Text columns have no key here. */
  function AscendingKey(sortBy: string): (r: Option<Message -> int>)
    ensures r.Some? <==> NonTextColumn(sortBy)
  {
    if sortBy == SORT_SENT_AT then Some(MessageRepository.OldestFirst)
    else if sortBy == SORT_ID then Some((m: Message) => m.id)
    else if sortBy == SORT_SENDER_ID then Some((m: Message) => m.senderId)
    else if sortBy == SORT_CONVERSATION_ID then Some((m: Message) => m.conversation)
    else if sortBy == SORT_IS_DELETED then Some((m: Message) => BoolKey(m.isDeleted))
    else if sortBy == SORT_IS_EDITED then Some((m: Message) => BoolKey(m.isEdited))
    else None
  }

  predicate NonTextColumn(sortBy: string) {
    sortBy == SORT_SENT_AT || sortBy == SORT_ID || sortBy == SORT_SENDER_ID
    || sortBy == SORT_CONVERSATION_ID || sortBy == SORT_IS_DELETED || sortBy == SORT_IS_EDITED
  }

  function BoolKey(b: Option<bool>): int { if b == Some(true) then 1 else 0 }

  /** The message order `Sort.by(sortBy)` in that direction gives: the
      column's ascending key, negated for a descending sort. */
  function MessageKey(sortBy: string, d: Direction): (r: Option<Message -> int>)
    ensures r.Some? <==> NonTextColumn(sortBy)
    ensures r.Some? ==> forall m :: r.value(m) == if d == Ascending then AscendingKey(sortBy).value(m)
                                                  else 0 - AscendingKey(sortBy).value(m)
  {
    if sortBy == SORT_SENT_AT && d == Descending then Some(MessageRepository.NewestFirst)
    else
      var key := AscendingKey(sortBy);
      if key.None? || d == Ascending then key
      else Some((m: Message) => 0 - key.value(m))
  }

  /** A descending sort lists the messages in exactly the reverse of the
      ascending order on the same column. */
  lemma DescendingReversesAscending(sortBy: string, m1: Message, m2: Message)
    requires NonTextColumn(sortBy)
    ensures MessageKey(sortBy, Descending).value(m1) <= MessageKey(sortBy, Descending).value(m2)
            <==> MessageKey(sortBy, Ascending).value(m2) <= MessageKey(sortBy, Ascending).value(m1)
  {
  }

  /** What `getConversationMessages(conversationId, page, size, sortBy,
      sortDir)` answers: the service's page in the chosen order, or the
      internal-error body when the page request or the sort is refused. */
  function ConversationMessagesOf(t: Tables, cid: Id, page: int, size: int, sortBy: string, sortDir: string)
    : (r: Result<Page<MessageDtos.MessageDTO>>)
    ensures r.Success? <==> page >= 0 && size >= 1 && NonTextColumn(sortBy)
    ensures r.Failure? ==> r.error.message == FETCH_FAILED
    ensures r.Success? ==>
              r.value == MessageService.GetConversationMessages(t, cid, Pageable(page, size),
                                                                MessageKey(sortBy, SortDirection(sortDir)).value)
  {
    var request := PageRequest(page, size);
    var key := MessageKey(sortBy, SortDirection(sortDir));
    if request.Failure? then Failure(Error(IllegalArgument, FETCH_FAILED))
    else if key.None? then Failure(Error(InvalidDataAccess, FETCH_FAILED))
    else Success(MessageService.GetConversationMessages(t, cid, request.value, key.value))
  }

  /** Sorting by "sentAt" with any casing of "desc" lists the newest message
      first; with any other direction the oldest first. Messages without a
      send time sort as time zero. */
  lemma SentAtOrderFollowsDirection(t: Tables, cid: Id, page: nat, size: nat, sortDir: string)
    requires size >= 1
    ensures var r := ConversationMessagesOf(t, cid, page, size, SORT_SENT_AT, sortDir);
      && r.Success?
      && forall i, j :: 0 <= i < j < |r.value.content| ==>
           if EqualsIgnoreCase(sortDir, DESC)
           then r.value.content[i].sentAt.GetOr(0) >= r.value.content[j].sentAt.GetOr(0)
           else r.value.content[i].sentAt.GetOr(0) <= r.value.content[j].sentAt.GetOr(0)
  {
    var key := MessageKey(SORT_SENT_AT, SortDirection(sortDir)).value;
    var rows := MessageRepository.FindByConversation_IdAndIsDeletedFalse(t.messages, cid, Pageable(page, size), key);
    var r := ConversationMessagesOf(t, cid, page, size, SORT_SENT_AT, sortDir);
    forall i, j | 0 <= i < j < |r.value.content|
      ensures if EqualsIgnoreCase(sortDir, DESC)
              then r.value.content[i].sentAt.GetOr(0) >= r.value.content[j].sentAt.GetOr(0)
              else r.value.content[i].sentAt.GetOr(0) <= r.value.content[j].sentAt.GetOr(0)
    {
      assert key(rows.content[i]) <= key(rows.content[j]);
      assert r.value.content[i].sentAt == rows.content[i].sentAt;
      assert r.value.content[j].sentAt == rows.content[j].sentAt;
    }
  }

  // ---------------------------------------------------------------------------
  // markConversationAsRead
  // ---------------------------------------------------------------------------

  /** The tables after `markConversationAsRead(conversationId, userId)`: when
      the conversation has a non-deleted message and the user has a row
      there, active or not, that row's read position becomes the newest
      message, whatever it was before; otherwise nothing changes. */
  function MarkedRead(t: Tables, cid: Id, uid: Id, now: Time): Tables
    requires ParticipantRepository.UniqueMembership(t.participants)
  {
    var latest := MessageRepository.FindLatestMessageInConversation(t.messages, cid);
    if latest.None? then t
    else
      var row := ParticipantRepository.FindByConversationIdAndUserId(t.participants, cid, uid);
      if row.value.None? then t
      else t.(participants := ReplaceById(t.participants, IdOfParticipant, row.value.value.UpdateLastRead(latest.value.id, now)))
  }

  /** `markConversationAsRead(conversationId, userId)`: always answers success. */
  method MarkConversationAsRead(db: Database, cid: Id, uid: Id, now: Time) returns (r: Result<string>)
    requires db.State().Valid()
    modifies db
    ensures db.State().Valid()
    ensures r == Success(MARKED_READ)
    ensures db.State() == MarkedRead(old(db.State()), cid, uid, now)
  {
    var latestMessage := MessageRepository.FindLatestMessageInConversation(db.messages, cid);
    if latestMessage.Some? {
      var participant := ParticipantRepository.FindByConversationIdAndUserId(db.participants, cid, uid);
      if participant.value.Some? {
        var p := participant.value.value;
        var k :| 0 <= k < |db.participants| && db.participants[k] == p;
        assert db.participants[k].SameKey(p.UpdateLastRead(latestMessage.value.id, now));
        db.UpdateParticipant(p.UpdateLastRead(latestMessage.value.id, now));
      }
    }
    r := Success(MARKED_READ);
  }

  /** With no non-deleted message, or no row of the user, marking as read
      changes nothing. */
  lemma MarkReadWithoutTargetIsNoOp(t: Tables, cid: Id, uid: Id, now: Time)
    requires t.Valid()
    requires (forall m :: m in t.messages ==> !(m.conversation == cid && m.IsLive()))
             || (forall p :: p in t.participants ==> !(p.conversationId == cid && p.userId == uid))
    ensures MarkedRead(t, cid, uid, now) == t
  {
  }

  /** Under the unique (conversation, user) constraint the lookup finds the
      row at index `i` when that row has the key. */
  lemma FindsTheKeyedRow(ps: seq<Participant>, cid: Id, uid: Id, i: nat)
    requires ParticipantRepository.UniqueMembership(ps) && i < |ps|
    requires ps[i].conversationId == cid && ps[i].userId == uid
    ensures ParticipantRepository.FindByConversationIdAndUserId(ps, cid, uid) == Success(Some(ps[i]))
  {
    assert ps[i] in ps;
    var p := ParticipantRepository.FindByConversationIdAndUserId(ps, cid, uid).value.value;
    var j :| 0 <= j < |ps| && ps[j] == p;
    assert j == i;
  }

  /** With a non-deleted message and the user's row at index `i`, exactly
      that row is changed: its read position becomes the newest message's id,
      read at `now`, so it has read that message; whether the row is active
      and what it held before do not matter. No other row or table changes,
      so the unread counts of every listing stay as they were. */
  lemma MarkReadMovesOnlyTheUsersRow(t: Tables, cid: Id, uid: Id, now: Time, i: nat)
    requires ParticipantRepository.UniqueMembership(t.participants) && IdsDistinct(t.participants, IdOfParticipant)
    requires i < |t.participants|
    requires t.participants[i].conversationId == cid && t.participants[i].userId == uid
    requires MessageRepository.FindLatestMessageInConversation(t.messages, cid).Some?
    ensures var latest := MessageRepository.FindLatestMessageInConversation(t.messages, cid).value;
      var s := MarkedRead(t, cid, uid, now);
      && |s.participants| == |t.participants|
      && s.participants[i] == t.participants[i].UpdateLastRead(latest.id, now)
      && s.participants[i].HasReadMessage(latest.id)
      && (forall k :: 0 <= k < |t.participants| && k != i ==> s.participants[k] == t.participants[k])
      && s == t.(participants := s.participants)
      && (forall c, u :: MessageRepository.CountUnreadMessages(s.messages, c, u) == MessageRepository.CountUnreadMessages(t.messages, c, u))
  {
    FindsTheKeyedRow(t.participants, cid, uid, i);
  }
}
