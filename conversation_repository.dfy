/** `ConversationRepository`: the queries over the conversation table and its
    join with the participant table. A join `c JOIN c.participants p WHERE
    p.userId = u AND p.isActive = true` yields one row per matching participant
    row; under the unique (conversation, user) constraint that is at most one
    row per conversation, so the join is modelled as the conversations for
    which an active participant row of the user exists. */
module ConversationRepository {
  import opened Common
  import opened Ordering
  import opened Participants
  import opened Messages
  import opened Conversations
  import opened ParticipantRepository

  /** The join condition: `u` has an active participant row in conversation `cid`. */
  predicate IsActiveMember(ps: seq<Participant>, cid: Id, uid: Id) {
    exists p :: p in ps && p.conversationId == cid && p.userId == uid && p.isActive
  }

  /** The join condition is the participant repository's existence query. */
  lemma MembershipIsExistsQuery(ps: seq<Participant>, cid: Id, uid: Id)
    ensures IsActiveMember(ps, cid, uid) <==> ExistsByConversationIdAndUserId(ps, cid, uid)
  {
    ExistsMeansActiveRow(ps, cid, uid);
    if IsActiveMember(ps, cid, uid) {
      var p :| p in ps && p.conversationId == cid && p.userId == uid && p.isActive;
      var i :| 0 <= i < |ps| && ps[i] == p;
    }
  }

  function NewestUpdateFirst(c: Conversation): int { -c.updatedAt }
  function NewestCreatedFirst(c: Conversation): int { -c.createdAt }

  function PrivateWithBoth(ps: seq<Participant>, user1Id: Id, user2Id: Id): Conversation -> bool {
    (c: Conversation) => c.IsPrivate() && IsActiveMember(ps, c.id, user1Id) && IsActiveMember(ps, c.id, user2Id)
  }

  function WithActiveMember(ps: seq<Participant>, uid: Id): Conversation -> bool {
    (c: Conversation) => IsActiveMember(ps, c.id, uid)
  }

  function GroupNamed(name: string): Conversation -> bool {
    (c: Conversation) => c.IsGroup() && c.name.Some? && LikeContainsIgnoreCase(c.name.value, name)
  }

  function OfType(conversationType: string): Conversation -> bool {
    (c: Conversation) => c.conversationType == conversationType
  }

  function CreatedBy(uid: Id): Conversation -> bool {
    (c: Conversation) => c.createdBy == uid
  }

  /** `EXISTS (SELECT 1 FROM Message m WHERE m.conversation = c)`. */
  predicate HasMessages(ms: seq<Message>, cid: Id) {
    exists m :: m in ms && m.conversation == cid
  }

  function WithActiveMemberAndMessages(ps: seq<Participant>, ms: seq<Message>, uid: Id): Conversation -> bool {
    (c: Conversation) => IsActiveMember(ps, c.id, uid) && HasMessages(ms, c.id)
  }

  /** `findPrivateConversationBetweenUsers`: the PRIVATE conversation in which
      both users are active; more than one such conversation is an error. */
  function FindPrivateConversationBetweenUsers(cs: seq<Conversation>, ps: seq<Participant>, user1Id: Id, user2Id: Id): (r: Result<Option<Conversation>>)
    ensures r.Success? && r.value.Some? ==>
              var c := r.value.value;
              c in cs && c.IsPrivate() && IsActiveMember(ps, c.id, user1Id) && IsActiveMember(ps, c.id, user2Id)
    ensures r.Success? && r.value.None? ==>
              forall c :: c in cs && c.IsPrivate() ==> !(IsActiveMember(ps, c.id, user1Id) && IsActiveMember(ps, c.id, user2Id))
    ensures r.Failure? <==> Count(cs, PrivateWithBoth(ps, user1Id, user2Id)) > 1
  {
    var rows := Filter(cs, PrivateWithBoth(ps, user1Id, user2Id));
    assert rows != [] ==> rows[0] in rows;
    SingleResult(rows)
  }

  /** The lookup does not depend on the order of the two users. */
  lemma PrivateLookupSymmetric(cs: seq<Conversation>, ps: seq<Participant>, user1Id: Id, user2Id: Id)
    ensures FindPrivateConversationBetweenUsers(cs, ps, user1Id, user2Id) ==
            FindPrivateConversationBetweenUsers(cs, ps, user2Id, user1Id)
  {
    FilterSameOn(cs, PrivateWithBoth(ps, user1Id, user2Id), PrivateWithBoth(ps, user2Id, user1Id));
  }

  /** With the same user on both sides the two joined rows may be one row: any
      PRIVATE conversation the user is active in matches, so a user active in
      one private conversation finds it, and one active in two gets an error. */
  lemma SelfLookupMatchesAnyPrivate(cs: seq<Conversation>, ps: seq<Participant>, uid: Id, i: nat)
    requires i < |cs| && cs[i].IsPrivate() && IsActiveMember(ps, cs[i].id, uid)
    ensures FindPrivateConversationBetweenUsers(cs, ps, uid, uid).Success? ==>
              FindPrivateConversationBetweenUsers(cs, ps, uid, uid).value == Some(cs[i])
    ensures forall j :: i < j < |cs| && cs[j].IsPrivate() && IsActiveMember(ps, cs[j].id, uid) ==>
              FindPrivateConversationBetweenUsers(cs, ps, uid, uid).Failure?
  {
    var p := PrivateWithBoth(ps, uid, uid);
    assert cs[i] in Filter(cs, p);
    forall j | i < j < |cs| && cs[j].IsPrivate() && IsActiveMember(ps, cs[j].id, uid)
      ensures Count(cs, p) > 1
    {
      CountAtLeastTwo(cs, p, i, j);
    }
  }

  /** `findUserConversations`: the conversations the user is active in, each
      once (`DISTINCT`), most recently updated first, one page of them. */
  function FindUserConversations(cs: seq<Conversation>, ps: seq<Participant>, uid: Id, p: Pageable): (r: Page<Conversation>)
    requires p.size >= 1
    ensures forall c :: c in r.content ==> c in cs && IsActiveMember(ps, c.id, uid)
    ensures forall i, j :: 0 <= i < j < |r.content| ==> r.content[i].updatedAt >= r.content[j].updatedAt
    ensures r.totalElements == Count(cs, WithActiveMember(ps, uid))
    ensures r.number == p.page && |r.content| <= p.size
    ensures IsSliceOf(r.content, FindActiveConversationsByUserId(cs, ps, uid), p)
  {
    OrderedPage(cs, WithActiveMember(ps, uid), NewestUpdateFirst, p)
  }

  /** `findActiveConversationsByUserId`: the same conversations, all of them. */
  function FindActiveConversationsByUserId(cs: seq<Conversation>, ps: seq<Participant>, uid: Id): (r: seq<Conversation>)
    ensures forall c :: c in r <==> c in cs && IsActiveMember(ps, c.id, uid)
    ensures forall i, j :: 0 <= i < j < |r| ==> r[i].updatedAt >= r[j].updatedAt
    ensures |r| == Count(cs, WithActiveMember(ps, uid))
  {
    OrderedFilter(cs, WithActiveMember(ps, uid), NewestUpdateFirst)
  }

  /** Paging through `findUserConversations` visits the whole list: the
      `i`-th conversation of `findActiveConversationsByUserId` is entry
      `i % size` of page `i / size`. */
  lemma UserConversationOnItsPage(cs: seq<Conversation>, ps: seq<Participant>, uid: Id, size: nat, i: nat)
    requires size >= 1 && i < Count(cs, WithActiveMember(ps, uid))
    ensures var page := FindUserConversations(cs, ps, uid, Pageable(i / size, size)).content;
      i % size < |page| && page[i % size] == FindActiveConversationsByUserId(cs, ps, uid)[i]
  {
    OrderedPageCoversRow(cs, WithActiveMember(ps, uid), NewestUpdateFirst, size, i);
  }

  /** A user who leaves a conversation no longer finds it among their active
      ones, and other users' views are unchanged. */
  lemma {:induction false} LeavingHidesConversation(cs: seq<Conversation>, ps: seq<Participant>, cid: Id, uid: Id)
    ensures forall c :: c in FindActiveConversationsByUserId(cs, DeactivateParticipant(ps, cid, uid), uid) ==> c.id != cid
    ensures forall other :: other != uid ==>
              FindActiveConversationsByUserId(cs, DeactivateParticipant(ps, cid, uid), other) ==
              FindActiveConversationsByUserId(cs, ps, other)
  {
    var after := DeactivateParticipant(ps, cid, uid);
    forall other | other != uid
      ensures FindActiveConversationsByUserId(cs, after, other) == FindActiveConversationsByUserId(cs, ps, other)
    {
      forall c | c in cs ensures IsActiveMember(after, c.id, other) <==> IsActiveMember(ps, c.id, other) {
        if IsActiveMember(after, c.id, other) {
          var q :| q in after && q.conversationId == c.id && q.userId == other && q.isActive;
          var k :| 0 <= k < |after| && after[k] == q;
          assert ps[k] in ps;
        }
        if IsActiveMember(ps, c.id, other) {
          var q :| q in ps && q.conversationId == c.id && q.userId == other && q.isActive;
          var k :| 0 <= k < |ps| && ps[k] == q;
          assert after[k] in after;
        }
      }
      FilterSameOn(cs, WithActiveMember(after, other), WithActiveMember(ps, other));
    }
  }

  /** `countActiveConversationsByUserId`: the number of conversations the
      user is active in. */
  function CountActiveConversationsByUserId(cs: seq<Conversation>, ps: seq<Participant>, uid: Id): (n: nat)
    ensures n == |FindActiveConversationsByUserId(cs, ps, uid)|
    ensures n <= |cs|
    ensures n == 0 <==> forall i :: 0 <= i < |cs| ==> !IsActiveMember(ps, cs[i].id, uid)
  {
    CountExtremes(cs, WithActiveMember(ps, uid));
    Count(cs, WithActiveMember(ps, uid))
  }

  /** `findByNameContainingIgnoreCase`: GROUP conversations whose name matches
      `%name%` case-insensitively, most recently updated first; a conversation
      without a name never matches. */
  function FindByNameContainingIgnoreCase(cs: seq<Conversation>, name: string): (r: seq<Conversation>)
    ensures forall c :: c in r <==> c in cs && c.IsGroup() && c.name.Some? && LikeContainsIgnoreCase(c.name.value, name)
    ensures forall i, j :: 0 <= i < j < |r| ==> r[i].updatedAt >= r[j].updatedAt
  {
    OrderedFilter(cs, GroupNamed(name), NewestUpdateFirst)
  }

  /** A search text without wildcards finds exactly the groups whose lower-cased
      name contains it; private conversations are never found. */
  lemma GroupNameSearchIsSubstring(cs: seq<Conversation>, name: string, c: Conversation)
    requires NoWildcards(name)
    requires c in cs && c.name.Some?
    ensures c in FindByNameContainingIgnoreCase(cs, name) <==>
              c.IsGroup() && IsSubstring(ToLower(name), ToLower(c.name.value))
  {
    LikeContainsIgnoreCaseIsSubstring(c.name.value, name);
  }

  /** `findByConversationType`: table order. */
  function FindByConversationType(cs: seq<Conversation>, conversationType: string): (r: seq<Conversation>)
    ensures forall c :: c in r <==> c in cs && c.conversationType == conversationType
    ensures multiset(r) <= multiset(cs)
  {
    Filter(cs, OfType(conversationType))
  }

  /** Every conversation is found under its own type only. */
  lemma {:induction false} TypesPartitionTable(cs: seq<Conversation>)
    requires forall c :: c in cs ==> c.IsPrivate() || c.IsGroup()
    ensures |FindByConversationType(cs, PRIVATE)| + |FindByConversationType(cs, GROUP)| == |cs|
  {
    if cs != [] {
      assert forall c :: c in cs[1..] ==> c in cs;
      TypesPartitionTable(cs[1..]);
      assert cs[0] in cs;
    }
  }

  /** `findByCreatedBy`: newest first. */
  function FindByCreatedBy(cs: seq<Conversation>, uid: Id): (r: seq<Conversation>)
    ensures forall c :: c in r <==> c in cs && c.createdBy == uid
    ensures forall i, j :: 0 <= i < j < |r| ==> r[i].createdAt >= r[j].createdAt
  {
    OrderedFilter(cs, CreatedBy(uid), NewestCreatedFirst)
  }

  /** `findRecentConversationsWithMessages`: the conversations the user is
      active in that have at least one message (a deleted one counts), most
      recently updated first, the requested page of them. */
  function FindRecentConversationsWithMessages(cs: seq<Conversation>, ps: seq<Participant>, ms: seq<Message>, uid: Id, p: Pageable): (r: seq<Conversation>)
    requires p.size >= 1
    ensures forall c :: c in r ==> c in cs && IsActiveMember(ps, c.id, uid) && HasMessages(ms, c.id)
    ensures forall i, j :: 0 <= i < j < |r| ==> r[i].updatedAt >= r[j].updatedAt
    ensures |r| <= p.size
    ensures IsSliceOf(r, OrderedFilter(cs, WithActiveMemberAndMessages(ps, ms, uid), NewestUpdateFirst), p)
  {
    OrderedPage(cs, WithActiveMemberAndMessages(ps, ms, uid), NewestUpdateFirst, p).content
  }

  /** Paging through `findRecentConversationsWithMessages` visits every
      conversation of the user that has a message: the `i`-th of them,
      newest update first, is entry `i % size` of page `i / size`. */
  lemma RecentConversationOnItsPage(cs: seq<Conversation>, ps: seq<Participant>, ms: seq<Message>, uid: Id, size: nat, i: nat)
    requires size >= 1 && i < Count(cs, WithActiveMemberAndMessages(ps, ms, uid))
    ensures var page := FindRecentConversationsWithMessages(cs, ps, ms, uid, Pageable(i / size, size));
      i % size < |page| && page[i % size] == OrderedFilter(cs, WithActiveMemberAndMessages(ps, ms, uid), NewestUpdateFirst)[i]
  {
    OrderedPageCoversRow(cs, WithActiveMemberAndMessages(ps, ms, uid), NewestUpdateFirst, size, i);
  }

  /** Deleting a message does not remove its conversation from the list. */
  lemma DeletedMessagesStillCount(cs: seq<Conversation>, ps: seq<Participant>, ms: seq<Message>, uid: Id, m: Message)
    requires m in ms && m.IsDeleted()
    ensures forall c :: c in cs && c.id == m.conversation && IsActiveMember(ps, c.id, uid) ==>
              WithActiveMemberAndMessages(ps, ms, uid)(c)
  {
    forall c | c in cs && c.id == m.conversation && IsActiveMember(ps, c.id, uid)
      ensures WithActiveMemberAndMessages(ps, ms, uid)(c)
    {
      assert m in ms && m.conversation == c.id;
    }
  }
}
