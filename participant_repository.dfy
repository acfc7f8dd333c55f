/** `ConversationParticipantRepository`: the queries over the participant table,
    each a filter (and where asked an ordering) of the stored rows. The three
    UPDATE/DELETE queries carry no `@Modifying`, so Spring runs them as
    selections and refuses them; they are given here as written and as
    evidently intended. */
module ParticipantRepository {
  import opened Common
  import opened Ordering
  import opened Participants
  import opened Conversations

  /** The table's unique (conversation_id, user_id) constraint. */
  predicate UniqueMembership(ps: seq<Participant>) {
    forall i, j :: 0 <= i < j < |ps| ==>
      !(ps[i].conversationId == ps[j].conversationId && ps[i].userId == ps[j].userId)
  }

  // ---------------------------------------------------------------------------
  // WHERE clauses
  // ---------------------------------------------------------------------------

  function InConversation(cid: Id): Participant -> bool {
    (p: Participant) => p.conversationId == cid
  }

  function ActiveInConversation(cid: Id): Participant -> bool {
    (p: Participant) => p.conversationId == cid && p.isActive
  }

  function OfUser(uid: Id): Participant -> bool {
    (p: Participant) => p.userId == uid
  }

  function ActiveOfUser(uid: Id): Participant -> bool {
    (p: Participant) => p.userId == uid && p.isActive
  }

  function KeyIs(cid: Id, uid: Id): Participant -> bool {
    (p: Participant) => p.conversationId == cid && p.userId == uid
  }

  function ActiveKeyIs(cid: Id, uid: Id): Participant -> bool {
    (p: Participant) => p.conversationId == cid && p.userId == uid && p.isActive
  }

  function OthersActiveIn(cid: Id, excludeUserId: Id): Participant -> bool {
    (p: Participant) => p.conversationId == cid && p.userId != excludeUserId && p.isActive
  }

  function ActiveJoinedAfter(cid: Id, afterTime: Time): Participant -> bool {
    (p: Participant) => p.conversationId == cid && p.joinedAt > afterTime && p.isActive
  }

  // ---------------------------------------------------------------------------
  // Queries
  // ---------------------------------------------------------------------------

  /** `findByConversationId`: every row of the conversation, active or not. */
  function FindByConversationId(ps: seq<Participant>, cid: Id): (r: seq<Participant>)
    ensures forall p :: p in r <==> p in ps && p.conversationId == cid
    ensures multiset(r) <= multiset(ps)
  {
    Filter(ps, InConversation(cid))
  }

  /** `findByConversationIdAndIsActiveTrue`: the active rows of the conversation,
      a part of `findByConversationId`. */
  function FindByConversationIdAndIsActiveTrue(ps: seq<Participant>, cid: Id): (r: seq<Participant>)
    ensures forall p :: p in r <==> p in ps && p.conversationId == cid && p.isActive
    ensures forall p :: p in r ==> p in FindByConversationId(ps, cid)
    ensures multiset(r) <= multiset(ps)
  {
    Filter(ps, ActiveInConversation(cid))
  }

  /** `findByUserId`. */
  function FindByUserId(ps: seq<Participant>, uid: Id): (r: seq<Participant>)
    ensures forall p :: p in r <==> p in ps && p.userId == uid
  {
    Filter(ps, OfUser(uid))
  }

  /** `findByUserIdAndIsActiveTrue`. */
  function FindByUserIdAndIsActiveTrue(ps: seq<Participant>, uid: Id): (r: seq<Participant>)
    ensures forall p :: p in r <==> p in ps && p.userId == uid && p.isActive
  {
    Filter(ps, ActiveOfUser(uid))
  }

  /** `findByConversationIdAndUserId`: the row of that user in that conversation,
      whatever its active flag; more than one row is an error. */
  function FindByConversationIdAndUserId(ps: seq<Participant>, cid: Id, uid: Id): (r: Result<Option<Participant>>)
    ensures r.Success? && r.value.Some? ==>
              r.value.value in ps && r.value.value.conversationId == cid && r.value.value.userId == uid
    ensures r.Success? && r.value.None? ==>
              forall p :: p in ps ==> !(p.conversationId == cid && p.userId == uid)
    ensures UniqueMembership(ps) ==> r.Success?
  {
    var rows := Filter(ps, KeyIs(cid, uid));
    assert UniqueMembership(ps) ==> |rows| <= 1 by {
      if UniqueMembership(ps) { AtMostOneRow(ps, cid, uid); }
    }
    assert rows != [] ==> rows[0] in rows;
    SingleResult(rows)
  }

  /** Under the unique constraint a (conversation, user) key selects at most one row. */
  lemma {:induction false} AtMostOneRow(ps: seq<Participant>, cid: Id, uid: Id)
    requires UniqueMembership(ps)
    ensures |Filter(ps, KeyIs(cid, uid))| <= 1
  {
    if ps != [] {
      var tail := ps[1..];
      assert UniqueMembership(tail) by {
        forall i, j | 0 <= i < j < |tail|
          ensures !(tail[i].conversationId == tail[j].conversationId && tail[i].userId == tail[j].userId)
        {
          assert tail[i] == ps[i + 1] && tail[j] == ps[j + 1];
        }
      }
      AtMostOneRow(tail, cid, uid);
      if KeyIs(cid, uid)(ps[0]) {
        forall k | 0 <= k < |tail| ensures !KeyIs(cid, uid)(tail[k]) {
          assert tail[k] == ps[k + 1];
        }
        CountExtremes(tail, KeyIs(cid, uid));
      }
    }
  }

  /** `existsByConversationIdAndUserId`: the JPQL counts ACTIVE rows only. */
  predicate ExistsByConversationIdAndUserId(ps: seq<Participant>, cid: Id, uid: Id) {
    Count(ps, ActiveKeyIs(cid, uid)) > 0
  }

  /** An existing row is reported only when it is active, and an active row
      always is. */
  lemma {:induction false} ExistsMeansActiveRow(ps: seq<Participant>, cid: Id, uid: Id)
    ensures ExistsByConversationIdAndUserId(ps, cid, uid) <==>
              exists i :: 0 <= i < |ps| && ps[i].conversationId == cid && ps[i].userId == uid && ps[i].isActive
  {
    CountExtremes(ps, ActiveKeyIs(cid, uid));
  }

  /** A row that `findByConversationIdAndUserId` returns but that is inactive is
      invisible to `existsByConversationIdAndUserId`. */
  lemma FindSeesInactiveExistsDoesNot(ps: seq<Participant>, cid: Id, uid: Id)
    requires UniqueMembership(ps)
    requires exists i :: 0 <= i < |ps| && ps[i].conversationId == cid && ps[i].userId == uid && !ps[i].isActive
    ensures FindByConversationIdAndUserId(ps, cid, uid).Success?
    ensures FindByConversationIdAndUserId(ps, cid, uid).value.Some?
    ensures !FindByConversationIdAndUserId(ps, cid, uid).value.value.isActive
    ensures !ExistsByConversationIdAndUserId(ps, cid, uid)
  {
    var i :| 0 <= i < |ps| && ps[i].conversationId == cid && ps[i].userId == uid && !ps[i].isActive;
    var r := FindByConversationIdAndUserId(ps, cid, uid);
    assert ps[i] in ps;
    ExistsMeansActiveRow(ps, cid, uid);
  }

  /** `countActiveParticipants`: the size of `findByConversationIdAndIsActiveTrue`,
      never more than all rows of the conversation. */
  function CountActiveParticipants(ps: seq<Participant>, cid: Id): (n: nat)
    ensures n == |FindByConversationIdAndIsActiveTrue(ps, cid)|
    ensures n <= |FindByConversationId(ps, cid)|
  {
    CountMonotone(ps, InConversation(cid), ActiveInConversation(cid));
    Count(ps, ActiveInConversation(cid))
  }

  /** `findOtherParticipants`: active rows of the conversation except the given user. */
  function FindOtherParticipants(ps: seq<Participant>, cid: Id, excludeUserId: Id): (r: seq<Participant>)
    ensures forall p :: p in r <==> p in ps && p.conversationId == cid && p.userId != excludeUserId && p.isActive
    ensures forall p :: p in r ==> p in FindByConversationIdAndIsActiveTrue(ps, cid)
  {
    Filter(ps, OthersActiveIn(cid, excludeUserId))
  }

  function JoinedDescending(p: Participant): int { -p.joinedAt }

  /** `findParticipantsJoinedAfter`: active rows that joined strictly after the
      given time, newest first. */
  function FindParticipantsJoinedAfter(ps: seq<Participant>, cid: Id, afterTime: Time): (r: seq<Participant>)
    ensures forall p :: p in r <==> p in ps && p.conversationId == cid && p.joinedAt > afterTime && p.isActive
    ensures forall i, j :: 0 <= i < j < |r| ==> r[i].joinedAt >= r[j].joinedAt
    ensures multiset(r) <= multiset(ps)
  {
    OrderedFilter(ps, ActiveJoinedAfter(cid, afterTime), JoinedDescending)
  }

  /** The `updatedAt` of the conversation a row belongs to (the implicit inner
      join of `cp.conversation`), `None` when that conversation is not stored. */
  function ConversationUpdatedAt(cs: seq<Conversation>, cid: Id): (r: Option<Time>)
    ensures r.Some? ==> exists c :: c in cs && c.id == cid && c.updatedAt == r.value
    ensures r.None? ==> forall c :: c in cs ==> c.id != cid
  {
    if cs == [] then None
    else if cs[0].id == cid then Some(cs[0].updatedAt)
    else ConversationUpdatedAt(cs[1..], cid)
  }

  function ActiveOfUserJoined(cs: seq<Conversation>, uid: Id): Participant -> bool {
    (p: Participant) => p.userId == uid && p.isActive && ConversationUpdatedAt(cs, p.conversationId).Some?
  }

  function ByConversationRecency(cs: seq<Conversation>): Participant -> int {
    (p: Participant) => -ConversationUpdatedAt(cs, p.conversationId).GetOr(0)
  }

  /** `findUsersMostActiveConversations`: the user's active rows, the row of the
      most recently updated conversation first. */
  function FindUsersMostActiveConversations(ps: seq<Participant>, cs: seq<Conversation>, uid: Id): (r: seq<Participant>)
    ensures forall p :: p in r <==> p in ps && p.userId == uid && p.isActive && ConversationUpdatedAt(cs, p.conversationId).Some?
    ensures forall i, j :: 0 <= i < j < |r| ==>
              ConversationUpdatedAt(cs, r[i].conversationId).GetOr(0) >= ConversationUpdatedAt(cs, r[j].conversationId).GetOr(0)
  {
    OrderedFilter(ps, ActiveOfUserJoined(cs, uid), ByConversationRecency(cs))
  }

  // ---------------------------------------------------------------------------
  // The UPDATE and DELETE queries
  // ---------------------------------------------------------------------------

  /** The error Spring raises for an UPDATE/DELETE `@Query` without `@Modifying`. */
  const NOT_A_SELECTION := Error(InvalidDataAccess, "Not supported for DML operations")

  /** `deactivateParticipant` as written: without `@Modifying` the query is run
      as a selection and refused; the table is left as it was. */
  function DeactivateParticipantAsWritten(ps: seq<Participant>, cid: Id, uid: Id): (r: Result<seq<Participant>>)
    ensures r.Failure? && r.error.kind == InvalidDataAccess
  {
    Failure(NOT_A_SELECTION)
  }

  /** `reactivateParticipant` as written: refused the same way. */
  function ReactivateParticipantAsWritten(ps: seq<Participant>, cid: Id, uid: Id): (r: Result<seq<Participant>>)
    ensures r.Failure? && r.error.kind == InvalidDataAccess
  {
    Failure(NOT_A_SELECTION)
  }

  /** `deleteParticipant` as written: refused the same way. */
  function DeleteParticipantAsWritten(ps: seq<Participant>, cid: Id, uid: Id): (r: Result<seq<Participant>>)
    ensures r.Failure? && r.error.kind == InvalidDataAccess
  {
    Failure(NOT_A_SELECTION)
  }

  /** `UPDATE ... SET cp.isActive = :flag WHERE` key: the matching rows get the
      flag and nothing else changes. */
  function SetActive(ps: seq<Participant>, cid: Id, uid: Id, flag: bool): (r: seq<Participant>)
    ensures |r| == |ps|
    ensures forall i :: 0 <= i < |ps| ==>
              r[i] == if ps[i].conversationId == cid && ps[i].userId == uid then ps[i].(isActive := flag) else ps[i]
  {
    seq(|ps|, i requires 0 <= i < |ps| =>
      if ps[i].conversationId == cid && ps[i].userId == uid then ps[i].(isActive := flag) else ps[i])
  }

  /** `deactivateParticipant` with `@Modifying`: clears the active flag of the row. */
  function DeactivateParticipant(ps: seq<Participant>, cid: Id, uid: Id): (r: seq<Participant>)
    ensures |r| == |ps|
    ensures forall i :: 0 <= i < |ps| && ps[i].conversationId == cid && ps[i].userId == uid ==>
              !r[i].isActive && r[i].leftAt == ps[i].leftAt && r[i].(isActive := ps[i].isActive) == ps[i]
    ensures forall i :: 0 <= i < |ps| && !(ps[i].conversationId == cid && ps[i].userId == uid) ==> r[i] == ps[i]
  {
    SetActive(ps, cid, uid, false)
  }

  /** `reactivateParticipant` with `@Modifying`: sets the active flag of the row,
      keeping `leftAt` and `joinedAt` (unlike `rejoin`). */
  function ReactivateParticipant(ps: seq<Participant>, cid: Id, uid: Id): (r: seq<Participant>)
    ensures |r| == |ps|
    ensures forall i :: 0 <= i < |ps| && ps[i].conversationId == cid && ps[i].userId == uid ==>
              r[i].isActive && r[i].leftAt == ps[i].leftAt && r[i].joinedAt == ps[i].joinedAt
              && r[i] == ps[i].(isActive := true)
    ensures forall i :: 0 <= i < |ps| && !(ps[i].conversationId == cid && ps[i].userId == uid) ==> r[i] == ps[i]
  {
    SetActive(ps, cid, uid, true)
  }

  function NotKey(cid: Id, uid: Id): Participant -> bool {
    (p: Participant) => !(p.conversationId == cid && p.userId == uid)
  }

  /** `deleteParticipant` with `@Modifying`: removes the row for good. */
  function DeleteParticipant(ps: seq<Participant>, cid: Id, uid: Id): (r: seq<Participant>)
    ensures forall p :: p in r <==> p in ps && !(p.conversationId == cid && p.userId == uid)
    ensures multiset(r) <= multiset(ps)
  {
    Filter(ps, NotKey(cid, uid))
  }

  /** As written, the three DML queries change nothing even when the row exists;
      with `@Modifying` the same calls deactivate, reactivate and delete it. */
  lemma DmlAsWrittenIsRefused(ps: seq<Participant>, i: nat)
    requires i < |ps| && ps[i].isActive
    ensures var p := ps[i];
      && DeactivateParticipantAsWritten(ps, p.conversationId, p.userId).Failure?
      && ReactivateParticipantAsWritten(ps, p.conversationId, p.userId).Failure?
      && DeleteParticipantAsWritten(ps, p.conversationId, p.userId).Failure?
      && !DeactivateParticipant(ps, p.conversationId, p.userId)[i].isActive
      && ReactivateParticipant(DeactivateParticipant(ps, p.conversationId, p.userId), p.conversationId, p.userId)[i] == p
      && p !in DeleteParticipant(ps, p.conversationId, p.userId)
  {
  }

  /** Deactivating through the repository differs from `leave()`: it leaves the
      row's `leftAt` as it was. */
  lemma DeactivateDiffersFromLeave(ps: seq<Participant>, i: nat, now: Time)
    requires i < |ps| && ps[i].leftAt.None?
    ensures DeactivateParticipant(ps, ps[i].conversationId, ps[i].userId)[i].leftAt.None?
    ensures ps[i].Leave(now).leftAt == Some(now)
  {
  }
}
