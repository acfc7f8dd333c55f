/** `GroupService`: creating a group conversation and administering its
    members. The class is `@Transactional`, so a call that throws leaves the
    database as it found it. */
module GroupService {
  import opened Common
  import opened Ordering
  import opened Participants
  import opened Conversations
  import opened ParticipantRepository
  import opened UserRepository
  import opened Store
  import opened CreateGroupRequests

  const USERS_NOT_FOUND := "One or more users not found"
  const GROUP_NOT_FOUND := "Group conversation not found"
  const CANNOT_ADD := "User does not have permission to add participants"
  const CANNOT_REMOVE := "User does not have permission to remove participants"
  const USER_TO_ADD_NOT_FOUND := "User to add not found"
  const ALREADY_MEMBER := "User is already a member of this group"
  const NOT_IN_GROUP := "Participant not found in this group"

  // ---------------------------------------------------------------------------
  // createGroup
  // ---------------------------------------------------------------------------

  /** The ids the existence check counts: the members, then the creator. */
  function AllUserIds(req: CreateGroupRequest): seq<Id>
    requires req.creatorId.Some? && req.memberIds.Some?
  {
    req.memberIds.value + [req.creatorId.value]
  }

  /** The conversation `createGroup` saves. */
  function GroupOf(t: Tables, req: CreateGroupRequest, now: Time): Conversation
    requires req.creatorId.Some?
  {
    NewConversation(GROUP, req.name, req.creatorId.value, now).(id := t.nextConversationId)
  }

  /** The MEMBER rows for the first `k` listed members, ids from `base` on. */
  function MemberRows(cid: Id, members: seq<Id>, k: nat, now: Time, base: Id): (r: seq<Participant>)
    requires k <= |members|
    ensures |r| == k
    ensures forall i :: 0 <= i < k ==> r[i] == NewParticipant(cid, members[i], MEMBER, now).(id := base + i)
  {
    seq(k, i requires 0 <= i < k => NewParticipant(cid, members[i], MEMBER, now).(id := base + i))
  }

  /** The rows inserted once the ADMIN row and `k` MEMBER rows are saved. */
  function GroupRows(t: Tables, req: CreateGroupRequest, now: Time, k: nat): seq<Participant>
    requires req.creatorId.Some? && req.memberIds.Some? && k <= |req.memberIds.value|
  {
    var cid := t.nextConversationId;
    [NewParticipant(cid, req.creatorId.value, ADMIN, now).(id := t.nextParticipantId)]
    + MemberRows(cid, req.memberIds.value, k, now, t.nextParticipantId + 1)
  }

  /** The tables once the group and `k` of its members are saved. */
  function CreatingGroup(t: Tables, req: CreateGroupRequest, now: Time, k: nat): Tables
    requires req.creatorId.Some? && req.memberIds.Some? && k <= |req.memberIds.value|
  {
    t.(conversations := t.conversations + [GroupOf(t, req, now)],
       nextConversationId := t.nextConversationId + 1,
       participants := t.participants + GroupRows(t, req, now, k),
       nextParticipantId := t.nextParticipantId + 1 + k)
  }

  /** The tables after a successful `createGroup`. */
  function CreatedGroup(t: Tables, req: CreateGroupRequest, now: Time): Tables
    requires req.creatorId.Some? && req.memberIds.Some?
  {
    CreatingGroup(t, req, now, |req.memberIds.value|)
  }

  /** The existence check passes exactly when every member and the creator is
      a stored user and no id is listed twice; so a creator who also appears
      among the members makes the call fail. */
  lemma CreateGroupCheck(t: Tables, req: CreateGroupRequest)
    requires t.Valid() && req.creatorId.Some? && req.memberIds.Some?
    ensures var ids := AllUserIds(req);
      CountByIdIn(t.users, ids) == |ids| <==>
        (forall i, j :: 0 <= i < j < |ids| ==> ids[i] != ids[j])
        && (forall k :: 0 <= k < |ids| ==> t.FindUserById(ids[k]).Some?)
    ensures req.creatorId.value in req.memberIds.value ==>
              CountByIdIn(t.users, AllUserIds(req)) < |AllUserIds(req)|
  {
    var ids := AllUserIds(req);
    CountByIdInMatchesLength(t.users, ids);
    forall k | 0 <= k < |ids| ensures (exists u :: u in t.users && u.id == ids[k]) <==> t.FindUserById(ids[k]).Some? {
      if t.FindUserById(ids[k]).None? {
        assert forall u :: u in t.users ==> u.id != ids[k];
      }
    }
    if req.creatorId.value in req.memberIds.value {
      var i :| 0 <= i < |req.memberIds.value| && req.memberIds.value[i] == req.creatorId.value;
      RepeatedIdFallsShort(t.users, ids, i, |ids| - 1);
    }
  }

  /** The ids are distinct, so neither the creator nor a member collides with
      a row saved before it. */
  lemma GroupKeysUnused(t: Tables, req: CreateGroupRequest, now: Time, k: nat)
    requires t.Valid() && req.creatorId.Some? && req.memberIds.Some?
    requires ListedOnce(req) && k < |req.memberIds.value|
    ensures Count(t.participants, KeyIs(t.nextConversationId, req.creatorId.value)) == 0
    ensures Count(t.participants + GroupRows(t, req, now, k), KeyIs(t.nextConversationId, req.memberIds.value[k])) == 0
  {
    var cid := t.nextConversationId;
    var members := req.memberIds.value;
    var ids := AllUserIds(req);
    NewConversationHasNoRows(t, req.creatorId.value);
    var ps := t.participants + GroupRows(t, req, now, k);
    forall i | 0 <= i < |ps| ensures !KeyIs(cid, members[k])(ps[i]) {
      if i == |t.participants| {
        assert ids[k] == members[k] && ids[|ids| - 1] == req.creatorId.value;
      } else if i > |t.participants| {
        var j := i - |t.participants| - 1;
        assert ps[i] == MemberRows(cid, members, k, now, t.nextParticipantId + 1)[j];
        assert ids[j] == members[j] && ids[k] == members[k];
      }
    }
    CountExtremes(ps, KeyIs(cid, members[k]));
  }

  /** No row refers to the conversation id the counter hands out next. */
  lemma NewConversationHasNoRows(t: Tables, uid: Id)
    requires forall i :: 0 <= i < |t.participants| ==> t.participants[i].conversationId < t.nextConversationId
    ensures Count(t.participants, KeyIs(t.nextConversationId, uid)) == 0
  {
    CountNone(t.participants, KeyIs(t.nextConversationId, uid));
  }

  /** The state after the conversation and the ADMIN row are saved. */
  lemma CreatingGroupStart(t: Tables, req: CreateGroupRequest, now: Time)
    requires req.creatorId.Some? && req.memberIds.Some?
    ensures CreatingGroup(t, req, now, 0) ==
              t.(conversations := t.conversations + [GroupOf(t, req, now)],
                 nextConversationId := t.nextConversationId + 1,
                 participants := t.participants + [NewParticipant(t.nextConversationId, req.creatorId.value, ADMIN, now).(id := t.nextParticipantId)],
                 nextParticipantId := t.nextParticipantId + 1)
  {
    assert MemberRows(t.nextConversationId, req.memberIds.value, 0, now, t.nextParticipantId + 1) == [];
  }

  /** Saving the next member's row moves from `k` to `k + 1` saved members. */
  lemma CreatingGroupStep(t: Tables, req: CreateGroupRequest, now: Time, k: nat)
    requires req.creatorId.Some? && req.memberIds.Some? && k < |req.memberIds.value|
    ensures var s := CreatingGroup(t, req, now, k);
      CreatingGroup(t, req, now, k + 1) ==
        s.(participants := s.participants + [NewParticipant(t.nextConversationId, req.memberIds.value[k], MEMBER, now).(id := s.nextParticipantId)],
           nextParticipantId := s.nextParticipantId + 1)
  {
    var cid := t.nextConversationId;
    var members := req.memberIds.value;
    var base := t.nextParticipantId + 1;
    var row := NewParticipant(cid, members[k], MEMBER, now).(id := base + k);
    assert MemberRows(cid, members, k + 1, now, base) == MemberRows(cid, members, k, now, base) + [row];
    assert GroupRows(t, req, now, k + 1) == GroupRows(t, req, now, k) + [row];
  }

  /** While the members are saved, the new group is found by its id. */
  lemma GroupStored(t: Tables, req: CreateGroupRequest, now: Time, k: nat)
    requires req.creatorId.Some? && req.memberIds.Some? && k <= |req.memberIds.value|
    requires CreatingGroup(t, req, now, k).Valid()
    ensures CreatingGroup(t, req, now, k).FindConversationById(t.nextConversationId) == Some(GroupOf(t, req, now))
  {
    FindByIdFindsRow(CreatingGroup(t, req, now, k).conversations, IdOfConversation, |t.conversations|);
  }

  /** No id appears twice among the members and the creator. */
  predicate ListedOnce(req: CreateGroupRequest)
    requires req.creatorId.Some? && req.memberIds.Some?
  {
    var ids := AllUserIds(req);
    forall i, j :: 0 <= i < j < |ids| ==> ids[i] != ids[j]
  }

  /** Saves the GROUP conversation and the creator's ADMIN row. */
  method SaveGroupHead(db: Database, req: CreateGroupRequest, now: Time) returns (group: Conversation)
    requires db.State().Valid() && req.creatorId.Some? && req.memberIds.Some? && ListedOnce(req)
    modifies db
    ensures db.State().Valid()
    ensures group == GroupOf(old(db.State()), req, now)
    ensures db.State() == CreatingGroup(old(db.State()), req, now, 0)
  {
    ghost var t := db.State();
    var creator := req.creatorId.value;
    group := db.InsertConversation(NewConversation(GROUP, req.name, creator, now), now);
    FindAppended(t.conversations, IdOfConversation, group);
    NewConversationHasNoRows(t, creator);
    var admin := db.InsertParticipant(NewParticipant(group.id, creator, ADMIN, now), now);
    assert admin.Success?;
    CreatingGroupStart(t, req, now);
  }

  /** The member loop: one MEMBER row per listed member, in list order. */
  method SaveGroupMembers(db: Database, ghost t: Tables, req: CreateGroupRequest, group: Conversation, now: Time)
    requires t.Valid() && req.creatorId.Some? && req.memberIds.Some? && ListedOnce(req)
    requires group == GroupOf(t, req, now)
    requires db.State().Valid() && db.State() == CreatingGroup(t, req, now, 0)
    modifies db
    ensures db.State().Valid()
    ensures db.State() == CreatedGroup(t, req, now)
  {
    var members := req.memberIds.value;
    var k := 0;
    while k < |members|
      invariant 0 <= k <= |members|
      invariant db.State().Valid()
      invariant db.State() == CreatingGroup(t, req, now, k)
    {
      GroupKeysUnused(t, req, now, k);
      GroupStored(t, req, now, k);
      var row := db.InsertParticipant(NewParticipant(group.id, members[k], MEMBER, now), now);
      assert row.Success?;
      CreatingGroupStep(t, req, now, k);
      k := k + 1;
    }
  }

  /** `createGroup(request)`: checks that every listed user exists, saves the
      GROUP conversation, the creator's ADMIN row and one MEMBER row per
      member, in that order, and returns the saved conversation. */
  method CreateGroup(db: Database, req: CreateGroupRequest, now: Time) returns (r: Result<Conversation>)
    requires db.State().Valid() && req.creatorId.Some? && req.memberIds.Some?
    modifies db
    ensures db.State().Valid()
    ensures r.Success? <==> CountByIdIn(old(db.users), AllUserIds(req)) == |AllUserIds(req)|
    ensures r.Failure? ==> r.error == Error(RuntimeError, USERS_NOT_FOUND) && db.State() == old(db.State())
    ensures r.Success? ==> r.value == GroupOf(old(db.State()), req, now) && db.State() == CreatedGroup(old(db.State()), req, now)
    ensures r.Success? ==> IsGroupConversation(db.State(), r.value.id) && MayAdminister(db.State(), r.value.id, req.creatorId.value)
  {
    var ids := AllUserIds(req);
    if CountByIdIn(db.users, ids) != |ids| {
      return Failure(Error(RuntimeError, USERS_NOT_FOUND));
    }
    ghost var t := db.State();
    CountByIdInMatchesLength(db.users, ids);
    var group := SaveGroupHead(db, req, now);
    SaveGroupMembers(db, t, req, group, now);
    CreatorAdministers(t, req, now);
    r := Success(group);
  }

  /** The saved conversation is a group and its creator passes the
      permission gate of `addParticipant` and `removeParticipant`. */
  lemma CreatorAdministers(t: Tables, req: CreateGroupRequest, now: Time)
    requires IdsDistinct(t.conversations, IdOfConversation)
    requires IdsBelow(t.conversations, IdOfConversation, t.nextConversationId)
    requires req.creatorId.Some? && req.memberIds.Some?
    requires UniqueMembership(CreatedGroup(t, req, now).participants)
    ensures IsGroupConversation(CreatedGroup(t, req, now), t.nextConversationId)
    ensures MayAdminister(CreatedGroup(t, req, now), t.nextConversationId, req.creatorId.value)
  {
    var t2 := CreatedGroup(t, req, now);
    FindAppended(t.conversations, IdOfConversation, GroupOf(t, req, now));
    assert t2.participants[|t.participants|] == GroupRows(t, req, now, |req.memberIds.value|)[0];
    FoundRowIsTheRow(t2.participants, t.nextConversationId, req.creatorId.value, |t.participants|);
  }

  /** A new group has an active ADMIN row for the creator, an active MEMBER row
      for each member, and as many active participants as listed users. */
  lemma CreatedGroupMembers(t: Tables, req: CreateGroupRequest, now: Time)
    requires t.Valid() && req.creatorId.Some? && req.memberIds.Some?
    requires CountByIdIn(t.users, AllUserIds(req)) == |AllUserIds(req)|
    ensures CreatedGroup(t, req, now).FindConversationById(t.nextConversationId) == Some(GroupOf(t, req, now))
    ensures GroupOf(t, req, now).IsGroup() && GroupOf(t, req, now).name == req.name
    ensures GroupOf(t, req, now).createdBy == req.creatorId.value
    ensures exists p :: p in CreatedGroup(t, req, now).participants && p.conversationId == t.nextConversationId
                        && p.userId == req.creatorId.value && p.isActive && p.IsAdmin()
    ensures forall m :: m in req.memberIds.value ==>
              exists p :: p in CreatedGroup(t, req, now).participants && p.conversationId == t.nextConversationId
                          && p.userId == m && p.isActive && p.IsMember()
    ensures CountActiveParticipants(CreatedGroup(t, req, now).participants, t.nextConversationId) == |AllUserIds(req)|
  {
    FindAppended(t.conversations, IdOfConversation, GroupOf(t, req, now));
    CreatedGroupRows(t, req, now);
    CreatedGroupCount(t, req, now);
  }

  /** The creator's ADMIN row and each member's MEMBER row are stored. */
  lemma CreatedGroupRows(t: Tables, req: CreateGroupRequest, now: Time)
    requires req.creatorId.Some? && req.memberIds.Some?
    ensures exists p :: p in CreatedGroup(t, req, now).participants && p.conversationId == t.nextConversationId
                        && p.userId == req.creatorId.value && p.isActive && p.IsAdmin()
    ensures forall m :: m in req.memberIds.value ==>
              exists p :: p in CreatedGroup(t, req, now).participants && p.conversationId == t.nextConversationId
                          && p.userId == m && p.isActive && p.IsMember()
  {
    var ps := CreatedGroup(t, req, now).participants;
    var rows := GroupRows(t, req, now, |req.memberIds.value|);
    assert ps == t.participants + rows;
    assert rows[0] in ps;
    forall m | m in req.memberIds.value
      ensures exists p :: p in ps && p.conversationId == t.nextConversationId && p.userId == m && p.isActive && p.IsMember()
    {
      var i :| 0 <= i < |req.memberIds.value| && req.memberIds.value[i] == m;
      assert rows[i + 1] in ps;
    }
  }

  /** The new group has as many active participants as listed users. */
  lemma CreatedGroupCount(t: Tables, req: CreateGroupRequest, now: Time)
    requires t.Valid() && req.creatorId.Some? && req.memberIds.Some?
    ensures CountActiveParticipants(CreatedGroup(t, req, now).participants, t.nextConversationId) == |AllUserIds(req)|
  {
    var cid := t.nextConversationId;
    var rows := GroupRows(t, req, now, |req.memberIds.value|);
    assert CreatedGroup(t, req, now).participants == t.participants + rows;
    CountConcat(t.participants, rows, ActiveInConversation(cid));
    CountNone(t.participants, ActiveInConversation(cid));
    CountAll(rows, ActiveInConversation(cid));
  }

  // ---------------------------------------------------------------------------
  // The gates of addParticipant and removeParticipant
  // ---------------------------------------------------------------------------

  /** `findById(id).filter(Conversation::isGroup)` is present. */
  predicate IsGroupConversation(t: Tables, cid: Id) {
    t.FindConversationById(cid).Some? && t.FindConversationById(cid).value.IsGroup()
  }

  /** The permission gate: the requesting user's row, looked up whatever its
      flag, must be active and have role exactly ADMIN. */
  predicate MayAdminister(t: Tables, cid: Id, uid: Id)
    requires UniqueMembership(t.participants)
  {
    var found := FindByConversationIdAndUserId(t.participants, cid, uid);
    found.value.Some? && found.value.value.isActive && found.value.value.IsAdmin()
  }

  /** Under the unique key, the row the lookup returns is the one row with that key. */
  lemma FoundRowIsTheRow(ps: seq<Participant>, cid: Id, uid: Id, i: nat)
    requires UniqueMembership(ps) && i < |ps|
    requires ps[i].conversationId == cid && ps[i].userId == uid
    ensures FindByConversationIdAndUserId(ps, cid, uid) == Success(Some(ps[i]))
  {
    var found := FindByConversationIdAndUserId(ps, cid, uid);
    assert ps[i] in ps;
    var p := found.value.value;
    var j :| 0 <= j < |ps| && ps[j] == p;
    assert !(i < j) && !(j < i);
  }

  /** Under the unique key, the row the lookup returns is an active one
      exactly when `existsByConversationIdAndUserId` reports the key. */
  lemma FoundRowActiveIffExists(ps: seq<Participant>, cid: Id, uid: Id)
    requires UniqueMembership(ps)
    ensures var found := FindByConversationIdAndUserId(ps, cid, uid).value;
      found.Some? && found.value.isActive <==> ExistsByConversationIdAndUserId(ps, cid, uid)
  {
    ExistsMeansActiveRow(ps, cid, uid);
    if ExistsByConversationIdAndUserId(ps, cid, uid) {
      var i :| 0 <= i < |ps| && ps[i].conversationId == cid && ps[i].userId == uid && ps[i].isActive;
      FoundRowIsTheRow(ps, cid, uid, i);
    }
  }

  /** The gate admits exactly the users with an active ADMIN row in the conversation. */
  lemma GateIsActiveAdminRow(t: Tables, cid: Id, uid: Id)
    requires UniqueMembership(t.participants)
    ensures MayAdminister(t, cid, uid) <==>
              exists i :: 0 <= i < |t.participants| && t.participants[i].conversationId == cid
                          && t.participants[i].userId == uid && t.participants[i].isActive && t.participants[i].role == ADMIN
  {
    var found := FindByConversationIdAndUserId(t.participants, cid, uid);
    if found.value.Some? {
      var j :| 0 <= j < |t.participants| && t.participants[j] == found.value.value;
      FoundRowIsTheRow(t.participants, cid, uid, j);
    }
  }

  /** A MODERATOR, or an ADMIN who has left, is refused by the gate. */
  lemma ModeratorOrFormerAdminRefused(t: Tables, cid: Id, uid: Id, i: nat)
    requires t.Valid() && i < |t.participants|
    requires t.participants[i].conversationId == cid && t.participants[i].userId == uid
    requires t.participants[i].role == MODERATOR || !t.participants[i].isActive
    ensures !MayAdminister(t, cid, uid)
  {
    FoundRowIsTheRow(t.participants, cid, uid, i);
  }

  // ---------------------------------------------------------------------------
  // addParticipant
  // ---------------------------------------------------------------------------

  /** The row `addParticipant` inserts. */
  function AddedRow(t: Tables, cid: Id, uid: Id, now: Time): Participant {
    NewParticipant(cid, uid, MEMBER, now).(id := t.nextParticipantId)
  }

  /** The tables after a successful `addParticipant`: one new MEMBER row and
      the conversation's `updatedAt` re-stamped. */
  function Added(t: Tables, cid: Id, uid: Id, now: Time): Tables
    requires IsGroupConversation(t, cid)
  {
    t.(participants := t.participants + [AddedRow(t, cid, uid, now)],
       nextParticipantId := t.nextParticipantId + 1,
       conversations := ReplaceById(t.conversations, IdOfConversation, t.FindConversationById(cid).value.(updatedAt := now)))
  }

  /** `addParticipant` (conversationId, userIdToAdd, requestingUserId): the answer, given
      the tables it starts from, with its checks in their order. The last
      failure is the unique key refusing a second row for a user whose earlier
      row was deactivated: the duplicate check sees active rows only. */
  function AddOutcome(t: Tables, cid: Id, uid: Id, requester: Id): Result<()>
    requires t.Valid()
  {
    if !IsGroupConversation(t, cid) then Failure(Error(RuntimeError, GROUP_NOT_FOUND))
    else if !MayAdminister(t, cid, requester) then Failure(Error(Security, CANNOT_ADD))
    else if t.FindUserById(uid).None? then Failure(Error(RuntimeError, USER_TO_ADD_NOT_FOUND))
    else if ExistsByConversationIdAndUserId(t.participants, cid, uid) then Failure(Error(RuntimeError, ALREADY_MEMBER))
    else if Count(t.participants, KeyIs(cid, uid)) > 0 then Failure(Error(ConstraintViolation, CONSTRAINT_VIOLATED))
    else Success(())
  }

  /** `addParticipant`: the transaction either fails and changes nothing, or
      adds the MEMBER row and re-stamps the group. */
  method AddParticipant(db: Database, cid: Id, userIdToAdd: Id, requestingUserId: Id, now: Time) returns (r: Result<()>)
    requires db.State().Valid()
    modifies db
    ensures db.State().Valid()
    ensures r == AddOutcome(old(db.State()), cid, userIdToAdd, requestingUserId)
    ensures db.State() == if r.Success? then Added(old(db.State()), cid, userIdToAdd, now) else old(db.State())
  {
    var conversation := db.State().FindConversationById(cid);
    if conversation.None? || !conversation.value.IsGroup() {
      return Failure(Error(RuntimeError, GROUP_NOT_FOUND));
    }
    var requester := FindByConversationIdAndUserId(db.participants, cid, requestingUserId).value;
    if requester.None? || !(requester.value.isActive && requester.value.IsAdmin()) {
      return Failure(Error(Security, CANNOT_ADD));
    }
    if db.State().FindUserById(userIdToAdd).None? {
      return Failure(Error(RuntimeError, USER_TO_ADD_NOT_FOUND));
    }
    if ExistsByConversationIdAndUserId(db.participants, cid, userIdToAdd) {
      return Failure(Error(RuntimeError, ALREADY_MEMBER));
    }
    var saved := db.InsertParticipant(NewParticipant(cid, userIdToAdd, MEMBER, now), now);
    if saved.Failure? {
      return Failure(saved.error);
    }
    var stored := db.UpdateConversation(conversation.value.(updatedAt := now), now);
    r := Success(());
  }

  /** `addParticipant` succeeds exactly when the group exists, the requester
      is an active ADMIN, the user exists and has no row in the group, active
      or not. */
  lemma AddSucceedsIff(t: Tables, cid: Id, uid: Id, requester: Id)
    requires t.Valid()
    ensures var ps := t.participants;
      AddOutcome(t, cid, uid, requester).Success? <==>
        IsGroupConversation(t, cid) && MayAdminister(t, cid, requester) && t.FindUserById(uid).Some?
        && forall i :: 0 <= i < |ps| ==> !(ps[i].conversationId == cid && ps[i].userId == uid)
  {
    NoRowWithKey(t.participants, cid, uid);
  }

  /** Both the duplicate check and the unique key pass exactly when no row,
      active or not, has the key. */
  lemma NoRowWithKey(ps: seq<Participant>, cid: Id, uid: Id)
    ensures !ExistsByConversationIdAndUserId(ps, cid, uid) && Count(ps, KeyIs(cid, uid)) == 0 <==>
              forall i :: 0 <= i < |ps| ==> !(ps[i].conversationId == cid && ps[i].userId == uid)
  {
    CountNone(ps, KeyIs(cid, uid));
    CountMonotone(ps, KeyIs(cid, uid), ActiveKeyIs(cid, uid));
  }

  /** The unique key is what refuses a user whose only row in the group is
      inactive: the duplicate check lets them through, the insert does not. */
  lemma AddCollidesIff(t: Tables, cid: Id, uid: Id, requester: Id)
    requires t.Valid()
    ensures var ps := t.participants;
      AddOutcome(t, cid, uid, requester) == Failure(Error(ConstraintViolation, CONSTRAINT_VIOLATED)) <==>
        IsGroupConversation(t, cid) && MayAdminister(t, cid, requester) && t.FindUserById(uid).Some?
        && (exists i :: 0 <= i < |ps| && ps[i].conversationId == cid && ps[i].userId == uid)
        && forall i :: 0 <= i < |ps| && ps[i].conversationId == cid && ps[i].userId == uid ==> !ps[i].isActive
  {
    ExistsMeansActiveRow(t.participants, cid, uid);
    CountExtremes(t.participants, KeyIs(cid, uid));
  }

  /** After `addParticipant` the user is an active MEMBER of the group, the
      active count grows by one, every earlier row is kept, and the group's
      `updatedAt` is the call's time. */
  lemma AddedMemberIsActive(t: Tables, cid: Id, uid: Id, now: Time)
    requires t.Valid() && IsGroupConversation(t, cid)
    requires Count(t.participants, KeyIs(cid, uid)) == 0
    ensures var t2 := Added(t, cid, uid, now);
      && ExistsByConversationIdAndUserId(t2.participants, cid, uid)
      && t2.participants[..|t.participants|] == t.participants
      && t2.participants[|t.participants|].IsMember()
      && CountActiveParticipants(t2.participants, cid) == CountActiveParticipants(t.participants, cid) + 1
      && t2.FindConversationById(cid).Some? && t2.FindConversationById(cid).value.updatedAt == now
  {
    var t2 := Added(t, cid, uid, now);
    var row := AddedRow(t, cid, uid, now);
    CountAppend(t.participants, row, ActiveKeyIs(cid, uid));
    CountAppend(t.participants, row, ActiveInConversation(cid));
    assert t2.participants[..|t.participants|] == t.participants;
    var c := t.FindConversationById(cid).value;
    var i :| 0 <= i < |t.conversations| && t.conversations[i] == c;
    ReplaceKeepsIds(t.conversations, IdOfConversation, t.nextConversationId, c.(updatedAt := now));
    FindByIdFindsRow(t2.conversations, IdOfConversation, i);
  }

  // ---------------------------------------------------------------------------
  // removeParticipant
  // ---------------------------------------------------------------------------

  /** `leave()` applied to the row with the key, every other row as it was. */
  function LeaveRow(ps: seq<Participant>, cid: Id, uid: Id, now: Time): (r: seq<Participant>)
    ensures |r| == |ps|
    ensures forall i :: 0 <= i < |ps| ==>
              r[i] == if ps[i].conversationId == cid && ps[i].userId == uid then ps[i].Leave(now) else ps[i]
  {
    seq(|ps|, i requires 0 <= i < |ps| =>
      if ps[i].conversationId == cid && ps[i].userId == uid then ps[i].Leave(now) else ps[i])
  }

  /** The tables after a successful `removeParticipant`. */
  function Removed(t: Tables, cid: Id, uid: Id, now: Time): Tables
    requires IsGroupConversation(t, cid)
  {
    t.(participants := LeaveRow(t.participants, cid, uid, now),
       conversations := ReplaceById(t.conversations, IdOfConversation, t.FindConversationById(cid).value.(updatedAt := now)))
  }

  /** Saving the row after `leave()` overwrites exactly the row with that key. */
  lemma SaveAfterLeaveIsLeaveRow(t: Tables, i: nat, now: Time)
    requires t.Valid() && i < |t.participants|
    ensures var p := t.participants[i];
      ReplaceById(t.participants, IdOfParticipant, p.Leave(now)) == LeaveRow(t.participants, p.conversationId, p.userId, now)
  {
    var p := t.participants[i];
    var a := ReplaceById(t.participants, IdOfParticipant, p.Leave(now));
    var b := LeaveRow(t.participants, p.conversationId, p.userId, now);
    forall j | 0 <= j < |t.participants| ensures a[j] == b[j] {
      if j != i {
        assert j < i || i < j;
        assert IdOfParticipant(t.participants[j]) != IdOfParticipant(t.participants[i]);
      }
    }
  }

  /** `removeParticipant` (conversationId, userIdToRemove, requestingUserId): the
      answer, given the tables it starts from; the target is looked up whatever
      its flag and then required to be active. */
  function RemoveOutcome(t: Tables, cid: Id, uid: Id, requester: Id): Result<()>
    requires t.Valid()
  {
    var target := FindByConversationIdAndUserId(t.participants, cid, uid).value;
    if !IsGroupConversation(t, cid) then Failure(Error(RuntimeError, GROUP_NOT_FOUND))
    else if !MayAdminister(t, cid, requester) then Failure(Error(Security, CANNOT_REMOVE))
    else if target.None? || !target.value.isActive then Failure(Error(RuntimeError, NOT_IN_GROUP))
    else Success(())
  }

  /** `removeParticipant`: the transaction either fails and changes nothing, or
      soft-deletes the target's row and re-stamps the group. */
  method RemoveParticipant(db: Database, cid: Id, userIdToRemove: Id, requestingUserId: Id, now: Time) returns (r: Result<()>)
    requires db.State().Valid()
    modifies db
    ensures db.State().Valid()
    ensures r == RemoveOutcome(old(db.State()), cid, userIdToRemove, requestingUserId)
    ensures db.State() == if r.Success? then Removed(old(db.State()), cid, userIdToRemove, now) else old(db.State())
  {
    var conversation := db.State().FindConversationById(cid);
    if conversation.None? || !conversation.value.IsGroup() {
      return Failure(Error(RuntimeError, GROUP_NOT_FOUND));
    }
    var requester := FindByConversationIdAndUserId(db.participants, cid, requestingUserId).value;
    if requester.None? || !(requester.value.isActive && requester.value.IsAdmin()) {
      return Failure(Error(Security, CANNOT_REMOVE));
    }
    var target := FindByConversationIdAndUserId(db.participants, cid, userIdToRemove).value;
    if target.None? || !target.value.isActive {
      return Failure(Error(RuntimeError, NOT_IN_GROUP));
    }
    LeaveGroup(db, target.value, conversation.value, now);
    r := Success(());
  }

  /** The writes of a successful `removeParticipant`: the target's row after
      `leave()`, then the group with its new `updatedAt`. */
  method LeaveGroup(db: Database, target: Participant, group: Conversation, now: Time)
    requires db.State().Valid() && target in db.participants
    requires db.State().FindConversationById(target.conversationId) == Some(group) && group.IsGroup()
    modifies db
    ensures db.State().Valid()
    ensures db.State() == Removed(old(db.State()), target.conversationId, target.userId, now)
  {
    ghost var t := db.State();
    ghost var k :| 0 <= k < |db.participants| && db.participants[k] == target;
    SaveAfterLeaveIsLeaveRow(t, k, now);
    db.UpdateParticipant(target.Leave(now));
    assert db.State().conversations == t.conversations;
    var stored := db.UpdateConversation(group.(updatedAt := now), now);
    assert stored == group.(updatedAt := now);
  }

  /** `removeParticipant` succeeds exactly when the group exists, the requester
      is an active ADMIN and the target has an active row, which is what
      `existsByConversationIdAndUserId` reports. */
  lemma RemoveOutcomeCases(t: Tables, cid: Id, uid: Id, requester: Id)
    requires t.Valid()
    ensures var r := RemoveOutcome(t, cid, uid, requester);
      && (!IsGroupConversation(t, cid) ==> r == Failure(Error(RuntimeError, GROUP_NOT_FOUND)))
      && (IsGroupConversation(t, cid) && !MayAdminister(t, cid, requester) ==> r == Failure(Error(Security, CANNOT_REMOVE)))
      && (r.Success? <==>
            IsGroupConversation(t, cid) && MayAdminister(t, cid, requester)
            && ExistsByConversationIdAndUserId(t.participants, cid, uid))
  {
    FoundRowActiveIffExists(t.participants, cid, uid);
  }

  /** Removal is a soft delete: the row stays with its flag cleared and
      `leftAt` set, no other row changes, and the existence check no longer
      sees the user, while the unique key still holds the row. */
  lemma RemovedRowIsSoftDeleted(t: Tables, cid: Id, uid: Id, now: Time, i: nat)
    requires t.Valid() && IsGroupConversation(t, cid)
    requires i < |t.participants| && t.participants[i].conversationId == cid && t.participants[i].userId == uid
    ensures var ps := Removed(t, cid, uid, now).participants;
      && !ps[i].isActive && ps[i].leftAt == Some(now)
      && (forall j :: 0 <= j < |t.participants| && j != i ==> ps[j] == t.participants[j])
      && !ExistsByConversationIdAndUserId(ps, cid, uid)
      && Count(ps, KeyIs(cid, uid)) > 0
  {
    var ps := Removed(t, cid, uid, now).participants;
    forall j | 0 <= j < |t.participants| && j != i ensures ps[j] == t.participants[j] {
      assert j < i || i < j;
    }
    ExistsMeansActiveRow(ps, cid, uid);
    CountExtremes(ps, KeyIs(cid, uid));
  }

  /** Re-stamping a stored group keeps it findable, as a group, with the new
      `updatedAt`. */
  lemma RestampKeepsGroup(t: Tables, cid: Id, now: Time)
    requires t.Valid() && IsGroupConversation(t, cid)
    ensures var c := t.FindConversationById(cid).value;
      var t2 := t.(conversations := ReplaceById(t.conversations, IdOfConversation, c.(updatedAt := now)));
      t2.Valid() && t2.FindConversationById(cid) == Some(c.(updatedAt := now)) && IsGroupConversation(t2, cid)
  {
    var c := t.FindConversationById(cid).value;
    var i :| 0 <= i < |t.conversations| && t.conversations[i] == c;
    UpdateConversationKeepsValid(t, c.(updatedAt := now));
    FindByIdFindsRow(ReplaceById(t.conversations, IdOfConversation, c.(updatedAt := now)), IdOfConversation, i);
  }

  /** The tables stay valid after a removal. */
  lemma RemovedValid(t: Tables, cid: Id, uid: Id, now: Time, i: nat)
    requires t.Valid() && IsGroupConversation(t, cid)
    requires i < |t.participants| && t.participants[i].conversationId == cid && t.participants[i].userId == uid
    ensures Removed(t, cid, uid, now).Valid()
    ensures IsGroupConversation(Removed(t, cid, uid, now), cid)
  {
    SaveAfterLeaveIsLeaveRow(t, i, now);
    UpdateParticipantKeepsValid(t, i, t.participants[i].Leave(now));
    var t1 := t.(participants := LeaveRow(t.participants, cid, uid, now));
    assert t1.FindConversationById(cid) == t.FindConversationById(cid);
    RestampKeepsGroup(t1, cid, now);
  }

  /** Removing a member and then adding them back, by an administrator other
      than the removed user, ends with the insert refused by the unique key. */
  lemma ReAddAfterRemoveCollides(t: Tables, cid: Id, uid: Id, requester: Id, now: Time)
    requires t.Valid() && RemoveOutcome(t, cid, uid, requester).Success?
    requires requester != uid && t.FindUserById(uid).Some?
    ensures Removed(t, cid, uid, now).Valid()
    ensures AddOutcome(Removed(t, cid, uid, now), cid, uid, requester) == Failure(Error(ConstraintViolation, CONSTRAINT_VIOLATED))
  {
    RemoveOutcomeCases(t, cid, uid, requester);
    ExistsMeansActiveRow(t.participants, cid, uid);
    var i :| 0 <= i < |t.participants| && t.participants[i].conversationId == cid
             && t.participants[i].userId == uid && t.participants[i].isActive;
    RemovedValid(t, cid, uid, now, i);
    RemovedRowIsSoftDeleted(t, cid, uid, now, i);
    OtherRowsSurviveLeave(t.participants, cid, uid, requester, now);
  }

  /** Leaving changes what the lookup finds for no other user of the group. */
  lemma OtherRowsSurviveLeave(ps: seq<Participant>, cid: Id, uid: Id, other: Id, now: Time)
    requires UniqueMembership(ps) && UniqueMembership(LeaveRow(ps, cid, uid, now)) && other != uid
    ensures FindByConversationIdAndUserId(LeaveRow(ps, cid, uid, now), cid, other) == FindByConversationIdAndUserId(ps, cid, other)
  {
    var ps2 := LeaveRow(ps, cid, uid, now);
    if j :| 0 <= j < |ps| && ps[j].conversationId == cid && ps[j].userId == other {
      FoundRowIsTheRow(ps, cid, other, j);
      FoundRowIsTheRow(ps2, cid, other, j);
    } else {
      forall p | p in ps2 ensures !(p.conversationId == cid && p.userId == other) {
        var k :| 0 <= k < |ps2| && ps2[k] == p;
        assert ps2[k].conversationId == ps[k].conversationId && ps2[k].userId == ps[k].userId;
      }
    }
  }
}
