/** `ConversationParticipant`: a user's membership row in a conversation, with
    its role, activity state, read position, mute state and notification
    setting. The row is unique per (conversation, user). */
module Participants {
  import opened Common

  const ADMIN := "ADMIN"
  const MEMBER := "MEMBER"
  const MODERATOR := "MODERATOR"

  const NOTIFY_ALL := "ALL"
  const NOTIFY_MENTIONS := "MENTIONS"
  const NOTIFY_NONE := "NONE"

  /** The state of one participant entity. `id` is assigned by the store when
      the row is first saved. */
  datatype Participant = Participant(
    id: Id,
    conversationId: Id,
    userId: Id,
    joinedAt: Time,
    isActive: bool,
    role: string,
    leftAt: Option<Time>,
    lastReadMessageId: Option<Id>,
    lastReadAt: Option<Time>,
    isMuted: bool,
    mutedUntil: Option<Time>,
    notificationSettings: string)
  {
    predicate IsAdmin() { role == ADMIN }
    predicate IsMember() { role == MEMBER }
    predicate IsModerator() { role == MODERATOR }
    predicate CanAdministrate() { IsAdmin() || IsModerator() }

    /** `leave()`: soft delete. */
    function Leave(now: Time): Participant {
      this.(isActive := false, leftAt := Some(now))
    }

    /** `rejoin()`. */
    function Rejoin(now: Time): Participant {
      this.(isActive := true, leftAt := None, joinedAt := now)
    }

    /** `mute(until)`; `None` mutes without an end. */
    function Mute(until: Option<Time>): Participant {
      this.(isMuted := true, mutedUntil := until)
    }

    function Unmute(): Participant {
      this.(isMuted := false, mutedUntil := None)
    }

    /** `isCurrentlyMuted()` read at clock value `now`. */
    predicate IsCurrentlyMuted(now: Time) {
      if !isMuted then false
      else if mutedUntil.None? then true
      else now < mutedUntil.value
    }

    /** `updateLastRead(messageId)`: overwrites the read position, whatever it was. */
    function UpdateLastRead(messageId: Id, now: Time): Participant {
      this.(lastReadMessageId := Some(messageId), lastReadAt := Some(now))
    }

    function WithRole(newRole: string): Participant {
      this.(role := newRole)
    }

    function WithNotificationSettings(settings: string): Participant {
      this.(notificationSettings := settings)
    }

    predicate HasReadMessage(messageId: Id) {
      lastReadMessageId.Some? && lastReadMessageId.value >= messageId
    }

    /** `shouldReceiveNotification(messageType)` at clock value `now`. */
    predicate ShouldReceiveNotification(messageType: string, now: Time) {
      if IsCurrentlyMuted(now) then false
      else if notificationSettings == NOTIFY_NONE then false
      else if notificationSettings == NOTIFY_MENTIONS then messageType == "MENTION"
      else true
    }

    /** The columns that identify the row; no helper above changes them. */
    predicate SameKey(other: Participant) {
      id == other.id && conversationId == other.conversationId && userId == other.userId
    }
  }

  /** `ConversationParticipant.builder()...build()` as the services call it:
      conversation, user, role, active flag and join time given, every other
      field at its declared default. */
  function NewParticipant(conversationId: Id, userId: Id, role: string, now: Time): (p: Participant)
    ensures p.conversationId == conversationId && p.userId == userId && p.role == role
    ensures p.isActive && p.joinedAt == now
    ensures p.leftAt.None? && p.lastReadMessageId.None? && p.lastReadAt.None?
    ensures !p.isMuted && p.mutedUntil.None? && p.notificationSettings == NOTIFY_ALL
    ensures forall t :: !p.IsCurrentlyMuted(t)
  {
    Participant(0, conversationId, userId, now, true, role, None, None, None, false, None, NOTIFY_ALL)
  }

  // ---------------------------------------------------------------------------
  // Properties of the helpers
  // ---------------------------------------------------------------------------

  /** At most one role predicate holds, and only ADMIN and MODERATOR administrate. */
  lemma RolesExclusive(p: Participant)
    ensures !(p.IsAdmin() && p.IsMember())
    ensures !(p.IsAdmin() && p.IsModerator())
    ensures !(p.IsMember() && p.IsModerator())
    ensures p.CanAdministrate() <==> p.role == ADMIN || p.role == MODERATOR
    ensures p.IsMember() ==> !p.CanAdministrate()
  {
  }

  /** `leave` and `rejoin` touch only the activity columns and keep the row's key. */
  lemma LeaveRejoinFrame(p: Participant, now: Time)
    ensures p.Leave(now).SameKey(p) && p.Rejoin(now).SameKey(p)
    ensures !p.Leave(now).isActive && p.Leave(now).leftAt == Some(now)
    ensures p.Rejoin(now).isActive && p.Rejoin(now).leftAt.None? && p.Rejoin(now).joinedAt == now
    ensures p.Leave(now).(isActive := p.isActive, leftAt := p.leftAt) == p
    ensures p.Rejoin(now).(isActive := p.isActive, leftAt := p.leftAt, joinedAt := p.joinedAt) == p
  {
  }

  /** Rejoining after leaving restores the row, except that the join time is new. */
  lemma RejoinUndoesLeave(p: Participant, leftAt: Time, rejoinedAt: Time)
    requires p.isActive && p.leftAt.None?
    ensures p.Leave(leftAt).Rejoin(rejoinedAt) == p.(joinedAt := rejoinedAt)
  {
  }

  /** The mute rules: unmuted never mutes; an open-ended mute always does; a
      bounded mute holds strictly before its end. */
  lemma MuteRules(p: Participant, now: Time, until: Time)
    ensures !p.isMuted ==> !p.IsCurrentlyMuted(now)
    ensures !p.Unmute().IsCurrentlyMuted(now) && p.Unmute().mutedUntil.None?
    ensures p.Mute(None).IsCurrentlyMuted(now)
    ensures p.Mute(Some(until)).IsCurrentlyMuted(now) <==> now < until
    ensures p.Mute(Some(until)).Unmute() == p.Unmute()
  {
  }

  /** After `updateLastRead(m)` the row has read exactly the messages up to `m`. */
  lemma HasReadAfterUpdate(p: Participant, m: Id, k: Id, now: Time)
    ensures p.UpdateLastRead(m, now).HasReadMessage(k) <==> k <= m
  {
  }

  /** `updateLastRead` is not monotonic: a smaller id moves the read position back,
      and a message that counted as read no longer does. */
  lemma UpdateLastReadCanRegress(p: Participant, now: Time)
    requires p.lastReadMessageId == Some(10)
    ensures p.HasReadMessage(10)
    ensures p.UpdateLastRead(5, now).lastReadMessageId == Some(5)
    ensures !p.UpdateLastRead(5, now).HasReadMessage(10)
  {
  }

  /** The notification rules. */
  lemma NotificationRules(p: Participant, messageType: string, now: Time)
    ensures p.IsCurrentlyMuted(now) ==> !p.ShouldReceiveNotification(messageType, now)
    ensures p.notificationSettings == NOTIFY_NONE ==> !p.ShouldReceiveNotification(messageType, now)
    ensures !p.IsCurrentlyMuted(now) && p.notificationSettings == NOTIFY_MENTIONS ==>
              (p.ShouldReceiveNotification(messageType, now) <==> messageType == "MENTION")
    ensures !p.IsCurrentlyMuted(now) && p.notificationSettings != NOTIFY_NONE && p.notificationSettings != NOTIFY_MENTIONS ==>
              p.ShouldReceiveNotification(messageType, now)
  {
  }

  /** A fresh row with the defaults is notified of every message type. */
  lemma DefaultsReceiveEverything(conversationId: Id, userId: Id, role: string, now: Time, messageType: string, t: Time)
    ensures NewParticipant(conversationId, userId, role, now).ShouldReceiveNotification(messageType, t)
  {
  }

  // ---------------------------------------------------------------------------
  // The entity object a service loads, changes in place and saves back
  // ---------------------------------------------------------------------------

  class ManagedParticipant {
    var id: Id
    var conversationId: Id
    var userId: Id
    var joinedAt: Time
    var isActive: bool
    var role: string
    var leftAt: Option<Time>
    var lastReadMessageId: Option<Id>
    var lastReadAt: Option<Time>
    var isMuted: bool
    var mutedUntil: Option<Time>
    var notificationSettings: string

    /** The entity's current field values. */
    function State(): Participant
      reads this
    {
      Participant(id, conversationId, userId, joinedAt, isActive, role, leftAt,
                  lastReadMessageId, lastReadAt, isMuted, mutedUntil, notificationSettings)
    }

    /** Loads a row. */
    constructor (p: Participant)
      ensures State() == p
    {
      id := p.id;
      conversationId := p.conversationId;
      userId := p.userId;
      joinedAt := p.joinedAt;
      isActive := p.isActive;
      role := p.role;
      leftAt := p.leftAt;
      lastReadMessageId := p.lastReadMessageId;
      lastReadAt := p.lastReadAt;
      isMuted := p.isMuted;
      mutedUntil := p.mutedUntil;
      notificationSettings := p.notificationSettings;
    }

    method Leave(now: Time)
      modifies this
      ensures State() == old(State()).Leave(now)
    {
      isActive := false;
      leftAt := Some(now);
    }

    method Rejoin(now: Time)
      modifies this
      ensures State() == old(State()).Rejoin(now)
    {
      isActive := true;
      leftAt := None;
      joinedAt := now;
    }

    method Mute(until: Option<Time>)
      modifies this
      ensures State() == old(State()).Mute(until)
    {
      isMuted := true;
      mutedUntil := until;
    }

    method Unmute()
      modifies this
      ensures State() == old(State()).Unmute()
    {
      isMuted := false;
      mutedUntil := None;
    }

    method UpdateLastRead(messageId: Id, now: Time)
      modifies this
      ensures State() == old(State()).UpdateLastRead(messageId, now)
    {
      lastReadMessageId := Some(messageId);
      lastReadAt := Some(now);
    }

    method SetRole(newRole: string)
      modifies this
      ensures State() == old(State()).WithRole(newRole)
    {
      role := newRole;
    }

    method SetNotificationSettings(settings: string)
      modifies this
      ensures State() == old(State()).WithNotificationSettings(settings)
    {
      notificationSettings := settings;
    }
  }
}
