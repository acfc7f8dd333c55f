/** `Conversation`: a PRIVATE (one-to-one) or GROUP conversation, and the
    loaded entity with its participant and message collections. */
module Conversations {
  import opened Common
  import opened Ordering
  import opened Participants
  import opened Messages

  const PRIVATE := "PRIVATE"
  const GROUP := "GROUP"

  /** The conversation row. */
  datatype Conversation = Conversation(
    id: Id,
    conversationType: string,
    name: Option<string>,
    createdBy: Id,
    createdAt: Time,
    updatedAt: Time)
  {
    predicate IsPrivate() { conversationType == PRIVATE }
    predicate IsGroup() { conversationType == GROUP }
  }

  /** `Conversation.builder()...build()` as the services call it: type, name,
      creator and both timestamps given. */
  function NewConversation(conversationType: string, name: Option<string>, createdBy: Id, now: Time): (c: Conversation)
    ensures c.conversationType == conversationType && c.name == name && c.createdBy == createdBy
    ensures c.createdAt == now && c.updatedAt == now
  {
    Conversation(0, conversationType, name, createdBy, now, now)
  }

  /** A builder that does not set the type gets the declared default, PRIVATE. */
  function DefaultConversation(createdBy: Id, now: Time): (c: Conversation)
    ensures c.IsPrivate() && !c.IsGroup()
    ensures c.createdBy == createdBy && c.name.None?
  {
    Conversation(0, PRIVATE, None, createdBy, now, now)
  }

  /** No conversation is both PRIVATE and GROUP; one may be neither. */
  lemma TypesExclusive(c: Conversation)
    ensures !(c.IsPrivate() && c.IsGroup())
    ensures c.IsGroup() ==> c.conversationType == GROUP && !c.IsPrivate()
  {
  }

  function IsActiveRow(p: Participant): bool { p.isActive }

  /** `getActiveParticipantsCount()` over a participant collection: the
      active rows, counted. */
  function ActiveCount(ps: seq<Participant>): (n: nat)
    ensures n <= |ps|
    ensures n == |ps| <==> forall i :: 0 <= i < |ps| ==> ps[i].isActive
    ensures n == 0 <==> forall i :: 0 <= i < |ps| ==> !ps[i].isActive
  {
    CountExtremes(ps, IsActiveRow);
    Count(ps, IsActiveRow)
  }

  /** The conversation entity as the services hold it: the row plus its
      `@OneToMany` collections, which `addParticipant`/`removeParticipant` and
      `addMessage`/`removeMessage` update in place. */
  class ManagedConversation {
    var id: Id
    var conversationType: string
    var name: Option<string>
    var createdBy: Id
    var createdAt: Time
    var updatedAt: Time
    var participants: seq<Participant>
    var messages: seq<Message>

    function Row(): Conversation
      reads this
    {
      Conversation(id, conversationType, name, createdBy, createdAt, updatedAt)
    }

    /** Loads a row with its collections. */
    constructor (c: Conversation, ps: seq<Participant>, ms: seq<Message>)
      ensures Row() == c && participants == ps && messages == ms
    {
      id := c.id;
      conversationType := c.conversationType;
      name := c.name;
      createdBy := c.createdBy;
      createdAt := c.createdAt;
      updatedAt := c.updatedAt;
      participants := ps;
      messages := ms;
    }

    predicate IsPrivate()
      reads this
    {
      Row().IsPrivate()
    }

    predicate IsGroup()
      reads this
    {
      Row().IsGroup()
    }

    function ActiveParticipantsCount(): nat
      reads this
    {
      ActiveCount(participants)
    }

    /** `getLatestMessage()`, `None` for `null`. */
    function LatestMessage(): Option<Message>
      reads this
      requires Comparable(messages)
    {
      Latest(messages)
    }

    /** Appends the row and points it at this conversation. */
    method AddParticipant(p: Participant)
      modifies this
      ensures participants == old(participants) + [p.(conversationId := id)]
      ensures Row() == old(Row()) && messages == old(messages)
      ensures ActiveParticipantsCount() == old(ActiveParticipantsCount()) + (if p.isActive then 1 else 0)
    {
      participants := participants + [p.(conversationId := id)];
      CountAppend(old(participants), p.(conversationId := id), IsActiveRow);
    }

    /** Drops the first row equal to `p`, if there is one. */
    method RemoveParticipant(p: Participant)
      modifies this
      ensures participants == RemoveFirst(old(participants), p)
      ensures Row() == old(Row()) && messages == old(messages)
      ensures ActiveParticipantsCount() == old(ActiveParticipantsCount()) - (if p in old(participants) && p.isActive then 1 else 0)
    {
      participants := RemoveFirst(participants, p);
      CountRemoveFirst(old(participants), p, IsActiveRow);
    }

    /** Appends the message and points it at this conversation. */
    method AddMessage(m: Message)
      modifies this
      ensures messages == old(messages) + [m.(conversation := id)]
      ensures Row() == old(Row()) && participants == old(participants)
    {
      messages := messages + [m.(conversation := id)];
    }

    /** Drops the first message equal to `m`, if there is one. */
    method RemoveMessage(m: Message)
      modifies this
      ensures messages == RemoveFirst(old(messages), m)
      ensures Row() == old(Row()) && participants == old(participants)
    {
      messages := RemoveFirst(messages, m);
    }

    method SetUpdatedAt(now: Time)
      modifies this
      ensures Row() == old(Row()).(updatedAt := now)
      ensures participants == old(participants) && messages == old(messages)
    {
      updatedAt := now;
    }
  }

  /** Adding a message and removing it again leaves the collection as it was. */
  lemma RemoveUndoesAdd<T>(s: seq<T>, x: T)
    ensures RemoveFirst(s + [x], x) == s || x in s
    ensures x !in s ==> RemoveFirst(s + [x], x) == s
  {
    if x !in s {
      var t := s + [x];
      var i := IndexOf(t, x);
      assert t[..|s|] == s;
      assert i == |s|;
      assert t[..i] + t[i + 1..] == s;
    }
  }
}
