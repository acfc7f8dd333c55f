/** `MessageDTO`: the message as the API and the broker hand it out, its
    Bean Validation constraints and its two factories. Every field is a boxed
    Java value, so every field may be `null`. */
module MessageDtos {
  import opened Common
  import opened Messages

  const CONVERSATION_REQUIRED := "Conversation ID is required"
  const SENDER_REQUIRED := "Sender ID is required"
  const CONTENT_SIZE := "Message content cannot exceed 5000 characters"
  const TYPE_REQUIRED := "Message type is required"
  const MAX_CONTENT := 5000

  /** `MessageDTO.MessageAttachmentDTO`. */
  datatype AttachmentView = AttachmentView(
    id: Option<Id>,
    fileName: Option<string>,
    filePath: Option<string>,
    fileSize: Option<nat>,
    mimeType: Option<string>,
    uploadedAt: Option<Time>)

  datatype MessageDTO = MessageDTO(
    id: Option<Id>,
    conversationId: Option<Id>,
    senderId: Option<Id>,
    content: Option<string>,
    messageType: Option<string>,
    sentAt: Option<Time>,
    isDeleted: Option<bool>,
    isEdited: Option<bool>,
    status: Option<string>,
    senderUsername: Option<string>,
    senderDisplayName: Option<string>,
    senderProfileImage: Option<string>,
    attachments: Option<seq<AttachmentView>>,
    totalMessages: Option<nat>,
    currentPage: Option<nat>,
    totalPages: Option<nat>)
  {
    /** `@Size(max = 5000)` on the content, counted in UTF-16 units; `null`
        passes. */
    predicate ContentSizeOk() { content.None? || Utf16Length(content.value) <= MAX_CONTENT }

    predicate IsValid() {
      conversationId.Some? && senderId.Some? && ContentSizeOk() && messageType.Some?
    }

    /** The messages of the violated constraints. Bean Validation reports them
        as a set; the model lists them in declaration order, and only which
        messages occur carries meaning. */
    function Violations(): (r: seq<string>)
      ensures r == [] <==> IsValid()
      ensures CONVERSATION_REQUIRED in r <==> conversationId.None?
      ensures SENDER_REQUIRED in r <==> senderId.None?
      ensures CONTENT_SIZE in r <==> !ContentSizeOk()
      ensures TYPE_REQUIRED in r <==> messageType.None?
    {
      (if conversationId.Some? then [] else [CONVERSATION_REQUIRED])
      + (if senderId.Some? then [] else [SENDER_REQUIRED])
      + (if ContentSizeOk() then [] else [CONTENT_SIZE])
      + (if messageType.Some? then [] else [TYPE_REQUIRED])
    }
  }

  /** The builder with nothing set. */
  function EmptyDto(): MessageDTO {
    MessageDTO(None, None, None, None, None, None, None, None, None, None, None, None, None, None, None, None)
  }

  /** `createTextMessage(conversationId, senderId, content)`. */
  function CreateTextMessage(conversationId: Id, senderId: Id, content: Option<string>, now: Time): (d: MessageDTO)
    ensures d.id.None? && d.conversationId == Some(conversationId) && d.senderId == Some(senderId)
    ensures d.content == content && d.messageType == Some(TYPE_TEXT) && d.sentAt == Some(now)
    ensures d.isDeleted == Some(false) && d.isEdited == Some(false) && d.status == Some(STATUS_SENT)
    ensures d.attachments.None? && d.senderUsername.None?
  {
    EmptyDto().(conversationId := Some(conversationId), senderId := Some(senderId), content := content,
                messageType := Some(TYPE_TEXT), sentAt := Some(now),
                isDeleted := Some(false), isEdited := Some(false), status := Some(STATUS_SENT))
  }

  /** `createAttachmentMessage(conversationId, senderId, messageType, attachments)`. */
  function CreateAttachmentMessage(conversationId: Id, senderId: Id, messageType: Option<string>,
                                   attachments: Option<seq<AttachmentView>>, now: Time): (d: MessageDTO)
    ensures d.id.None? && d.conversationId == Some(conversationId) && d.senderId == Some(senderId)
    ensures d.content.None? && d.messageType == messageType && d.attachments == attachments && d.sentAt == Some(now)
    ensures d.isDeleted == Some(false) && d.isEdited == Some(false) && d.status == Some(STATUS_SENT)
  {
    EmptyDto().(conversationId := Some(conversationId), senderId := Some(senderId),
                messageType := messageType, attachments := attachments, sentAt := Some(now),
                isDeleted := Some(false), isEdited := Some(false), status := Some(STATUS_SENT))
  }

  /** A text message passes validation exactly when its content is within
      the limit; an attachment message exactly when the caller gave a type. */
  lemma FactoriesValid(conversationId: Id, senderId: Id, content: Option<string>, messageType: Option<string>,
                       attachments: Option<seq<AttachmentView>>, now: Time)
    ensures CreateTextMessage(conversationId, senderId, content, now).IsValid() <==>
              content.None? || Utf16Length(content.value) <= MAX_CONTENT
    ensures CreateAttachmentMessage(conversationId, senderId, messageType, attachments, now).IsValid() <==>
              messageType.Some?
  {
  }

  /** Content of exactly 5000 UTF-16 units is accepted and one more is
      refused; 5000 characters of which one lies outside the Basic
      Multilingual Plane are 5001 units and are refused. */
  lemma ContentLimitInclusive(d: MessageDTO)
    requires d.conversationId.Some? && d.senderId.Some? && d.messageType.Some?
    requires d.content.Some?
    ensures Utf16Length(d.content.value) == MAX_CONTENT ==> d.Violations() == []
    ensures Utf16Length(d.content.value) == MAX_CONTENT + 1 ==> d.Violations() == [CONTENT_SIZE]
    ensures |d.content.value| == MAX_CONTENT && (exists i :: 0 <= i < |d.content.value| && !IsBmp(d.content.value[i])) ==>
              d.Violations() == [CONTENT_SIZE]
  {
  }
}
