/** `MessageAttachmentRepository`: the queries over the attachment table. The
    path `ma.message.conversation.id` is an inner join with the message table:
    an attachment is in a conversation when a message with its `messageId`
    belongs to that conversation. */
module AttachmentRepository {
  import opened Common
  import opened Ordering
  import opened Messages
  import opened Attachments

  /** The join `ma.message.conversation.id = :conversationId`. */
  predicate InConversation(ms: seq<Message>, a: Attachment, cid: Id) {
    exists m :: m in ms && m.id == a.messageId && m.conversation == cid
  }

  /** The join `ma.message.senderId = :userId`. */
  predicate SentBy(ms: seq<Message>, a: Attachment, uid: Id) {
    exists m :: m in ms && m.id == a.messageId && m.senderId == uid
  }

  function NewestUploadFirst(a: Attachment): int { -a.uploadedAt }
  function LargestFirst(a: Attachment): int { -(a.fileSize.GetOr(0) as int) }

  function OfMessage(messageId: Id): Attachment -> bool {
    (a: Attachment) => a.messageId == messageId
  }

  function AtPath(filePath: string): Attachment -> bool {
    (a: Attachment) => a.filePath == Some(filePath)
  }

  function InConversationMatching(ms: seq<Message>, cid: Id, pattern: string): Attachment -> bool {
    (a: Attachment) => InConversation(ms, a, cid) && a.mimeType.Some? && Like(a.mimeType.value, pattern)
  }

  function DocumentIn(ms: seq<Message>, cid: Id): Attachment -> bool {
    (a: Attachment) => InConversation(ms, a, cid) && a.mimeType.Some?
      && !Like(a.mimeType.value, "image/%") && !Like(a.mimeType.value, "video/%") && !Like(a.mimeType.value, "audio/%")
  }

  function NameMatching(fileName: string): Attachment -> bool {
    (a: Attachment) => a.fileName.Some? && LikeContainsIgnoreCase(a.fileName.value, fileName)
  }

  function LargerThan(minSize: int): Attachment -> bool {
    (a: Attachment) => a.fileSize.Some? && a.fileSize.value > minSize
  }

  function InConversationOnly(ms: seq<Message>, cid: Id): Attachment -> bool {
    (a: Attachment) => InConversation(ms, a, cid)
  }

  function SentByUser(ms: seq<Message>, uid: Id): Attachment -> bool {
    (a: Attachment) => SentBy(ms, a, uid)
  }

  /** `findByMessageId`: table order. */
  function FindByMessageId(as_: seq<Attachment>, messageId: Id): (r: seq<Attachment>)
    ensures forall a :: a in r <==> a in as_ && a.messageId == messageId
    ensures multiset(r) <= multiset(as_)
  {
    Filter(as_, OfMessage(messageId))
  }

  /** `findByFilePath`: at most one row, or an error when the path is shared. */
  function FindByFilePath(as_: seq<Attachment>, filePath: string): (r: Result<Option<Attachment>>)
    ensures r.Success? && r.value.Some? ==> r.value.value in as_ && r.value.value.filePath == Some(filePath)
    ensures r.Success? && r.value.None? ==> forall a :: a in as_ ==> a.filePath != Some(filePath)
    ensures r.Failure? <==> Count(as_, AtPath(filePath)) > 1
  {
    var rows := Filter(as_, AtPath(filePath));
    assert rows != [] ==> rows[0] in rows;
    SingleResult(rows)
  }

  /** `findByConversationIdAndMimeType`: the pattern is used as given, so its
      wildcards are live; newest upload first. */
  function FindByConversationIdAndMimeType(as_: seq<Attachment>, ms: seq<Message>, cid: Id, mimeTypePattern: string): (r: seq<Attachment>)
    ensures forall a :: a in r <==>
              (a in as_ && InConversation(ms, a, cid) && a.mimeType.Some? && Like(a.mimeType.value, mimeTypePattern))
    ensures forall i, j :: 0 <= i < j < |r| ==> r[i].uploadedAt >= r[j].uploadedAt
  {
    OrderedFilter(as_, InConversationMatching(ms, cid, mimeTypePattern), NewestUploadFirst)
  }

  /** The query the image and video lookups share: `mimeType LIKE prefix%`
      over the conversation's attachments, newest upload first. With no
      wildcard in the prefix it selects exactly the types that start with it. */
  function FindByMimePrefix(as_: seq<Attachment>, ms: seq<Message>, cid: Id, prefix: string): (r: seq<Attachment>)
    requires NoWildcards(prefix)
    ensures r == FindByConversationIdAndMimeType(as_, ms, cid, prefix + "%")
    ensures forall a :: a in r <==>
              (a in as_ && InConversation(ms, a, cid) && a.mimeType.Some? && StartsWith(a.mimeType.value, prefix))
    ensures forall i, j :: 0 <= i < j < |r| ==> r[i].uploadedAt >= r[j].uploadedAt
  {
    LikePrefixEverywhere(prefix);
    FindByConversationIdAndMimeType(as_, ms, cid, prefix + "%")
  }

  lemma LikePrefixEverywhere(prefix: string)
    requires NoWildcards(prefix)
    ensures forall s :: Like(s, prefix + "%") <==> StartsWith(s, prefix)
  {
    forall s ensures Like(s, prefix + "%") <==> StartsWith(s, prefix) {
      LikePrefix(s, prefix);
    }
  }

  /** `findImageAttachmentsByConversation`: the pattern 'image/%'. */
  function FindImageAttachmentsByConversation(as_: seq<Attachment>, ms: seq<Message>, cid: Id): (r: seq<Attachment>)
    ensures r == FindByConversationIdAndMimeType(as_, ms, cid, "image/%")
    ensures forall a :: a in r <==> (a in as_ && InConversation(ms, a, cid) && a.IsImage())
    ensures forall i, j :: 0 <= i < j < |r| ==> r[i].uploadedAt >= r[j].uploadedAt
  {
    assert IMAGE_PREFIX + "%" == "image/%";
    FindByMimePrefix(as_, ms, cid, IMAGE_PREFIX)
  }

  /** `findVideoAttachmentsByConversation`: the pattern 'video/%'. */
  function FindVideoAttachmentsByConversation(as_: seq<Attachment>, ms: seq<Message>, cid: Id): (r: seq<Attachment>)
    ensures r == FindByConversationIdAndMimeType(as_, ms, cid, "video/%")
    ensures forall a :: a in r <==> (a in as_ && InConversation(ms, a, cid) && a.IsVideo())
    ensures forall i, j :: 0 <= i < j < |r| ==> r[i].uploadedAt >= r[j].uploadedAt
  {
    assert VIDEO_PREFIX + "%" == "video/%";
    FindByMimePrefix(as_, ms, cid, VIDEO_PREFIX)
  }

  /** `findDocumentAttachmentsByConversation`: three `NOT LIKE` tests; a `null`
      MIME type fails all three. */
  function FindDocumentAttachmentsByConversation(as_: seq<Attachment>, ms: seq<Message>, cid: Id): (r: seq<Attachment>)
    ensures forall a :: a in r <==>
              (a in as_ && InConversation(ms, a, cid) && a.mimeType.Some? &&
               !Like(a.mimeType.value, "image/%") && !Like(a.mimeType.value, "video/%") && !Like(a.mimeType.value, "audio/%"))
    ensures forall i, j :: 0 <= i < j < |r| ==> r[i].uploadedAt >= r[j].uploadedAt
  {
    OrderedFilter(as_, DocumentIn(ms, cid), NewestUploadFirst)
  }

  /** The SQL patterns are the entity's prefix tests. */
  lemma PatternsArePrefixTests(s: string)
    ensures Like(s, "image/%") <==> StartsWith(s, IMAGE_PREFIX)
    ensures Like(s, "video/%") <==> StartsWith(s, VIDEO_PREFIX)
    ensures Like(s, "audio/%") <==> StartsWith(s, AUDIO_PREFIX)
  {
    assert "image/%" == IMAGE_PREFIX + "%";
    assert "video/%" == VIDEO_PREFIX + "%";
    assert "audio/%" == AUDIO_PREFIX + "%";
    LikePrefix(s, IMAGE_PREFIX);
    LikePrefix(s, VIDEO_PREFIX);
    LikePrefix(s, AUDIO_PREFIX);
  }

  /** The image, video and document queries select exactly the conversation's
      attachments that `isImage()`, `isVideo()` and `isDocument()` accept. */
  lemma QueriesAgreeWithEntity(as_: seq<Attachment>, ms: seq<Message>, cid: Id, a: Attachment)
    requires a in as_ && InConversation(ms, a, cid)
    ensures a in FindImageAttachmentsByConversation(as_, ms, cid) <==> a.IsImage()
    ensures a in FindVideoAttachmentsByConversation(as_, ms, cid) <==> a.IsVideo()
    ensures a in FindDocumentAttachmentsByConversation(as_, ms, cid) <==> a.IsDocument()
  {
    if a.mimeType.Some? {
      PatternsArePrefixTests(a.mimeType.value);
    }
  }

  /** `findByFileNameContainingIgnoreCase`: newest upload first. */
  function FindByFileNameContainingIgnoreCase(as_: seq<Attachment>, fileName: string): (r: seq<Attachment>)
    ensures forall a :: a in r <==> a in as_ && a.fileName.Some? && LikeContainsIgnoreCase(a.fileName.value, fileName)
    ensures forall i, j :: 0 <= i < j < |r| ==> r[i].uploadedAt >= r[j].uploadedAt
  {
    OrderedFilter(as_, NameMatching(fileName), NewestUploadFirst)
  }

  /** `findByFileSizeGreaterThan`: strictly larger, largest first. */
  function FindByFileSizeGreaterThan(as_: seq<Attachment>, minSize: int): (r: seq<Attachment>)
    ensures forall a :: a in r <==> a in as_ && a.fileSize.Some? && a.fileSize.value > minSize
    ensures forall i, j :: 0 <= i < j < |r| ==> r[i].fileSize.value >= r[j].fileSize.value
  {
    OrderedFilter(as_, LargerThan(minSize), LargestFirst)
  }

  /** `SUM(ma.fileSize)` with `COALESCE(..., 0)`: `null` sizes are skipped and an
      empty set sums to zero. */
  function SumSizes(as_: seq<Attachment>): nat {
    if as_ == [] then 0 else as_[0].fileSize.GetOr(0) + SumSizes(as_[1..])
  }

  /** The sum over two parts of a table is the sum of the parts. */
  lemma {:induction false} SumSizesConcat(a: seq<Attachment>, b: seq<Attachment>)
    ensures SumSizes(a + b) == SumSizes(a) + SumSizes(b)
  {
    if a == [] {
      assert a + b == b;
    } else {
      assert (a + b)[1..] == a[1..] + b;
      SumSizesConcat(a[1..], b);
    }
  }

  /** `getTotalStorageByUser`. */
  function GetTotalStorageByUser(as_: seq<Attachment>, ms: seq<Message>, uid: Id): (n: nat)
    ensures n == 0 <== forall a :: a in as_ ==> !SentBy(ms, a, uid)
  {
    var rows := Filter(as_, SentByUser(ms, uid));
    assert rows == [] <== forall a :: a in as_ ==> !SentBy(ms, a, uid) by {
      if rows != [] { assert rows[0] in rows; }
    }
    SumSizes(rows)
  }

  /** `getTotalStorageByConversation`. */
  function GetTotalStorageByConversation(as_: seq<Attachment>, ms: seq<Message>, cid: Id): (n: nat)
    ensures n == 0 <== forall a :: a in as_ ==> !InConversation(ms, a, cid)
  {
    var rows := Filter(as_, InConversationOnly(ms, cid));
    assert rows == [] <== forall a :: a in as_ ==> !InConversation(ms, a, cid) by {
      if rows != [] { assert rows[0] in rows; }
    }
    SumSizes(rows)
  }

  /** Storing an attachment raises the storage of its message's conversation
      by its size (nothing for a `null` size) and leaves every other
      conversation's storage alone. */
  lemma StorageGrowsBySize(as_: seq<Attachment>, ms: seq<Message>, cid: Id, a: Attachment)
    ensures GetTotalStorageByConversation(as_ + [a], ms, cid) ==
            GetTotalStorageByConversation(as_, ms, cid) + (if InConversation(ms, a, cid) then a.fileSize.GetOr(0) else 0)
  {
    FilterAppend(as_, a, InConversationOnly(ms, cid));
    SumSizesConcat(Filter(as_, InConversationOnly(ms, cid)), if InConversation(ms, a, cid) then [a] else []);
    assert [a][1..] == [];
  }

  /** The same for the storage of the sender of the attachment's message. */
  lemma UserStorageGrowsBySize(as_: seq<Attachment>, ms: seq<Message>, uid: Id, a: Attachment)
    ensures GetTotalStorageByUser(as_ + [a], ms, uid) ==
            GetTotalStorageByUser(as_, ms, uid) + (if SentBy(ms, a, uid) then a.fileSize.GetOr(0) else 0)
  {
    FilterAppend(as_, a, SentByUser(ms, uid));
    SumSizesConcat(Filter(as_, SentByUser(ms, uid)), if SentBy(ms, a, uid) then [a] else []);
    assert [a][1..] == [];
  }

  /** Filtering a table with one more row appends that row when it matches. */
  lemma {:induction false} FilterAppend(s: seq<Attachment>, x: Attachment, p: Attachment -> bool)
    ensures Filter(s + [x], p) == Filter(s, p) + (if p(x) then [x] else [])
  {
    if s == [] {
      assert s + [x] == [x];
      assert [x][1..] == [];
    } else {
      assert (s + [x])[0] == s[0] && (s + [x])[1..] == s[1..] + [x];
      FilterAppend(s[1..], x, p);
    }
  }

  /** `deleteByMessageId`: every attachment of the message goes, the others stay. */
  function DeleteByMessageId(as_: seq<Attachment>, messageId: Id): (r: seq<Attachment>)
    ensures forall a :: a in r <==> a in as_ && a.messageId != messageId
    ensures FindByMessageId(r, messageId) == []
  {
    var r := Filter(as_, NotOfMessage(messageId));
    CountExtremes(r, OfMessage(messageId));
    r
  }

  function NotOfMessage(messageId: Id): Attachment -> bool {
    (a: Attachment) => a.messageId != messageId
  }

  /** `findRecentAttachments`: the `limit` newest uploads of the conversation.
      The limit is a Java `int` bound into `LIMIT :limit`; a negative one is
      refused by the database and the call fails. */
  function FindRecentAttachments(as_: seq<Attachment>, ms: seq<Message>, cid: Id, limit: int): (r: Result<seq<Attachment>>)
    ensures r.Failure? <==> limit < 0
    ensures r.Success? ==> |r.value| == Min(limit, Count(as_, InConversationOnly(ms, cid)))
    ensures r.Success? ==> forall a :: a in r.value ==> a in as_ && InConversation(ms, a, cid)
    ensures r.Success? ==> forall i, j :: 0 <= i < j < |r.value| ==> r.value[i].uploadedAt >= r.value[j].uploadedAt
    ensures r.Success? ==> forall a, i :: 0 <= i < |r.value| && a in as_ && InConversation(ms, a, cid) && a !in r.value
                                          ==> a.uploadedAt <= r.value[i].uploadedAt
  {
    if limit < 0 then Failure(Error(InvalidDataAccess, "LIMIT must not be negative"))
    else
      var r := FirstInOrder(as_, InConversationOnly(ms, cid), NewestUploadFirst, limit);
      Success(r)
  }
}
