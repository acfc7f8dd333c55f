/** `MessageAttachment`: a file stored for a message, with its MIME type and
    optional media metadata, and the helpers that classify and describe it. */
module Attachments {
  import opened Common

  const IMAGE_PREFIX := "image/"
  const VIDEO_PREFIX := "video/"
  const AUDIO_PREFIX := "audio/"

  datatype Attachment = Attachment(
    id: Id,
    messageId: Id,
    fileName: Option<string>,
    filePath: Option<string>,
    fileSize: Option<nat>,
    mimeType: Option<string>,
    uploadedAt: Time,
    thumbnailPath: Option<string>,
    duration: Option<int>,
    width: Option<int>,
    height: Option<int>,
    isCompressed: bool,
    compressionQuality: Option<int>)
  {
    predicate IsImage() { mimeType.Some? && StartsWith(mimeType.value, IMAGE_PREFIX) }
    predicate IsVideo() { mimeType.Some? && StartsWith(mimeType.value, VIDEO_PREFIX) }
    predicate IsAudio() { mimeType.Some? && StartsWith(mimeType.value, AUDIO_PREFIX) }

    predicate IsDocument() {
      mimeType.Some?
      && !StartsWith(mimeType.value, IMAGE_PREFIX)
      && !StartsWith(mimeType.value, VIDEO_PREFIX)
      && !StartsWith(mimeType.value, AUDIO_PREFIX)
    }

    /** `getFileExtension()`: the lower-cased text after the last '.', or "" when
        there is no name or no dot. */
    function FileExtension(): (r: string)
      ensures fileName.None? || '.' !in fileName.value ==> r == ""
      ensures fileName.Some? && '.' in fileName.value ==>
                var n := fileName.value;
                |r| < |n| && n[|n| - |r| - 1] == '.' && '.' !in r && r == ToLower(n[|n| - |r|..])
    {
      if fileName.Some? && '.' in fileName.value then
        var n := fileName.value;
        var dot := LastIndexOf(n, '.');
        var r := ToLower(n[dot.value + 1..]);
        assert n[|n| - |r|..] == n[dot.value + 1..];
        r
      else ""
    }

    predicate HasThumbnail() { thumbnailPath.Some? && thumbnailPath.value != [] }

    predicate HasDimensions() {
      width.Some? && height.Some? && width.value > 0 && height.value > 0
    }

    predicate HasDuration() { duration.Some? && duration.value > 0 }

    /** `getDurationFormatted()`: `%02d:%02d` of minutes and seconds, or "00:00"
        without a positive duration. */
    function DurationFormatted(): (r: string)
      ensures !HasDuration() ==> r == "00:00"
      ensures HasDuration() ==> |r| >= 5 && r[|r| - 3] == ':' && AllDigits(r[..|r| - 3]) && AllDigits(r[|r| - 2..])
    {
      if !HasDuration() then "00:00"
      else
        var d := duration.value;
        var r := Pad2(d / 60) + ":" + Pad2(d % 60);
        assert r[..|r| - 3] == Pad2(d / 60) && r[|r| - 2..] == Pad2(d % 60);
        r
    }
  }

  /** Every present MIME type falls in exactly one of the four categories, and an
      absent one in none. */
  lemma MimeCategories(a: Attachment)
    ensures a.mimeType.None? ==> !a.IsImage() && !a.IsVideo() && !a.IsAudio() && !a.IsDocument()
    ensures a.mimeType.Some? ==> a.IsImage() || a.IsVideo() || a.IsAudio() || a.IsDocument()
    ensures !(a.IsImage() && a.IsVideo()) && !(a.IsImage() && a.IsAudio()) && !(a.IsVideo() && a.IsAudio())
    ensures a.IsDocument() ==> !a.IsImage() && !a.IsVideo() && !a.IsAudio()
  {
    if a.mimeType.Some? {
      var m := a.mimeType.value;
      if StartsWith(m, IMAGE_PREFIX) { assert m[0] == 'i'; }
      if StartsWith(m, VIDEO_PREFIX) { assert m[0] == 'v'; }
      if StartsWith(m, AUDIO_PREFIX) { assert m[0] == 'a'; }
    }
  }

  /** The formatted duration reads back as the duration: minutes before the colon,
      two-digit seconds after it. */
  lemma DurationRoundTrip(a: Attachment)
    requires a.HasDuration()
    ensures var r := a.DurationFormatted();
      ParseNat(r[..|r| - 3]) * 60 + ParseNat(r[|r| - 2..]) == a.duration.value
  {
    var d := a.duration.value;
    var minutes, seconds := d / 60, d % 60;
    assert d == minutes * 60 + seconds;
    var r := a.DurationFormatted();
    assert r == Pad2(minutes) + ":" + Pad2(seconds);
    assert r[..|r| - 3] == Pad2(minutes) && r[|r| - 2..] == Pad2(seconds);
    ParsePad2(minutes);
    ParsePad2(seconds);
  }

  /** Short durations: exactly "mm:ss" with both fields two digits. */
  lemma DurationUnderAnHour(a: Attachment)
    requires a.HasDuration() && a.duration.value < 3600
    ensures |a.DurationFormatted()| == 5
  {
  }

  /** An extension is read off the last dot only: a name with two dots gives the
      text after the second one. */
  lemma ExtensionAfterLastDot(a: Attachment)
    requires a.fileName == Some("archive.TAR.GZ")
    ensures a.FileExtension() == "gz"
  {
    var n := "archive.TAR.GZ";
    assert n[11] == '.' && n[12..] == "GZ";
    assert '.' !in n[12..];
    var r := a.FileExtension();
    assert r == ToLower("GZ");
    assert ToLower("GZ") == "gz" by {
      assert LowerChar('G') == 'g' && LowerChar('Z') == 'z';
    }
  }
}
