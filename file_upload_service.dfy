/** `FileUploadService`: the checks on an uploaded file and the name under
    which it is stored. The bytes, the directories and the random UUID are not
    modelled: the UUID is a parameter. */
module FileUploadService {
  import opened Common

  /** What the service reads from a `MultipartFile`. */
  datatype UploadedFile = UploadedFile(originalFilename: Option<string>, contentType: Option<string>, size: nat) {
    predicate IsEmpty() { size == 0 }
  }

  const IMAGE_TYPES: seq<string> := ["image/jpeg", "image/jpg", "image/png", "image/gif", "image/webp"]
  const VIDEO_TYPES: seq<string> := ["video/mp4", "video/avi", "video/mov", "video/wmv"]

  /** `isValidImageFile`: non-empty, and the content type is one of the five
      image types, compared exactly. */
  predicate IsValidImageFile(f: UploadedFile) {
    !f.IsEmpty() && f.contentType.Some? && f.contentType.value in IMAGE_TYPES
  }

  /** `isValidVideoFile`: non-empty, and the content type is one of the four
      video types, compared exactly. */
  predicate IsValidVideoFile(f: UploadedFile) {
    !f.IsEmpty() && f.contentType.Some? && f.contentType.value in VIDEO_TYPES
  }

  /** `isValidFileSize(file, maxSizeInBytes)`. */
  predicate IsValidFileSize(f: UploadedFile, maxSizeInBytes: int) {
    f.size <= maxSizeInBytes
  }

  /** The extension `uploadFile` keeps: from the last '.' of the original name
      to its end, or nothing when the name is missing or has no '.'. */
  function Extension(originalFilename: Option<string>): (e: string)
    ensures originalFilename.None? || '.' !in originalFilename.value ==> e == []
    ensures originalFilename.Some? && '.' in originalFilename.value ==>
              && e != [] && e[0] == '.' && '.' !in e[1..]
              && |e| <= |originalFilename.value|
              && originalFilename.value == originalFilename.value[..|originalFilename.value| - |e|] + e
  {
    if originalFilename.None? then []
    else match LastIndexOf(originalFilename.value, '.')
      case None => []
      case Some(i) => originalFilename.value[i..]
  }

  /** `uploadFile(file, subDirectory)`: the returned relative path is the sub
      directory, a slash, the unique name and the original extension. */
  method UploadFile(f: UploadedFile, subDirectory: string, uuid: string) returns (path: string)
    ensures path == subDirectory + "/" + uuid + Extension(f.originalFilename)
  {
    var originalFilename := f.originalFilename;
    var fileExtension := "";
    if originalFilename.Some? && '.' in originalFilename.value {
      var dot := LastIndexOf(originalFilename.value, '.').value;
      fileExtension := originalFilename.value[dot..];
    }
    var uniqueFilename := uuid + fileExtension;
    path := subDirectory + "/" + uniqueFilename;
  }

  /** The path can be taken apart again: the sub directory, the slash, the
      UUID and an extension that is either empty or a final '.'-suffix of the
      original name. */
  lemma UploadPathParts(f: UploadedFile, subDirectory: string, uuid: string)
    ensures var path := subDirectory + "/" + uuid + Extension(f.originalFilename);
      var n := |subDirectory| + 1 + |uuid|;
      && |path| >= n
      && path[..|subDirectory|] == subDirectory && path[|subDirectory|] == '/'
      && path[|subDirectory| + 1..n] == uuid
      && (path[n..] == [] <==> f.originalFilename.None? || '.' !in f.originalFilename.value)
      && (path[n..] != [] ==> path[n] == '.' && '.' !in path[n + 1..])
  {
    var e := Extension(f.originalFilename);
    var path := subDirectory + "/" + uuid + e;
    var n := |subDirectory| + 1 + |uuid|;
    assert path[n..] == e;
    assert path[..|subDirectory|] == subDirectory;
    assert path[|subDirectory| + 1..n] == uuid;
  }

  /** A valid image is a non-empty file whose content type carries the
      "image/" prefix, and a valid video one with the "video/" prefix; no file
      is both. */
  lemma ValidTypesArePrefixed(f: UploadedFile)
    ensures IsValidImageFile(f) ==> f.size > 0 && StartsWith(f.contentType.value, "image/")
    ensures IsValidVideoFile(f) ==> f.size > 0 && StartsWith(f.contentType.value, "video/")
    ensures !(IsValidImageFile(f) && IsValidVideoFile(f))
  {
    if IsValidImageFile(f) {
      var t := f.contentType.value;
      assert t[..6] == "image/";
    }
    if IsValidVideoFile(f) {
      var t := f.contentType.value;
      assert t[..6] == "video/";
    }
  }

  /** The comparison is exact: a different case or a parameter is refused. */
  lemma ImageTypesExact()
    ensures !IsValidImageFile(UploadedFile(Some("a.png"), Some("IMAGE/PNG"), 1))
    ensures !IsValidImageFile(UploadedFile(Some("a.png"), Some("image/png; q=1"), 1))
    ensures !IsValidImageFile(UploadedFile(Some("a.png"), Some("image/png"), 0))
    ensures IsValidImageFile(UploadedFile(None, Some("image/webp"), 1))
  {
    assert "IMAGE/PNG"[0] != "image/jpeg"[0];
    assert |"image/png; q=1"| == 14;
  }

  /** The size bound is inclusive. */
  lemma FileSizeBoundInclusive(f: UploadedFile, maxSizeInBytes: int)
    ensures f.size == maxSizeInBytes ==> IsValidFileSize(f, maxSizeInBytes)
    ensures f.size == maxSizeInBytes + 1 ==> !IsValidFileSize(f, maxSizeInBytes)
  {
  }
}
