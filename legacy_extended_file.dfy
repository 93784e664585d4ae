/** dev.retrotv.ExtendedFile, the older and smaller Kotlin revision
    (src/main/kotlin/dev/retrotv/ExtendedFile.kt): MIME categories, hash
    delegation and the character-by-character comparison. */
module LegacyExtendedFile {

  import opened Wrappers
  import opened FileSystem

  /** The exception matchesDeep can throw: opening a missing file. */
  datatype Error = IOError

  // ---------------------------------------------------------------------------
  // MIME types

  /** Tika.detect: the MIME type detected for a file's content. The detector
      is not part of this model, so it is a parameter. */
  type Detector = Content -> string

  /** The four categories the class can test for. */
  datatype Category = Image | Text | Audio | Video

  /** The MIME prefix that marks each category. */
  function Prefix(k: Category): string {
    match k
    case Image => "image/"
    case Text => "text/"
    case Audio => "audio/"
    case Video => "video/"
  }

  /** mime.startsWith(Prefix(k)). */
  predicate IsCategory(mime: string, k: Category) {
    Prefix(k) <= mime
  }

  /** isImage(), isText(), isAudio(), isVideo(): the detected type starts with
      the category's prefix. */
  predicate IsImage(detect: Detector, c: Content) {
    IsCategory(detect(c), Image)
  }

  predicate IsText(detect: Detector, c: Content) {
    IsCategory(detect(c), Text)
  }

  predicate IsAudio(detect: Detector, c: Content) {
    IsCategory(detect(c), Audio)
  }

  predicate IsVideo(detect: Detector, c: Content) {
    IsCategory(detect(c), Video)
  }

  /** matchesMimeType(mimeType): exact equality with the detected type. */
  predicate MatchesMimeType(detect: Detector, c: Content, mimeType: string) {
    detect(c) == mimeType
  }

  /** The four prefixes differ in their first character, so no MIME string
      is in two categories. */
  lemma AtMostOneCategory(mime: string, k1: Category, k2: Category)
    requires IsCategory(mime, k1) && IsCategory(mime, k2)
    ensures k1 == k2
  {
    assert Prefix(k1)[0] == mime[0] == Prefix(k2)[0];
  }

  /** For any file, at most one of isImage, isText, isAudio and isVideo holds. */
  lemma CategoriesExclusive(detect: Detector, c: Content)
    ensures IsImage(detect, c) ==> !IsText(detect, c) && !IsAudio(detect, c) && !IsVideo(detect, c)
    ensures IsText(detect, c) ==> !IsAudio(detect, c) && !IsVideo(detect, c)
    ensures IsAudio(detect, c) ==> !IsVideo(detect, c)
  {
    var mime := detect(c);
    forall k1, k2 | IsCategory(mime, k1) && IsCategory(mime, k2) ensures k1 == k2 {
      AtMostOneCategory(mime, k1, k2);
    }
  }

  /** A file detected as "text/plain" is text and nothing else, and matches
      that exact type. */
  lemma PlainTextExample(detect: Detector, c: Content, mime: string)
    requires mime == "text/plain" && detect(c) == mime
    ensures IsText(detect, c) && MatchesMimeType(detect, c, "text/plain")
    ensures !IsImage(detect, c) && !IsAudio(detect, c) && !IsVideo(detect, c)
  {
    assert mime[..5] == "text/";
    CategoriesExclusive(detect, c);
  }

  /** Once matchesMimeType(mime) holds, the four category tests are decided by
      `mime` alone, and at most one of them holds. */
  lemma MimeTypeDecidesCategory(detect: Detector, c: Content, mime: string)
    requires MatchesMimeType(detect, c, mime)
    ensures IsImage(detect, c) <==> "image/" <= mime
    ensures IsText(detect, c) <==> "text/" <= mime
    ensures IsAudio(detect, c) <==> "audio/" <= mime
    ensures IsVideo(detect, c) <==> "video/" <= mime
    ensures "text/" <= mime ==> !IsImage(detect, c) && !IsAudio(detect, c) && !IsVideo(detect, c)
  {
    CategoriesExclusive(detect, c);
  }

  // ---------------------------------------------------------------------------
  // Hashes

  /** The hashing library's FileHash, which is not part of this model: the
      name of its algorithm and the hex digest it computes for a content. */
  datatype FileHash = FileHash(algorithm: string, hash: Content -> string)

  /** The default argument of matches and getHashCode: SHA256(). */
  function DefaultFileHash(sha256: Content -> string): (fh: FileHash)
    ensures fh.algorithm == "SHA256" && fh.hash == sha256
  {
    FileHash("SHA256", sha256)
  }

  /** getHashCode(fileHash): fileHash.hash(this). */
  function GetHashCode(fileHash: FileHash, a: Content): string {
    fileHash.hash(a)
  }

  /** matches(file, fileHash): fileHash.matches(this, file), taken to compare
      the two digests. Two files match iff their hash codes are equal. */
  function Matches(fileHash: FileHash, a: Content, b: Content): (r: bool)
    ensures r <==> GetHashCode(fileHash, a) == GetHashCode(fileHash, b)
  {
    fileHash.hash(a) == fileHash.hash(b)
  }

  /** matches(file) with the default argument: the SHA-256 digests of the two
      files are equal. */
  function MatchesDefault(sha256: Content -> string, a: Content, b: Content): (r: bool)
    ensures r <==> sha256(a) == sha256(b)
  {
    Matches(DefaultFileHash(sha256), a, b)
  }

  /** getHashCode() with the default argument: the SHA-256 digest. */
  function GetHashCodeDefault(sha256: Content -> string, a: Content): (r: string)
    ensures r == sha256(a)
  {
    GetHashCode(DefaultFileHash(sha256), a)
  }

  /** The two default overloads agree: matches(file) holds exactly when
      getHashCode() gives the same string for both files, and identical
      contents always match. */
  lemma MatchesDefaultByHashCode(sha256: Content -> string, a: Content, b: Content)
    ensures MatchesDefault(sha256, a, b) <==> GetHashCodeDefault(sha256, a) == GetHashCodeDefault(sha256, b)
    ensures a == b ==> MatchesDefault(sha256, a, b)
  {
  }

  // ---------------------------------------------------------------------------
  // Comparing contents

  /** matchesDeep(file): opening a missing file throws an IOException;
      otherwise read the first file to its end, each unit against the next
      unit of the second. There is no check that the second file ends too, so
      the outcome is "the first content is a prefix of the second". `stop` is
      the position of the last unit read from the first file: on false it is
      the first position where the files differ, and nothing after it is
      read. */
  method MatchesDeep(a: Option<Content>, b: Option<Content>) returns (r: Result<bool, Error>, stop: nat)
    ensures r.Failure? <==> a.None? || b.None?
    ensures r.Success? ==> (r.value <==> a.value <= b.value)
    ensures r.Success? ==> stop <= |a.value| && stop <= |b.value| && a.value[..stop] == b.value[..stop]
    ensures r.Success? && r.value ==> stop == |a.value|
    ensures r.Success? && !r.value ==>
      stop < |a.value| && (stop >= |b.value| || a.value[stop] != b.value[stop])
  {
    stop := 0;
    if a.None? || b.None? {
      return Failure(IOError), stop;
    }
    var x, y := a.value, b.value;
    var ch := Read(x, stop);
    while ch != -1
      invariant 0 <= stop <= |x| && stop <= |y|
      invariant ch == Read(x, stop)
      invariant x[..stop] == y[..stop]
      decreases |x| - stop
    {
      if ch != Read(y, stop) {
        assert stop < |x|;
        assert !(x <= y) by {
          if stop < |y| {
            assert x[stop] != y[stop];
          }
        }
        return Success(false), stop;
      }
      stop := stop + 1;
      ch := Read(x, stop);
    }
    assert x == y[..stop];
    return Success(true), stop;
  }

  /** matchesDeep is reflexive: an existing file matches itself. */
  method MatchesDeepReflexive(c: Content) returns (r: Result<bool, Error>)
    ensures r == Success(true)
  {
    var stop;
    r, stop := MatchesDeep(Some(c), Some(c));
  }

  /** As written it accepts a proper prefix: "ab" matches "abc", although
      "abc" does not match "ab". */
  method MatchesDeepPrefixExample() returns (r1: Result<bool, Error>, r2: Result<bool, Error>)
    ensures r1 == Success(true) && r2 == Success(false)
  {
    var stop;
    r1, stop := MatchesDeep(Some([97, 98]), Some([97, 98, 99]));
    assert !([97, 98, 99] <= [97, 98]);
    r2, stop := MatchesDeep(Some([97, 98, 99]), Some([97, 98]));
  }
}
