/** dev.retrotv.file.ExtendedFile, the Java revision
    (src/main/java/dev/retrotv/file/ExtendedFile.java). */
module JavaExtendedFile {

  import opened Wrappers
  import opened Strings
  import opened FileSystem

  /** The exceptions the operations below can throw. */
  datatype Error = IOError | IllegalArgument

  // ---------------------------------------------------------------------------
  // Hash algorithms

  /** ExtendedFile.EHash, the class's own selector. */
  datatype EHash =
    | CRC32 | MD5 | SHA1 | SHA224 | SHA256 | SHA384 | SHA512
    | SHA512224 | SHA512256 | SHA3224 | SHA3256 | SHA3384 | SHA3512

  /** dev.retrotv.crypto.hash.enums.EHash, the hashing library's selector. */
  datatype LibraryHash =
    | LibCRC32 | LibMD5 | LibSHA1 | LibSHA224 | LibSHA256 | LibSHA384 | LibSHA512
    | LibSHA512224 | LibSHA512256 | LibSHA3224 | LibSHA3256 | LibSHA3384 | LibSHA3512

  /** Enum.name() of an ExtendedFile.EHash constant. */
  function Name(h: EHash): string {
    match h
    case CRC32 => "CRC32"
    case MD5 => "MD5"
    case SHA1 => "SHA1"
    case SHA224 => "SHA224"
    case SHA256 => "SHA256"
    case SHA384 => "SHA384"
    case SHA512 => "SHA512"
    case SHA512224 => "SHA512224"
    case SHA512256 => "SHA512256"
    case SHA3224 => "SHA3224"
    case SHA3256 => "SHA3256"
    case SHA3384 => "SHA3384"
    case SHA3512 => "SHA3512"
  }

  /** Enum.name() of a library constant. */
  function LibraryName(h: LibraryHash): string {
    match h
    case LibCRC32 => "CRC32"
    case LibMD5 => "MD5"
    case LibSHA1 => "SHA1"
    case LibSHA224 => "SHA224"
    case LibSHA256 => "SHA256"
    case LibSHA384 => "SHA384"
    case LibSHA512 => "SHA512"
    case LibSHA512224 => "SHA512224"
    case LibSHA512256 => "SHA512256"
    case LibSHA3224 => "SHA3224"
    case LibSHA3256 => "SHA3256"
    case LibSHA3384 => "SHA3384"
    case LibSHA3512 => "SHA3512"
  }

  /** The spellings listed for each algorithm: its standard name and the name
      without '-' (and without '/'), each in upper and in lower case. */
  function TableGroup(h: EHash): set<string> {
    match h
    case CRC32 => {"CRC32", "crc32", "CRC-32", "crc-32"}
    case MD5 => {"MD5", "md5"}
    case SHA1 => {"SHA-1", "sha-1", "SHA1", "sha1"}
    case SHA224 => {"SHA-224", "sha-224", "SHA224", "sha224"}
    case SHA256 => {"SHA-256", "sha-256", "SHA256", "sha256"}
    case SHA384 => {"SHA-384", "sha-384", "SHA384", "sha384"}
    case SHA512 => {"SHA-512", "sha-512", "SHA512", "sha512"}
    case SHA512224 => {"SHA-512/224", "SHA-512224", "sha-512224", "sha-512/224", "SHA512224", "sha512224"}
    case SHA512256 => {"SHA-512/256", "SHA-512256", "sha-512256", "sha-512/256", "SHA512256", "sha512256"}
    case SHA3224 => {"SHA3-224", "sha3-224", "SHA3224", "sha3224"}
    case SHA3256 => {"SHA3-256", "sha3-256", "SHA3256", "sha3256"}
    case SHA3384 => {"SHA3-384", "sha3-384", "SHA3384", "sha3384"}
    case SHA3512 => {"SHA3-512", "sha3-512", "SHA3512", "sha3512"}
  }

  /** selectHashAlgorithm(String): a switch over exact, case-sensitive labels;
      any other string is an IllegalArgumentException. */
  function SelectHashAlgorithm(hash: string): Result<EHash, Error> {
    match hash
    case "CRC32" | "crc32" | "CRC-32" | "crc-32" => Success(CRC32)
    case "MD5" | "md5" => Success(MD5)
    case "SHA-1" | "sha-1" | "SHA1" | "sha1" => Success(SHA1)
    case "SHA-224" | "sha-224" | "SHA224" | "sha224" => Success(SHA224)
    case "SHA-256" | "sha-256" | "SHA256" | "sha256" => Success(SHA256)
    case "SHA-384" | "sha-384" | "SHA384" | "sha384" => Success(SHA384)
    case "SHA-512" | "sha-512" | "SHA512" | "sha512" => Success(SHA512)
    case "SHA-512/224" | "SHA-512224" | "sha-512224" | "sha-512/224" | "SHA512224" | "sha512224" => Success(SHA512224)
    case "SHA-512/256" | "SHA-512256" | "sha-512256" | "sha-512/256" | "SHA512256" | "sha512256" => Success(SHA512256)
    case "SHA3-224" | "sha3-224" | "SHA3224" | "sha3224" => Success(SHA3224)
    case "SHA3-256" | "sha3-256" | "SHA3256" | "sha3256" => Success(SHA3256)
    case "SHA3-384" | "sha3-384" | "SHA3384" | "sha3384" => Success(SHA3384)
    case "SHA3-512" | "sha3-512" | "SHA3512" | "sha3512" => Success(SHA3512)
    case _ => Failure(IllegalArgument)
  }

  /** The algorithm's JCA standard name. */
  function StandardName(h: EHash): string {
    match h
    case CRC32 => "CRC-32"
    case MD5 => "MD5"
    case SHA1 => "SHA-1"
    case SHA224 => "SHA-224"
    case SHA256 => "SHA-256"
    case SHA384 => "SHA-384"
    case SHA512 => "SHA-512"
    case SHA512224 => "SHA-512/224"
    case SHA512256 => "SHA-512/256"
    case SHA3224 => "SHA3-224"
    case SHA3256 => "SHA3-256"
    case SHA3384 => "SHA3-384"
    case SHA3512 => "SHA3-512"
  }

  /** selectHashAlgorithm(String) gives h exactly for the labels of h's group:
      every listed spelling selects its own algorithm, and nothing else selects
      anything. */
  lemma SelectAcceptsExactlyGroup(hash: string, h: EHash)
    ensures SelectHashAlgorithm(hash) == Success(h) <==> hash in TableGroup(h)
  {
  }

  /** Each token belongs to at most one group, so it names one algorithm. */
  lemma GroupsDisjoint(hash: string, h1: EHash, h2: EHash)
    requires hash in TableGroup(h1) && hash in TableGroup(h2)
    ensures h1 == h2
  {
    SelectAcceptsExactlyGroup(hash, h1);
    SelectAcceptsExactlyGroup(hash, h2);
  }

  /** A token outside every group is an IllegalArgumentException. */
  lemma SelectRejectsUnlisted(hash: string)
    ensures SelectHashAlgorithm(hash).Failure? <==> forall h: EHash :: hash !in TableGroup(h)
    ensures SelectHashAlgorithm(hash).Failure? ==> SelectHashAlgorithm(hash).error == IllegalArgument
  {
    if SelectHashAlgorithm(hash).Success? {
      SelectAcceptsExactlyGroup(hash, SelectHashAlgorithm(hash).value);
    }
    forall h: EHash | hash in TableGroup(h) ensures SelectHashAlgorithm(hash).Success? {
      SelectAcceptsExactlyGroup(hash, h);
    }
  }

  /** Both the enum's own name and its standard name select it. */
  lemma SelectByName(h: EHash)
    ensures SelectHashAlgorithm(Name(h)) == Success(h)
    ensures SelectHashAlgorithm(StandardName(h)) == Success(h)
  {
    SelectAcceptsExactlyGroup(Name(h), h);
    SelectAcceptsExactlyGroup(StandardName(h), h);
  }

  /** The table is case-sensitive: an upper- or a lower-case spelling is
      accepted, a mixed-case one is not, and neither is "SHA512/224". */
  lemma SelectExamples()
    ensures SelectHashAlgorithm("SHA-256") == Success(SHA256)
    ensures SelectHashAlgorithm("sha-256") == Success(SHA256)
    ensures SelectHashAlgorithm("SHA256") == Success(SHA256)
    ensures SelectHashAlgorithm("sha256") == Success(SHA256)
    ensures SelectHashAlgorithm("CRC-32") == Success(CRC32)
    ensures SelectHashAlgorithm("Sha256") == Failure(IllegalArgument)
    ensures SelectHashAlgorithm("SHA512/224") == Failure(IllegalArgument)
  {
  }

  /** selectHashAlgorithm(EHash): the library constant of the same name. The
      match is exhaustive, so the source's default branch cannot be reached. */
  function ToLibraryHash(h: EHash): (r: LibraryHash)
    ensures LibraryName(r) == Name(h)
  {
    match h
    case CRC32 => LibCRC32
    case MD5 => LibMD5
    case SHA1 => LibSHA1
    case SHA224 => LibSHA224
    case SHA256 => LibSHA256
    case SHA384 => LibSHA384
    case SHA512 => LibSHA512
    case SHA512224 => LibSHA512224
    case SHA512256 => LibSHA512256
    case SHA3224 => LibSHA3224
    case SHA3256 => LibSHA3256
    case SHA3384 => LibSHA3384
    case SHA3512 => LibSHA3512
  }

  /** Distinct selectors map to distinct library constants. */
  lemma ToLibraryHashInjective(h1: EHash, h2: EHash)
    requires ToLibraryHash(h1) == ToLibraryHash(h2)
    ensures h1 == h2
  {
    assert Name(h1) == Name(h2);
  }

  // ---------------------------------------------------------------------------
  // File names

  /** getExtension(isCompound) of a file called `name`: "" for a directory, for
      a name without '.', and when the first '.' ends the name; otherwise the
      text after the first '.' (compound) or after the last '.' (simple). */
  function Extension(name: string, isDirectory: bool, isCompound: bool): (r: string)
  {
    if isDirectory then ""
    else
      var first := IndexOf(name, '.');
      if first == -1 || first == |name| - 1 then ""
      else if isCompound then name[first + 1..]
      else name[LastIndexOf(name, '.') + 1..]
  }

  /** What getExtension returns, read back from the name: the compound form is
      the whole text after a dot-free stem and a '.'; the simple form is the
      dot-free text after the last '.'. */
  lemma ExtensionSplitsName(name: string, isDirectory: bool, isCompound: bool)
    ensures var e := Extension(name, isDirectory, isCompound);
      e != "" ==>
        !isDirectory &&
        (exists k :: name == k + "." + e && (if isCompound then '.' !in k else '.' !in e))
  {
    var e := Extension(name, isDirectory, isCompound);
    if e != "" {
      var i := if isCompound then IndexOf(name, '.') else LastIndexOf(name, '.');
      assert name == name[..i] + "." + name[i + 1..];
    }
  }

  /** Conversely, a dot-free stem, '.', and a non-empty rest has that rest as
      its compound extension, and as its simple one when the rest is dot-free. */
  lemma ExtensionOfSplit(k: string, e: string)
    requires e != ""
    ensures '.' !in k ==> Extension(k + "." + e, false, true) == e
    ensures '.' !in e ==> Extension(k + "." + e, false, false) == e
  {
    var name := k + "." + e;
    assert name == k + ['.'] + e;
    assert name[|k| + 1..] == e;
    if '.' !in k {
      IndexOfSplit(k, '.', e);
    }
    if '.' !in e {
      LastIndexOfSplit(k, '.', e);
      IndexOfAtMost(name, '.', |k|);
    }
  }

  /** getName(removeExtension, isCompound) of a file called `name`. */
  function NameOf(name: string, isDirectory: bool, removeExtension: bool, isCompound: bool): (r: string)
    ensures |r| <= |name|
  {
    if isDirectory || !removeExtension then name
    else RemoveAll(name, "." + Extension(name, false, isCompound))
  }

  /** With compound extensions, getName(true, true) of a file is the stem before
      the first '.' (the whole name when there is none). */
  lemma NameCompoundIsStem(name: string)
    ensures NameOf(name, false, true, true) ==
      if IndexOf(name, '.') == -1 then name else name[..IndexOf(name, '.')]
  {
    var first := IndexOf(name, '.');
    var e := Extension(name, false, true);
    if first == -1 {
      RemoveAllMissingChar(name, ".", '.');
    } else {
      var k := name[..first];
      assert e == name[first + 1..];
      assert name == k + ("." + e);
      RemoveAllAfterFreeStem(k, "." + e);
    }
  }

  /** With simple extensions, getName(true, false) removes "." + extension from
      everything before it as well: the result is the stem before the last '.'
      with every further occurrence of that suffix taken out. */
  lemma NameSimpleRemovesEveryOccurrence(k: string, e: string)
    requires e != "" && '.' !in e
    ensures NameOf(k + "." + e, false, true, false) == RemoveAll(k, "." + e)
  {
    ExtensionOfSplit(k, e);
    assert k + "." + e == k + ("." + e);
    RemoveAllTrailing(k, "." + e);
  }

  /** "extension.tar.gz" has compound extension "tar.gz" and simple extension
      "gz". */
  lemma ExtensionExamples()
    ensures Extension("extension.tar.gz", false, true) == "tar.gz"
    ensures Extension("extension.tar.gz", false, false) == "gz"
  {
    assert "extension.tar.gz" == "extension" + "." + "tar.gz";
    ExtensionOfSplit("extension", "tar.gz");
    assert "extension.tar.gz" == "extension.tar" + "." + "gz";
    ExtensionOfSplit("extension.tar", "gz");
  }

  /** Without its compound extension "extension.tar.gz" is "extension". */
  lemma NameCompoundExample(name: string)
    requires name == "extension.tar.gz"
    ensures NameOf(name, false, true, true) == "extension"
  {
    var stem, e := "extension", "tar.gz";
    assert name == stem + "." + e;
    NameCompoundOfSplit(stem, e);
  }

  /** A dot-free stem, '.', and any rest: without its compound extension the
      name is the stem. */
  lemma NameCompoundOfSplit(k: string, e: string)
    requires '.' !in k
    ensures NameOf(k + "." + e, false, true, true) == k
  {
    var name := k + "." + e;
    assert name == k + ['.'] + e;
    IndexOfSplit(k, '.', e);
    NameCompoundIsStem(name);
    assert name[..|k|] == k;
  }

  /** Removing every occurrence is visible on a name whose extension also
      appears inside the stem: without its simple extension "a.b.b" is "a",
      not "a.b". */
  lemma NameSimpleExample(name: string)
    requires name == "a.b.b"
    ensures Extension(name, false, false) == "b"
    ensures NameOf(name, false, true, false) == "a"
  {
    var stem, e := "a.b", "b";
    assert name == stem + "." + e;
    NameSimpleRemovesEveryOccurrence(stem, e);
    assert stem == "a" + ".b";
    RemoveAllAfterFreeStem("a", ".b");
  }

  /** When the first character of a dot-free extension does not occur in the
      stem, getName(true, false) is exactly the stem. */
  lemma NameSimpleIsStem(k: string, e: string)
    requires e != "" && '.' !in e && e[0] !in k
    ensures NameOf(k + "." + e, false, true, false) == k
  {
    NameSimpleRemovesEveryOccurrence(k, e);
    RemoveAllMissingChar(k, "." + e, e[0]);
  }

  /** getExtension() and getName(true) use the simple extension: for
      "extension.tar.gz" they give "gz" and "extension.tar". */
  lemma NameSimpleTarGzExample(name: string)
    requires name == "extension.tar.gz"
    ensures Extension(name, false, false) == "gz"
    ensures NameOf(name, false, true, false) == "extension.tar"
  {
    var stem, e := "extension.tar", "gz";
    assert name == stem + "." + e;
    ExtensionOfSplit(stem, e);
    assert 'g' !in stem;
    NameSimpleIsStem(stem, e);
  }

  // ---------------------------------------------------------------------------
  // Comparing contents

  /** matchesDeep(file): false when either file is missing (None) or the
      lengths differ; otherwise read both in step and stop at the first
      difference. The outcome is exactly equality of the contents. */
  method MatchesDeep(a: Option<Content>, b: Option<Content>) returns (r: bool)
    ensures r <==> a.Some? && b.Some? && a.value == b.value
  {
    if a.None? || b.None? {
      return false;
    }
    var x, y := a.value, b.value;
    if |x| != |y| {
      return false;
    }
    var pos := 0;
    var ch := Read(x, pos);
    while ch != -1
      invariant 0 <= pos <= |x|
      invariant ch == Read(x, pos)
      invariant x[..pos] == y[..pos]
      decreases |x| - pos
    {
      if ch != Read(y, pos) {
        assert x[pos] != y[pos];
        return false;
      }
      pos := pos + 1;
      ch := Read(x, pos);
    }
    assert x == x[..pos] && y == y[..pos];
    return true;
  }

  /** A file compared with itself matches. */
  method MatchesDeepReflexive(c: Content) returns (r: bool)
    ensures r
  {
    r := MatchesDeep(Some(c), Some(c));
  }

  /** The digest a library algorithm computes; the hashing library is not part
      of this model, so it is a parameter. */
  type Digest = (LibraryHash, Content) -> seq<int>

  /** matches(file, EHash): read both files (an IOException when one cannot be
      read), digest both with the selected algorithm and compare the digests. */
  function Matches(digest: Digest, a: Option<Content>, b: Option<Content>, h: EHash): (r: Result<bool, Error>)
    ensures r.Failure? <==> a.None? || b.None?
    ensures r.Failure? ==> r.error == IOError
    ensures r.Success? ==> (r.value <==> digest(ToLibraryHash(h), a.value) == digest(ToLibraryHash(h), b.value))
  {
    if a.None? || b.None? then Failure(IOError)
    else Success(digest(ToLibraryHash(h), a.value) == digest(ToLibraryHash(h), b.value))
  }

  /** matches(file): SHA-256. */
  function MatchesDefault(digest: Digest, a: Option<Content>, b: Option<Content>): (r: Result<bool, Error>)
    ensures r.Failure? <==> a.None? || b.None?
    ensures r.Success? ==> (r.value <==> digest(LibSHA256, a.value) == digest(LibSHA256, b.value))
  {
    Matches(digest, a, b, SHA256)
  }

  /** matches(file, String): the token is resolved before any file is read. */
  function MatchesToken(digest: Digest, a: Option<Content>, b: Option<Content>, hash: string): (r: Result<bool, Error>)
    ensures SelectHashAlgorithm(hash).Failure? ==> r == Failure(IllegalArgument)
    ensures SelectHashAlgorithm(hash).Success? ==> r == Matches(digest, a, b, SelectHashAlgorithm(hash).value)
  {
    match SelectHashAlgorithm(hash)
    case Failure(e) => Failure(e)
    case Success(h) => Matches(digest, a, b, h)
  }

  /** Identical contents match under every algorithm, whatever the digest;
      contents whose digests differ do not match (the converse of the first
      needs a collision-free digest, which is not assumed). */
  lemma MatchesIdentical(digest: Digest, c: Content, d: Content, h: EHash)
    ensures c == d ==> Matches(digest, Some(c), Some(d), h) == Success(true)
    ensures digest(ToLibraryHash(h), c) != digest(ToLibraryHash(h), d) ==> Matches(digest, Some(c), Some(d), h) == Success(false)
  {
  }

  /** Byte-by-byte equality implies the hash comparison agrees. */
  lemma DeepMatchImpliesMatch(digest: Digest, a: Option<Content>, b: Option<Content>, h: EHash)
    requires a.Some? && b.Some? && a.value == b.value
    ensures Matches(digest, a, b, h) == Success(true)
  {
  }

  // ---------------------------------------------------------------------------
  // Deleting

  /** rmFile(file): false for a missing path (Files.delete is not even
      called); otherwise one Files.delete. */
  function RmFileOutcome(env: Env, d: Disk, p: Path): (r: (bool, Disk))
    ensures Confined(d, r.1, p)
    ensures Wf(env, d) ==> Wf(env, r.1)
    ensures r.0 <==> p in d.entries && p !in r.1.entries
    ensures r.0 ==> r.1.entries == d.entries - {p}
    ensures !r.0 ==> r.1.entries == d.entries
  {
    if p !in d.entries then (false, d)
    else
      TryDeleteKeepsWf(env, d, p);
      TryDelete(env, d, p)
  }

  /** rmDirectory(file): false for a missing path or a non-directory; otherwise
      each child in listing order (rmFile for a file, rmDirectory otherwise),
      giving up at the first child that fails, and finally rmFile on the
      directory itself. */
  function RmDirectoryOutcome(env: Env, d: Disk, p: Path): (r: (bool, Disk))
    ensures Confined(d, r.1, p)
    ensures Wf(env, d) ==> Wf(env, r.1)
    ensures r.0 <==> p in d.entries && p !in r.1.entries
    ensures Wf(env, d) && r.0 ==> Subtree(r.1.entries, p) == {}
    ensures !IsDirAt(d.entries, p) ==> r == (false, d)
    decreases Subtree(d.entries, p), 1
  {
    if !IsDirAt(d.entries, p) then (false, d)
    else
      var kids := Listing(env.order, d.entries, p);
      var (ok, d1) := RmChildrenOutcome(env, d, p, kids, 0);
      if !ok then (false, d1)
      else
        TryDeleteClearsSubtree(env, d1, p);
        RmFileOutcome(env, d1, p)
  }

  /** One child of the loop: rmFile when it is a file, rmDirectory otherwise. */
  function RmChildOutcome(env: Env, d: Disk, c: Path): (r: (bool, Disk))
    ensures Confined(d, r.1, c)
    ensures Wf(env, d) ==> Wf(env, r.1)
    ensures r.0 <==> c in d.entries && c !in r.1.entries
    decreases Subtree(d.entries, c), 2
  {
    if IsFileAt(d.entries, c) then RmFileOutcome(env, d, c) else RmDirectoryOutcome(env, d, c)
  }

  /** The loop over the children kids[i..] of p, stopping at the first failure.
      The directory itself is never removed here. */
  function RmChildrenOutcome(env: Env, d: Disk, p: Path, kids: seq<Path>, i: nat): (r: (bool, Disk))
    requires p in d.entries && i <= |kids|
    requires forall k :: k in kids ==> IsChild(p, k)
    ensures Confined(d, r.1, p)
    ensures Wf(env, d) ==> Wf(env, r.1)
    ensures p in r.1.entries
    decreases Subtree(d.entries, p), 0, |kids| - i
  {
    if i == |kids| then (true, d)
    else
      var c := kids[i];
      assert c in kids && IsChild(p, c);
      SubtreeOfChild(d.entries, p, c);
      var (ok, d1) := RmChildOutcome(env, d, c);
      if !ok then (false, d1)
      else
        assert c in Subtree(d.entries, p) - Subtree(d1.entries, p);
        var r := RmChildrenOutcome(env, d1, p, kids, i + 1);
        ConfinedTrans(d, d1, r.1, c, p);
        r
  }

  /** rm(recursive): rmFile on a file or when not recursive, rmDirectory
      otherwise. */
  function RmOutcome(env: Env, d: Disk, p: Path, recursive: bool): (r: (bool, Disk))
    ensures Confined(d, r.1, p)
    ensures Wf(env, d) ==> Wf(env, r.1)
    ensures r.0 <==> p in d.entries && p !in r.1.entries
  {
    if IsFileAt(d.entries, p) || !recursive then RmFileOutcome(env, d, p)
    else RmDirectoryOutcome(env, d, p)
  }

  /** rmFile(file) on the live filesystem. */
  method RmFile(fs: FileSystem, p: Path) returns (ok: bool)
    modifies fs
    ensures (ok, fs.State()) == RmFileOutcome(fs.Environment(), old(fs.State()), p)
  {
    if !fs.Exists(p) {
      return false;
    }
    ok := fs.Delete(p);
  }

  /** rmDirectory(file) on the live filesystem: the listing is taken once, then
      each child is removed in turn, returning false at the first failure. */
  method RmDirectory(fs: FileSystem, p: Path) returns (ok: bool)
    modifies fs
    ensures (ok, fs.State()) == RmDirectoryOutcome(fs.Environment(), old(fs.State()), p)
    decreases Subtree(fs.entries, p), 1
  {
    if !fs.Exists(p) || !fs.IsDirectory(p) {
      return false;
    }
    ghost var d0 := fs.State();
    ghost var env := fs.Environment();
    var listing := fs.ListFiles(p);
    var kids := if listing.Some? then listing.value else [];
    ghost var whole := RmChildrenOutcome(env, d0, p, kids, 0);
    var i := 0;
    while i < |kids|
      invariant 0 <= i <= |kids|
      invariant p in fs.entries
      invariant Subtree(fs.entries, p) <= Subtree(d0.entries, p)
      invariant RmChildrenOutcome(env, fs.State(), p, kids, i) == whole
    {
      var c := kids[i];
      assert c in kids && IsChild(p, c);
      ghost var before := fs.State();
      var childOk := RmChild(fs, p, c);
      ghost var after := fs.State();
      RmChildrenAdvance(env, before, after, p, kids, i, childOk);
      if !childOk {
        return false;
      }
      i := i + 1;
    }
    ok := RmFile(fs, p);
  }

  /** The body of the loop for one child c of p: rmFile when it is a file,
      rmDirectory otherwise. */
  method RmChild(fs: FileSystem, ghost p: Path, c: Path) returns (ok: bool)
    requires p in fs.entries && IsChild(p, c)
    modifies fs
    ensures (ok, fs.State()) == RmChildOutcome(fs.Environment(), old(fs.State()), c)
    decreases Subtree(fs.entries, p), 0
  {
    SubtreeOfChild(fs.entries, p, c);
    if fs.IsFile(c) {
      ok := RmFile(fs, c);
    } else {
      ok := RmDirectory(fs, c);
    }
  }

  /** One step of the loop: a child that fails ends it with false; a child
      whose removal succeeded passes the rest of the loop on to its siblings. */
  lemma RmChildrenAdvance(env: Env, d: Disk, d': Disk, p: Path, kids: seq<Path>, i: nat, ok: bool)
    requires p in d.entries && i < |kids|
    requires forall k :: k in kids ==> IsChild(p, k)
    requires RmChildOutcome(env, d, kids[i]) == (ok, d')
    ensures !ok ==> RmChildrenOutcome(env, d, p, kids, i) == (false, d')
    ensures ok ==> p in d'.entries
    ensures ok ==> Subtree(d'.entries, p) <= Subtree(d.entries, p)
    ensures ok ==> RmChildrenOutcome(env, d', p, kids, i + 1) == RmChildrenOutcome(env, d, p, kids, i)
  {
    var c := kids[i];
    assert c in kids && IsChild(p, c);
    assert !(c <= p);
    SubtreeShrinks(d, d', c, p);
  }

  /** rm(recursive) on the live filesystem. */
  method Rm(fs: FileSystem, p: Path, recursive: bool) returns (ok: bool)
    modifies fs
    ensures (ok, fs.State()) == RmOutcome(fs.Environment(), old(fs.State()), p, recursive)
  {
    if fs.IsFile(p) {
      ok := RmFile(fs, p);
    } else if !recursive {
      ok := RmFile(fs, p);
    } else {
      ok := RmDirectory(fs, p);
    }
  }

  /** rm() / rm(false) on a directory that still has entries fails (the one
      Files.delete call is refused) and removes nothing. */
  lemma RmNonEmptyDirectoryFails(env: Env, d: Disk, p: Path)
    requires IsDirAt(d.entries, p) && HasChildren(d.entries, p)
    ensures !RmOutcome(env, d, p, false).0
    ensures RmOutcome(env, d, p, false).1.entries == d.entries
    ensures RmOutcome(env, d, p, false).1.attempts == d.attempts + 1
  {
  }

  /** Deleting a missing path fails without calling Files.delete at all. */
  lemma RmMissing(env: Env, d: Disk, p: Path, recursive: bool)
    requires p !in d.entries
    ensures RmOutcome(env, d, p, recursive) == (false, d)
  {
  }

  /** Fail-fast: once the child kids[i] fails, the loop stops there. Nothing
      at or below a later sibling is touched, no further Files.delete call is
      made, and the directory itself stays. */
  lemma RmChildrenStopsAtFailure(env: Env, d: Disk, p: Path, kids: seq<Path>, i: nat)
    requires p in d.entries && i < |kids|
    requires forall k :: k in kids ==> IsChild(p, k)
    requires NoDup(kids)
    requires !RmChildOutcome(env, d, kids[i]).0
    ensures !RmChildrenOutcome(env, d, p, kids, i).0
    ensures RmChildrenOutcome(env, d, p, kids, i).1.attempts == RmChildOutcome(env, d, kids[i]).1.attempts
    ensures forall j, q :: i < j < |kids| && q in d.entries && kids[j] <= q ==>
      q in RmChildrenOutcome(env, d, p, kids, i).1.entries
  {
    var c := kids[i];
    var d1 := RmChildOutcome(env, d, c).1;
    forall j, q | i < j < |kids| && q in d.entries && kids[j] <= q ensures q in d1.entries {
      assert kids[j] in kids && c in kids && kids[j] != c;
      SiblingsDisjoint(p, c, kids[j], q);
    }
  }

  /** When no Files.delete call fails, rmDirectory removes exactly the
      directory's subtree and returns true. */
  lemma {:induction false} RmDirectoryComplete(env: Env, d: Disk, p: Path)
    requires Wf(env, d) && env.faults == {} && IsDirAt(d.entries, p)
    ensures RmDirectoryOutcome(env, d, p).0
    ensures forall q :: q in RmDirectoryOutcome(env, d, p).1.entries <==> q in d.entries && !(p <= q)
    decreases Subtree(d.entries, p), 1
  {
    var kids := Listing(env.order, d.entries, p);
    RmChildrenComplete(env, d, p, kids, 0);
    var d1 := RmChildrenOutcome(env, d, p, kids, 0).1;
    ClearedChildren(d.entries, d1.entries, kids, p);
    assert p in d1.entries;
    LeafRemovalFaultFree(env, d1, p);
    assert RmDirectoryOutcome(env, d, p) == RmFileOutcome(env, d1, p);
  }

  /** rmFile on an existing entry without children, fault-free, removes it. */
  lemma LeafRemovalFaultFree(env: Env, d: Disk, p: Path)
    requires env.faults == {} && p in d.entries && !HasChildren(d.entries, p)
    ensures RmFileOutcome(env, d, p) == (true, Disk(d.entries - {p}, d.attempts + 1, d.removed + [p]))
  {
  }

  /** One child, fault-free: its whole subtree goes. */
  lemma {:induction false} RmChildComplete(env: Env, d: Disk, c: Path)
    requires Wf(env, d) && env.faults == {} && c in d.entries
    ensures RmChildOutcome(env, d, c).0
    ensures forall q :: q in RmChildOutcome(env, d, c).1.entries <==> q in d.entries && !(c <= q)
    decreases Subtree(d.entries, c), 2
  {
    if IsFileAt(d.entries, c) {
      FileHasNoChildren(d.entries, c);
      forall q | c < q ensures q !in d.entries {
        NoDescendants(env, d, c, q);
      }
    } else {
      RmDirectoryComplete(env, d, c);
    }
  }

  /** The loop, fault-free: every listed child's subtree goes, nothing else. */
  lemma {:induction false} RmChildrenComplete(env: Env, d: Disk, p: Path, kids: seq<Path>, i: nat)
    requires Wf(env, d) && env.faults == {}
    requires p in d.entries && i <= |kids|
    requires forall k :: k in kids ==> IsChild(p, k)
    requires NoDup(kids)
    requires forall j :: i <= j < |kids| ==> kids[j] in d.entries
    ensures RmChildrenOutcome(env, d, p, kids, i).0
    ensures forall q :: q in RmChildrenOutcome(env, d, p, kids, i).1.entries <==>
      q in d.entries && !UnderAny(kids, i, q)
    decreases Subtree(d.entries, p), 0, |kids| - i
  {
    if i < |kids| {
      var c := kids[i];
      assert c in kids && IsChild(p, c);
      SubtreeOfChild(d.entries, p, c);
      RmChildComplete(env, d, c);
      var d1 := RmChildOutcome(env, d, c).1;
      SiblingsSurvive(d.entries, d1.entries, p, kids, i);
      assert c in Subtree(d.entries, p) - Subtree(d1.entries, p);
      RmChildrenComplete(env, d1, p, kids, i + 1);
      var r := RmChildrenOutcome(env, d1, p, kids, i + 1);
      assert RmChildrenOutcome(env, d, p, kids, i) == r;
      forall q ensures q in r.1.entries <==> q in d.entries && !UnderAny(kids, i, q) {
        UnderAnySplit(kids, i, q);
      }
    }
  }

}
