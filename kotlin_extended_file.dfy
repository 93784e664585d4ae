/** dev.retrotv.file.ExtendedFile, the Kotlin revision
    (src/main/kotlin/dev/retrotv/file/ExtendedFile.kt). */
module KotlinExtendedFile {

  import opened Wrappers
  import opened Strings
  import opened FileSystem

  /** The exceptions the operations below can throw. */
  datatype Error = IOError | IllegalArgument

  // ---------------------------------------------------------------------------
  // Hash algorithms

  /** The constants of dev.retrotv.crypto.enums.EHash that the table below can
      produce. */
  datatype EHash =
    | MD5 | SHA1 | SHA224 | SHA256 | SHA384 | SHA512
    | SHA3224 | SHA3256 | SHA3384 | SHA3512

  /** The spellings listed for each algorithm. */
  function TableGroup(h: EHash): set<string> {
    match h
    case MD5 => {"MD5", "md5"}
    case SHA1 => {"SHA-1", "sha-1", "SHA1", "sha1"}
    case SHA224 => {"SHA-224", "sha-224", "SHA224", "sha224"}
    case SHA256 => {"SHA-256", "sha-256", "SHA256", "sha256"}
    case SHA384 => {"SHA-384", "sha-384", "SHA384", "sha384"}
    case SHA512 => {"SHA-512", "sha-512", "SHA512", "sha512"}
    case SHA3224 => {"SHA3-224", "sha3-224", "SHA3224", "sha3224"}
    case SHA3256 => {"SHA3-256", "sha3-256", "SHA3256", "sha3256"}
    case SHA3384 => {"SHA3-384", "sha3-384", "SHA3384", "sha3384"}
    case SHA3512 => {"SHA3-512", "sha3-512", "SHA3512", "sha3512"}
  }

  /** selectHashAlgorithm(hash): a `when` over exact, case-sensitive labels;
      any other string is an IllegalArgumentException. */
  function SelectHashAlgorithm(hash: string): Result<EHash, Error> {
    match hash
    case "MD5" | "md5" => Success(MD5)
    case "SHA-1" | "sha-1" | "SHA1" | "sha1" => Success(SHA1)
    case "SHA-224" | "sha-224" | "SHA224" | "sha224" => Success(SHA224)
    case "SHA-256" | "sha-256" | "SHA256" | "sha256" => Success(SHA256)
    case "SHA-384" | "sha-384" | "SHA384" | "sha384" => Success(SHA384)
    case "SHA-512" | "sha-512" | "SHA512" | "sha512" => Success(SHA512)
    case "SHA3-224" | "sha3-224" | "SHA3224" | "sha3224" => Success(SHA3224)
    case "SHA3-256" | "sha3-256" | "SHA3256" | "sha3256" => Success(SHA3256)
    case "SHA3-384" | "sha3-384" | "SHA3384" | "sha3384" => Success(SHA3384)
    case "SHA3-512" | "sha3-512" | "SHA3512" | "sha3512" => Success(SHA3512)
    case _ => Failure(IllegalArgument)
  }

  /** Every listed spelling selects its own algorithm, and nothing else selects
      anything. */
  lemma SelectAcceptsExactlyGroup(hash: string, h: EHash)
    ensures SelectHashAlgorithm(hash) == Success(h) <==> hash in TableGroup(h)
  {
  }

  /** A string in no group is rejected with IllegalArgumentException, and a
      rejected string is in no group. */
  lemma SelectRejectsUnlisted(hash: string)
    ensures SelectHashAlgorithm(hash).Failure? <==> forall h :: hash !in TableGroup(h)
    ensures SelectHashAlgorithm(hash).Failure? ==> SelectHashAlgorithm(hash).error == IllegalArgument
  {
    if SelectHashAlgorithm(hash).Success? {
      SelectAcceptsExactlyGroup(hash, SelectHashAlgorithm(hash).value);
    }
  }

  /** This revision has no CRC-32, SHA-512/224 or SHA-512/256, and stays
      case-sensitive. */
  lemma SelectRejectsDroppedAlgorithms()
    ensures SelectHashAlgorithm("CRC32") == Failure(IllegalArgument)
    ensures SelectHashAlgorithm("crc-32") == Failure(IllegalArgument)
    ensures SelectHashAlgorithm("SHA-512/224") == Failure(IllegalArgument)
    ensures SelectHashAlgorithm("sha512256") == Failure(IllegalArgument)
    ensures SelectHashAlgorithm("Sha256") == Failure(IllegalArgument)
    ensures SelectHashAlgorithm("sha-256") == Success(SHA256)
  {
  }

  // ---------------------------------------------------------------------------
  // File names

  /** getExtension() of a file called `name`: "" for a directory; otherwise
      name.substringAfter('.'), unless that is the whole name (no '.'). */
  function Extension(name: string, isDirectory: bool): (r: string)
  {
    if isDirectory then ""
    else
      var extension := SubstringAfter(name, '.');
      if name == extension then "" else extension
  }

  /** getName(removeExtension) of a file called `name`. */
  function NameOf(name: string, isDirectory: bool, removeExtension: bool): (r: string)
    ensures |r| <= |name|
  {
    if isDirectory || !removeExtension then name
    else RemoveAll(name, "." + Extension(name, false))
  }

  /** A dot-free stem, '.', and any rest has that rest as its extension and
      the stem as its name. */
  lemma NameOfSplit(k: string, e: string)
    requires '.' !in k
    ensures Extension(k + "." + e, false) == e
    ensures NameOf(k + "." + e, false, true) == k
  {
    var name := k + "." + e;
    assert name == k + ['.'] + e;
    IndexOfSplit(k, '.', e);
    assert name[|k| + 1..] == e;
    assert |e| < |name|;
    assert name == k + ("." + e);
    RemoveAllAfterFreeStem(k, "." + e);
  }

  /** A name without '.' has no extension and is its own name. */
  lemma NameWithoutDot(name: string)
    requires '.' !in name
    ensures Extension(name, false) == ""
    ensures NameOf(name, false, true) == name
  {
    assert "." + Extension(name, false) == ".";
    RemoveAllMissingChar(name, ".", '.');
  }

  /** The extension is everything after the first '.' ("" when there is no
      '.'), and the name without it is the stem before that '.' (the whole
      name when there is none). */
  lemma ExtensionAfterFirstDot(name: string)
    ensures IndexOf(name, '.') == -1 ==> Extension(name, false) == "" && NameOf(name, false, true) == name
    ensures IndexOf(name, '.') != -1 ==>
      Extension(name, false) == name[IndexOf(name, '.') + 1..] &&
      NameOf(name, false, true) == name[..IndexOf(name, '.')]
  {
    var first := IndexOf(name, '.');
    if first == -1 {
      NameWithoutDot(name);
    } else {
      var stem, e := name[..first], name[first + 1..];
      assert name == stem + "." + e;
      NameOfSplit(stem, e);
    }
  }

  /** "extension.tar.gz" has extension "tar.gz" and name "extension". */
  lemma CompoundExample(name: string)
    requires name == "extension.tar.gz"
    ensures Extension(name, false) == "tar.gz"
    ensures NameOf(name, false, true) == "extension"
  {
    var stem, e := "extension", "tar.gz";
    assert name == stem + "." + e;
    NameOfSplit(stem, e);
  }

  /** "extension.txt" has extension "txt". */
  lemma SimpleExample(name: string)
    requires name == "extension.txt"
    ensures Extension(name, false) == "txt"
  {
    var stem, e := "extension", "txt";
    assert name == stem + "." + e;
    NameOfSplit(stem, e);
  }

  // ---------------------------------------------------------------------------
  // Comparing contents

  /** matchesDeep(file): opening a missing file throws an IOException;
      otherwise read the first file to its end, each unit against the next unit
      of the second. Without a check that the second file is exhausted too, the
      outcome is "the first content is a prefix of the second". */
  method MatchesDeep(a: Option<Content>, b: Option<Content>) returns (r: Result<bool, Error>)
    ensures r.Failure? <==> a.None? || b.None?
    ensures r.Failure? ==> r.error == IOError
    ensures r.Success? ==> (r.value <==> a.value <= b.value)
  {
    if a.None? || b.None? {
      return Failure(IOError);
    }
    var x, y := a.value, b.value;
    var pos := 0;
    var ch := Read(x, pos);
    while ch != -1
      invariant 0 <= pos <= |x| && pos <= |y|
      invariant ch == Read(x, pos)
      invariant x[..pos] == y[..pos]
      decreases |x| - pos
    {
      if ch != Read(y, pos) {
        assert pos < |x|;
        assert !(x <= y) by {
          if pos < |y| {
            assert x[pos] != y[pos];
          }
        }
        return Success(false);
      }
      pos := pos + 1;
      ch := Read(x, pos);
    }
    assert x == y[..pos];
    return Success(true);
  }

  /** The comparison as written accepts a proper prefix: a one-unit file
      "matches" a two-unit file that starts with the same unit. */
  method MatchesDeepPrefixExample() returns (r: Result<bool, Error>)
    ensures r == Success(true)
  {
    r := MatchesDeep(Some([65]), Some([65, 66]));
  }

  /** matchesDeep as evidently intended: after the first file ends, the second
      must end too. The outcome is equality of the contents. */
  method MatchesDeepExact(a: Option<Content>, b: Option<Content>) returns (r: Result<bool, Error>)
    ensures r.Failure? <==> a.None? || b.None?
    ensures r.Failure? ==> r.error == IOError
    ensures r.Success? ==> (r.value <==> a.value == b.value)
  {
    if a.None? || b.None? {
      return Failure(IOError);
    }
    var x, y := a.value, b.value;
    var pos := 0;
    var ch := Read(x, pos);
    while ch != -1
      invariant 0 <= pos <= |x| && pos <= |y|
      invariant ch == Read(x, pos)
      invariant x[..pos] == y[..pos]
      decreases |x| - pos
    {
      if ch != Read(y, pos) {
        assert pos < |x|;
        assert x != y by {
          if pos < |y| {
            assert x[pos] != y[pos];
          }
        }
        return Success(false);
      }
      pos := pos + 1;
      ch := Read(x, pos);
    }
    if Read(y, pos) != -1 {
      assert |x| < |y|;
      return Success(false);
    }
    assert x == x[..pos] && y == y[..pos];
    return Success(true);
  }

  /** The digest a library algorithm computes; the hashing library is not part
      of this model, so it is a parameter. */
  type Digest = (EHash, Content) -> seq<int>

  /** matches(file, hash): read both files (an IOException when one cannot be
      read), digest both and compare. */
  function Matches(digest: Digest, a: Option<Content>, b: Option<Content>, h: EHash): (r: Result<bool, Error>)
    ensures r.Failure? <==> a.None? || b.None?
    ensures r.Failure? ==> r.error == IOError
    ensures r.Success? ==> (r.value <==> digest(h, a.value) == digest(h, b.value))
  {
    if a.None? || b.None? then Failure(IOError)
    else Success(digest(h, a.value) == digest(h, b.value))
  }

  /** matches(file, String): the token is resolved before any file is read. */
  function MatchesToken(digest: Digest, a: Option<Content>, b: Option<Content>, hash: string): (r: Result<bool, Error>)
    ensures SelectHashAlgorithm(hash).Failure? ==> r == Failure(IllegalArgument)
    ensures SelectHashAlgorithm(hash).Success? ==> r == Matches(digest, a, b, SelectHashAlgorithm(hash).value)
  {
    match SelectHashAlgorithm(hash)
    case Failure(e) => Failure(e)
    case Success(h) => Matches(digest, a, b, h)
  }

  /** Identical contents match under every algorithm; the exact deep
      comparison accepting two files implies the hash comparison does. */
  lemma MatchesIdentical(digest: Digest, a: Option<Content>, b: Option<Content>, h: EHash)
    requires a.Some? && b.Some? && a.value == b.value
    ensures Matches(digest, a, b, h) == Success(true)
    ensures MatchesToken(digest, a, b, "sha256") == Success(true)
  {
  }

  // ---------------------------------------------------------------------------
  // Size

  /** The power of 1024 that getSize(true) divides by. The source's two `when`
      blocks (the suffix and the scaled size) branch on the same thresholds, so
      both are read off this one exponent. */
  function UnitExponent(size: nat): (k: nat)
    ensures k <= 3
  {
    if size < 1024 then 0
    else if size < 1024 * 1024 then 1
    else if size < 1024 * 1024 * 1024 then 2
    else 3
  }

  function Pow1024(k: nat): (r: nat)
    ensures r >= 1
  {
    if k == 0 then 1 else 1024 * Pow1024(k - 1)
  }

  /** The unit getSize(true) chooses for a length in bytes. */
  function SizeUnit(size: nat): string {
    ["Byte", "KB", "MB", "GB"][UnitExponent(size)]
  }

  /** The exponent is the largest k <= 3 with 1024^k <= size, so dividing by
      its power leaves an integer part of at least 1 (for a non-zero size), and
      below 1024 unless the unit is the largest; "Byte" is exactly the sizes
      below 1024 and "GB" exactly those from 1024^3 on. */
  lemma SizeUnitScales(size: nat)
    ensures UnitExponent(size) > 0 ==> Pow1024(UnitExponent(size)) <= size
    ensures UnitExponent(size) < 3 ==> size < Pow1024(UnitExponent(size) + 1)
    ensures size > 0 ==> size / Pow1024(UnitExponent(size)) >= 1
    ensures UnitExponent(size) < 3 ==> size / Pow1024(UnitExponent(size)) < 1024
    ensures SizeUnit(size) == "Byte" <==> size < Pow1024(1)
    ensures SizeUnit(size) == "GB" <==> size >= Pow1024(3)
  {
    assert Pow1024(1) == 1024;
    assert Pow1024(2) == 1024 * 1024;
    assert Pow1024(3) == 1024 * 1024 * 1024;
    assert Pow1024(4) == 1024 * Pow1024(3);
  }

  /** A larger file never gets a smaller unit. */
  lemma SizeUnitMonotone(s1: nat, s2: nat)
    requires s1 <= s2
    ensures UnitExponent(s1) <= UnitExponent(s2)
  {
  }

  /** getSize(false): the length as a decimal string. */
  function SizeString(size: nat): (r: string)
    ensures ParseDecimal(r) == size
    ensures forall i :: 0 <= i < |r| ==> '0' <= r[i] <= '9'
  {
    DecimalRoundTrip(size);
    DecimalString(size)
  }

  /** An 18-byte file has size "18" in unit "Byte". */
  lemma SizeExample()
    ensures SizeString(18) == "18"
    ensures SizeUnit(18) == "Byte"
  {
  }

  // ---------------------------------------------------------------------------
  // Deleting

  /** results.all { it }. */
  function AllTrue(log: seq<bool>): (r: bool)
    ensures r <==> forall i :: 0 <= i < |log| ==> log[i]
  {
    if log == [] then true else log[0] && AllTrue(log[1..])
  }

  /** The MutableList<Boolean> rmDirectory appends to. */
  class ResultList {
    var items: seq<bool>

    constructor ()
      ensures items == []
    {
      items := [];
    }

    /** add(b) */
    method Add(b: bool)
      modifies this
      ensures items == old(items) + [b]
    {
      items := items + [b];
    }

    /** all { it } */
    function All(): (r: bool)
      reads this
      ensures r <==> forall i :: 0 <= i < |items| ==> items[i]
    {
      AllTrue(items)
    }
  }

  /** rmFile(file): one Files.delete, with no existence check before it. */
  function RmFileOutcome(env: Env, d: Disk, p: Path): (r: (bool, Disk))
    ensures Confined(d, r.1, p)
    ensures Wf(env, d) ==> Wf(env, r.1)
    ensures r.0 <==> p in d.entries && p !in r.1.entries
    ensures r.0 ==> r.1.entries == d.entries - {p}
    ensures !r.0 ==> r.1.entries == d.entries
    ensures r.1.attempts == d.attempts + 1
    ensures Wf(env, d) && r.0 ==> Subtree(r.1.entries, p) == {}
  {
    TryDeleteKeepsWf(env, d, p);
    TryDeleteClearsSubtree(env, d, p);
    TryDelete(env, d, p)
  }

  /** rmDirectory(file, results), with `results` holding acc on entry: the
      children listed once (none when the path is not a directory), each
      handled in turn whatever happened to the previous ones, then rmFile on
      the path itself, whose result is appended last. Returns the list and the
      disk on exit. */
  function RmDirectoryOutcome(env: Env, d: Disk, p: Path, acc: seq<bool>): (r: (seq<bool>, Disk))
    ensures Confined(d, r.1, p)
    ensures Wf(env, d) ==> Wf(env, r.1)
    ensures |r.0| > |acc| && r.0[..|acc|] == acc
    ensures r.0[|r.0| - 1] <==> p in d.entries && p !in r.1.entries
    ensures Wf(env, d) && r.0[|r.0| - 1] ==> Subtree(r.1.entries, p) == {}
    ensures r.1.attempts > d.attempts
    decreases Subtree(d.entries, p), 1
  {
    var kids := if IsDirAt(d.entries, p) then Listing(env.order, d.entries, p) else [];
    var (log, d1) := RmChildrenOutcome(env, d, p, kids, 0, acc);
    var (ok, d2) := RmFileOutcome(env, d1, p);
    ConfinedTrans(d, d1, d2, p, p);
    assert (log + [ok])[..|acc|] == log[..|acc|];
    (log + [ok], d2)
  }

  /** One child of the loop:
        if (file.isFile && rmFile(file)) add(true)
        else if (file.isFile && !rmFile(file)) add(false)
        else rmDirectory(file, results)
      so a file whose first delete fails is deleted a second time, and when
      that succeeds the vanished path goes to rmDirectory. */
  function RmChildOutcome(env: Env, d: Disk, c: Path, acc: seq<bool>): (r: (seq<bool>, Disk))
    ensures Confined(d, r.1, c)
    ensures Wf(env, d) ==> Wf(env, r.1)
    ensures |r.0| > |acc| && r.0[..|acc|] == acc
    ensures r.0[|r.0| - 1] ==> c in d.entries && c !in r.1.entries
    ensures Wf(env, d) && r.0[|r.0| - 1] ==> Subtree(r.1.entries, c) == {}
    ensures r.1.attempts > d.attempts
    decreases Subtree(d.entries, c), 2
  {
    var first := IsFileAt(d.entries, c);
    var (ok1, d1) := if first then RmFileOutcome(env, d, c) else (false, d);
    if first && ok1 then (acc + [true], d1)
    else
      var second := IsFileAt(d1.entries, c);
      var (ok2, d2) := if second then RmFileOutcome(env, d1, c) else (false, d1);
      if second && !ok2 then (acc + [false], d2)
      else
        ConfinedTrans(d, d1, d2, c, c);
        SubtreeShrinks(d, d2, c, c);
        var r := RmDirectoryOutcome(env, d2, c, acc);
        ConfinedTrans(d, d2, r.1, c, c);
        r
  }

  /** The forEach over the children kids[i..] of p: every child is handled,
      whatever the earlier ones gave, and each appends at least one result.
      The directory itself is never removed here. */
  function RmChildrenOutcome(env: Env, d: Disk, p: Path, kids: seq<Path>, i: nat, acc: seq<bool>): (r: (seq<bool>, Disk))
    requires i <= |kids|
    requires forall k :: k in kids ==> IsChild(p, k)
    requires p in d.entries || kids == []
    ensures Confined(d, r.1, p)
    ensures Wf(env, d) ==> Wf(env, r.1)
    ensures p in d.entries ==> p in r.1.entries
    ensures |r.0| >= |acc| + (|kids| - i) && r.0[..|acc|] == acc
    ensures r.1.attempts >= d.attempts + (|kids| - i)
    decreases Subtree(d.entries, p), 0, |kids| - i
  {
    if i == |kids| then (acc, d)
    else
      var c := kids[i];
      assert c in kids && IsChild(p, c);
      SubtreeOfChild(d.entries, p, c);
      var (acc1, d1) := RmChildOutcome(env, d, c, acc);
      SubtreeShrinks(d, d1, c, p);
      var r := RmChildrenOutcome(env, d1, p, kids, i + 1, acc1);
      ConfinedTrans(d, d1, r.1, c, p);
      assert r.0[..|acc|] == r.0[..|acc1|][..|acc|];
      r
  }

  /** rm(recursive): rmFile on a file or when not recursive; otherwise
      rmDirectory into a fresh list, and true iff every entry is true. */
  function RmOutcome(env: Env, d: Disk, p: Path, recursive: bool): (r: (bool, Disk))
    ensures Confined(d, r.1, p)
    ensures Wf(env, d) ==> Wf(env, r.1)
    ensures r.0 ==> p in d.entries && p !in r.1.entries
    ensures Wf(env, d) && r.0 ==> Subtree(r.1.entries, p) == {}
  {
    if IsFileAt(d.entries, p) then RmFileOutcome(env, d, p)
    else if !recursive then RmFileOutcome(env, d, p)
    else
      var (log, d1) := RmDirectoryOutcome(env, d, p, []);
      (AllTrue(log), d1)
  }

  /** Every result appended after the first n is true. */
  predicate AllTrueFrom(log: seq<bool>, n: nat) {
    forall j :: n <= j < |log| ==> log[j]
  }

  /** rmFile has no existence check: on a missing path rm fails, changes
      nothing on disk, but still makes its one Files.delete call, recursive or
      not. */
  lemma RmMissing(env: Env, d: Disk, p: Path, recursive: bool)
    requires p !in d.entries
    ensures RmOutcome(env, d, p, recursive) == (false, d.(attempts := d.attempts + 1))
  {
    if recursive {
      RmMissingDirectory(env, d, p, []);
    }
  }

  /** rm() / rm(false) on a directory that still has entries fails (the one
      Files.delete call is refused) and removes nothing. */
  lemma RmNonEmptyDirectoryFails(env: Env, d: Disk, p: Path)
    requires IsDirAt(d.entries, p) && HasChildren(d.entries, p)
    ensures RmOutcome(env, d, p, false) == (false, d.(attempts := d.attempts + 1))
  {
  }

  /** The retry: a child file whose first Files.delete fails and whose second
      succeeds is gone, yet the only result it appends is false (from rmFile
      on the vanished path, a third Files.delete call). */
  lemma RetryReportsFalse(env: Env, d: Disk, c: Path, acc: seq<bool>)
    requires ParentsAreDirs(d.entries) && IsFileAt(d.entries, c)
    requires d.attempts in env.faults && d.attempts + 1 !in env.faults
    ensures RmChildOutcome(env, d, c, acc) == (acc + [false], Disk(d.entries - {c}, d.attempts + 3, d.removed + [c]))
  {
    FileHasNoChildren(d.entries, c);
    var d1 := d.(attempts := d.attempts + 1);
    var d2 := Disk(d.entries - {c}, d.attempts + 2, d.removed + [c]);
    assert RmFileOutcome(env, d, c) == (false, d1);
    assert RmFileOutcome(env, d1, c) == (true, d2);
    RmMissingDirectory(env, d2, c, acc);
  }

  /** rmDirectory on a path that no longer exists: no children, and rmFile
      makes one failing Files.delete call. */
  lemma RmMissingDirectory(env: Env, d: Disk, p: Path, acc: seq<bool>)
    requires p !in d.entries
    ensures RmDirectoryOutcome(env, d, p, acc) == (acc + [false], d.(attempts := d.attempts + 1))
  {
    assert RmChildrenOutcome(env, d, p, [], 0, acc) == (acc, d);
  }

  /** The retry makes rm(true) report failure for a tree it removed
      completely: a directory p holding one file c, where only the first
      Files.delete call fails. */
  lemma RetryFalseNegative(env: Env, d: Disk, p: Path, c: Path)
    requires ParentsAreDirs(d.entries) && NoDup(env.order)
    requires IsDirAt(d.entries, p) && IsFileAt(d.entries, c) && IsChild(p, c) && c in env.order
    requires forall q :: q in d.entries && p < q ==> q == c
    requires env.faults == {d.attempts}
    ensures RmOutcome(env, d, p, true) == (false, Disk(d.entries - {c} - {p}, d.attempts + 4, d.removed + [c, p]))
  {
    RetryDirectory(env, d, p, c);
    RmRecursiveUnfold(env, d, p);
    assert !AllTrue([false, true]) by {
      assert ([false, true])[0] == false;
    }
  }

  /** rmDirectory on that directory: false for the child, true for itself. */
  lemma RetryDirectory(env: Env, d: Disk, p: Path, c: Path)
    requires ParentsAreDirs(d.entries) && NoDup(env.order)
    requires IsDirAt(d.entries, p) && IsFileAt(d.entries, c) && IsChild(p, c) && c in env.order
    requires forall q :: q in d.entries && p < q ==> q == c
    requires env.faults == {d.attempts}
    ensures RmDirectoryOutcome(env, d, p, []) == ([false, true], Disk(d.entries - {c} - {p}, d.attempts + 4, d.removed + [c, p]))
  {
    assert [false] + [true] == [false, true];
    assert d.removed + [c] + [p] == d.removed + [c, p];
    var d3 := Disk(d.entries - {c}, d.attempts + 3, d.removed + [c]);
    var d4 := Disk(d3.entries - {p}, d3.attempts + 1, d3.removed + [p]);
    var r1 := RmChildrenOutcome(env, d, p, Listing(env.order, d.entries, p), 0, []);
    assert r1 == ([false], d3) by {
      RetryOnlyChild(env, d, p, c);
    }
    assert RmFileOutcome(env, d3, p) == (true, d4) by {
      assert !HasChildren(d3.entries, p) by {
        forall q | q in d3.entries ensures !(p < q) {
          assert q in d.entries && q != c;
        }
      }
      RmFileSucceeds(env, d3, p);
    }
    assert RmDirectoryOutcome(env, d, p, []) == ([false] + [true], d4) by {
      RmDirectoryUnfold(env, d, p, []);
    }
  }

  /** The forEach of the directory above: its one child is handled by the
      retry, leaving a single false. */
  lemma RetryOnlyChild(env: Env, d: Disk, p: Path, c: Path)
    requires ParentsAreDirs(d.entries) && NoDup(env.order)
    requires p in d.entries && IsFileAt(d.entries, c) && IsChild(p, c) && c in env.order
    requires forall q :: q in d.entries && p < q ==> q == c
    requires env.faults == {d.attempts}
    ensures RmChildrenOutcome(env, d, p, Listing(env.order, d.entries, p), 0, []) ==
      ([false], Disk(d.entries - {c}, d.attempts + 3, d.removed + [c]))
  {
    var kids := Listing(env.order, d.entries, p);
    OnlyChild(kids, c);
    RetryReportsFalse(env, d, c, []);
    RmChildrenStep(env, d, p, kids, 0, []);
  }

  /** A duplicate-free list all of whose elements are c, and that holds c, is
      [c]. */
  lemma OnlyChild(kids: seq<Path>, c: Path)
    requires NoDup(kids) && c in kids
    requires forall k :: k in kids ==> k == c
    ensures kids == [c]
  {
    assert kids[0] in kids && kids[|kids| - 1] in kids;
    assert |kids| == 1;
  }

  /** One turn of the forEach: handle kids[i], then carry on from i + 1. */
  lemma RmChildrenStep(env: Env, d: Disk, p: Path, kids: seq<Path>, i: nat, acc: seq<bool>)
    requires p in d.entries && i < |kids|
    requires forall k :: k in kids ==> IsChild(p, k)
    ensures p in RmChildOutcome(env, d, kids[i], acc).1.entries
    ensures RmChildrenOutcome(env, d, p, kids, i, acc) ==
      RmChildrenOutcome(env, RmChildOutcome(env, d, kids[i], acc).1, p, kids, i + 1, RmChildOutcome(env, d, kids[i], acc).0)
  {
    assert kids[i] in kids && IsChild(p, kids[i]);
  }

  /** rmDirectory on a directory: the forEach over its listing, then rmFile
      on the directory, whose result goes last. */
  lemma RmDirectoryUnfold(env: Env, d: Disk, p: Path, acc: seq<bool>)
    requires IsDirAt(d.entries, p)
    ensures var kids := Listing(env.order, d.entries, p);
      var r1 := RmChildrenOutcome(env, d, p, kids, 0, acc);
      RmDirectoryOutcome(env, d, p, acc) == (r1.0 + [RmFileOutcome(env, r1.1, p).0], RmFileOutcome(env, r1.1, p).1)
  {
  }

  /** rm(true) on what is not a file: rmDirectory into a fresh list, true
      iff every entry is. */
  lemma RmRecursiveUnfold(env: Env, d: Disk, p: Path)
    requires !IsFileAt(d.entries, p)
    ensures RmOutcome(env, d, p, true) ==
      (AllTrue(RmDirectoryOutcome(env, d, p, []).0), RmDirectoryOutcome(env, d, p, []).1)
  {
  }

  /** Results all true after n, extended by results all true after the old
      length, are all true after n. */
  lemma AllTrueFromChain(log1: seq<bool>, log2: seq<bool>, n: nat)
    requires n <= |log1| <= |log2| && log2[..|log1|] == log1
    requires AllTrueFrom(log1, n) && AllTrueFrom(log2, |log1|)
    ensures AllTrueFrom(log2, n)
  {
    forall j | n <= j < |log2| ensures log2[j] {
      if j < |log1| {
        assert log2[..|log1|][j] == log1[j];
      }
    }
  }

  /** When no Files.delete call fails, rmDirectory appends only true and
      removes exactly the directory's subtree. */
  lemma {:induction false} RmDirectoryComplete(env: Env, d: Disk, p: Path, acc: seq<bool>)
    requires Wf(env, d) && env.faults == {} && IsDirAt(d.entries, p)
    ensures AllTrueFrom(RmDirectoryOutcome(env, d, p, acc).0, |acc|)
    ensures forall q :: q in RmDirectoryOutcome(env, d, p, acc).1.entries <==> q in d.entries && !(p <= q)
    decreases Subtree(d.entries, p), 1
  {
    var kids := Listing(env.order, d.entries, p);
    RmChildrenComplete(env, d, p, kids, 0, acc);
    ClearedChildren(d.entries, RmChildrenOutcome(env, d, p, kids, 0, acc).1.entries, kids, p);
    RmDirectoryFinish(env, d, p, acc);
  }

  /** The last step of rmDirectory, fault-free, once the forEach has cleared
      the directory: rmFile removes it and appends true. */
  lemma RmDirectoryFinish(env: Env, d: Disk, p: Path, acc: seq<bool>)
    requires env.faults == {} && IsDirAt(d.entries, p)
    requires var r1 := RmChildrenOutcome(env, d, p, Listing(env.order, d.entries, p), 0, acc);
      AllTrueFrom(r1.0, |acc|) && !HasChildren(r1.1.entries, p) &&
      forall q :: q in r1.1.entries && q != p <==> q in d.entries && !(p <= q)
    ensures AllTrueFrom(RmDirectoryOutcome(env, d, p, acc).0, |acc|)
    ensures forall q :: q in RmDirectoryOutcome(env, d, p, acc).1.entries <==> q in d.entries && !(p <= q)
  {
    var r1 := RmChildrenOutcome(env, d, p, Listing(env.order, d.entries, p), 0, acc);
    assert p in r1.1.entries;
    LeafRemovalFaultFree(env, r1.1, p);
    RmDirectoryUnfold(env, d, p, acc);
    AllTrueFromChain(r1.0, r1.0 + [true], |acc|);
  }

  /** rmFile on an existing entry without children, when this delete call is
      not one that fails, removes it. */
  lemma RmFileSucceeds(env: Env, d: Disk, p: Path)
    requires p in d.entries && !HasChildren(d.entries, p) && d.attempts !in env.faults
    ensures RmFileOutcome(env, d, p) == (true, Disk(d.entries - {p}, d.attempts + 1, d.removed + [p]))
  {
  }

  /** rmFile on an existing entry without children, fault-free, removes it. */
  lemma LeafRemovalFaultFree(env: Env, d: Disk, p: Path)
    requires env.faults == {} && p in d.entries && !HasChildren(d.entries, p)
    ensures RmFileOutcome(env, d, p) == (true, Disk(d.entries - {p}, d.attempts + 1, d.removed + [p]))
  {
  }

  /** One child, fault-free: it appends only true and its whole subtree goes. */
  lemma {:induction false} RmChildComplete(env: Env, d: Disk, c: Path, acc: seq<bool>)
    requires Wf(env, d) && env.faults == {} && c in d.entries
    ensures AllTrueFrom(RmChildOutcome(env, d, c, acc).0, |acc|)
    ensures forall q :: q in RmChildOutcome(env, d, c, acc).1.entries <==> q in d.entries && !(c <= q)
    decreases Subtree(d.entries, c), 2
  {
    if IsFileAt(d.entries, c) {
      FileHasNoChildren(d.entries, c);
      forall q | c < q ensures q !in d.entries {
        NoDescendants(env, d, c, q);
      }
    } else {
      RmDirectoryComplete(env, d, c, acc);
    }
  }

  /** The loop, fault-free: it appends only true, and every listed child's
      subtree goes, nothing else. */
  lemma {:induction false} RmChildrenComplete(env: Env, d: Disk, p: Path, kids: seq<Path>, i: nat, acc: seq<bool>)
    requires Wf(env, d) && env.faults == {}
    requires p in d.entries && i <= |kids|
    requires forall k :: k in kids ==> IsChild(p, k)
    requires NoDup(kids)
    requires forall j :: i <= j < |kids| ==> kids[j] in d.entries
    ensures AllTrueFrom(RmChildrenOutcome(env, d, p, kids, i, acc).0, |acc|)
    ensures forall q :: q in RmChildrenOutcome(env, d, p, kids, i, acc).1.entries <==>
      q in d.entries && !UnderAny(kids, i, q)
    decreases Subtree(d.entries, p), 0, |kids| - i
  {
    if i < |kids| {
      var c := kids[i];
      assert c in kids && IsChild(p, c);
      SubtreeOfChild(d.entries, p, c);
      RmChildComplete(env, d, c, acc);
      var r1 := RmChildOutcome(env, d, c, acc);
      RmChildrenCompleteStep(env, d, p, kids, i, acc);
      RmChildrenComplete(env, r1.1, p, kids, i + 1, r1.0);
      RmChildrenCompleteJoin(env, d, r1.1, p, kids, i, acc, r1.0);
    }
  }

  /** One turn of the fault-free loop: once the child's subtree is gone, the
      rest of the loop runs on a smaller well-formed disk that still holds the
      directory and the later siblings. */
  lemma RmChildrenCompleteStep(env: Env, d: Disk, p: Path, kids: seq<Path>, i: nat, acc: seq<bool>)
    requires Wf(env, d) && p in d.entries && i < |kids|
    requires forall k :: k in kids ==> IsChild(p, k)
    requires NoDup(kids)
    requires forall j :: i <= j < |kids| ==> kids[j] in d.entries
    requires forall q :: q in RmChildOutcome(env, d, kids[i], acc).1.entries <==> q in d.entries && !(kids[i] <= q)
    ensures var r1 := RmChildOutcome(env, d, kids[i], acc);
      Wf(env, r1.1) && p in r1.1.entries &&
      (forall j :: i + 1 <= j < |kids| ==> kids[j] in r1.1.entries) &&
      Subtree(r1.1.entries, p) < Subtree(d.entries, p) &&
      RmChildrenOutcome(env, d, p, kids, i, acc) == RmChildrenOutcome(env, r1.1, p, kids, i + 1, r1.0)
  {
    var c := kids[i];
    var r1 := RmChildOutcome(env, d, c, acc);
    assert Wf(env, r1.1);
    SiblingsSurvive(d.entries, r1.1.entries, p, kids, i);
    RmChildrenStep(env, d, p, kids, i, acc);
    assert c in kids && IsChild(p, c);
    assert Subtree(r1.1.entries, p) <= Subtree(d.entries, p);
    assert c in Subtree(d.entries, p) && c !in Subtree(r1.1.entries, p);
  }

  /** The fault-free loop from i: the child's entries are all true and so are
      the rest of the loop's, and what is gone is kids[i]'s subtree together
      with those of the later siblings. */
  lemma RmChildrenCompleteJoin(env: Env, d: Disk, d1: Disk, p: Path, kids: seq<Path>, i: nat, acc: seq<bool>, log1: seq<bool>)
    requires i < |kids| && |acc| <= |log1|
    requires forall k :: k in kids ==> IsChild(p, k)
    requires p in d1.entries
    requires AllTrueFrom(log1, |acc|)
    requires forall q :: q in d1.entries <==> q in d.entries && !(kids[i] <= q)
    requires var r := RmChildrenOutcome(env, d1, p, kids, i + 1, log1);
      AllTrueFrom(r.0, |log1|) &&
      forall q :: q in r.1.entries <==> q in d1.entries && !UnderAny(kids, i + 1, q)
    ensures var r := RmChildrenOutcome(env, d1, p, kids, i + 1, log1);
      AllTrueFrom(r.0, |acc|) &&
      forall q :: q in r.1.entries <==> q in d.entries && !UnderAny(kids, i, q)
  {
    var r := RmChildrenOutcome(env, d1, p, kids, i + 1, log1);
    AllTrueFromChain(log1, r.0, |acc|);
    forall q ensures q in r.1.entries <==> q in d.entries && !UnderAny(kids, i, q) {
      UnderAnySplit(kids, i, q);
    }
  }

  /** rm(true) on a directory, fault-free: true, and exactly the directory's
      subtree is gone. */
  lemma RmRecursiveComplete(env: Env, d: Disk, p: Path)
    requires Wf(env, d) && env.faults == {} && IsDirAt(d.entries, p)
    ensures RmOutcome(env, d, p, true).0
    ensures forall q :: q in RmOutcome(env, d, p, true).1.entries <==> q in d.entries && !(p <= q)
  {
    RmDirectoryComplete(env, d, p, []);
  }

  /** rmFile(file) on the live filesystem. */
  method RmFile(fs: FileSystem, p: Path) returns (ok: bool)
    modifies fs
    ensures (ok, fs.State()) == RmFileOutcome(fs.Environment(), old(fs.State()), p)
  {
    ok := fs.Delete(p);
  }

  /** rmDirectory(file, results) on the live filesystem. */
  method RmDirectory(fs: FileSystem, p: Path, results: ResultList)
    modifies fs, results
    ensures (results.items, fs.State()) == RmDirectoryOutcome(fs.Environment(), old(fs.State()), p, old(results.items))
    decreases Subtree(fs.entries, p), 1
  {
    ghost var d0 := fs.State();
    ghost var env := fs.Environment();
    var listing := fs.ListFiles(p);
    var kids := if listing.Some? then listing.value else [];
    ghost var whole := RmChildrenOutcome(env, d0, p, kids, 0, results.items);
    var i := 0;
    while i < |kids|
      invariant 0 <= i <= |kids|
      invariant kids == [] || p in fs.entries
      invariant Subtree(fs.entries, p) <= Subtree(d0.entries, p)
      invariant RmChildrenOutcome(env, fs.State(), p, kids, i, results.items) == whole
    {
      var c := kids[i];
      assert c in kids && IsChild(p, c);
      ghost var before := fs.State();
      RmChild(fs, p, c, results);
      SubtreeShrinks(before, fs.State(), c, p);
      i := i + 1;
    }
    var ok := RmFile(fs, p);
    results.Add(ok);
  }

  /** The body of the forEach for one child c of p. */
  method RmChild(fs: FileSystem, ghost p: Path, c: Path, results: ResultList)
    requires p in fs.entries && IsChild(p, c)
    modifies fs, results
    ensures (results.items, fs.State()) == RmChildOutcome(fs.Environment(), old(fs.State()), c, old(results.items))
    decreases Subtree(fs.entries, p), 0
  {
    SubtreeOfChild(fs.entries, p, c);
    ghost var d0 := fs.State();
    var handled := false;
    if fs.IsFile(c) {
      var ok1 := RmFile(fs, c);
      if ok1 {
        results.Add(true);
        handled := true;
      }
    }
    if !handled && fs.IsFile(c) {
      var ok2 := RmFile(fs, c);
      if !ok2 {
        results.Add(false);
        handled := true;
      }
    }
    if !handled {
      SubtreeShrinks(d0, fs.State(), c, c);
      RmDirectory(fs, c, results);
    }
  }

  /** rm(recursive) on the live filesystem. */
  method Rm(fs: FileSystem, p: Path, recursive: bool) returns (ok: bool)
    modifies fs
    ensures (ok, fs.State()) == RmOutcome(fs.Environment(), old(fs.State()), p, recursive)
  {
    if fs.IsFile(p) {
      ok := RmFile(fs, p);
    } else if !recursive {
      ok := RmFile(fs, p);
    } else {
      var results := new ResultList();
      RmDirectory(fs, p, results);
      ok := results.All();
    }
  }
}
