# ExtendedFile in Dafny

`ExtendedFile` extends `java.io.File` with file-name parsing, content
comparison, hash-algorithm selection and recursive deletion. The repository
holds three revisions of the class, and they differ in real behaviour. Each
revision is its own module here:

- `JavaExtendedFile` (`src/main/java/dev/retrotv/file/ExtendedFile.java`):
  - a case-sensitive token table with 13 algorithms, and a total map onto the
    hashing library's enum;
  - simple and compound extensions, and the name without its extension;
  - `matchesDeep` guarded by existence and length, which makes it content
    equality;
  - hash `matches`;
  - a fail-fast `rm`/`rmDirectory`.
- `KotlinExtendedFile` (`src/main/kotlin/dev/retrotv/file/ExtendedFile.kt`):
  - a 10-algorithm token table;
  - the extension after the first '.';
  - `matchesDeep` without a length check, which makes it a prefix test;
  - the size unit;
  - a best-effort `rm(true)` that appends one boolean per entry handled to
    a `results` list, including the retry of a child file that could not be
    deleted the first time.
- `LegacyExtendedFile` (`src/main/kotlin/dev/retrotv/ExtendedFile.kt`): the
  MIME-category predicates, `matches` and `getHashCode` delegating to a
  `FileHash`, and the same prefix-only `matchesDeep`.
- `RevisionComparison`: where the Java and the Kotlin revision agree, and
  where they part.

## Shared modules

- `Strings` holds the string operations the code calls:
  - `indexOf` and `lastIndexOf`;
  - Kotlin's `substringAfter`;
  - `String.replace(pat, "")`, which removes every occurrence;
  - decimal printing.
- `FileSystem` is an abstract disk:
  - a map from paths (sequences of names) to `File(content)` or `Dir`;
  - the order in which `listFiles` enumerates entries;
  - an oracle naming which `Files.delete` calls fail, counted by a call
    counter;
  - a removal log kept for proofs.

  The class `FileSystem.FileSystem` is the live filesystem. Its `Delete`
  updates it in place.

## How deletion is modelled

Deletion is modelled twice:
- as pure functions (`RmOutcome`, `RmDirectoryOutcome`, …) that return the
  result and the new disk;
- as methods on the live `FileSystem` whose `ensures` tie them to those
  functions.

The disk invariant `Wf` says four things:
- parents are directories;
- the enumeration order lists every entry once;
- nothing lives below a removed path;
- removals happened children-first.

Every deletion keeps `Wf` and only ever removes paths at or below its
argument (`Confined`).

File content is a sequence of code units. A missing file is `None`. An
exception is a `Result` failure.

Where the tests and the code disagree, the model follows the code:
- `ExtendedFileTest.java:46` expects `getName(true)` of "extension.tar.gz"
  to be "extension".
- `ExtendedFileTest.java:216` expects `getExtension()` to be "tar.gz".
- The Java code uses the simple extension for both, giving "extension.tar"
  and "gz". `JavaExtendedFile.NameSimpleTarGzExample` proves this.

## Model

| member | source | states |
|---|---|---|
| Strings.IndexOf | src/main/java/dev/retrotv/file/ExtendedFile.java:436 | `indexOf(c)`: -1 exactly when `c` is absent; otherwise a position holding `c` with no `c` before it |
| Strings.LastIndexOf | src/main/java/dev/retrotv/file/ExtendedFile.java:441 | `lastIndexOf(c)`: -1 exactly when `c` is absent; otherwise a position holding `c` with no `c` after it |
| Strings.IndexOfSplit | src/main/java/dev/retrotv/file/ExtendedFile.java:436 | in `k + c + e` with no `c` in `k`, the first `c` is at `|k|` |
| Strings.LastIndexOfSplit | src/main/java/dev/retrotv/file/ExtendedFile.java:441 | in `k + c + e` with no `c` in `e`, the last `c` is at `|k|` |
| Strings.SubstringAfter | src/main/kotlin/dev/retrotv/file/ExtendedFile.kt:77 | `substringAfter(c)` is the whole string when `c` is absent; otherwise the string is a `c`-free stem, `c`, and the result |
| Strings.RemoveAll | src/main/java/dev/retrotv/file/ExtendedFile.java:149-150 | `String.replace(pat, "")`: scans left to right and drops every non-overlapping occurrence, never lengthening the string. Its meaning is stated by `RemoveAllAbsent`, `RemoveAllMissingChar`, `RemoveAllAfterFreeStem` and `RemoveAllTrailing` |
| Strings.RemoveAllAbsent | src/main/java/dev/retrotv/file/ExtendedFile.java:149-150 | `replace(pat, "")` changes nothing where `pat` never occurs |
| Strings.RemoveAllMissingChar | src/main/java/dev/retrotv/file/ExtendedFile.java:149-150 | a pattern holding a character the string lacks is not removed |
| Strings.RemoveAllAfterFreeStem | src/main/kotlin/dev/retrotv/file/ExtendedFile.kt:100 | removing `pat` from `k + pat`, when `k` lacks `pat`'s first character, leaves exactly `k` |
| Strings.RemoveAllTrailing | src/main/java/dev/retrotv/file/ExtendedFile.java:150 | removing ".ext" from `k + ".ext"` is removing it from `k` alone: the trailing occurrence cannot overlap an earlier one |
| Strings.DecimalString | src/main/kotlin/dev/retrotv/file/ExtendedFile.kt:287 | `Long.toString` of a length: non-empty, digits only, no leading zero |
| Strings.DecimalRoundTrip | src/main/kotlin/dev/retrotv/file/ExtendedFile.kt:287 | reading the decimal string back gives the number |
| FileSystem.Listing | src/main/java/dev/retrotv/file/ExtendedFile.java:465 | `listFiles()` lists exactly the existing children of the directory, each once |
| FileSystem.ListingInOrder | src/main/java/dev/retrotv/file/ExtendedFile.java:465 | the listing keeps the disk's enumeration order: it is that order with everything but the existing children left out |
| FileSystem.Read | src/main/kotlin/dev/retrotv/file/ExtendedFile.kt:220-221 | `read()` is -1 exactly at the end of the content, and otherwise the unit at the position |
| FileSystem.TryDelete | src/main/java/dev/retrotv/file/ExtendedFile.java:450-455 | `Files.delete` with its exceptions caught as false: succeeds exactly on an existing file or empty directory when this call is not one that fails; every call is counted. Its properties are `TryDeleteKeepsWf` and `TryDeleteClearsSubtree` |
| FileSystem.FileSystem.Delete | src/main/kotlin/dev/retrotv/file/ExtendedFile.kt:319-328 | `Files.delete` with its exceptions caught: removes an existing file or empty directory unless this call fails; every call is counted |
| FileSystem.TryDeleteKeepsWf | src/main/java/dev/retrotv/file/ExtendedFile.java:450-452 | a delete keeps the disk well formed: parents stay directories, and removals stay children-first |
| FileSystem.TryDeleteClearsSubtree | src/main/java/dev/retrotv/file/ExtendedFile.java:450-452 | after a successful delete nothing is left at or below the path |
| FileSystem.NoDescendants | src/main/java/dev/retrotv/file/ExtendedFile.java:468-469 | on a well-formed disk an entry without children has nothing below it |
| FileSystem.ClearedChildren | src/main/java/dev/retrotv/file/ExtendedFile.java:465-478 | removing the subtree of every listed child leaves the directory empty and everything outside its subtree in place |
| JavaExtendedFile.SelectHashAlgorithm | src/main/java/dev/retrotv/file/ExtendedFile.java:485-557 | the case-sensitive switch of `selectHashAlgorithm(String)`. `SelectAcceptsExactlyGroup` and `SelectRejectsUnlisted` state what it accepts and rejects |
| JavaExtendedFile.SelectAcceptsExactlyGroup | src/main/java/dev/retrotv/file/ExtendedFile.java:485-557 | `selectHashAlgorithm(String)` gives `h` exactly for the spellings listed for `h` |
| JavaExtendedFile.GroupsDisjoint | src/main/java/dev/retrotv/file/ExtendedFile.java:485-557 | no spelling is listed for two algorithms |
| JavaExtendedFile.SelectRejectsUnlisted | src/main/java/dev/retrotv/file/ExtendedFile.java:485-557 | a token fails exactly when it is listed for no algorithm, and then with IllegalArgumentException |
| JavaExtendedFile.SelectByName | src/main/java/dev/retrotv/file/ExtendedFile.java:485-557 | the enum constant's own name and the algorithm's standard name both select it |
| JavaExtendedFile.SelectExamples | src/main/java/dev/retrotv/file/ExtendedFile.java:485-557 | "SHA-256", "sha-256", "SHA256" and "sha256" give SHA256, and "CRC-32" gives CRC32; "Sha256" and "SHA512/224" are rejected |
| JavaExtendedFile.ToLibraryHash | src/main/java/dev/retrotv/file/ExtendedFile.java:560-591 | `selectHashAlgorithm(EHash)` is total (the default branch is unreachable) and maps each constant to the library constant of the same name |
| JavaExtendedFile.ToLibraryHashInjective | src/main/java/dev/retrotv/file/ExtendedFile.java:560-591 | distinct constants map to distinct library constants |
| JavaExtendedFile.Extension | src/main/java/dev/retrotv/file/ExtendedFile.java:430-442 | `getExtension(isCompound)`: "" for a directory, a name without '.', or one ending in its first '.'; otherwise the text after the first '.' (compound) or the last '.' (simple). `ExtensionSplitsName` and `ExtensionOfSplit` state both directions |
| JavaExtendedFile.ExtensionSplitsName | src/main/java/dev/retrotv/file/ExtendedFile.java:430-442 | a non-empty extension belongs to a file, and the name is a stem, '.', and the extension: the stem is dot-free for the compound form, and the extension is dot-free for the simple form |
| JavaExtendedFile.ExtensionOfSplit | src/main/java/dev/retrotv/file/ExtendedFile.java:430-442 | conversely, a stem, '.', and a non-empty rest has that rest as its compound extension (dot-free stem) and as its simple extension (dot-free rest) |
| JavaExtendedFile.NameOf | src/main/java/dev/retrotv/file/ExtendedFile.java:145-152 | `getName(removeExtension, isCompound)` never lengthens the name. `NameCompoundIsStem`, `NameSimpleRemovesEveryOccurrence` and `NameSimpleIsStem` state what it removes |
| JavaExtendedFile.NameCompoundIsStem | src/main/java/dev/retrotv/file/ExtendedFile.java:145-152 | `getName(true, true)` of a file is the text before the first '.', or the whole name without one |
| JavaExtendedFile.NameCompoundOfSplit | src/main/java/dev/retrotv/file/ExtendedFile.java:149 | a dot-free stem, '.', and any rest: `getName(true, true)` is the stem |
| JavaExtendedFile.NameSimpleRemovesEveryOccurrence | src/main/java/dev/retrotv/file/ExtendedFile.java:150 | `getName(true, false)` of `k + "." + e` removes "." + e from `k` too, because `replace` removes every occurrence |
| JavaExtendedFile.NameSimpleIsStem | src/main/java/dev/retrotv/file/ExtendedFile.java:150 | when the extension's first character is not in the stem, `getName(true, false)` is the stem |
| JavaExtendedFile.ExtensionExamples | src/main/java/dev/retrotv/file/ExtendedFile.java:430-442 | "extension.tar.gz" has compound extension "tar.gz" and simple extension "gz" |
| JavaExtendedFile.NameCompoundExample | src/main/java/dev/retrotv/file/ExtendedFile.java:149 | without its compound extension "extension.tar.gz" is "extension" |
| JavaExtendedFile.NameSimpleExample | src/main/java/dev/retrotv/file/ExtendedFile.java:150 | "a.b.b" has simple extension "b" and name "a", because every ".b" is removed |
| JavaExtendedFile.NameSimpleTarGzExample | src/main/java/dev/retrotv/file/ExtendedFile.java:114-152 | `getExtension()` and `getName(true)` of "extension.tar.gz" are "gz" and "extension.tar" |
| JavaExtendedFile.MatchesDeep | src/main/java/dev/retrotv/file/ExtendedFile.java:283-304 | `matchesDeep` is true exactly when both files exist and their contents are equal |
| JavaExtendedFile.MatchesDeepReflexive | src/main/java/dev/retrotv/file/ExtendedFile.java:283-304 | an existing file deep-matches itself |
| JavaExtendedFile.Matches | src/main/java/dev/retrotv/file/ExtendedFile.java:250-258 | `matches(file, EHash)` is an IOException exactly when a file cannot be read; otherwise it is true exactly when the two digests under the selected library algorithm are equal |
| JavaExtendedFile.MatchesDefault | src/main/java/dev/retrotv/file/ExtendedFile.java:236-238 | `matches(file)` compares SHA-256 digests |
| JavaExtendedFile.MatchesToken | src/main/java/dev/retrotv/file/ExtendedFile.java:268-270 | an unknown token is an IllegalArgumentException whatever the files; a known one behaves as `matches(file, EHash)` |
| JavaExtendedFile.MatchesIdentical | src/main/java/dev/retrotv/file/ExtendedFile.java:250-254 | identical contents match under every algorithm; different digests do not match |
| JavaExtendedFile.DeepMatchImpliesMatch | src/main/java/dev/retrotv/file/ExtendedFile.java:250-304 | two files that deep-match also match by hash |
| JavaExtendedFile.RmFileOutcome | src/main/java/dev/retrotv/file/ExtendedFile.java:445-456 | `rmFile` is true exactly when the path existed and is gone; on true only that path is removed, and on false nothing changes |
| JavaExtendedFile.RmDirectoryOutcome | src/main/java/dev/retrotv/file/ExtendedFile.java:459-482 | `rmDirectory` leaves a non-directory untouched and returns false; it is true exactly when the directory is gone, and then its whole subtree is gone; it touches nothing outside the subtree and keeps the disk well formed |
| JavaExtendedFile.RmChildOutcome | src/main/java/dev/retrotv/file/ExtendedFile.java:467-476 | one child (`rmFile` for a file, `rmDirectory` otherwise) is true exactly when the child is gone |
| JavaExtendedFile.RmChildrenOutcome | src/main/java/dev/retrotv/file/ExtendedFile.java:466-478 | the loop over the listing never removes the directory itself, touches nothing outside it, and keeps the disk well formed |
| JavaExtendedFile.RmOutcome | src/main/java/dev/retrotv/file/ExtendedFile.java:417-427 | `rm(recursive)` is true exactly when the path existed and is gone, touching nothing outside its subtree |
| JavaExtendedFile.RmFile | src/main/java/dev/retrotv/file/ExtendedFile.java:445-456 | the result and the new filesystem are those of `RmFileOutcome` |
| JavaExtendedFile.RmDirectory | src/main/java/dev/retrotv/file/ExtendedFile.java:459-482 | the loop and its early return give the result and filesystem of `RmDirectoryOutcome` |
| JavaExtendedFile.RmChild | src/main/java/dev/retrotv/file/ExtendedFile.java:468-476 | one child of the loop gives the result and filesystem of `RmChildOutcome` |
| JavaExtendedFile.Rm | src/main/java/dev/retrotv/file/ExtendedFile.java:417-427 | the result and the new filesystem are those of `RmOutcome` |
| JavaExtendedFile.RmChildrenAdvance | src/main/java/dev/retrotv/file/ExtendedFile.java:467-477 | a failing child ends the loop with false and that child's disk; a succeeding child hands the rest of the loop to its siblings |
| JavaExtendedFile.RmNonEmptyDirectoryFails | src/main/java/dev/retrotv/file/ExtendedFile.java:417-422 | `rm(false)` on a non-empty directory fails after one delete call and removes nothing |
| JavaExtendedFile.RmMissing | src/main/java/dev/retrotv/file/ExtendedFile.java:445-448 | a missing path fails without any delete call |
| JavaExtendedFile.RmChildrenStopsAtFailure | src/main/java/dev/retrotv/file/ExtendedFile.java:469-475 | after the first child that fails, no later sibling is touched and no further delete call is made |
| JavaExtendedFile.RmDirectoryComplete | src/main/java/dev/retrotv/file/ExtendedFile.java:459-482 | with no failing delete, `rmDirectory` is true and removes exactly the directory's subtree |
| JavaExtendedFile.RmChildComplete | src/main/java/dev/retrotv/file/ExtendedFile.java:467-476 | with no failing delete, one child's whole subtree goes and nothing else |
| JavaExtendedFile.RmChildrenComplete | src/main/java/dev/retrotv/file/ExtendedFile.java:466-478 | with no failing delete, the loop removes exactly the subtrees of the listed children |
| JavaExtendedFile.LeafRemovalFaultFree | src/main/java/dev/retrotv/file/ExtendedFile.java:450-452 | with no failing delete, `rmFile` on an entry without children removes it |
| KotlinExtendedFile.SelectHashAlgorithm | src/main/kotlin/dev/retrotv/file/ExtendedFile.kt:353-367 | the case-sensitive `when` of `selectHashAlgorithm`. `SelectAcceptsExactlyGroup` and `SelectRejectsUnlisted` state what it accepts and rejects |
| KotlinExtendedFile.SelectAcceptsExactlyGroup | src/main/kotlin/dev/retrotv/file/ExtendedFile.kt:353-367 | `selectHashAlgorithm` gives `h` exactly for the spellings listed for `h` |
| KotlinExtendedFile.SelectRejectsUnlisted | src/main/kotlin/dev/retrotv/file/ExtendedFile.kt:353-367 | a token fails exactly when it is listed for no algorithm, and then with IllegalArgumentException |
| KotlinExtendedFile.SelectRejectsDroppedAlgorithms | src/main/kotlin/dev/retrotv/file/ExtendedFile.kt:353-367 | CRC-32, SHA-512/224, SHA-512/256 and mixed case are rejected; "sha-256" is accepted |
| KotlinExtendedFile.Extension | src/main/kotlin/dev/retrotv/file/ExtendedFile.kt:72-83 | `getExtension()`: "" for a directory; otherwise `substringAfter('.')`, unless that is the whole name. `ExtensionAfterFirstDot` states what it gives |
| KotlinExtendedFile.NameOf | src/main/kotlin/dev/retrotv/file/ExtendedFile.kt:96-102 | `getName(removeExtension)` never lengthens the name. `NameOfSplit` and `ExtensionAfterFirstDot` state what it removes |
| KotlinExtendedFile.NameOfSplit | src/main/kotlin/dev/retrotv/file/ExtendedFile.kt:72-102 | for a dot-free stem, '.', and any rest: the extension is the rest and the name without it is the stem |
| KotlinExtendedFile.NameWithoutDot | src/main/kotlin/dev/retrotv/file/ExtendedFile.kt:72-102 | a name without '.' has extension "" and keeps its whole name |
| KotlinExtendedFile.ExtensionAfterFirstDot | src/main/kotlin/dev/retrotv/file/ExtendedFile.kt:72-102 | `getExtension()` is the text after the first '.' ("" without one), and `getName(true)` is the text before it |
| KotlinExtendedFile.CompoundExample | src/main/kotlin/dev/retrotv/file/ExtendedFile.kt:72-102 | "extension.tar.gz" has extension "tar.gz" and name "extension" |
| KotlinExtendedFile.SimpleExample | src/main/kotlin/dev/retrotv/file/ExtendedFile.kt:72-83 | "extension.txt" has extension "txt" |
| KotlinExtendedFile.MatchesDeep | src/main/kotlin/dev/retrotv/file/ExtendedFile.kt:214-227 | `matchesDeep` as written: an IOException exactly when a file is missing; otherwise true exactly when the first content is a prefix of the second |
| KotlinExtendedFile.MatchesDeepPrefixExample | src/main/kotlin/dev/retrotv/file/ExtendedFile.kt:220-226 | a one-unit file matches a two-unit file that starts with the same unit |
| KotlinExtendedFile.MatchesDeepExact | src/main/kotlin/dev/retrotv/file/ExtendedFile.kt:214-227 | the intended comparison, which also checks that the second file ends: true exactly when the contents are equal |
| KotlinExtendedFile.Matches | src/main/kotlin/dev/retrotv/file/ExtendedFile.kt:189-191 | `matches(file, hash)` is an IOException exactly when a file cannot be read; otherwise it is digest equality |
| KotlinExtendedFile.MatchesToken | src/main/kotlin/dev/retrotv/file/ExtendedFile.kt:201 | an unknown token is an IllegalArgumentException; a known one behaves as `matches(file, hash)` |
| KotlinExtendedFile.MatchesIdentical | src/main/kotlin/dev/retrotv/file/ExtendedFile.kt:189-201 | identical contents match under every algorithm and under the token "sha256" |
| KotlinExtendedFile.UnitExponent | src/main/kotlin/dev/retrotv/file/ExtendedFile.kt:270-282 | the one set of thresholds both `when` blocks of `getSize(true)` branch on: an exponent of at most 3 |
| KotlinExtendedFile.SizeUnit | src/main/kotlin/dev/retrotv/file/ExtendedFile.kt:270-275 | the suffix `getSize(true)` chooses, read off the same exponent as the divisor. `SizeUnitScales` and `SizeUnitMonotone` state its properties |
| KotlinExtendedFile.SizeUnitScales | src/main/kotlin/dev/retrotv/file/ExtendedFile.kt:270-282 | the exponent is the largest k <= 3 with 1024^k <= size: a non-zero size keeps an integer part of at least 1, and below 1024 unless the unit is "GB"; "Byte" is exactly the sizes below 1024, and "GB" exactly those from 1024^3 on |
| KotlinExtendedFile.SizeUnitMonotone | src/main/kotlin/dev/retrotv/file/ExtendedFile.kt:270-275 | a larger file never gets a smaller unit |
| KotlinExtendedFile.SizeString | src/main/kotlin/dev/retrotv/file/ExtendedFile.kt:286-288 | `getSize(false)` is all digits and reads back as the length |
| KotlinExtendedFile.SizeExample | src/main/kotlin/dev/retrotv/file/ExtendedFile.kt:267-289 | an 18-byte file has size "18" and unit "Byte" |
| KotlinExtendedFile.AllTrue | src/main/kotlin/dev/retrotv/file/ExtendedFile.kt:313 | `results.all { it }` is true exactly when every entry is true |
| KotlinExtendedFile.ResultList.Add | src/main/kotlin/dev/retrotv/file/ExtendedFile.kt:337-349 | `add(b)` appends `b` and keeps the earlier entries |
| KotlinExtendedFile.ResultList.All | src/main/kotlin/dev/retrotv/file/ExtendedFile.kt:313 | `all { it }` on the list is true exactly when every entry is true |
| KotlinExtendedFile.RmFileOutcome | src/main/kotlin/dev/retrotv/file/ExtendedFile.kt:319-328 | `rmFile` always makes one delete call (no existence check); it is true exactly when the path existed and is gone; on true only that path is removed, and on false nothing is |
| KotlinExtendedFile.RmDirectoryOutcome | src/main/kotlin/dev/retrotv/file/ExtendedFile.kt:331-351 | `rmDirectory` keeps what `results` held and appends at least one entry; the last entry is the directory's own delete, true exactly when the directory is gone, and then its whole subtree is gone |
| KotlinExtendedFile.RmChildOutcome | src/main/kotlin/dev/retrotv/file/ExtendedFile.kt:335-343 | one child appends at least one entry; a true last entry means the child is gone |
| KotlinExtendedFile.RmChildrenOutcome | src/main/kotlin/dev/retrotv/file/ExtendedFile.kt:334-343 | `forEach` visits every listed child whatever earlier ones gave: at least one entry and one delete call per child; the directory itself stays |
| KotlinExtendedFile.RmOutcome | src/main/kotlin/dev/retrotv/file/ExtendedFile.kt:300-316 | a true `rm` means the path existed and its whole subtree is gone; nothing outside the subtree is touched |
| KotlinExtendedFile.RmFile | src/main/kotlin/dev/retrotv/file/ExtendedFile.kt:319-328 | the result and the new filesystem are those of `RmFileOutcome` |
| KotlinExtendedFile.RmDirectory | src/main/kotlin/dev/retrotv/file/ExtendedFile.kt:331-351 | the list and filesystem after the `forEach` and the final delete are those of `RmDirectoryOutcome` |
| KotlinExtendedFile.RmChild | src/main/kotlin/dev/retrotv/file/ExtendedFile.kt:336-342 | the three-way branch for one child gives the list and filesystem of `RmChildOutcome` |
| KotlinExtendedFile.Rm | src/main/kotlin/dev/retrotv/file/ExtendedFile.kt:300-316 | the result and the new filesystem are those of `RmOutcome` |
| KotlinExtendedFile.RmMissing | src/main/kotlin/dev/retrotv/file/ExtendedFile.kt:319-328 | a missing path fails and removes nothing, but still costs one delete call |
| KotlinExtendedFile.RmMissingDirectory | src/main/kotlin/dev/retrotv/file/ExtendedFile.kt:331-351 | `rmDirectory` on a vanished path appends a single false |
| KotlinExtendedFile.RmNonEmptyDirectoryFails | src/main/kotlin/dev/retrotv/file/ExtendedFile.kt:300-307 | `rm(false)` on a non-empty directory fails after one delete call and removes nothing |
| KotlinExtendedFile.RetryReportsFalse | src/main/kotlin/dev/retrotv/file/ExtendedFile.kt:336-342 | a child file whose first delete fails and whose second succeeds is gone, yet appends only false, after three delete calls |
| KotlinExtendedFile.RetryFalseNegative | src/main/kotlin/dev/retrotv/file/ExtendedFile.kt:300-351 | because of the retry, `rm(true)` on a directory with one file can remove the whole tree and still return false |
| KotlinExtendedFile.RetryDirectory | src/main/kotlin/dev/retrotv/file/ExtendedFile.kt:331-351 | in that case `results` is [false, true] |
| KotlinExtendedFile.RetryOnlyChild | src/main/kotlin/dev/retrotv/file/ExtendedFile.kt:334-343 | in that case the `forEach` appends a single false |
| KotlinExtendedFile.RmChildrenStep | src/main/kotlin/dev/retrotv/file/ExtendedFile.kt:335-343 | one turn of the `forEach` handles the child and leaves the directory in place for the rest |
| KotlinExtendedFile.RmDirectoryComplete | src/main/kotlin/dev/retrotv/file/ExtendedFile.kt:331-351 | with no failing delete, `rmDirectory` appends only true and removes exactly the directory's subtree |
| KotlinExtendedFile.RmDirectoryFinish | src/main/kotlin/dev/retrotv/file/ExtendedFile.kt:345-350 | with no failing delete, once the children are gone the directory's own delete succeeds and appends true |
| KotlinExtendedFile.RmChildComplete | src/main/kotlin/dev/retrotv/file/ExtendedFile.kt:336-342 | with no failing delete, one child appends only true and its whole subtree goes |
| KotlinExtendedFile.RmChildrenComplete | src/main/kotlin/dev/retrotv/file/ExtendedFile.kt:334-343 | with no failing delete, the `forEach` appends only true and removes exactly the listed children's subtrees |
| KotlinExtendedFile.RmChildrenCompleteStep | src/main/kotlin/dev/retrotv/file/ExtendedFile.kt:335-343 | one fault-free turn: the rest of the loop runs on a smaller well-formed disk that still holds the directory and the later siblings |
| KotlinExtendedFile.RmChildrenCompleteJoin | src/main/kotlin/dev/retrotv/file/ExtendedFile.kt:334-343 | one fault-free turn combined with the rest of the loop: all entries true, and the removed entries are those under this child or a later sibling |
| KotlinExtendedFile.RmRecursiveComplete | src/main/kotlin/dev/retrotv/file/ExtendedFile.kt:308-313 | with no failing delete, `rm(true)` on a directory is true and removes exactly its subtree |
| KotlinExtendedFile.RmFileSucceeds | src/main/kotlin/dev/retrotv/file/ExtendedFile.kt:319-328 | `rmFile` on an entry without children, when this delete call does not fail, removes it and returns true |
| KotlinExtendedFile.LeafRemovalFaultFree | src/main/kotlin/dev/retrotv/file/ExtendedFile.kt:319-322 | with no failing delete, `rmFile` on an entry without children removes it |
| LegacyExtendedFile.IsImage | src/main/kotlin/dev/retrotv/ExtendedFile.kt:24-27 | `isImage()`: the detected type starts with "image/" |
| LegacyExtendedFile.IsText | src/main/kotlin/dev/retrotv/ExtendedFile.kt:29-32 | `isText()`: the detected type starts with "text/" |
| LegacyExtendedFile.IsAudio | src/main/kotlin/dev/retrotv/ExtendedFile.kt:34-37 | `isAudio()`: the detected type starts with "audio/" |
| LegacyExtendedFile.IsVideo | src/main/kotlin/dev/retrotv/ExtendedFile.kt:39-42 | `isVideo()`: the detected type starts with "video/" |
| LegacyExtendedFile.MatchesMimeType | src/main/kotlin/dev/retrotv/ExtendedFile.kt:44-47 | `matchesMimeType(m)`: the detected type equals `m`. `MimeTypeDecidesCategory` relates it to the four tests |
| LegacyExtendedFile.MimeTypeDecidesCategory | src/main/kotlin/dev/retrotv/ExtendedFile.kt:24-47 | once `matchesMimeType(m)` holds, each category test holds exactly when `m` has that category's prefix, and a "text/" type is no other category |
| LegacyExtendedFile.AtMostOneCategory | src/main/kotlin/dev/retrotv/ExtendedFile.kt:24-42 | no MIME string starts with two of "image/", "text/", "audio/", "video/" |
| LegacyExtendedFile.CategoriesExclusive | src/main/kotlin/dev/retrotv/ExtendedFile.kt:24-42 | at most one of `isImage`, `isText`, `isAudio`, `isVideo` holds for a file |
| LegacyExtendedFile.PlainTextExample | src/main/kotlin/dev/retrotv/ExtendedFile.kt:29-47 | a file detected as "text/plain" is text and no other category, and matches that MIME type |
| LegacyExtendedFile.Matches | src/main/kotlin/dev/retrotv/ExtendedFile.kt:49-52 | two files match exactly when their `getHashCode` values are equal |
| LegacyExtendedFile.GetHashCode | src/main/kotlin/dev/retrotv/ExtendedFile.kt:69-72 | `getHashCode(fileHash)` is the digest `fileHash` computes for the file. `Matches` and `MatchesDefaultByHashCode` relate it to `matches` |
| LegacyExtendedFile.MatchesDefault | src/main/kotlin/dev/retrotv/ExtendedFile.kt:49-52 | `matches(file)` with its default `SHA256()` argument is true exactly when the SHA-256 digests of the two files are equal |
| LegacyExtendedFile.GetHashCodeDefault | src/main/kotlin/dev/retrotv/ExtendedFile.kt:69-72 | `getHashCode()` with its default `SHA256()` argument is the SHA-256 digest |
| LegacyExtendedFile.MatchesDefaultByHashCode | src/main/kotlin/dev/retrotv/ExtendedFile.kt:49-72 | the default `matches(file)` holds exactly when the default `getHashCode()` strings are equal, and always for identical contents |
| LegacyExtendedFile.MatchesDeep | src/main/kotlin/dev/retrotv/ExtendedFile.kt:54-67 | an IOException exactly when a file is missing; otherwise true exactly when the first content is a prefix of the second; on false it stops at the first differing position |
| LegacyExtendedFile.MatchesDeepReflexive | src/main/kotlin/dev/retrotv/ExtendedFile.kt:59-66 | an existing file deep-matches itself |
| LegacyExtendedFile.MatchesDeepPrefixExample | src/main/kotlin/dev/retrotv/ExtendedFile.kt:59-66 | "ab" deep-matches "abc", but "abc" does not deep-match "ab" |
| RevisionComparison.ToJava | src/main/kotlin/dev/retrotv/file/ExtendedFile.kt:355-364 | every Kotlin algorithm has a Java constant of the same name other than CRC32, SHA512224 and SHA512256 |
| RevisionComparison.FromJava | src/main/kotlin/dev/retrotv/file/ExtendedFile.kt:355-364 | every other Java constant comes from a Kotlin one |
| RevisionComparison.SameGroups | src/main/kotlin/dev/retrotv/file/ExtendedFile.kt:353-367 | each Kotlin group of spellings is the Java group for the same algorithm |
| RevisionComparison.SelectAgrees | src/main/kotlin/dev/retrotv/file/ExtendedFile.kt:353-367 | the Kotlin table accepts a token exactly when the Java one accepts it for an algorithm other than CRC-32, SHA-512/224 and SHA-512/256, and both then give the same algorithm |
| RevisionComparison.ExtensionIsCompound | src/main/kotlin/dev/retrotv/file/ExtendedFile.kt:72-83 | the Kotlin `getExtension()` is the Java `getExtension(true)` |
| RevisionComparison.NameIsCompound | src/main/kotlin/dev/retrotv/file/ExtendedFile.kt:96-102 | the Kotlin `getName(removeExtension)` is the Java `getName(removeExtension, true)` |

## Left out

- MIME detection (`getMimeType`, Apache Tika) is a parameter `detect`.
  - Detection errors (its IOException) are not modelled.
  - The `isImage`/`isText`/`isAudio`/`isVideo`/`matchesMimeType` checks of
    the Java revision (ExtendedFile.java:162-226) and of the Kotlin revision
    (file/ExtendedFile.kt:113-176) are modelled only once, in
    `LegacyExtendedFile`. They are the same `startsWith` and equality checks.
- Digests are an uninterpreted, deterministic function. `getHash`, and the
  hashing library's `Hash`, `BinaryHash`, `FileHash` and `CodecUtils`, are
  not part of this model.
- KotlinExtendedFile.Matches: `BinaryHash.matches(bytes, encodedDigest)` is
  taken to be "the digest of the bytes equals the digest of the other file".
- LegacyExtendedFile.Matches: `FileHash.matches` is taken to be digest
  equality, and the library's behaviour for unreadable files is not
  modelled.
- `getSize` with a human-readable result is modelled only as its integer
  unit choice and the power of 1024 it divides by. The double division and
  the `DecimalFormat` / `String.format` text are floating-point and
  locale-dependent. The Java `getSize` is not part of this model.
- Constructors forward to `java.io.File`. Path normalisation and URIs belong
  to the JDK.
- Content is one sequence of code units. `Files.newBufferedReader` decodes
  the file as UTF-8, while the Java `length()` counts bytes, and the model
  does not separate the two.
- JavaExtendedFile.MatchesDeep: a file that is not valid UTF-8 makes `read()`
  throw MalformedInputException, an IOException. The model has no such
  failure and always returns a boolean.
- KotlinExtendedFile.MatchesDeep: the same MalformedInputException on a file
  that is not valid UTF-8 is not modelled. Its only failure is a missing
  file.
- LegacyExtendedFile.MatchesDeep: the same MalformedInputException on a file
  that is not valid UTF-8 is not modelled. Its only failure is a missing
  file.
- `matchesDeep` is not modelled on a directory argument.
- The Kotlin `matchesDeep` never closes its readers; resources are not
  modelled.
- IOException and SecurityException from `Files.delete` are one "delete
  fails" outcome. A failing call leaves the disk unchanged.
- A `listFiles()` that returns null for an I/O error on an existing
  directory is not modelled. It returns null only for non-directories.
- Concurrent changes to the tree during a deletion are not modelled.
- The build files and the tests are not modelled. The tests only supply
  examples.

## Findings

| source | as written | input that shows it | evidently intended | confidence | as-written member | corrected member |
|---|---|---|---|---|---|---|
| src/main/kotlin/dev/retrotv/file/ExtendedFile.kt:220-226 | the loop stops when the first file ends and never checks that the second file ends too, so `matchesDeep` accepts a proper prefix | first file with content [65], second with [65, 66] ("A" and "AB"): returns true | true only when the two contents are equal | high, not executed | KotlinExtendedFile.MatchesDeepPrefixExample | KotlinExtendedFile.MatchesDeepExact |

The older revision has the same loop (src/main/kotlin/dev/retrotv/ExtendedFile.kt:59-66).
`LegacyExtendedFile.MatchesDeepPrefixExample` shows "ab" matching "abc" there.
