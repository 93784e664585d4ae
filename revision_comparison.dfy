/** Where the Java revision and the Kotlin revision of
    dev.retrotv.file.ExtendedFile agree, and where they part. */
module RevisionComparison {

  import opened Wrappers
  import J = JavaExtendedFile
  import K = KotlinExtendedFile

  /** The Java constant with the same name as a Kotlin one. */
  function ToJava(h: K.EHash): (g: J.EHash)
    ensures InKotlinTable(g)
  {
    match h
    case MD5 => J.MD5
    case SHA1 => J.SHA1
    case SHA224 => J.SHA224
    case SHA256 => J.SHA256
    case SHA384 => J.SHA384
    case SHA512 => J.SHA512
    case SHA3224 => J.SHA3224
    case SHA3256 => J.SHA3256
    case SHA3384 => J.SHA3384
    case SHA3512 => J.SHA3512
  }

  /** The Java constants the Kotlin table still has. */
  predicate InKotlinTable(g: J.EHash) {
    g != J.CRC32 && g != J.SHA512224 && g != J.SHA512256
  }

  /** The Kotlin constant with the same name as a Java one it still has. */
  function FromJava(g: J.EHash): (h: K.EHash)
    requires InKotlinTable(g)
    ensures ToJava(h) == g
  {
    match g
    case MD5 => K.MD5
    case SHA1 => K.SHA1
    case SHA224 => K.SHA224
    case SHA256 => K.SHA256
    case SHA384 => K.SHA384
    case SHA512 => K.SHA512
    case SHA3224 => K.SHA3224
    case SHA3256 => K.SHA3256
    case SHA3384 => K.SHA3384
    case SHA3512 => K.SHA3512
  }

  /** Each Kotlin group of spellings is the Java group of the same
      algorithm. */
  lemma SameGroups(h: K.EHash)
    ensures K.TableGroup(h) == J.TableGroup(ToJava(h))
  {
  }

  /** The Kotlin table is the Java table without CRC-32, SHA-512/224 and
      SHA-512/256: a token the Kotlin revision accepts gives the same
      algorithm in the Java revision, and a token the Java revision accepts
      for any other algorithm is accepted by the Kotlin revision too. */
  lemma SelectAgrees(hash: string)
    ensures K.SelectHashAlgorithm(hash).Success? ==>
      J.SelectHashAlgorithm(hash) == Success(ToJava(K.SelectHashAlgorithm(hash).value))
    ensures K.SelectHashAlgorithm(hash).Success? <==>
      J.SelectHashAlgorithm(hash).Success? && InKotlinTable(J.SelectHashAlgorithm(hash).value)
  {
    var k := K.SelectHashAlgorithm(hash);
    var j := J.SelectHashAlgorithm(hash);
    if k.Success? {
      K.SelectAcceptsExactlyGroup(hash, k.value);
      SameGroups(k.value);
      J.SelectAcceptsExactlyGroup(hash, ToJava(k.value));
    }
    if j.Success? && InKotlinTable(j.value) {
      var h := FromJava(j.value);
      J.SelectAcceptsExactlyGroup(hash, j.value);
      SameGroups(h);
      K.SelectAcceptsExactlyGroup(hash, h);
    }
  }

  /** The Kotlin getExtension() is the Java getExtension(true): the text after
      the first '.', or "" for a directory, a name without '.', or a name
      ending in its first '.'. */
  lemma ExtensionIsCompound(name: string, isDirectory: bool)
    ensures K.Extension(name, isDirectory) == J.Extension(name, isDirectory, true)
  {
    if !isDirectory {
      K.ExtensionAfterFirstDot(name);
    }
  }

  /** So the Kotlin getName(removeExtension) is the Java
      getName(removeExtension, true). */
  lemma NameIsCompound(name: string, isDirectory: bool, removeExtension: bool)
    ensures K.NameOf(name, isDirectory, removeExtension) == J.NameOf(name, isDirectory, removeExtension, true)
  {
    ExtensionIsCompound(name, false);
  }
}
